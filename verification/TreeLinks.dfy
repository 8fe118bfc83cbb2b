/**
  The links of the tree nodes in memory. `place` gives the address of the node at every occupied
  place of the trie; the links of these nodes, and the bin slots of malloc_state, must spell out
  exactly that map.
  */
module TreeLinks {
  import opened SizeClasses
  import opened SizeTrie
  import opened Rings
  import opened BinMaps

  /** The fields of the tree chunks, by chunk address, and those of malloc_state for the tree bins. */
  datatype TreeMem = TreeMem(
    child0: Links, child1: Links, parent: Links, fd: Links, bk: Links, index: Links,
    bins: seq<int>, treemap: BinMap)

  type Places = map<Key, int>

  /** `treebin_at(M, i)`, an address within malloc_state and so outside of every segment. */
  function TreeBinAt(i: int): int {
    -1 - i
  }

  /** The tree node at a place, or null. */
  function NodeAt(place: Places, k: Key): int {
    if k in place then place[k] else 0
  }

  /** Where the parent link of the node at a place points. */
  function ParentLink(place: Places, k: Key): int
    requires 0 <= k.bin < NTREEBINS
  {
    if k.lev == Resolved(k.bin) then TreeBinAt(k.bin) else NodeAt(place, Parent(k))
  }

  ghost predicate NodeLinked(place: Places, m: TreeMem, k: Key) {
    var n := NodeAt(place, k);
    && 0 <= k.bin < NTREEBINS
    && n in m.child0 && n in m.child1 && n in m.parent
    && m.child0[n] == NodeAt(place, Child(k, 0)) && m.child1[n] == NodeAt(place, Child(k, 1))
    && m.parent[n] == ParentLink(place, k)
  }

  ghost predicate NodesLinked(place: Places, m: TreeMem) {
    forall k {:trigger NodeLinked(place, m, k)} :: k in place ==> NodeLinked(place, m, k)
  }

  ghost predicate BinsLinked(place: Places, m: TreeMem) {
    && |m.bins| == NTREEBINS
    && forall i :: 0 <= i < NTREEBINS ==>
         m.bins[i] == NodeAt(place, Root(i)) && (m.treemap[i] <==> Root(i) in place)
  }

  ghost predicate Linked(place: Places, m: TreeMem) {
    NodesLinked(place, m) && BinsLinked(place, m)
  }

  /** The place has a parent unless it is a root. */
  ghost predicate SoundAt(place: Places, k: Key) {
    && k in place && place[k] > 0
    && 0 <= k.bin < NTREEBINS && 0 <= k.lev <= Resolved(k.bin)
    && (if k.lev == Resolved(k.bin) then k == Root(k.bin) else Parent(k) in place)
  }

  ghost predicate Sound(place: Places) {
    && (forall k {:trigger SoundAt(place, k)} :: k in place ==> SoundAt(place, k))
    && (forall k, l :: k in place && l in place && place[k] == place[l] ==> k == l)
  }

  lemma ChildOf(k: Key, b: int, l: Key)
    requires 0 <= b <= 1 && Child(k, b) == l
    ensures Parent(l) == k && l.lev == k.lev - 1
    ensures forall b' :: 0 <= b' <= 1 && b' != b ==> Child(k, b') != l
  {
  }

  lemma RootIsNoChild(place: Places, k: Key, b: int, i: int)
    requires Sound(place) && k in place && 0 <= i < NTREEBINS
    ensures Root(i) != Child(k, b)
  {
    hide TreeIndex, RootPrefix, Resolved;
    assert SoundAt(place, k);
    assert k.bin == i ==> k.lev <= Resolved(i);
  }

  // ---------------------------------------------------------------- adding a node

  lemma AddRootNode(place: Places, m: TreeMem, i: nat, x: int, m': TreeMem)
    requires Sound(place) && Linked(place, m) && i < NTREEBINS && Root(i) !in place
    requires forall k :: k in place ==> k.bin != i && place[k] != x
    requires m'.child0 == m.child0[x := 0] && m'.child1 == m.child1[x := 0]
    requires m'.parent == m.parent[x := TreeBinAt(i)]
    requires m'.bins == m.bins[i := x] && m'.treemap == Or(m.treemap, BitOf(i))
    ensures Linked(place[Root(i) := x], m')
  {
    hide TreeIndex, RootPrefix, Resolved;
    var r := Root(i);
    var place' := place[r := x];
    assert NodesLinked(place', m') by {
      forall k {:trigger NodeLinked(place', m', k)} | k in place'
        ensures NodeLinked(place', m', k)
      {
        if k != r {
          assert NodeLinked(place, m, k);
        } else {
          assert Child(r, 0) !in place && Child(r, 1) !in place;
        }
      }
    }
  }

  /** What a new leaf x at the b side of the node t changes in the tree links. */
  ghost predicate LeafAdded(m: TreeMem, t: int, b: int, x: int, m': TreeMem) {
    && m'.child0 == (if b == 0 then m.child0[x := 0][t := x] else m.child0[x := 0])
    && m'.child1 == (if b == 0 then m.child1[x := 0] else m.child1[x := 0][t := x])
    && m'.parent == m.parent[x := t] && m'.bins == m.bins && m'.treemap == m.treemap
  }

  lemma NoGrandchildren(place: Places, k: Key, b: int)
    requires Sound(place) && k in place && 0 <= b <= 1 && Child(k, b) !in place
    ensures Child(Child(k, b), 0) !in place && Child(Child(k, b), 1) !in place
  {
    hide RootPrefix;
    var l := Child(k, b);
    assert SoundAt(place, k);
    ChildOf(l, 0, Child(l, 0));
    ChildOf(l, 1, Child(l, 1));
    assert Child(l, 0) in place ==> SoundAt(place, Child(l, 0));
    assert Child(l, 1) in place ==> SoundAt(place, Child(l, 1));
  }

  lemma AddedNeighbour(place: Places, m: TreeMem, k: Key, b: int, x: int, m': TreeMem, n: Key)
    requires Sound(place) && Linked(place, m) && k in place && n in place
    requires 0 <= b <= 1 && Child(k, b) !in place && x > 0
    requires forall l :: l in place ==> place[l] != x
    requires LeafAdded(m, place[k], b, x, m')
    ensures NodeLinked(place[Child(k, b) := x], m', n)
  {
    hide RootPrefix, Resolved, BinsLinked;
    assert NodeLinked(place, m, n) && SoundAt(place, n);
    ChildOf(n, 0, Child(n, 0));
    ChildOf(n, 1, Child(n, 1));
    ChildOf(k, b, Child(k, b));
  }

  lemma AddLeafNode(place: Places, m: TreeMem, k: Key, b: int, x: int, m': TreeMem)
    requires Sound(place) && Linked(place, m) && k in place && k.lev > 0
    requires 0 <= b <= 1 && Child(k, b) !in place && x > 0
    requires forall l :: l in place ==> place[l] != x
    requires LeafAdded(m, place[k], b, x, m')
    ensures Linked(place[Child(k, b) := x], m')
  {
    hide TreeIndex, RootPrefix, Resolved;
    var l := Child(k, b);
    var place' := place[l := x];
    ChildOf(k, b, l);
    assert SoundAt(place, k);
    assert NodesLinked(place', m') by {
      forall n {:trigger NodeLinked(place', m', n)} | n in place'
        ensures NodeLinked(place', m', n)
      {
        if n == l {
          NoGrandchildren(place, k, b);
        } else {
          AddedNeighbour(place, m, k, b, x, m', n);
        }
      }
    }
    forall i | 0 <= i < NTREEBINS
      ensures Root(i) != l
    {
      RootIsNoChild(place, k, b, i);
    }
  }

  // ---------------------------------------------------------------- taking a node out

  predicate LeafIn(place: Places, k: Key) {
    k in place && Child(k, 0) !in place && Child(k, 1) !in place
  }

  lemma DropRootNode(place: Places, m: TreeMem, i: nat, m': TreeMem)
    requires Sound(place) && Linked(place, m) && i < NTREEBINS && LeafIn(place, Root(i))
    requires m' == m.(bins := m.bins[i := 0], treemap := And(m.treemap, Not(BitOf(i))))
    ensures Linked(place - {Root(i)}, m')
  {
    hide TreeIndex, RootPrefix, Resolved;
    var r := Root(i);
    var place' := place - {r};
    assert NodesLinked(place', m') by {
      forall n {:trigger NodeLinked(place', m', n)} | n in place'
        ensures NodeLinked(place', m', n)
      {
        assert NodeLinked(place, m, n) && SoundAt(place, n);
        RootIsNoChild(place, n, 0, i);
        RootIsNoChild(place, n, 1, i);
        ParentIsNotLeaf(place, n, r);
      }
    }
  }

  lemma ParentIsNotLeaf(place: Places, n: Key, leaf: Key)
    requires n in place && LeafIn(place, leaf)
    ensures Parent(n) != leaf
  {
    assert n == Child(Parent(n), n.pre % 2);
  }

  lemma DropLeafNode(place: Places, m: TreeMem, k: Key, b: int, m': TreeMem)
    requires Sound(place) && Linked(place, m) && k in place && 0 <= b <= 1
    requires LeafIn(place, Child(k, b))
    requires m' == if b == 0 then m.(child0 := m.child0[place[k] := 0])
                   else m.(child1 := m.child1[place[k] := 0])
    ensures Linked(place - {Child(k, b)}, m')
  {
    hide TreeIndex, RootPrefix, Resolved;
    var l := Child(k, b);
    var place' := place - {l};
    ChildOf(k, b, l);
    assert NodesLinked(place', m') by {
      forall n {:trigger NodeLinked(place', m', n)} | n in place'
        ensures NodeLinked(place', m', n)
      {
        assert NodeLinked(place, m, n) && SoundAt(place, n);
        ParentIsNotLeaf(place, n, l);
        ChildOf(n, 0, Child(n, 0));
        ChildOf(n, 1, Child(n, 1));
      }
    }
    forall i | 0 <= i < NTREEBINS
      ensures Root(i) != l
    {
      RootIsNoChild(place, k, b, i);
    }
  }

  // ---------------------------------------------------------------- replacing a node

  /** The link to the node x, from its parent xp or from its bin's slot, set to r. */
  function LinkMoved(m: TreeMem, x: int, xp: int, i: int, r: int): TreeMem
    requires 0 <= i < |m.bins| && (x != m.bins[i] ==> xp in m.child0)
  {
    if x == m.bins[i] then m.(bins := m.bins[i := r])
    else if m.child0[xp] == x then m.(child0 := m.child0[xp := r])
    else m.(child1 := m.child1[xp := r])
  }

  /** The parent and the children of x given to r. */
  function KinTaken(m: TreeMem, x: int, xp: int, r: int): TreeMem
    requires x in m.child0 && x in m.child1
  {
    Child1Taken(Child0Taken(m.(parent := m.parent[r := xp]), x, r), x, r)
  }

  function Child0Taken(m: TreeMem, x: int, r: int): (m': TreeMem)
    requires x in m.child0
    ensures m'.child1 == m.child1
  {
    var c0 := m.child0[x];
    if c0 != 0 then m.(child0 := m.child0[r := c0], parent := m.parent[c0 := r]) else m
  }

  function Child1Taken(m: TreeMem, x: int, r: int): TreeMem
    requires x in m.child1
  {
    var c1 := m.child1[x];
    if c1 != 0 then m.(child1 := m.child1[r := c1], parent := m.parent[c1 := r]) else m
  }

  /** Step 3 of unlinking. */
  function Relinked(m: TreeMem, x: int, xp: int, i: int, r: int): TreeMem
    requires 0 <= i < |m.bins| && x in m.child0 && x in m.child1
    requires x != m.bins[i] ==> xp in m.child0
  {
    KinTaken(LinkMoved(m, x, xp, i, r), x, xp, r)
  }

  /** Step 3 of unlinking when there is no replacement. */
  function Unlinked(m: TreeMem, x: int, xp: int, i: int): TreeMem
    requires 0 <= i < |m.bins| && i < NTREEBINS && (x != m.bins[i] ==> xp in m.child0)
  {
    var m1 := LinkMoved(m, x, xp, i, 0);
    if x == m.bins[i] then m1.(treemap := And(m.treemap, Not(BitOf(i)))) else m1
  }

  /** r is a node outside of the tree, without children. */
  ghost predicate Detached(place: Places, m: TreeMem, r: int) {
    && r > 0 && r in m.child0 && r in m.child1 && m.child0[r] == 0 && m.child1[r] == 0
    && forall k :: k in place ==> place[k] != r
  }

  /** What relinking r in place of the node at k writes, field by field. */
  ghost predicate RelinkedFields(place: Places, m: TreeMem, k: Key, r: int, m': TreeMem)
    requires 0 <= k.bin < NTREEBINS && |m.bins| == NTREEBINS
  {
    var top := k.lev == Resolved(k.bin);
    var up := NodeAt(place, Parent(k));
    var c0, c1 := NodeAt(place, Child(k, 0)), NodeAt(place, Child(k, 1));
    && m.child0.Keys <= m'.child0.Keys && m.child1.Keys <= m'.child1.Keys
    && m.parent.Keys + {r} <= m'.parent.Keys
    && r in m'.child0 && m'.child0[r] == c0 && r in m'.child1 && m'.child1[r] == c1
    && m'.parent[r] == ParentLink(place, k)
    && (forall y :: y in m.child0 && y != r ==>
          m'.child0[y] == if !top && k.pre % 2 == 0 && y == up then r else m.child0[y])
    && (forall y :: y in m.child1 && y != r ==>
          m'.child1[y] == if !top && k.pre % 2 == 1 && y == up then r else m.child1[y])
    && (forall y :: y in m.parent && y != r ==>
          m'.parent[y] == if y != 0 && (y == c0 || y == c1) then r else m.parent[y])
    && m'.bins == (if top then m.bins[k.bin := r] else m.bins) && m'.treemap == m.treemap
  }

  /** The occupied places around an occupied one. */
  lemma Around(place: Places, m: TreeMem, k: Key)
    requires Sound(place) && Linked(place, m) && k in place
    ensures 0 <= k.bin < NTREEBINS && |m.bins| == NTREEBINS
    ensures k.lev == Resolved(k.bin) <==> m.bins[k.bin] == place[k]
    ensures k.lev != Resolved(k.bin) ==>
      var up := NodeAt(place, Parent(k));
      && Parent(k) in place && up in m.child0 && up in m.child1
      && (m.child0[up] == place[k] <==> k.pre % 2 == 0)
  {
    hide TreeIndex, RootPrefix, Resolved;
    assert SoundAt(place, k);
    if k.lev != Resolved(k.bin) {
      var p := Parent(k);
      assert NodeLinked(place, m, p);
      assert k == Child(p, k.pre % 2);
      assert Child(p, 0) != Child(p, 1);
      assert m.bins[k.bin] == place[k] ==> Root(k.bin) in place;
    }
  }

  lemma RelinkWrites(place: Places, m: TreeMem, k: Key, r: int, m': TreeMem)
    requires Sound(place) && Linked(place, m) && k in place && Detached(place, m, r)
    requires 0 <= k.bin < NTREEBINS && |m.bins| == NTREEBINS
    requires var x := place[k];
      && x in m.child0 && x in m.child1 && x in m.parent
      && (x != m.bins[k.bin] ==> m.parent[x] in m.child0)
      && m' == Relinked(m, x, m.parent[x], k.bin, r)
    ensures RelinkedFields(place, m, k, r, m')
  {
    hide TreeIndex, RootPrefix, Resolved;
    hide KinTaken, LinkMoved;
    assert NodeLinked(place, m, k);
    var c0, c1 := NodeAt(place, Child(k, 0)), NodeAt(place, Child(k, 1));
    assert c0 != r && c1 != r;
    assert Child(k, 0) != Child(k, 1);
    assert c0 == 0 || c0 != c1;
    var x := place[k];
    LinkMovedFields(place, m, k, r);
    KinTakenFields(LinkMoved(m, x, m.parent[x], k.bin, r), x, m.parent[x], r);
  }

  lemma LinkMovedFields(place: Places, m: TreeMem, k: Key, r: int)
    requires Sound(place) && Linked(place, m) && k in place && Detached(place, m, r)
    requires 0 <= k.bin < NTREEBINS && |m.bins| == NTREEBINS
    requires place[k] in m.parent && (place[k] != m.bins[k.bin] ==> m.parent[place[k]] in m.child0)
    ensures var x := place[k];
      var top, up := k.lev == Resolved(k.bin), NodeAt(place, Parent(k));
      var m' := LinkMoved(m, x, m.parent[x], k.bin, r);
      && m.child0.Keys <= m'.child0.Keys && m.child1.Keys <= m'.child1.Keys
      && (!top ==> up != r && up != x)
      && (forall y :: y in m.child0 ==>
            m'.child0[y] == if !top && k.pre % 2 == 0 && y == up then r else m.child0[y])
      && (forall y :: y in m.child1 ==>
            m'.child1[y] == if !top && k.pre % 2 == 1 && y == up then r else m.child1[y])
      && m'.parent == m.parent && m'.treemap == m.treemap
      && m'.bins == (if top then m.bins[k.bin := r] else m.bins)
  {
    hide TreeIndex, RootPrefix, Resolved;
    Around(place, m, k);
    assert NodeLinked(place, m, k);
    assert Parent(k) != k;
  }

  lemma KinTakenFields(m: TreeMem, x: int, xp: int, r: int)
    requires x in m.child0 && x in m.child1 && x != r
    requires r in m.child0 && r in m.child1 && m.child0[r] == 0 && m.child1[r] == 0
    requires r != 0 && m.child0[x] != r && m.child1[x] != r
    ensures var m', c0, c1 := KinTaken(m, x, xp, r), m.child0[x], m.child1[x];
      && m.child0.Keys <= m'.child0.Keys && m.child1.Keys <= m'.child1.Keys
      && m.parent.Keys + {r} <= m'.parent.Keys
      && m'.child0[r] == c0 && m'.child1[r] == c1 && m'.parent[r] == xp
      && (forall y :: y in m.child0 && y != r ==> m'.child0[y] == m.child0[y])
      && (forall y :: y in m.child1 && y != r ==> m'.child1[y] == m.child1[y])
      && (forall y :: y in m.parent && y != r ==>
            m'.parent[y] == if y != 0 && (y == c0 || y == c1) then r else m.parent[y])
      && m'.bins == m.bins && m'.treemap == m.treemap
  {
    var m2 := m.(parent := m.parent[r := xp]);
    var m3, m', c0, c1 := Child0Taken(m2, x, r), KinTaken(m, x, xp, r), m.child0[x], m.child1[x];
    assert m3.child0 == (if c0 != 0 then m.child0[r := c0] else m.child0);
    assert m3.parent == (if c0 != 0 then m2.parent[c0 := r] else m2.parent);
    assert m'.child0 == m3.child0 && m'.child1 == (if c1 != 0 then m.child1[r := c1] else m.child1);
    assert m'.parent == if c1 != 0 then m3.parent[c1 := r] else m3.parent;
    hide Child0Taken, Child1Taken, KinTaken;
  }

  lemma Relink(place: Places, m: TreeMem, k: Key, r: int, m': TreeMem)
    requires Sound(place) && Linked(place, m) && k in place && Detached(place, m, r)
    requires 0 <= k.bin < NTREEBINS && |m.bins| == NTREEBINS
    requires RelinkedFields(place, m, k, r, m')
    ensures Linked(place[k := r], m')
  {
    hide TreeIndex, RootPrefix, Resolved;
    var place' := place[k := r];
    assert NodesLinked(place', m') by {
      forall n {:trigger NodeLinked(place', m', n)} | n in place'
        ensures NodeLinked(place', m', n)
      {
        if n == k {
          assert Child(k, 0) != k && Child(k, 1) != k && Parent(k) != k;
        } else {
          RelinkedNeighbour(place, m, k, r, m', n);
        }
      }
    }
    Around(place, m, k);
    assert SoundAt(place, k);
  }

  /** n has k as a child exactly when it is its parent, and as its parent exactly when it is one of its children. */
  lemma Kinship(place: Places, k: Key, n: Key)
    requires Sound(place) && k in place && n in place && 0 <= k.bin < NTREEBINS && 0 <= n.bin < NTREEBINS
    ensures Child(n, 0) == k <==> Parent(k) == n && k.pre % 2 == 0
    ensures Child(n, 1) == k <==> Parent(k) == n && k.pre % 2 == 1
    ensures k.lev == Resolved(k.bin) ==> Child(n, 0) != k && Child(n, 1) != k
    ensures Parent(n) == k <==> n == Child(k, 0) || n == Child(k, 1)
    ensures Parent(n) == k ==> n.lev != Resolved(n.bin)
    ensures place[n] > 0
  {
    hide TreeIndex, RootPrefix, Resolved;
    assert SoundAt(place, n) && SoundAt(place, k);
  }

  lemma RelinkedNeighbour(place: Places, m: TreeMem, k: Key, r: int, m': TreeMem, n: Key)
    requires Sound(place) && Linked(place, m) && k in place && Detached(place, m, r)
    requires 0 <= k.bin < NTREEBINS && |m.bins| == NTREEBINS
    requires RelinkedFields(place, m, k, r, m') && n in place && n != k
    ensures NodeLinked(place[k := r], m', n)
  {
    hide Resolved, Parent, Child, BinsLinked, SoundAt;
    assert NodeLinked(place, m, n);
    Kinship(place, k, n);
    assert place[n] != r && place[n] != place[k];
  }
}
