/**
  What the tree bins hold, and the invariant that ties it to memory: a trie with one place per size,
  a ring per size of all chunks of that size, the first of them being the node in the tree.
  */
module TreeContents {
  import opened SizeClasses
  import opened SizeTrie
  import opened Rings
  import opened BinMaps
  import opened TreeLinks

  datatype Contents = Contents(
    sizes: map<int, nat>, rings: map<nat, seq<int>>, trie: map<Key, nat>, lev: map<nat, nat>, place: Places)

  /** The chunks of size s are the members of its ring. */
  ghost predicate RingOf(c: Contents, fd: Links, bk: Links, s: nat) {
    && s in c.rings && RingOk(c.rings[s], fd, bk)
    && forall x :: x in c.rings[s] ==> x in c.sizes && c.sizes[x] == s && x > 0
  }

  ghost predicate Member(c: Contents, x: int) {
    x in c.sizes && c.sizes[x] in c.rings && x in c.rings[c.sizes[x]]
  }

  ghost predicate RingsOk(c: Contents, fd: Links, bk: Links) {
    && c.rings.Keys == c.lev.Keys
    && (forall s {:trigger RingOf(c, fd, bk, s)} :: s in c.rings ==> RingOf(c, fd, bk, s))
    && (forall x {:trigger Member(c, x)} :: x in c.sizes ==> Member(c, x))
  }

  /** The chunks of a size, the oldest first. */
  ghost function Queue(c: Contents, s: nat): seq<int> {
    if s in c.rings then ByAge(c.rings[s]) else []
  }

  /** The oldest chunk of its size. */
  ghost predicate Oldest(c: Contents, x: int) {
    x in c.sizes && [x] <= Queue(c, c.sizes[x])
  }

  /** The node at a place is the first member of the ring of the size there. */
  ghost predicate Placed(c: Contents, k: Key) {
    && k in c.trie && k in c.place && c.trie[k] in c.rings && c.rings[c.trie[k]] != []
    && c.place[k] == c.rings[c.trie[k]][0]
  }

  ghost predicate AllPlaced(c: Contents) {
    && c.place.Keys == c.trie.Keys
    && forall k {:trigger Placed(c, k)} :: k in c.trie ==> Placed(c, k)
  }

  /** A member of a ring after the first is not in the tree. */
  ghost predicate MateUnlinked(c: Contents, m: TreeMem, s: nat, j: nat)
    requires s in c.rings && j < |c.rings[s]|
  {
    var x := c.rings[s][j];
    && x in m.child0 && x in m.child1 && x in m.parent
    && m.child0[x] == 0 && m.child1[x] == 0 && m.parent[x] == 0
  }

  ghost predicate MatesUnlinked(c: Contents, m: TreeMem) {
    forall s, j {:trigger MateUnlinked(c, m, s, j)} ::
      s in c.rings && 1 <= j < |c.rings[s]| ==> MateUnlinked(c, m, s, j)
  }

  ghost predicate Indexed(c: Contents, m: TreeMem) {
    forall x :: x in c.sizes ==> x in m.index && m.index[x] == TreeIndex(c.sizes[x])
  }

  ghost predicate Ok(c: Contents, m: TreeMem) {
    && TrieOk(c.trie, c.lev)
    && RingsOk(c, m.fd, m.bk)
    && AllPlaced(c)
    && Linked(c.place, m)
    && MatesUnlinked(c, m)
    && Indexed(c, m)
  }

  // ---------------------------------------------------------------- consequences

  lemma Parts(c: Contents, m: TreeMem)
    requires Ok(c, m)
    ensures TrieOk(c.trie, c.lev) && Linked(c.place, m)
  {
  }

  lemma RingAt(c: Contents, m: TreeMem, s: nat)
    requires Ok(c, m) && s in c.rings
    ensures RingOf(c, m.fd, m.bk, s)
  {
    hide TrieOk, AllPlaced, Linked, MatesUnlinked, Indexed, RingOf;
  }

  lemma MemberAt(c: Contents, m: TreeMem, x: int)
    requires Ok(c, m) && x in c.sizes
    ensures Member(c, x)
  {
    hide TrieOk, AllPlaced, Linked, MatesUnlinked, Indexed, RingOf;
  }

  lemma MateAt(c: Contents, m: TreeMem, s: nat, j: nat)
    requires Ok(c, m) && s in c.rings && 1 <= j < |c.rings[s]|
    ensures MateUnlinked(c, m, s, j)
  {
    hide TrieOk, AllPlaced, Linked, RingsOk, Indexed, MateUnlinked;
  }

  lemma StillIndexed(c: Contents, m: TreeMem, c': Contents, m': TreeMem)
    requires Ok(c, m) && m'.index == m.index
    requires forall y :: y in c'.sizes ==> y in c.sizes && c'.sizes[y] == c.sizes[y]
    ensures Indexed(c', m')
  {
    hide TrieOk, AllPlaced, Linked, RingsOk, MatesUnlinked;
  }

  lemma NodeIsMember(c: Contents, m: TreeMem, k: Key)
    requires Ok(c, m) && k in c.trie
    ensures Placed(c, k) && RingOf(c, m.fd, m.bk, c.trie[k])
    ensures c.place[k] > 0 && c.place[k] in c.sizes && c.sizes[c.place[k]] == c.trie[k]
    ensures 0 <= k.bin < NTREEBINS && 0 <= k.lev <= Resolved(k.bin)
    ensures Large(c.trie[k]) && k == On(c.trie[k], k.lev)
    ensures c.trie[k] in c.lev && c.lev[c.trie[k]] == k.lev
  {
    hide TreeIndex, Shr, RootPrefix, Resolved;
    assert Placed(c, k) && RingOf(c, m.fd, m.bk, c.trie[k]);
    assert c.place[k] in c.rings[c.trie[k]];
  }

  lemma SameKeys(c: Contents, m: TreeMem)
    requires Ok(c, m)
    ensures c.rings.Keys == c.lev.Keys && c.place.Keys == c.trie.Keys
    ensures TrieOk(c.trie, c.lev)
  {
  }

  lemma BinMarked(c: Contents, m: TreeMem, i: nat)
    requires Ok(c, m) && i < NTREEBINS
    ensures |m.bins| == NTREEBINS && m.bins[i] == NodeAt(c.place, Root(i))
    ensures m.treemap[i] <==> Root(i) in c.trie
  {
  }

  lemma PlacesSound(c: Contents, m: TreeMem)
    requires Ok(c, m)
    ensures Sound(c.place)
  {
    hide TreeIndex, Shr, RootPrefix, Resolved;
    forall k {:trigger SoundAt(c.place, k)} | k in c.place
      ensures SoundAt(c.place, k)
    {
      NodeIsMember(c, m, k);
      if k.lev == Resolved(k.bin) {
        RootIsOn(c.trie[k]);
      } else {
        ParentOccupied(c.trie, c.lev, k);
      }
    }
    forall k, l | k in c.place && l in c.place && c.place[k] == c.place[l]
      ensures k == l
    {
      NodeIsMember(c, m, k);
      NodeIsMember(c, m, l);
    }
  }

  /** Where a chunk is: its size's place, and its position in the ring. */
  lemma Located(c: Contents, m: TreeMem, x: int) returns (k: Key, j: nat)
    requires Ok(c, m) && x in c.sizes
    ensures k in c.trie && c.trie[k] == c.sizes[x] && Placed(c, k)
    ensures RingOf(c, m.fd, m.bk, c.sizes[x])
    ensures j < |c.rings[c.sizes[x]]| && c.rings[c.sizes[x]][j] == x
    ensures j == 0 <==> x == c.place[k]
    ensures x in m.parent && (j == 0 <==> m.parent[x] != 0)
  {
    hide TreeIndex, Shr, RootPrefix, Resolved;
    var s := c.sizes[x];
    assert Member(c, x) && RingOf(c, m.fd, m.bk, s);
    j :| 0 <= j < |c.rings[s]| && c.rings[s][j] == x;
    k := On(s, c.lev[s]);
    NodeIsMember(c, m, k);
    if j > 0 {
      assert MateUnlinked(c, m, s, j);
    } else {
      PlacesSound(c, m);
      assert NodeLinked(c.place, m, k) && SoundAt(c.place, k);
      if k.lev != Resolved(k.bin) {
        assert SoundAt(c.place, Parent(k));
      }
    }
  }

  /** Links written at members of the ring of s, or at chunks not held, leave the other rings alone. */
  lemma OtherRing(c: Contents, m: TreeMem, s: nat, q: nat, fd': Links, bk': Links)
    requires Ok(c, m) && s != q && q in c.rings
    requires forall y :: y in c.sizes && c.sizes[y] != s && y in m.fd && y in m.bk ==>
      y in fd' && y in bk' && fd'[y] == m.fd[y] && bk'[y] == m.bk[y]
    ensures RingOk(c.rings[q], fd', bk')
  {
    hide TreeIndex, Shr, RootPrefix, Resolved;
    assert RingOf(c, m.fd, m.bk, q);
    RingFrame(c.rings[q], m.fd, m.bk, fd', bk');
  }

  lemma MateIsNoNode(c: Contents, m: TreeMem, q: nat, j: nat)
    requires Ok(c, m) && q in c.rings && 1 <= j < |c.rings[q]|
    ensures c.rings[q][j] in c.sizes && c.sizes[c.rings[q][j]] == q
    ensures forall k :: k in c.place ==> c.place[k] != c.rings[q][j]
  {
    hide TreeIndex, Shr, RootPrefix, Resolved;
    assert RingOf(c, m.fd, m.bk, q);
    assert c.rings[q][j] in c.rings[q];
    forall k | k in c.place
      ensures c.place[k] != c.rings[q][j]
    {
      NodeIsMember(c, m, k);
    }
  }

  /** Mates of other sizes stay unlinked when only nodes and chunks of size s are written. */
  lemma OtherMates(c: Contents, m: TreeMem, c': Contents, m': TreeMem, s: nat)
    requires Ok(c, m)
    requires forall q :: q in c'.rings && q != s ==> q in c.rings && c'.rings[q] == c.rings[q]
    requires forall j {:trigger MateUnlinked(c', m', s, j)} ::
      s in c'.rings && 1 <= j < |c'.rings[s]| ==> MateUnlinked(c', m', s, j)
    requires forall y {:trigger KeptAsMate(m, m', y)} ::
      y in c.sizes && c.sizes[y] != s && (forall k :: k in c.place ==> c.place[k] != y) ==> KeptAsMate(m, m', y)
    ensures MatesUnlinked(c', m')
  {
    hide TreeIndex, Shr, RootPrefix, Resolved;
    forall q, j {:trigger MateUnlinked(c', m', q, j)} | q in c'.rings && 1 <= j < |c'.rings[q]|
      ensures MateUnlinked(c', m', q, j)
    {
      if q != s {
        assert MateUnlinked(c, m, q, j);
        MateIsNoNode(c, m, q, j);
        assert KeptAsMate(m, m', c.rings[q][j]);
      }
    }
  }

  ghost predicate KeptAsMate(m: TreeMem, m': TreeMem, y: int) {
    && (y in m.child0 && m.child0[y] == 0 ==> y in m'.child0 && m'.child0[y] == 0)
    && (y in m.child1 && m.child1[y] == 0 ==> y in m'.child1 && m'.child1[y] == 0)
    && (y in m.parent && m.parent[y] == 0 ==> y in m'.parent && m'.parent[y] == 0)
  }

  /** What it takes for c' to differ from c in the ring of size s only. */
  ghost predicate RingChanged(c: Contents, m: TreeMem, s: nat, c': Contents, m': TreeMem) {
    && s in c'.rings && c'.rings == c.rings[s := c'.rings[s]]
    && RingOk(c'.rings[s], m'.fd, m'.bk)
    && (forall y :: y in c'.rings[s] ==> y in c'.sizes && c'.sizes[y] == s && y > 0)
    && (forall y :: y in c'.sizes && c'.sizes[y] == s ==> y in c'.rings[s])
    && (forall y :: y in c.sizes && c.sizes[y] != s ==> y in c'.sizes && c'.sizes[y] == c.sizes[y])
    && (forall y :: y in c'.sizes && c'.sizes[y] != s ==> y in c.sizes && c.sizes[y] == c'.sizes[y])
    && (forall y :: y in c.sizes && c.sizes[y] != s && y in m.fd && y in m.bk ==>
          y in m'.fd && y in m'.bk && m'.fd[y] == m.fd[y] && m'.bk[y] == m.bk[y])
  }

  lemma ChangedRingAt(c: Contents, m: TreeMem, s: nat, c': Contents, m': TreeMem, q: nat)
    requires Ok(c, m) && RingChanged(c, m, s, c', m') && q in c'.rings
    ensures RingOf(c', m'.fd, m'.bk, q)
  {
    hide Ok, RingOk;
    if q != s {
      RingAt(c, m, q);
      OtherRing(c, m, s, q, m'.fd, m'.bk);
    }
  }

  lemma ChangedMemberAt(c: Contents, m: TreeMem, s: nat, c': Contents, m': TreeMem, y: int)
    requires Ok(c, m) && RingChanged(c, m, s, c', m') && y in c'.sizes
    ensures Member(c', y)
  {
    hide Ok, RingOk;
    if c'.sizes[y] != s { MemberAt(c, m, y); }
  }

  lemma RegroupedRings(c: Contents, m: TreeMem, s: nat, c': Contents, m': TreeMem)
    requires Ok(c, m) && RingChanged(c, m, s, c', m') && c'.rings.Keys == c'.lev.Keys
    ensures RingsOk(c', m'.fd, m'.bk)
  {
    hide Ok, RingOf, Member, RingChanged;
    forall q {:trigger RingOf(c', m'.fd, m'.bk, q)} | q in c'.rings
      ensures RingOf(c', m'.fd, m'.bk, q)
    {
      ChangedRingAt(c, m, s, c', m', q);
    }
    forall y {:trigger Member(c', y)} | y in c'.sizes
      ensures Member(c', y)
    {
      ChangedMemberAt(c, m, s, c', m', y);
    }
  }

  /** Rings, membership and placement when just the ring of one size changes, with the same first member. */
  lemma RegroupedRing(c: Contents, m: TreeMem, s: nat, c': Contents, m': TreeMem)
    requires Ok(c, m) && RingChanged(c, m, s, c', m')
    requires s in c.rings && c'.lev == c.lev && c'.trie == c.trie && c'.place == c.place
    requires c.rings[s] != [] && c'.rings[s] != [] && c'.rings[s][0] == c.rings[s][0]
    ensures RingsOk(c', m'.fd, m'.bk) && AllPlaced(c')
  {
    hide Ok, RingOf, TreeIndex, Shr, RootPrefix, Resolved;
    SameKeys(c, m);
    assert c'.rings == c.rings[s := c'.rings[s]] && c'.rings.Keys == c'.lev.Keys;
    hide RingChanged, RingsOk;
    RegroupedRings(c, m, s, c', m');
    forall l {:trigger Placed(c', l)} | l in c'.trie
      ensures Placed(c', l)
    {
      NodeIsMember(c, m, l);
    }
  }

  // ---------------------------------------------------------------- insertion

  /** The contents after a size that was not there gets its own node at place k. */
  function WithNode(c: Contents, k: Key, x: int, s: nat): Contents
    requires k.lev >= 0
  {
    Contents(c.sizes[x := s], c.rings[s := [x]], c.trie[k := s], c.lev[s := k.lev], c.place[k := x])
  }

  /** The contents after a chunk joins the ring of its size. */
  function WithMate(c: Contents, x: int, s: nat): Contents
    requires s in c.rings && c.rings[s] != []
  {
    c.(sizes := c.sizes[x := s], rings := c.rings[s := [c.rings[s][0], x] + c.rings[s][1..]])
  }

  lemma NewRing(c: Contents, m: TreeMem, k: Key, x: int, s: nat, m': TreeMem)
    requires Ok(c, m) && x !in c.sizes && x > 0 && s !in c.rings && k.lev >= 0 && k !in c.trie
    requires m'.fd == m.fd[x := x] && m'.bk == m.bk[x := x] && m'.index == m.index[x := TreeIndex(s)]
    ensures RingsOk(WithNode(c, k, x, s), m'.fd, m'.bk)
    ensures AllPlaced(WithNode(c, k, x, s))
    ensures Indexed(WithNode(c, k, x, s), m')
    ensures forall l :: l in c.place ==> c.place[l] != x
  {
    hide Ok, RingsOk, AllPlaced, TreeIndex, Shr, RootPrefix, Resolved;
    NewRings(c, m, k, x, s, m');
    NewPlaced(c, m, k, x, s);
    assert forall y :: y in c.sizes ==> y in m.index && m.index[y] == TreeIndex(c.sizes[y]) by { AllIndexed(c, m); }
  }

  lemma AllIndexed(c: Contents, m: TreeMem)
    requires Ok(c, m)
    ensures Indexed(c, m)
  {
  }

  lemma NoneOfSize(c: Contents, m: TreeMem, s: nat)
    requires Ok(c, m) && s !in c.rings
    ensures forall y :: y in c.sizes ==> c.sizes[y] != s
  {
    hide Ok;
    forall y | y in c.sizes
      ensures c.sizes[y] != s
    {
      MemberAt(c, m, y);
    }
  }

  lemma NewRingChanged(c: Contents, m: TreeMem, k: Key, x: int, s: nat, m': TreeMem)
    requires Ok(c, m) && x !in c.sizes && x > 0 && s !in c.rings && k.lev >= 0
    requires m'.fd == m.fd[x := x] && m'.bk == m.bk[x := x]
    ensures RingChanged(c, m, s, WithNode(c, k, x, s), m')
  {
    hide Ok, RingOk;
    Singleton(x, m'.fd, m'.bk);
    NoneOfSize(c, m, s);
  }

  lemma NewRings(c: Contents, m: TreeMem, k: Key, x: int, s: nat, m': TreeMem)
    requires Ok(c, m) && x !in c.sizes && x > 0 && s !in c.rings && k.lev >= 0
    requires m'.fd == m.fd[x := x] && m'.bk == m.bk[x := x]
    ensures RingsOk(WithNode(c, k, x, s), m'.fd, m'.bk)
  {
    hide Ok, RingChanged, RingsOk;
    SameKeys(c, m);
    NewRingChanged(c, m, k, x, s, m');
    RegroupedRings(c, m, s, WithNode(c, k, x, s), m');
  }

  lemma NewPlaced(c: Contents, m: TreeMem, k: Key, x: int, s: nat)
    requires Ok(c, m) && x !in c.sizes && s !in c.rings && k.lev >= 0 && k !in c.trie
    ensures AllPlaced(WithNode(c, k, x, s))
    ensures forall l :: l in c.place ==> c.place[l] != x
  {
    hide TreeIndex, Shr, RootPrefix, Resolved;
    var c' := WithNode(c, k, x, s);
    forall l {:trigger Placed(c', l)} | l in c'.trie
      ensures Placed(c', l)
    {
      if l != k { NodeIsMember(c, m, l); }
    }
    forall l | l in c.place
      ensures c.place[l] != x
    {
      NodeIsMember(c, m, l);
    }
  }

  lemma InsertRoot(c: Contents, m: TreeMem, i: nat, x: int, s: nat, m': TreeMem)
    requires Ok(c, m) && x !in c.sizes && x > 0 && Large(s)
    requires i < NTREEBINS && i == TreeIndex(s) && Root(i) !in c.trie
    requires m' == TreeMem(m.child0[x := 0], m.child1[x := 0], m.parent[x := TreeBinAt(i)],
                           m.fd[x := x], m.bk[x := x], m.index[x := i],
                           m.bins[i := x], Or(m.treemap, BitOf(i)))
    ensures Ok(WithNode(c, Root(i), x, s), m')
  {
    hide TreeIndex, Shr, RootPrefix, Resolved, TrieOk, RingsOk, AllPlaced, Linked, MatesUnlinked;
    SameKeys(c, m);
    AddRoot(c.trie, c.lev, s);
    NewRing(c, m, Root(i), x, s, m');
    PlacesSound(c, m);
    forall k | k in c.place
      ensures k.bin != i
    {
      NodeIsMember(c, m, k);
      if k.bin == i { RootOccupied(c.trie, c.lev, k); }
    }
    AddRootNode(c.place, m, i, x, m');
    OtherMates(c, m, WithNode(c, Root(i), x, s), m', s);
  }

  lemma InsertLeaf(c: Contents, m: TreeMem, k: Key, b: int, x: int, s: nat, m': TreeMem)
    requires Ok(c, m) && x !in c.sizes && x > 0 && Large(s) && s !in c.lev
    requires k in c.trie && k in c.place && k.lev > 0 && On(s, k.lev) == k && 0 <= b <= 1
    requires Child(k, b) == On(s, k.lev - 1) && Child(k, b) !in c.trie
    requires LeafAdded(m, c.place[k], b, x, m')
    requires m'.fd == m.fd[x := x] && m'.bk == m.bk[x := x] && m'.index == m.index[x := TreeIndex(s)]
    ensures Ok(WithNode(c, Child(k, b), x, s), m')
  {
    hide TreeIndex, Shr, RootPrefix, Resolved, Linked, RingsOk, AllPlaced, Indexed;
    var l := Child(k, b);
    SameKeys(c, m);
    PlacesSound(c, m);
    AddLeaf(c.trie, c.lev, k, s);
    NewRing(c, m, l, x, s, m');
    AddLeafNode(c.place, m, k, b, x, m');
    LeafKeepsMates(c, m, k, b, x, s, m');
  }

  lemma LeafKeepsMates(c: Contents, m: TreeMem, k: Key, b: int, x: int, s: nat, m': TreeMem)
    requires Ok(c, m) && x !in c.sizes && s !in c.rings
    requires k in c.trie && k in c.place && k.lev > 0 && LeafAdded(m, c.place[k], b, x, m')
    ensures MatesUnlinked(WithNode(c, Child(k, b), x, s), m')
  {
    hide TreeIndex, Shr, RootPrefix, Resolved;
    var c' := WithNode(c, Child(k, b), x, s);
    forall q, j {:trigger MateUnlinked(c', m', q, j)} | q in c'.rings && 1 <= j < |c'.rings[q]|
      ensures MateUnlinked(c', m', q, j)
    {
      assert MateUnlinked(c, m, q, j);
      MateIsNoNode(c, m, q, j);
    }
  }

  /** The ring of the size with the new chunk in second place. */
  lemma MateRing(c: Contents, m: TreeMem, x: int, s: nat, m': TreeMem)
    requires Ok(c, m) && x !in c.sizes && x > 0 && s in c.rings
    requires c.rings[s] != [] && c.rings[s][0] in m.fd
    requires var t := c.rings[s][0]; m'.fd == m.fd[t := x][x := m.fd[t]] && m'.bk == m.bk[m.fd[t] := x][x := t]
    ensures RingChanged(c, m, s, WithMate(c, x, s), m')
  {
    hide Ok;
    var r := c.rings[s];
    var c' := WithMate(c, x, s);
    RingAt(c, m, s);
    Neighbours(r, 0, m.fd, m.bk);
    InsertSecond(r, x, m.fd, m.bk, m'.fd, m'.bk);
    hide RingOk;
    assert forall y :: y in c'.rings[s] <==> y in r || y == x;
    forall y | y in c'.sizes && c'.sizes[y] == s
      ensures y in c'.rings[s]
    {
      if y != x { MemberAt(c, m, y); }
    }
  }

  lemma InsertMate(c: Contents, m: TreeMem, x: int, s: nat, m': TreeMem)
    requires Ok(c, m) && x !in c.sizes && x > 0 && s in c.rings
    requires c.rings[s] != [] && c.rings[s][0] in m.fd
    requires var t := c.rings[s][0];
      m' == m.(child0 := m.child0[x := 0], child1 := m.child1[x := 0], parent := m.parent[x := 0],
               fd := m.fd[t := x][x := m.fd[t]], bk := m.bk[m.fd[t] := x][x := t],
               index := m.index[x := TreeIndex(s)])
    ensures Ok(WithMate(c, x, s), m')
  {
    hide RingsOk, AllPlaced, TrieOk, Linked, MatesUnlinked;
    var c' := WithMate(c, x, s);
    assert RingsOk(c', m'.fd, m'.bk) && AllPlaced(c') && Indexed(c', m') by {
      hide Ok, RingChanged;
      MateRing(c, m, x, s, m');
      RegroupedRing(c, m, s, c', m');
      AllIndexed(c, m);
    }
    hide Indexed;
    MateLinks(c, m, x, s, m');
  }

  lemma MateLinks(c: Contents, m: TreeMem, x: int, s: nat, m': TreeMem)
    requires Ok(c, m) && x !in c.sizes && x > 0 && s in c.rings && c.rings[s] != []
    requires m'.child0 == m.child0[x := 0] && m'.child1 == m.child1[x := 0]
    requires m'.parent == m.parent[x := 0] && m'.bins == m.bins && m'.treemap == m.treemap
    ensures Linked(c.place, m') && MatesUnlinked(WithMate(c, x, s), m')
  {
    hide TreeIndex, Shr, RootPrefix, Resolved;
    var r, c' := c.rings[s], WithMate(c, x, s);
    forall l {:trigger NodeLinked(c.place, m', l)} | l in c.place
      ensures NodeLinked(c.place, m', l)
    {
      NodeIsMember(c, m, l);
      assert NodeLinked(c.place, m, l);
    }
    MatesWithMate(c, m, x, s, m');
  }

  lemma MatesWithMate(c: Contents, m: TreeMem, x: int, s: nat, m': TreeMem)
    requires Ok(c, m) && x !in c.sizes && x > 0 && s in c.rings && c.rings[s] != []
    requires m'.child0 == m.child0[x := 0] && m'.child1 == m.child1[x := 0] && m'.parent == m.parent[x := 0]
    ensures MatesUnlinked(WithMate(c, x, s), m')
  {
    hide Ok;
    var r, c' := c.rings[s], WithMate(c, x, s);
    forall q, j {:trigger MateUnlinked(c', m', q, j)} | q in c'.rings && 1 <= j < |c'.rings[q]|
      ensures MateUnlinked(c', m', q, j)
    {
      if q != s {
        MateAt(c, m, q, j);
      } else if j >= 2 {
        MateAt(c, m, s, j - 1);
      }
    }
  }
}
