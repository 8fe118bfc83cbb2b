/** Taking a chunk out of the tree bins: the cases of unlink_large_chunk on contents and memory. */
module TreeRemoval {
  import opened SizeClasses
  import opened SizeTrie
  import opened Rings
  import opened TreeLinks
  import opened TreeContents

  /** Steps 1: x linked out of its ring of at least two. */
  function RingUnlinked(m: TreeMem, x: int): TreeMem
    requires x in m.fd && x in m.bk
  {
    m.(fd := m.fd[m.bk[x] := m.fd[x]], bk := m.bk[m.fd[x] := m.bk[x]])
  }

  // ---------------------------------------------------------------- a ring of at least two

  function WithoutMate(c: Contents, s: nat, j: nat): Contents
    requires s in c.rings && j < |c.rings[s]|
  {
    c.(sizes := c.sizes - {c.rings[s][j]}, rings := c.rings[s := Without(c.rings[s], j)])
  }

  lemma SizesWithoutMate(c: Contents, m: TreeMem, s: nat, j: nat)
    requires Ok(c, m) && s in c.rings && j < |c.rings[s]|
    ensures var c' := WithoutMate(c, s, j);
      && (forall y :: y in c'.rings[s] ==> y in c'.sizes && c'.sizes[y] == s && y > 0)
      && (forall y :: y in c'.sizes && c'.sizes[y] == s ==> y in c'.rings[s])
      && (forall y :: y in c.sizes && c.sizes[y] != s ==> y in c'.sizes && c'.sizes[y] == c.sizes[y])
  {
    hide Ok;
    var r, x := c.rings[s], c.rings[s][j];
    var r' := Without(r, j);
    RingAt(c, m, s);
    assert x in r;
    forall y | y in c.sizes && c.sizes[y] == s && y != x
      ensures y in r'
    {
      MemberAt(c, m, y);
      var i :| 0 <= i < |r| && r[i] == y;
      assert r'[if i < j then i else i - 1] == y;
    }
    forall y | y in r'
      ensures y in r && y != x
    {
      var i :| 0 <= i < |r'| && r'[i] == y;
      assert y == r[if i < j then i else i + 1];
    }
  }

  lemma UnlinkMate(c: Contents, m: TreeMem, s: nat, j: nat, m': TreeMem)
    requires Ok(c, m) && s in c.rings && 1 <= j < |c.rings[s]|
    requires c.rings[s][j] in m.fd && c.rings[s][j] in m.bk
    requires m' == RingUnlinked(m, c.rings[s][j])
    ensures Ok(WithoutMate(c, s, j), m')
  {
    var c' := WithoutMate(c, s, j);
    assert RingsOk(c', m'.fd, m'.bk) && AllPlaced(c') && Indexed(c', m') by {
      hide Ok, RingChanged, RingsOk, AllPlaced, Indexed;
      MateChanged(c, m, s, j, m');
      RegroupedRing(c, m, s, c', m');
      StillIndexed(c, m, c', m');
    }
    hide TrieOk, RingsOk, RingOk, AllPlaced, Linked, MatesUnlinked, Indexed;
    LinksUntouched(c.place, m, m');
    MatesWithoutMate(c, m, s, j, m');
  }

  lemma MateChanged(c: Contents, m: TreeMem, s: nat, j: nat, m': TreeMem)
    requires Ok(c, m) && s in c.rings && j < |c.rings[s]| && |c.rings[s]| > 1
    requires c.rings[s][j] in m.fd && c.rings[s][j] in m.bk
    requires m'.fd == RingUnlinked(m, c.rings[s][j]).fd && m'.bk == RingUnlinked(m, c.rings[s][j]).bk
    ensures RingChanged(c, m, s, WithoutMate(c, s, j), m')
  {
    hide Ok, RingOk;
    RingRemoval(c, m, s, j, m');
    SizesWithoutMate(c, m, s, j);
  }

  lemma MatesWithoutMate(c: Contents, m: TreeMem, s: nat, j: nat, m': TreeMem)
    requires Ok(c, m) && s in c.rings && 1 <= j < |c.rings[s]|
    requires m'.child0 == m.child0 && m'.child1 == m.child1 && m'.parent == m.parent
    ensures MatesUnlinked(WithoutMate(c, s, j), m')
  {
    hide Ok;
    var c' := WithoutMate(c, s, j);
    forall q, i {:trigger MateUnlinked(c', m', q, i)} | q in c'.rings && 1 <= i < |c'.rings[q]|
      ensures MateUnlinked(c', m', q, i)
    {
      MateAt(c, m, q, if q != s || i < j then i else i + 1);
    }
  }

  /** The ring of s shrinks and no other link is written. */
  lemma RingRemoval(c: Contents, m: TreeMem, s: nat, j: nat, m': TreeMem)
    requires Ok(c, m) && s in c.rings && j < |c.rings[s]| && |c.rings[s]| > 1
    requires c.rings[s][j] in m.fd && c.rings[s][j] in m.bk
    requires m'.fd == RingUnlinked(m, c.rings[s][j]).fd && m'.bk == RingUnlinked(m, c.rings[s][j]).bk
    ensures RingOk(Without(c.rings[s], j), m'.fd, m'.bk)
    ensures forall y :: y in c.sizes && c.sizes[y] != s && y in m.fd && y in m.bk ==>
      y in m'.fd && y in m'.bk && m'.fd[y] == m.fd[y] && m'.bk[y] == m.bk[y]
    ensures var x := c.rings[s][j];
      m.bk[x] != x && m.fd[x] in m.bk && m.bk[m.fd[x]] == x && m.bk[x] in m.fd && m.fd[m.bk[x]] == x
  {
    hide Ok, LinkedAt, Distinct;
    var r := c.rings[s];
    RingAt(c, m, s);
    Neighbours(r, j, m.fd, m.bk);
    RemoveAt(r, j, m.fd, m.bk, m'.fd, m'.bk);
  }

  /** The contents when the node of size s leaves and its last mate takes its place. */
  function WithMateUp(c: Contents, k: Key, s: nat): Contents
    requires s in c.rings && |c.rings[s]| > 1
  {
    var r := c.rings[s];
    var last := r[|r| - 1];
    c.(sizes := c.sizes - {r[0]}, rings := c.rings[s := [last] + r[1..|r| - 1]], place := c.place[k := last])
  }

  lemma MateUpRing(c: Contents, m: TreeMem, k: Key, s: nat, m1: TreeMem)
    requires Ok(c, m) && s in c.rings && |c.rings[s]| > 1 && k in c.trie && c.trie[k] == s
    requires c.rings[s][0] in m.fd && c.rings[s][0] in m.bk
    requires m1 == RingUnlinked(m, c.rings[s][0])
    ensures var c' := WithMateUp(c, k, s);
      RingsOk(c', m1.fd, m1.bk) && AllPlaced(c') && m.bk[c.rings[s][0]] == c'.rings[s][0]
  {
    hide Ok, RingChanged, RingsOk, AllPlaced;
    SameKeys(c, m);
    MateChanged(c, m, s, 0, m1);
    LastBehindFirst(c, m, s);
    MateUpRotates(c, m, k, s, m1);
    RegroupedRings(c, m, s, WithMateUp(c, k, s), m1);
    MateUpPlaced(c, m, k, s);
  }

  /** The ring without the first member, listed from the last. */
  lemma MateUpRotates(c: Contents, m: TreeMem, k: Key, s: nat, m1: TreeMem)
    requires Ok(c, m) && s in c.rings && |c.rings[s]| > 1 && RingChanged(c, m, s, WithoutMate(c, s, 0), m1)
    ensures RingChanged(c, m, s, WithMateUp(c, k, s), m1)
  {
    hide Ok, RingOk;
    var c', w := WithMateUp(c, k, s), Without(c.rings[s], 0);
    RotateLast(w, m1.fd, m1.bk);
    assert [w[|w| - 1]] + w[..|w| - 1] == c'.rings[s];
    SameMembers(w, c'.rings[s]);
  }

  lemma SameMembers(w: seq<int>, r: seq<int>)
    requires |w| > 0 && r == [w[|w| - 1]] + w[..|w| - 1]
    ensures forall y :: y in r <==> y in w
  {
    assert w == w[..|w| - 1] + [w[|w| - 1]];
  }

  lemma LastBehindFirst(c: Contents, m: TreeMem, s: nat)
    requires Ok(c, m) && s in c.rings && |c.rings[s]| > 1 && c.rings[s][0] in m.bk
    ensures m.bk[c.rings[s][0]] == c.rings[s][|c.rings[s]| - 1]
  {
    hide Ok;
    RingAt(c, m, s);
    assert LinkedAt(c.rings[s], m.fd, m.bk, 0);
  }

  lemma MateUpPlaced(c: Contents, m: TreeMem, k: Key, s: nat)
    requires Ok(c, m) && s in c.rings && |c.rings[s]| > 1 && k in c.trie && c.trie[k] == s
    ensures AllPlaced(WithMateUp(c, k, s))
  {
    hide Ok, RingOf, TreeIndex, Shr, RootPrefix, Resolved;
    var c' := WithMateUp(c, k, s);
    SameKeys(c, m);
    forall l {:trigger Placed(c', l)} | l in c'.trie
      ensures Placed(c', l)
    {
      NodeIsMember(c, m, l);
      NodeIsMember(c, m, k);
    }
  }

  lemma UnlinkHead(c: Contents, m: TreeMem, k: Key, m1: TreeMem, m': TreeMem)
    requires Ok(c, m) && Sound(c.place) && k in c.trie && k in c.place && c.trie[k] in c.rings
    requires |c.rings[c.trie[k]]| > 1 && c.rings[c.trie[k]][0] == c.place[k]
    requires var x := c.place[k];
      && x in m.fd && x in m.bk && m1 == RingUnlinked(m, x)
      && 0 <= k.bin < NTREEBINS && |m1.bins| == NTREEBINS
      && RelinkedFields(c.place, m1, k, m.bk[x], m')
      && m'.fd == m1.fd && m'.bk == m1.bk && m'.index == m1.index
    ensures Ok(WithMateUp(c, k, c.trie[k]), m')
  {
    hide TrieOk, RingsOk, AllPlaced, Linked, MatesUnlinked, Indexed, RelinkedFields, Sound;
    var s, y := c.trie[k], m.bk[c.place[k]];
    var c' := WithMateUp(c, k, s);
    assert RingsOk(c', m'.fd, m'.bk) && AllPlaced(c') && Indexed(c', m') && y == c'.rings[s][0] by {
      hide Ok;
      MateUpRing(c, m, k, s, m1);
      StillIndexed(c, m, c', m');
    }
    LinksUntouched(c.place, m, m1);
    MateDetached(c, m, s, m1);
    Relink(c.place, m1, k, y, m');
    MatesAfterHead(c, m, k, m1, m');
  }

  lemma MateDetached(c: Contents, m: TreeMem, s: nat, m1: TreeMem)
    requires Ok(c, m) && s in c.rings && |c.rings[s]| > 1
    requires m1.child0 == m.child0 && m1.child1 == m.child1
    ensures Detached(c.place, m1, c.rings[s][|c.rings[s]| - 1])
  {
    hide Ok;
    var r := c.rings[s];
    MateAt(c, m, s, |r| - 1);
    MateIsNoNode(c, m, s, |r| - 1);
    RingAt(c, m, s);
    assert r[|r| - 1] in r;
  }

  lemma HeldIsNotNull(c: Contents, m: TreeMem, y: int)
    requires Ok(c, m) && y in c.sizes
    ensures y > 0
  {
    hide TreeIndex, Shr, RootPrefix, Resolved;
    assert Member(c, y) && RingOf(c, m.fd, m.bk, c.sizes[y]);
  }

  lemma NotAround(place: Places, k: Key, y: int)
    requires y != 0 && forall l :: l in place ==> place[l] != y
    ensures y != NodeAt(place, Parent(k)) && y != NodeAt(place, Child(k, 0)) && y != NodeAt(place, Child(k, 1))
  {
  }

  lemma LinksUntouched(place: Places, m: TreeMem, m1: TreeMem)
    requires Linked(place, m)
    requires m1.child0 == m.child0 && m1.child1 == m.child1 && m1.parent == m.parent
    requires m1.bins == m.bins && m1.treemap == m.treemap
    ensures Linked(place, m1)
  {
    forall l {:trigger NodeLinked(place, m1, l)} | l in place
      ensures NodeLinked(place, m1, l)
    {
      assert NodeLinked(place, m, l);
    }
  }

  lemma MatesAfterHead(c: Contents, m: TreeMem, k: Key, m1: TreeMem, m': TreeMem)
    requires Ok(c, m) && Sound(c.place) && k in c.trie && k in c.place && c.trie[k] in c.rings
    requires |c.rings[c.trie[k]]| > 1
    requires var x := c.place[k];
      && x in m.fd && x in m.bk && m1 == RingUnlinked(m, x)
      && 0 <= k.bin < NTREEBINS && |m1.bins| == NTREEBINS
      && RelinkedFields(c.place, m1, k, c.rings[c.trie[k]][|c.rings[c.trie[k]]| - 1], m')
    ensures MatesUnlinked(WithMateUp(c, k, c.trie[k]), m')
  {
    hide Ok, Sound, Resolved;
    var s := c.trie[k];
    var r, c' := c.rings[s], WithMateUp(c, k, s);
    var last := r[|r| - 1];
    RingAt(c, m, s);
    assert last in r;
    forall i {:trigger MateUnlinked(c', m', s, i)} | 1 <= i < |c'.rings[s]|
      ensures MateUnlinked(c', m', s, i)
    {
      assert c'.rings[s][i] == r[i];
      MateAt(c, m, s, i);
      MateIsNoNode(c, m, s, i);
    }
    forall y {:trigger KeptAsMate(m, m', y)} |
      y in c.sizes && c.sizes[y] != s && (forall l :: l in c.place ==> c.place[l] != y)
      ensures KeptAsMate(m, m', y)
    {
      HeldIsNotNull(c, m, y);
      NotAround(c.place, k, y);
    }
    OtherMates(c, m, c', m', s);
  }

  // ---------------------------------------------------------------- the only chunk of its size

  function WithoutLeaf(c: Contents, k: Key): Contents
    requires k in c.trie && k in c.place
  {
    Contents(c.sizes - {c.place[k]}, c.rings - {c.trie[k]}, c.trie - {k}, c.lev - {c.trie[k]}, c.place - {k})
  }

  lemma LastOfRing(c: Contents, m: TreeMem, k: Key)
    requires Ok(c, m) && k in c.trie && k in c.place && c.trie[k] in c.rings && |c.rings[c.trie[k]]| == 1
    ensures forall y :: y in c.sizes && c.sizes[y] == c.trie[k] ==> y == c.place[k]
    ensures c.place[k] in c.sizes && c.sizes[c.place[k]] == c.trie[k]
  {
    hide TreeIndex, Shr, RootPrefix, Resolved;
    NodeIsMember(c, m, k);
    forall y | y in c.sizes && c.sizes[y] == c.trie[k]
      ensures y == c.place[k]
    {
      assert Member(c, y);
    }
  }

  lemma OtherRingsStay(c: Contents, m: TreeMem, k: Key, c': Contents)
    requires Ok(c, m) && k in c.trie && k in c.place && c.trie[k] in c.rings && |c.rings[c.trie[k]]| == 1
    requires c'.sizes == c.sizes - {c.place[k]} && c'.rings == c.rings - {c.trie[k]}
    requires c'.lev.Keys == c.lev.Keys - {c.trie[k]}
    ensures RingsOk(c', m.fd, m.bk)
  {
    hide TreeIndex, Shr, RootPrefix, Resolved;
    LastOfRing(c, m, k);
    forall q {:trigger RingOf(c', m.fd, m.bk, q)} | q in c'.rings
      ensures RingOf(c', m.fd, m.bk, q)
    {
      assert RingOf(c, m.fd, m.bk, q);
    }
    forall y {:trigger Member(c', y)} | y in c'.sizes
      ensures Member(c', y)
    {
      assert Member(c, y);
    }
  }

  lemma LeafPlaces(c: Contents, m: TreeMem, k: Key)
    requires Ok(c, m) && k in c.trie && LeafIn(c.place, k)
    ensures IsLeaf(c.trie, k) && Sound(c.place - {k})
  {
    hide TreeIndex, Shr, RootPrefix, Resolved;
    PlacesSound(c, m);
    var place' := c.place - {k};
    forall l {:trigger SoundAt(place', l)} | l in place'
      ensures SoundAt(place', l)
    {
      assert SoundAt(c.place, l);
      ParentIsNotLeaf(c.place, l, k);
    }
  }

  /** A leaf leaves, its parent's link (or its bin's slot) having been cleared. */
  lemma UnlinkLeaf(c: Contents, m: TreeMem, k: Key, m': TreeMem)
    requires Ok(c, m) && k in c.trie && c.trie[k] in c.rings && |c.rings[c.trie[k]]| == 1
    requires LeafIn(c.place, k) && Linked(c.place - {k}, m')
    requires m'.fd == m.fd && m'.bk == m.bk && m'.index == m.index
    requires LeafCleared(m, m')
    ensures Ok(WithoutLeaf(c, k), m')
  {
    hide TreeIndex, Shr, RootPrefix, Resolved;
    var c' := WithoutLeaf(c, k);
    LeafPlaces(c, m, k);
    DropLeaf(c.trie, c.lev, k);
    OtherRingsStay(c, m, k, c');
    forall l {:trigger Placed(c', l)} | l in c'.trie
      ensures Placed(c', l)
    {
      NodeIsMember(c, m, l);
      NodeIsMember(c, m, k);
    }
    OtherMates(c, m, c', m', c.trie[k]);
  }

  /** Only zeros were written to child links. */
  ghost predicate LeafCleared(m: TreeMem, m': TreeMem) {
    && m'.parent == m.parent
    && (forall y :: y in m.child0 ==> y in m'.child0 && (m'.child0[y] == m.child0[y] || m'.child0[y] == 0))
    && (forall y :: y in m.child1 ==> y in m'.child1 && (m'.child1[y] == m.child1[y] || m'.child1[y] == 0))
  }

  /** The contents when the only chunk at k leaves and the leaf l below takes its place. */
  function WithLeafUp(c: Contents, k: Key, l: Key): Contents
    requires k in c.trie && k in c.place && l in c.trie && l in c.place && k.lev >= 0
  {
    Contents(c.sizes - {c.place[k]}, c.rings - {c.trie[k]}, (c.trie - {l})[k := c.trie[l]],
             (c.lev - {c.trie[k]})[c.trie[l] := k.lev], (c.place - {l})[k := c.place[l]])
  }

  lemma UnlinkInner(c: Contents, m: TreeMem, k: Key, l: Key, m1: TreeMem, m': TreeMem)
    requires Ok(c, m) && k in c.trie && k in c.place && c.trie[k] in c.rings && |c.rings[c.trie[k]]| == 1
    requires l in c.trie && LeafIn(c.place, l) && l != k
    requires 0 <= l.lev <= k.lev && On(c.trie[l], k.lev) == k
    requires Linked(c.place - {l}, m1) && LeafCleared(m, m1)
    requires m1.fd == m.fd && m1.bk == m.bk && m1.index == m.index
    requires 0 <= k.bin < NTREEBINS && |m1.bins| == NTREEBINS
    requires RelinkedFields(c.place - {l}, m1, k, c.place[l], m')
    requires m'.fd == m1.fd && m'.bk == m1.bk && m'.index == m1.index
    ensures Ok(WithLeafUp(c, k, l), m')
  {
    hide TrieOk, RingsOk, AllPlaced, Linked, MatesUnlinked, Indexed, RelinkedFields, Sound;
    var c' := WithLeafUp(c, k, l);
    assert TrieOk(c'.trie, c'.lev) && RingsOk(c', m'.fd, m'.bk) && AllPlaced(c') && Indexed(c', m') by {
      hide Ok, Child, TreeIndex, Shr, RootPrefix, Resolved;
      NodeIsMember(c, m, k);
      NodeIsMember(c, m, l);
      Parts(c, m);
      LeafPlaces(c, m, l);
      TakeOver(c.trie, c.lev, k, l);
      OtherRingsStay(c, m, k, c');
      LeafUpPlaced(c, m, k, l);
      StillIndexed(c, m, c', m');
    }
    assert Linked(c'.place, m') by {
      hide Ok, Resolved, RootPrefix;
      LeafPlaces(c, m, l);
      LeafDetached(c, m, l, m1);
      SameKeys(c, m);
      Relink(c.place - {l}, m1, k, c.place[l], m');
    }
    MatesAfterInner(c, m, k, l, m1, m');
  }

  lemma LeafDetached(c: Contents, m: TreeMem, l: Key, m1: TreeMem)
    requires Ok(c, m) && l in c.trie && LeafIn(c.place, l) && LeafCleared(m, m1)
    ensures Detached(c.place - {l}, m1, c.place[l])
  {
    hide TrieOk, RingsOk, AllPlaced, MatesUnlinked, Indexed, Resolved, RootPrefix;
    NodeIsMember(c, m, l);
    assert NodeLinked(c.place, m, l);
    PlacesSound(c, m);
  }

  lemma LeafUpPlaced(c: Contents, m: TreeMem, k: Key, l: Key)
    requires Ok(c, m) && k in c.trie && k in c.place && c.trie[k] in c.rings
    requires l in c.trie && l in c.place && l != k && 0 <= k.lev
    ensures AllPlaced(WithLeafUp(c, k, l))
  {
    hide TreeIndex, Shr, RootPrefix, Resolved;
    var c' := WithLeafUp(c, k, l);
    NodeIsMember(c, m, k);
    NodeIsMember(c, m, l);
    forall n {:trigger Placed(c', n)} | n in c'.trie
      ensures Placed(c', n)
    {
      if n != k { NodeIsMember(c, m, n); }
    }
  }

  lemma MatesAfterInner(c: Contents, m: TreeMem, k: Key, l: Key, m1: TreeMem, m': TreeMem)
    requires Ok(c, m) && k in c.trie && k in c.place && l in c.trie && l in c.place && k.lev >= 0
    requires c.trie[k] in c.rings && LeafCleared(m, m1)
    requires 0 <= k.bin < NTREEBINS && |m1.bins| == NTREEBINS
    requires RelinkedFields(c.place - {l}, m1, k, c.place[l], m')
    ensures MatesUnlinked(WithLeafUp(c, k, l), m')
  {
    hide TreeIndex, Shr, RootPrefix, Resolved;
    var s, c' := c.trie[k], WithLeafUp(c, k, l);
    forall y {:trigger KeptAsMate(m, m', y)} |
      y in c.sizes && c.sizes[y] != s && (forall n :: n in c.place ==> c.place[n] != y)
      ensures KeptAsMate(m, m', y)
    {
      HeldIsNotNull(c, m, y);
      assert y != c.place[l];
      NotAround(c.place - {l}, k, y);
    }
    OtherMates(c, m, c', m', s);
  }
}
