/**
  The small bins of malloc_state: one circular list per exact size, headed by the bin itself.
  An empty bin's links are stale; its map bit is what counts.
  */
module SmallBins {
  import opened Words
  import opened SizeClasses
  import opened BinMaps
  import opened Rings

  /** `smallbin_at(M, i)`, an address within malloc_state and so outside of every segment. */
  function SmallBinAt(i: int): int {
    -1 - i
  }

  datatype Lists = Lists(sizes: map<int, nat>, lists: seq<seq<int>>)

  /** The list of a bin, with the bin's header in front, is a ring, unless it is empty. */
  ghost predicate ListOk(c: Lists, fd: Links, bk: Links, marked: bool, i: nat)
    requires i < |c.lists|
  {
    && (marked <==> c.lists[i] != [])
    && (marked ==> RingOk([SmallBinAt(i)] + c.lists[i], fd, bk))
    && forall p :: p in c.lists[i] ==> p in c.sizes && c.sizes[p] == SmallIndexToSize(i) && p > 0
  }

  ghost predicate Listed(c: Lists, p: int)
    requires |c.lists| == NSMALLBINS
  {
    p in c.sizes && IsSmall(c.sizes[p]) && p in c.lists[SmallIndex(c.sizes[p])]
  }

  ghost predicate Ok(c: Lists, fd: Links, bk: Links, smallmap: BinMap) {
    && |c.lists| == NSMALLBINS
    && (forall i {:trigger ListOk(c, fd, bk, smallmap[i], i)} ::
          0 <= i < NSMALLBINS ==> ListOk(c, fd, bk, smallmap[i], i))
    && (forall p {:trigger Listed(c, p)} :: p in c.sizes ==> Listed(c, p))
  }

  /** The header of another bin, or a chunk in one. */
  predicate OutsideBin(c: Lists, i: nat, y: int) {
    if y > 0 then y in c.sizes && c.sizes[y] != SmallIndexToSize(i) else y != SmallBinAt(i)
  }

  /** Links written inside one bin leave the others alone. */
  lemma OtherList(c: Lists, fd: Links, bk: Links, smallmap: BinMap, i: nat, j: nat, fd': Links, bk': Links)
    requires Ok(c, fd, bk, smallmap) && i < NSMALLBINS && j < NSMALLBINS && i != j
    requires forall y :: OutsideBin(c, i, y) && y in fd && y in bk ==>
      y in fd' && y in bk' && fd'[y] == fd[y] && bk'[y] == bk[y]
    ensures c.lists[j] != [] ==> RingOk([SmallBinAt(j)] + c.lists[j], fd', bk')
  {
    assert ListOk(c, fd, bk, smallmap[j], j);
    if c.lists[j] != [] {
      var ring := [SmallBinAt(j)] + c.lists[j];
      assert forall x :: x in ring ==> OutsideBin(c, i, x);
      RingFrame(ring, fd, bk, fd', bk');
    }
  }

  function WithFirst(c: Lists, p: int, i: nat): Lists
    requires i < |c.lists|
  {
    Lists(c.sizes[p := SmallIndexToSize(i)], c.lists[i := [p] + c.lists[i]])
  }

  function WithoutAt(c: Lists, i: nat, k: nat): Lists
    requires i < |c.lists| && k < |c.lists[i]|
  {
    Lists(c.sizes - {c.lists[i][k]}, c.lists[i := Without(c.lists[i], k)])
  }

  lemma InsertFirst(c: Lists, fd: Links, bk: Links, smallmap: BinMap, p: int, i: nat, f: int, fd': Links, bk': Links)
    requires Ok(c, fd, bk, smallmap) && i < NSMALLBINS && p !in c.sizes && p > 0
    requires var b := SmallBinAt(i);
      && (f == if smallmap[i] then (if b in fd then fd[b] else 0) else b)
      && fd' == fd[b := p][p := f] && bk' == bk[f := p][p := b]
    ensures Ok(WithFirst(c, p, i), fd', bk', Or(smallmap, BitOf(i)))
    ensures smallmap[i] ==> SmallBinAt(i) in fd && fd[SmallBinAt(i)] in c.sizes
  {
    var b, c', map' := SmallBinAt(i), WithFirst(c, p, i), Or(smallmap, BitOf(i));
    var ring := [b] + c.lists[i];
    assert ListOk(c, fd, bk, smallmap[i], i);
    if smallmap[i] {
      Neighbours(ring, 0, fd, bk);
      assert LinkedAt(ring, fd, bk, 0);
      InsertSecond(ring, p, fd, bk, fd', bk');
      assert [ring[0], p] + ring[1..] == [b] + c'.lists[i];
    } else {
      assert [b] + c'.lists[i] == [b, p];
      assert LinkedAt([b, p], fd', bk', 0) && LinkedAt([b, p], fd', bk', 1);
    }
    forall j {:trigger ListOk(c', fd', bk', map'[j], j)} | 0 <= j < NSMALLBINS
      ensures ListOk(c', fd', bk', map'[j], j)
    {
      assert ListOk(c, fd, bk, smallmap[j], j);
      if j != i {
        OtherList(c, fd, bk, smallmap, i, j, fd', bk');
      }
    }
    forall y {:trigger Listed(c', y)} | y in c'.sizes
      ensures Listed(c', y)
    {
      if y != p { assert Listed(c, y); }
    }
  }

  /** Where a chunk of a small bin is. */
  lemma Located(c: Lists, fd: Links, bk: Links, smallmap: BinMap, p: int) returns (i: nat, k: nat)
    requires Ok(c, fd, bk, smallmap) && p in c.sizes
    ensures i < NSMALLBINS && i == SmallIndex(c.sizes[p]) && c.sizes[p] == SmallIndexToSize(i) && smallmap[i]
    ensures k < |c.lists[i]| && c.lists[i][k] == p
    ensures RingOk([SmallBinAt(i)] + c.lists[i], fd, bk)
    ensures forall q :: q in c.lists[i] ==> q in c.sizes && q > 0
  {
    i := SmallIndex(c.sizes[p]);
    assert Listed(c, p);
    k :| 0 <= k < |c.lists[i]| && c.lists[i][k] == p;
    assert ListOk(c, fd, bk, smallmap[i], i);
  }

  lemma RemoveFrom(c: Lists, fd: Links, bk: Links, smallmap: BinMap, i: nat, k: nat,
                   fd': Links, bk': Links, smallmap': BinMap)
    requires Ok(c, fd, bk, smallmap) && i < NSMALLBINS && k < |c.lists[i]|
    requires var p := c.lists[i][k];
      && p in fd && p in bk
      && if |c.lists[i]| == 1 then fd' == fd && bk' == bk && smallmap' == And(smallmap, Not(BitOf(i)))
         else fd' == fd[bk[p] := fd[p]] && bk' == bk[fd[p] := bk[p]] && smallmap' == smallmap
    ensures Ok(WithoutAt(c, i, k), fd', bk', smallmap')
  {
    var c', list, p := WithoutAt(c, i, k), c.lists[i], c.lists[i][k];
    ShrunkList(c, fd, bk, smallmap, i, k, fd', bk', smallmap');
    forall j {:trigger ListOk(c', fd', bk', smallmap'[j], j)} | 0 <= j < NSMALLBINS
      ensures ListOk(c', fd', bk', smallmap'[j], j)
    {
      if j != i {
        assert ListOk(c, fd, bk, smallmap[j], j);
        WritesWithin(c, fd, bk, smallmap, i, k);
        assert ListOk(c, fd, bk, smallmap[i], i) && p in c.lists[i];
        OtherList(c, fd, bk, smallmap, i, j, fd', bk');
        assert smallmap'[j] == smallmap[j];
      }
    }
    forall y {:trigger Listed(c', y)} | y in c'.sizes
      ensures Listed(c', y)
    {
      assert Listed(c, y);
      RestOfList(list, k);
    }
  }

  /** The neighbours of a member are the bin's header or in the same list. */
  lemma WritesWithin(c: Lists, fd: Links, bk: Links, smallmap: BinMap, i: nat, k: nat)
    requires Ok(c, fd, bk, smallmap) && i < NSMALLBINS && k < |c.lists[i]|
    ensures var p, b := c.lists[i][k], SmallBinAt(i);
      && p in fd && p in bk
      && (fd[p] == b || (fd[p] > 0 && fd[p] in c.sizes && c.sizes[fd[p]] == SmallIndexToSize(i)))
      && (bk[p] == b || (bk[p] > 0 && bk[p] in c.sizes && c.sizes[bk[p]] == SmallIndexToSize(i)))
  {
    assert ListOk(c, fd, bk, smallmap[i], i);
    var ring := [SmallBinAt(i)] + c.lists[i];
    assert ring[k + 1] == c.lists[i][k];
    Neighbours(ring, k + 1, fd, bk);
  }

  lemma ShrunkList(c: Lists, fd: Links, bk: Links, smallmap: BinMap, i: nat, k: nat,
                   fd': Links, bk': Links, smallmap': BinMap)
    requires Ok(c, fd, bk, smallmap) && i < NSMALLBINS && k < |c.lists[i]|
    requires var p := c.lists[i][k];
      && p in fd && p in bk
      && if |c.lists[i]| == 1 then fd' == fd && bk' == bk && smallmap' == And(smallmap, Not(BitOf(i)))
         else fd' == fd[bk[p] := fd[p]] && bk' == bk[fd[p] := bk[p]] && smallmap' == smallmap
    ensures ListOk(WithoutAt(c, i, k), fd', bk', smallmap'[i], i)
  {
    var c', list, p := WithoutAt(c, i, k), c.lists[i], c.lists[i][k];
    var ring := [SmallBinAt(i)] + list;
    assert ListOk(c, fd, bk, smallmap[i], i);
    assert ring[k + 1] == p;
    if |list| > 1 {
      RemoveAt(ring, k + 1, fd, bk, fd', bk');
      assert Without(ring, k + 1) == [SmallBinAt(i)] + c'.lists[i];
    }
    assert Distinct(list) by { assert forall a :: 0 <= a < |list| ==> list[a] == ring[a + 1]; }
    RestOfList(list, k);
  }

  lemma RestOfList(list: seq<int>, k: nat)
    requires k < |list|
    ensures forall y :: y in list && y != list[k] ==> y in Without(list, k)
    ensures forall y :: y in Without(list, k) ==> y in list
    ensures Distinct(list) ==> list[k] !in Without(list, k)
  {
    var w := Without(list, k);
    forall y | y in list && y != list[k]
      ensures y in w
    {
      var a :| 0 <= a < |list| && list[a] == y;
      assert w[if a < k then a else a - 1] == y;
    }
  }

  class SmallBins {
    const leastAddr: nat
    var fd: Links
    var bk: Links
    var smallmap: BinMap
    ghost var contents: Lists

    ghost predicate Valid()
      reads this
    {
      Ok(contents, fd, bk, smallmap) && leastAddr > 0 && forall p :: p in contents.sizes ==> p >= leastAddr
    }

    /** The binned chunks with their sizes. */
    ghost function Sizes(): map<int, nat>
      reads this
    {
      contents.sizes
    }

    constructor (leastAddr: nat)
      requires leastAddr > 0
      ensures Valid() && Sizes() == map[] && this.leastAddr == leastAddr
    {
      this.leastAddr := leastAddr;
      fd, bk := map[], map[];
      smallmap := Zeros(32);
      contents := Lists(map[], seq(32, i => []));
    }

    /** The chunks of a bin, in the order of its list. */
    ghost function Listing(i: nat): (list: seq<int>)
      requires Valid() && i < NSMALLBINS
      reads this
      ensures i < |contents.lists| && list == contents.lists[i]
    {
      contents.lists[i]
    }

    /** `insert_small_chunk`. */
    method InsertSmall(p: int, s: nat) returns (ok: bool)
      requires Valid() && p !in Sizes() && p >= leastAddr && IsSmall(s) && s % 8 == 0
      modifies this
      ensures ok && Valid() && Sizes() == old(Sizes())[p := s]
      ensures forall i :: 0 <= i < NSMALLBINS ==>
        Listing(i) == if i == SmallIndex(s) then [p] + old(Listing(i)) else old(Listing(i))
    {
      ghost var c, fd0, bk0, map0 := contents, fd, bk, smallmap;
      ok := true;
      var i := SmallIndex(s);
      var b := SmallBinAt(i);
      var f := b;
      assert ListOk(c, fd, bk, smallmap[i], i);
      assert smallmap[i] ==> LinkedAt([b] + c.lists[i], fd, bk, 0) && c.lists[i][0] in c.lists[i];
      if !smallmap[i] {
        smallmap := Or(smallmap, BitOf(i));
      } else if fd[b] >= leastAddr {
        f := fd[b];
      } else {
        ok := false;
      }
      fd := fd[b := p];
      bk := bk[f := p];
      fd := fd[p := f];
      bk := bk[p := b];
      assert map0[i] ==> Or(map0, BitOf(i)) == map0;
      InsertFirst(c, fd0, bk0, map0, p, i, f, fd, bk);
      contents := WithFirst(c, p, i);
    }

    /** `unlink_small_chunk`. */
    method UnlinkSmall(p: int, s: nat) returns (ok: bool)
      requires Valid() && p in Sizes() && s == Sizes()[p]
      modifies this
      ensures ok && Valid() && Sizes() == old(Sizes()) - {p}
      ensures forall i :: 0 <= i < NSMALLBINS ==>
        if i == SmallIndex(s) then LessOne(old(Listing(i)), p, Listing(i)) else Listing(i) == old(Listing(i))
    {
      ghost var c, fd0, bk0, map0 := contents, fd, bk, smallmap;
      ghost var i0, k := Located(c, fd, bk, smallmap, p);
      ghost var ring := [SmallBinAt(i0)] + c.lists[i0];
      assert ring[k + 1] == p;
      Neighbours(ring, k + 1, fd, bk);
      WritesWithin(c, fd, bk, smallmap, i0, k);
      ok := true;
      var f := fd[p];
      var b := bk[p];
      var i := SmallIndex(s);
      if f == SmallBinAt(i) || (f >= leastAddr && bk[f] == p) {
        if b == f {
          smallmap := And(smallmap, Not(BitOf(i)));
        } else if b == SmallBinAt(i) || (b >= leastAddr && fd[b] == p) {
          bk := bk[f := b];
          fd := fd[b := f];
        } else {
          ok := false;
        }
      } else {
        ok := false;
      }
      RemoveFrom(c, fd0, bk0, map0, i, k, fd, bk, smallmap);
      contents := WithoutAt(c, i, k);
      assert LessOne(c.lists[i], p, contents.lists[i]);
    }

    /** `unlink_first_small_chunk` of a marked bin. */
    method UnlinkFirst(i: nat) returns (ok: bool, p: int)
      requires Valid() && i < NSMALLBINS && smallmap[i]
      modifies this
      ensures ok && Valid() && p in old(Sizes()) && old(Sizes())[p] == SmallIndexToSize(i)
      ensures Sizes() == old(Sizes()) - {p}
      ensures forall j :: 0 <= j < NSMALLBINS ==>
        old(Listing(j)) == if j == i then [p] + Listing(j) else Listing(j)
    {
      ghost var c, fd0, bk0, map0 := contents, fd, bk, smallmap;
      var b := SmallBinAt(i);
      ghost var ring := [b] + c.lists[i];
      assert ListOk(c, fd, bk, smallmap[i], i);
      assert ring[1] == c.lists[i][0];
      assert LinkedAt(ring, fd, bk, 0) && LinkedAt(ring, fd, bk, 1);
      Neighbours(ring, 1, fd, bk);
      WritesWithin(c, fd, bk, smallmap, i, 0);
      assert c.lists[i][0] in c.lists[i];
      ok := true;
      p := fd[b];
      var f := fd[p];
      if b == f {
        smallmap := And(smallmap, Not(BitOf(i)));
      } else if f >= leastAddr && bk[f] == p {
        bk := bk[f := b];
        fd := fd[b := f];
      } else {
        ok := false;
      }
      RemoveFrom(c, fd0, bk0, map0, i, 0, fd, bk, smallmap);
      contents := WithoutAt(c, i, 0);
    }

    /** The map says which bins hold a chunk of their size. */
    lemma MapIsOccupancy(i: nat)
      requires Valid() && i < NSMALLBINS
      ensures smallmap[i] <==> exists p :: p in Sizes() && Sizes()[p] == SmallIndexToSize(i)
    {
      assert ListOk(contents, fd, bk, smallmap[i], i);
      if smallmap[i] {
        var p := contents.lists[i][0];
        assert p in contents.lists[i];
        assert p in Sizes() && Sizes()[p] == SmallIndexToSize(i);
      }
      forall p | p in Sizes() && Sizes()[p] == SmallIndexToSize(i)
        ensures smallmap[i]
      {
        assert Listed(contents, p);
      }
    }

    /** Every binned chunk shows in the map, at the index of its size. */
    lemma AllMarked()
      requires Valid()
      ensures forall p :: p in Sizes() ==>
        && IsSmall(Sizes()[p]) && smallmap[SmallIndex(Sizes()[p])]
        && Sizes()[p] == SmallIndexToSize(SmallIndex(Sizes()[p]))
    {
      forall p | p in Sizes()
        ensures IsSmall(Sizes()[p]) && smallmap[SmallIndex(Sizes()[p])]
        ensures Sizes()[p] == SmallIndexToSize(SmallIndex(Sizes()[p]))
      {
        var i, k := Located(contents, fd, bk, smallmap, p);
      }
    }
  }
}
