/**
  The allocator on one segment: malloc, free, and the in-place support for realloc and memalign.
  Requests that the segment cannot serve go to the system, which is taken to refuse.
  */
module Malloc {
  import opened SizeClasses
  import opened Chunks
  import opened HeapLayout
  import opened SizeTrie
  import SB = SmallBins
  import TB = TreeBins
  import TC = TreeContents
  import BM = BinMaps
  import W = Words

  // ---------------------------------------------------------------- bins against the layout

  /** A free chunk other than the designated victim is in the bin that its size selects. */
  ghost predicate Filed(l: Layout, dv: int, small: map<int, nat>, large: map<int, nat>, p: int) {
    && (p in small <==> IsFree(l, p) && p != dv && IsSmall(l.sizes[p]))
    && (p in large <==> IsFree(l, p) && p != dv && !IsSmall(l.sizes[p]))
    && (p in small ==> small[p] == l.sizes[p])
    && (p in large ==> large[p] == l.sizes[p])
  }

  ghost predicate AllFiled(l: Layout, dv: int, small: map<int, nat>, large: map<int, nat>) {
    forall p {:trigger Filed(l, dv, small, large, p)} :: Filed(l, dv, small, large, p)
  }

  /** The designated victim is a free chunk, or there is none. */
  ghost predicate VictimOk(l: Layout, dv: int, dvsize: nat) {
    if dvsize == 0 then dv == 0 else IsFree(l, dv) && l.sizes[dv] == dvsize
  }

  /** The bins after a chunk of size s is filed under its size. */
  function SmallWith(m: map<int, nat>, p: int, s: nat): map<int, nat> {
    if IsSmall(s) then m[p := s] else m
  }

  function LargeWith(m: map<int, nat>, p: int, s: nat): map<int, nat> {
    if IsSmall(s) then m else m[p := s]
  }

  /** All free chunks of a region have left the bins, but for the victim. */
  ghost predicate Emptied(l: Layout, dv: int, gone: set<int>, p: int, e: int) {
    && (forall q :: q in l.sizes && p <= q < e && IsFree(l, q) ==> q in gone || q == dv)
    && (forall q :: q in gone ==> p <= q < e)
  }

  /** A region to be freed, from a chunk behind one in use; the victim can only be its first chunk. */
  ghost predicate Region(l: Layout, head: Heads, dv: int, gone: set<int>, p: int, n: int) {
    && p in l.sizes && p < n && Boundary(l, n) && p in head && head[p].pinuse
    && Emptied(l, dv, gone, p, n) && (p <= dv < n ==> dv == p)
  }

  /** Freeing a region: its free chunks have left the bins, and the merged one is filed or the victim. */
  lemma FiledAfterFree(l: Layout, dv: int, small: map<int, nat>, large: map<int, nat>,
                       p: int, e: int, gone: set<int>, dv': int, small': map<int, nat>, large': map<int, nat>)
    requires AllFiled(l, dv, small, large) && p in l.sizes && p < e && Emptied(l, dv, gone, p, e)
    requires dv' == p ==> p <= dv < e && small' == small - gone && large' == large - gone
    requires dv' != p ==> dv' == dv && !(p <= dv < e)
    requires dv' != p ==> small' == SmallWith(small - gone, p, e - p) && large' == LargeWith(large - gone, p, e - p)
    ensures AllFiled(Merged(l, p, e, false), dv', small', large')
  {
    var l' := Merged(l, p, e, false);
    forall q {:trigger Filed(l', dv', small', large', q)}
      ensures Filed(l', dv', small', large', q)
    {
      assert Filed(l, dv, small, large, q);
    }
  }

  /** A region joins top. */
  lemma FiledAfterTop(l: Layout, dv: int, small: map<int, nat>, large: map<int, nat>,
                      p: nat, gone: set<int>, dv': int, small': map<int, nat>, large': map<int, nat>)
    requires Tiled(l) && AllFiled(l, dv, small, large)
    requires forall q :: q in l.sizes && p <= q && IsFree(l, q) ==> q in gone || q == dv
    requires forall q :: q in gone ==> p <= q
    requires dv' == (if p <= dv then 0 else dv) && (p > 0) && 0 !in l.sizes
    requires small' == small - gone && large' == large - gone
    ensures AllFiled(Topped(l, p), dv', small', large')
  {
    var l' := Topped(l, p);
    forall q {:trigger Filed(l', dv', small', large', q)}
      ensures Filed(l', dv', small', large', q)
    {
      assert Filed(l, dv, small, large, q);
    }
  }

  /** A region becomes a chunk in use. */
  lemma FiledAfterUse(l: Layout, dv: int, small: map<int, nat>, large: map<int, nat>,
                      p: int, e: int, gone: set<int>, dv': int, small': map<int, nat>, large': map<int, nat>)
    requires AllFiled(l, dv, small, large) && p in l.sizes && p < e && 0 !in l.sizes && !(p <= 0 < e)
    requires forall q :: q in l.sizes && p <= q < e && IsFree(l, q) ==> q in gone || q == dv
    requires forall q :: q in gone ==> p <= q < e
    requires dv' == if p <= dv < e then 0 else dv
    requires small' == small - gone && large' == large - gone
    ensures AllFiled(Merged(l, p, e, true), dv', small', large')
  {
    var l' := Merged(l, p, e, true);
    forall q {:trigger Filed(l', dv', small', large', q)}
      ensures Filed(l', dv', small', large', q)
    {
      assert Filed(l, dv, small, large, q);
    }
  }

  /** Cutting a free rest off a chunk in use: the rest is filed, or becomes the victim. */
  lemma FiledAfterCut(l: Layout, dv: int, small: map<int, nat>, large: map<int, nat>,
                      p: int, n: nat, dv': int, small': map<int, nat>, large': map<int, nat>)
    requires AllFiled(l, dv, small, large) && p in l.used && p in l.sizes && n < l.sizes[p] && n > 0
    requires p + n !in l.sizes && p + n !in l.used
    requires dv' == p + n ==> dv !in l.sizes && small' == small && large' == large
    requires dv' != p + n ==> dv' == dv && small' == SmallWith(small, p + n, l.sizes[p] - n)
    requires dv' != p + n ==> large' == LargeWith(large, p + n, l.sizes[p] - n)
    ensures AllFiled(Cut(l, p, n, false), dv', small', large')
  {
    var l' := Cut(l, p, n, false);
    forall q {:trigger Filed(l', dv', small', large', q)}
      ensures Filed(l', dv', small', large', q)
    {
      assert Filed(l, dv, small, large, q);
    }
  }

  /** Changes among chunks in use do not concern the bins. */
  lemma FiledSameFree(l: Layout, dv: int, small: map<int, nat>, large: map<int, nat>, l': Layout)
    requires AllFiled(l, dv, small, large)
    requires forall q :: IsFree(l', q) <==> IsFree(l, q)
    requires forall q :: IsFree(l, q) ==> q in l'.sizes && l'.sizes[q] == l.sizes[q]
    ensures AllFiled(l', dv, small, large)
  {
    forall q {:trigger Filed(l', dv, small, large, q)}
      ensures Filed(l', dv, small, large, q)
    {
      assert Filed(l, dv, small, large, q);
    }
  }

  // ---------------------------------------------------------------- best fit

  /** p is a least one of the chunks in m that are large enough. */
  ghost predicate LeastFit(m: map<int, nat>, p: int, nb: nat) {
    p in m && m[p] >= nb && forall x :: x in m && m[x] >= nb ==> m[p] <= m[x]
  }

  ghost predicate NoFit(m: map<int, nat>, nb: nat) {
    forall x :: x in m ==> m[x] < nb
  }

  /** The occupied bins of exact sizes, as a map shows them. */
  ghost predicate Shown(map0: BM.BinMap, sizes: map<int, nat>) {
    forall p :: p in sizes ==>
      IsSmall(sizes[p]) && map0[SmallIndex(sizes[p])] && sizes[p] == SmallIndexToSize(SmallIndex(sizes[p]))
  }

  /** A chunk of the first occupied bin that is large enough is a least fit. */
  lemma LeastInBin(map0: BM.BinMap, sizes: map<int, nat>, nb: nat, i: nat, p: int)
    requires Shown(map0, sizes) && i < 32 && nb <= SmallIndexToSize(i) && nb % 8 == 0
    requires p in sizes && sizes[p] == SmallIndexToSize(i)
    requires forall k :: SmallIndex(nb) <= k < i ==> !map0[k]
    ensures LeastFit(sizes, p, nb)
  {
  }

  /** p fits without leaving enough to make another chunk of. */
  ghost predicate Exact(m: map<int, nat>, p: int, nb: nat) {
    p in m && nb <= m[p] < nb + 16
  }

  ghost predicate NoExact(m: map<int, nat>, nb: nat) {
    forall x :: x in m ==> !Exact(m, x, nb)
  }

  lemma ExactInBin(sizes: map<int, nat>, nb: nat, i: nat, p: int)
    requires p in sizes && sizes[p] == SmallIndexToSize(i) && nb % 16 == 0
    requires i == SmallIndex(nb) || i == SmallIndex(nb) + 1
    ensures Exact(sizes, p, nb)
  {
  }

  lemma NoneExact(map0: BM.BinMap, sizes: map<int, nat>, nb: nat)
    requires Shown(map0, sizes) && nb % 16 == 0 && IsSmall(nb) && !map0[SmallIndex(nb)]
    requires SmallIndex(nb) + 1 < 32 ==> !map0[SmallIndex(nb) + 1]
    ensures NoExact(sizes, nb)
  {
  }

  /** What the exact fits in the small bins say about the free chunks. */
  lemma ExactIsFree(l: Layout, dv: int, small: map<int, nat>, large: map<int, nat>, p: int, nb: nat)
    requires Tiled(l) && AllFiled(l, dv, small, large) && Exact(small, p, nb) && nb % 16 == 0
    ensures IsFree(l, p) && p != dv && l.sizes[p] == nb
  {
    FiledAt(l, dv, small, large, p);
    ChunkBounds(l, p);
  }

  lemma NoExactFree(l: Layout, dv: int, small: map<int, nat>, large: map<int, nat>, nb: nat)
    requires AllFiled(l, dv, small, large) && NoExact(small, nb) && IsSmall(nb)
    ensures forall f :: IsFree(l, f) && f != dv ==> l.sizes[f] != nb
  {
    forall f | IsFree(l, f) && f != dv
      ensures l.sizes[f] != nb
    {
      FiledAt(l, dv, small, large, f);
      assert !Exact(small, f, nb);
    }
  }

  lemma SmallIndexOf(i: nat)
    requires i < NSMALLBINS
    ensures IsSmall(SmallIndexToSize(i)) && SmallIndex(SmallIndexToSize(i)) == i
  {
  }

  lemma SmallBinsShown(bins: SB.SmallBins)
    requires bins.Valid()
    ensures Shown(bins.smallmap, bins.Sizes())
  {
    bins.AllMarked();
  }

  lemma NoneInBins(map0: BM.BinMap, sizes: map<int, nat>, nb: nat)
    requires Shown(map0, sizes) && nb % 8 == 0 && forall k :: SmallIndex(nb) <= k < 32 ==> !map0[k]
    ensures NoFit(sizes, nb)
  {
  }

  /** No chunk in m fits more closely than one of size s. */
  ghost predicate NoneBetter(m: map<int, nat>, nb: nat, s: nat) {
    forall x :: x in m && m[x] >= nb ==> s <= m[x]
  }

  /** What the bins not serving a request tells: the victim is next, if it is large enough. */
  ghost predicate BinsFail(dvsize: nat, small: map<int, nat>, large: map<int, nat>, nb: nat) {
    if nb <= dvsize then
      if IsSmall(nb) then NoExact(small, nb) else NoFit(large, nb) || NoneBetter(large, nb, dvsize)
    else
      NoFit(small, nb) && NoFit(large, nb)
  }

  /** Some free chunk, or top with room to spare, is large enough. */
  ghost predicate CanServe(l: Layout, topsize: nat, nb: nat) {
    topsize > nb || exists f :: IsFree(l, f) && l.sizes[f] >= nb
  }

  /**
    Where the chunk p came from: top if nothing else fits, else a free chunk chosen by best fit.
    A small request that the victim can serve goes elsewhere only for an exact fit.
    */
  ghost predicate Chosen(l: Layout, dv: int, topsize: nat, p: int, nb: nat) {
    if p == l.top then
      topsize > nb && forall f :: IsFree(l, f) ==> l.sizes[f] < nb
    else
      && IsFree(l, p) && l.sizes[p] >= nb
      && (!IsSmall(nb) || p != dv ==>
            forall f :: IsFree(l, f) && l.sizes[f] >= nb && (IsSmall(nb) ==> f != dv) ==> l.sizes[p] <= l.sizes[f])
      && (IsSmall(nb) && IsFree(l, dv) && l.sizes[dv] >= nb ==>
            (p == dv <==> forall f :: IsFree(l, f) && f != dv ==> l.sizes[f] != nb))
  }

  /** A least fit in the bins is a least fit of all free chunks but the victim. */
  lemma LeastFree(l: Layout, dv: int, small: map<int, nat>, large: map<int, nat>, p: int, nb: nat)
    requires AllFiled(l, dv, small, large)
    requires LeastFit(small, p, nb) || (NoFit(small, nb) && LeastFit(large, p, nb))
    ensures IsFree(l, p) && p != dv && l.sizes[p] >= nb
    ensures forall f :: IsFree(l, f) && l.sizes[f] >= nb && f != dv ==> l.sizes[p] <= l.sizes[f]
  {
    assert Filed(l, dv, small, large, p);
    forall f | IsFree(l, f) && l.sizes[f] >= nb && f != dv
      ensures l.sizes[p] <= l.sizes[f]
    {
      assert Filed(l, dv, small, large, f);
    }
  }

  lemma ChosenForSmall(l: Layout, dv: int, dvsize: nat, topsize: nat, small: map<int, nat>, large: map<int, nat>,
                       p: int, nb: nat)
    requires Tiled(l) && l.base > 0 && AllFiled(l, dv, small, large) && VictimOk(l, dv, dvsize)
    requires IsSmall(nb) && nb % 16 == 0 && nb > 0
    requires LeastFit(small, p, nb) || (NoFit(small, nb) && LeastFit(large, p, nb))
    requires nb <= dvsize ==> Exact(small, p, nb)
    ensures Chosen(l, dv, topsize, p, nb) && CanServe(l, topsize, nb)
  {
    LeastFree(l, dv, small, large, p, nb);
    NothingBeyondTop(l);
    if nb <= dvsize { ExactIsFree(l, dv, small, large, p, nb); }
  }

  lemma ChosenForLarge(l: Layout, dv: int, dvsize: nat, topsize: nat, small: map<int, nat>, large: map<int, nat>,
                       p: int, nb: nat)
    requires Tiled(l) && l.base > 0 && AllFiled(l, dv, small, large) && VictimOk(l, dv, dvsize)
    requires !IsSmall(nb) && LeastFit(large, p, nb) && (dvsize >= nb ==> large[p] < dvsize)
    ensures Chosen(l, dv, topsize, p, nb) && CanServe(l, topsize, nb)
  {
    SmallTooSmall(l, dv, small, large, nb);
    LeastFree(l, dv, small, large, p, nb);
    FiledAt(l, dv, small, large, p);
    NothingBeyondTop(l);
  }

  lemma ChosenVictim(l: Layout, dv: int, dvsize: nat, topsize: nat, small: map<int, nat>, large: map<int, nat>, nb: nat)
    requires Tiled(l) && AllFiled(l, dv, small, large) && VictimOk(l, dv, dvsize) && 0 < nb <= dvsize
    requires IsSmall(nb) ==> NoExact(small, nb)
    requires !IsSmall(nb) ==> NoFit(large, nb) || NoneBetter(large, nb, dvsize)
    ensures Chosen(l, dv, topsize, dv, nb) && CanServe(l, topsize, nb)
  {
    NothingBeyondTop(l);
    if IsSmall(nb) {
      NoExactFree(l, dv, small, large, nb);
    } else {
      forall f | IsFree(l, f) && l.sizes[f] >= nb
        ensures l.sizes[dv] <= l.sizes[f]
      {
        assert Filed(l, dv, small, large, f);
      }
    }
  }

  /** Everything free is filed: what does not fit in the bins and is not the victim does not fit. */
  lemma OnlyTop(l: Layout, dv: int, dvsize: nat, topsize: nat, small: map<int, nat>, large: map<int, nat>, nb: nat)
    requires Tiled(l) && l.base > 0 && AllFiled(l, dv, small, large) && VictimOk(l, dv, dvsize)
    requires NoFit(small, nb) && NoFit(large, nb) && dvsize < nb
    ensures CanServe(l, topsize, nb) <==> topsize > nb
    ensures topsize > nb ==> Chosen(l, dv, topsize, l.top, nb)
  {
    NothingBeyondTop(l);
    forall f | IsFree(l, f)
      ensures l.sizes[f] < nb
    {
      assert Filed(l, dv, small, large, f);
    }
  }

  /** Sizes in the small bins do not serve a large request. */
  lemma SmallTooSmall(l: Layout, dv: int, small: map<int, nat>, large: map<int, nat>, nb: nat)
    requires AllFiled(l, dv, small, large) && !IsSmall(nb)
    ensures NoFit(small, nb)
  {
    forall x | x in small
      ensures small[x] < nb
    {
      assert Filed(l, dv, small, large, x);
    }
  }

  /** The victim after nb bytes were served from the chunk p, or from top. */
  ghost function VictimAfter(l: Layout, dv0: int, dvsize0: nat, p: int, nb: nat): (int, nat)
    requires p == l.top || p in l.sizes
  {
    if p == l.top then (dv0, dvsize0)
    else if l.sizes[p] - nb >= MIN_CHUNK_SIZE && (p == dv0 || IsSmall(nb)) then (p + nb, l.sizes[p] - nb)
    else if p == dv0 then (0, 0)
    else (dv0, dvsize0)
  }

  /** Whose turn it is among the chunks of a size: in a small bin the one binned last, in a tree bin the oldest. */
  ghost predicate InTurn(bins: SB.Lists, trees: TC.Contents, p: int) {
    && (p in bins.sizes ==>
          && IsSmall(bins.sizes[p]) && SmallIndex(bins.sizes[p]) < |bins.lists|
          && [p] <= bins.lists[SmallIndex(bins.sizes[p])])
    && (p in trees.sizes ==> TC.Oldest(trees, p))
  }

  // ---------------------------------------------------------------- head and foot macros

  /** Reading a head field; memory that was never written reads as anything. */
  function HeadAt(head: Heads, p: int): Head {
    if p in head then head[p] else Head(0, false, false)
  }

  function SetPinuse(head: Heads, n: int, b: bool): Heads {
    head[n := HeadAt(head, n).(pinuse := b)]
  }

  /** set_inuse */
  function SetInuse(head: Heads, p: int, s: nat): Heads {
    SetPinuse(head[p := Head(s, true, HeadAt(head, p).pinuse)], p + s, true)
  }

  /** set_inuse_and_pinuse */
  function SetInuseAndPinuse(head: Heads, p: int, s: nat): Heads {
    SetPinuse(head[p := Head(s, true, true)], p + s, true)
  }

  /** set_size_and_pinuse_of_inuse_chunk */
  function SetSizeOfInuse(head: Heads, p: int, s: nat): Heads {
    head[p := Head(s, true, true)]
  }

  /** the head part of set_size_and_pinuse_of_free_chunk, whose foot part writes s at p + s */
  function SetSizeOfFree(head: Heads, p: int, s: nat): Heads {
    head[p := Head(s, false, true)]
  }

  class Heap {
    const base: nat
    const limit: nat // end of the segment, less the space reserved behind top
    const leastAddr: nat
    const small: SB.SmallBins
    const large: TB.TreeBins
    var head: Heads
    var foot: Feet
    var dv: int
    var dvsize: nat
    var top: nat
    var topsize: nat
    ghost var layout: Layout

    ghost predicate Bounds()
      reads this
    {
      && 0 < leastAddr <= base < limit < WORD
      && layout.base == base && layout.top == top && topsize == limit - top
      && small.leastAddr == leastAddr && large.leastAddr == leastAddr
    }

    /** The whole heap invariant. */
    ghost predicate Valid()
      reads this, small, large
    {
      && Bounds()
      && HeapOk(layout, head, foot, limit)
      && small.Valid() && large.Valid()
      && VictimOk(layout, dv, dvsize)
      && AllFiled(layout, dv, small.Sizes(), large.Sizes())
    }

    /** The chunks handed out and not yet freed, with their sizes. */
    ghost function LiveChunks(): map<int, nat>
      reads this
    {
      Live(layout)
    }

    constructor (base: nat, limit: nat, leastAddr: nat)
      requires 0 < leastAddr && leastAddr <= base && base < limit && limit < WORD
      requires base % MALLOC_ALIGNMENT == 0 && limit % MALLOC_ALIGNMENT == 0
      ensures Valid() && LiveChunks() == map[] && fresh(small) && fresh(large)
      ensures this.base == base && this.limit == limit
    {
      hide HeapOk, AllFiled, VictimOk, SB.SmallBins.Valid, TB.TreeBins.Valid;
      this.base, this.limit, this.leastAddr := base, limit, leastAddr;
      small := new SB.SmallBins(leastAddr);
      large := new TB.TreeBins(leastAddr);
      head := map[base := Head(limit - base, false, true)];
      foot := map[];
      dv, dvsize, top, topsize := 0, 0, base, limit - base;
      layout := Layout(base, base, map[], {});
      new;
      EmptyHeap(base, limit);
    }

    /** The chunks met when walking from base, and top, make up the segment: no byte is lost or counted twice. */
    lemma Conserved()
      requires Valid()
      ensures var w := Walk(layout, base);
        && (forall p {:trigger p in w} :: p in w <==> p in layout.sizes)
        && (forall i :: 0 <= i < |w| ==> w[i] in layout.sizes)
        && SumOf(layout, w) + topsize == limit - base
    {
      WalkMeetsAll(layout, base);
      WalkCovers(layout, base);
      NothingBeyondTop(layout);
    }

    /** Free chunks are always merged: those next to a free chunk, and the one in front of top, are in use. */
    lemma NeighboursLive(p: int)
      requires Valid() && (IsFree(layout, p) || p == top)
      ensures p == base || exists q :: q in LiveChunks() && q + LiveChunks()[q] == p
      ensures p != top ==> Next(layout, p) in LiveChunks()
    {
      hide Tags, TopOk, AllFiled, VictimOk, SB.SmallBins.Valid, TB.TreeBins.Valid;
      TopIsNoChunk(layout);
      if p != base {
        var q := PredecessorOf(layout, p);
        assert q !in layout.used ==> FollowedByUsed(layout, q);
        assert q in LiveChunks() && q + LiveChunks()[q] == p;
      }
      if p != top { assert FollowedByUsed(layout, p); }
    }

    /**
      The chunks in use determine all others: heaps of one segment with the same live chunks, whatever was done to
      them, have the same chunks and the same tags.
      */
    lemma LiveDeterminesTags(other: Heap, p: int)
      requires Valid() && other.Valid() && base == other.base && limit == other.limit
      requires LiveChunks() == other.LiveChunks()
      ensures layout == other.layout && top == other.top && topsize == other.topsize
      ensures Boundary(layout, p) ==> p in head && p in other.head && head[p] == other.head[p]
      ensures IsFree(layout, p) ==>
        var n := Next(layout, p); n in foot && n in other.foot && foot[n] == other.foot[n] == layout.sizes[p]
    {
      hide Tiled, Coalesced, AllFiled, VictimOk, SB.SmallBins.Valid, TB.TreeBins.Valid;
      LiveDetermines(layout, other.layout);
      if Boundary(layout, p) {
        SameTags(layout, head, other.head, foot, other.foot, limit, p);
      }
    }

    /** When everything was freed, the whole segment is top again, and no bin holds anything. */
    lemma AllFreed()
      requires Valid() && LiveChunks() == map[]
      ensures layout.sizes == map[] && top == base && topsize == limit - base && dv == 0 && dvsize == 0
      ensures small.Sizes() == map[] && large.Sizes() == map[]
    {
      hide Tiled, Coalesced, Tags, TopOk, SB.SmallBins.Valid, TB.TreeBins.Valid;
      var empty := Layout(base, base, map[], {});
      EmptyLayout(layout);
      LiveDetermines(layout, empty);
      forall p
        ensures p !in small.Sizes() && p !in large.Sizes()
      {
        FiledAt(layout, dv, small.Sizes(), large.Sizes(), p);
      }
    }

    /** Every head field of a valid heap fits a word, from which size and status bits are recovered. */
    lemma HeadsFitWords(p: int)
      requires Valid() && Boundary(layout, p)
      ensures p in head && HeadWord(head[p]) < WORD && HeadOf(HeadWord(head[p])) == head[p]
    {
      hide Tiled, Coalesced, Tags, AllFiled, VictimOk, SB.SmallBins.Valid, TB.TreeBins.Valid, HeadWord, HeadOf;
      BoundaryTags(layout, head, foot, limit, p);
      TopAligned(layout);
      if p in layout.sizes {
        ChunkBounds(layout, p);
      } else {
        AlignedDifference(limit, layout.top);
      }
      HeadWordRoundTrip(head[p]);
      HeadWordBound(head[p]);
    }

    /** `unlink_chunk` */
    method UnlinkChunk(p: int, s: nat) returns (ok: bool)
      requires small.Valid() && large.Valid()
      requires if IsSmall(s) then p in small.Sizes() && small.Sizes()[p] == s
               else p in large.Sizes() && large.Sizes()[p] == s
      modifies small, large
      ensures ok && small.Valid() && large.Valid()
      ensures small.Sizes() == if IsSmall(s) then old(small.Sizes()) - {p} else old(small.Sizes())
      ensures large.Sizes() == if IsSmall(s) then old(large.Sizes()) else old(large.Sizes()) - {p}
    {
      if IsSmall(s) {
        ok := small.UnlinkSmall(p, s);
      } else {
        ok := large.UnlinkLarge(p);
      }
    }

    /** `insert_chunk` */
    method InsertChunk(p: int, s: nat) returns (ok: bool)
      requires small.Valid() && large.Valid() && large.Agrees(head)
      requires p !in small.Sizes() && p !in large.Sizes() && p >= small.leastAddr && p >= large.leastAddr
      requires s % 8 == 0 && s < WORD
      modifies small, large
      ensures ok && small.Valid() && large.Valid()
      ensures small.Sizes() == SmallWith(old(small.Sizes()), p, s)
      ensures large.Sizes() == LargeWith(old(large.Sizes()), p, s)
    {
      if IsSmall(s) {
        ok := small.InsertSmall(p, s);
      } else {
        ok := large.InsertLarge(p, s, head);
      }
    }

    // -------------------------------------------------------------- freeing

    /**
      Where a victim is after chunks have been freed: gone if top took it in (or there was none), else the
      free chunk that contains it.
      */
    ghost predicate VictimKept(dv0: int, dvsize0: nat, top0: nat)
      reads this
    {
      && top <= top0
      && (dvsize == 0 <==> dvsize0 == 0 || top <= dv0)
      && (dvsize != 0 ==> dv <= dv0 && dv0 + dvsize0 <= dv + dvsize)
    }

    lemma VictimCovers(dv0: int, dvsize0: nat, top0: nat)
      requires Valid() && top <= top0
      requires if dvsize0 == 0 then dvsize == 0 else dvsize != 0 && dv <= dv0 && dv0 + dvsize0 <= dv + dvsize
      ensures VictimKept(dv0, dvsize0, top0)
    {
      hide Tiled, Coalesced, Tags, TopOk, AllFiled, SB.SmallBins.Valid, TB.TreeBins.Valid;
      if dvsize != 0 { ChunkBounds(layout, dv); }
    }

    /**
      A region from p to n is being freed: its binned free chunks (`gone`) have been unlinked,
      the tags still show the layout before.
      */
    ghost predicate Pending(l: Layout, small0: map<int, nat>, large0: map<int, nat>, gone: set<int>, p: int, n: int)
      reads this, small, large
    {
      && Bounds() && layout == l && HeapOk(l, head, foot, limit) && VictimOk(l, dv, dvsize)
      && small.Valid() && large.Valid()
      && AllFiled(l, dv, small0, large0)
      && small.Sizes() == small0 - gone && large.Sizes() == large0 - gone
      && Region(l, head, dv, gone, p, n)
    }

    /** The merged chunk gets its tags and its bin. */
    method FinishFree(p: int, e: int, ghost l: Layout, ghost small0: map<int, nat>, ghost large0: map<int, nat>,
                      ghost gone: set<int>) returns (ok: bool)
      requires Bounds() && layout == l && HeapOk(l, head, foot, limit) && VictimOk(l, dv, dvsize)
      requires small.Valid() && large.Valid() && AllFiled(l, dv, small0, large0)
      requires small.Sizes() == small0 - gone && large.Sizes() == large0 - gone
      requires p in l.sizes && p < e && e in l.used && p in head && head[p].pinuse
      requires Emptied(l, dv, gone, p, e) && !(p <= dv < e)
      modifies this`head, this`foot, this`layout, small, large
      ensures ok && Valid() && layout == Merged(l, p, e, false) && VictimKept(dv, dvsize, top)
    {
      hide HeapOk, AllFiled, VictimOk, Emptied, SetPinuse, SetSizeOfFree, SB.SmallBins.Valid, TB.TreeBins.Valid;
      hide Merged, SmallWith, LargeWith;
      RegionTagged(l, head, foot, limit, p, e);
      RegionFiled(l, head, foot, limit, dv, dvsize, small0, large0, gone, p, e);
      head := SetSizeOfFree(SetPinuse(head, e, false), p, e - p);
      foot := foot[e := e - p];
      ok := InsertChunk(p, e - p);
      layout := Merged(l, p, e, false);
      VictimCovers(dv, dvsize, top);
    }

    /** The merged chunk becomes, or stays, the designated victim. */
    method FinishVictim(p: int, e: int, ghost l: Layout, ghost small0: map<int, nat>, ghost large0: map<int, nat>,
                        ghost gone: set<int>)
      requires Bounds() && layout == l && HeapOk(l, head, foot, limit) && VictimOk(l, dv, dvsize)
      requires small.Valid() && large.Valid() && AllFiled(l, dv, small0, large0)
      requires small.Sizes() == small0 - gone && large.Sizes() == large0 - gone
      requires p in l.sizes && p < e && e in l.used && p in head && head[p].pinuse
      requires Emptied(l, dv, gone, p, e) && p <= dv < e
      modifies this`head, this`foot, this`layout, this`dv, this`dvsize
      ensures Valid() && layout == Merged(l, p, e, false) && dv == p && VictimKept(old(dv), old(dvsize), old(top))
    {
      hide HeapOk, AllFiled, Emptied, SetPinuse, SetSizeOfFree, SB.SmallBins.Valid, TB.TreeBins.Valid;
      RegionTagged(l, head, foot, limit, p, e);
      FiledAfterFree(l, dv, small0, large0, p, e, gone, p, small.Sizes(), large.Sizes());
      head := SetSizeOfFree(SetPinuse(head, e, false), p, e - p);
      foot := foot[e := e - p];
      VictimInRegion(l, old(head), old(foot), limit, dv, dvsize, p, e);
      dv := p;
      dvsize := e - p;
      layout := Merged(l, p, e, false);
      VictimCovers(old(dv), old(dvsize), top);
    }

    /** The merged region reaches top and becomes part of it. */
    method JoinWithTop(p: int, psize: nat, ghost l: Layout, ghost small0: map<int, nat>,
                       ghost large0: map<int, nat>, ghost gone: set<int>)
      requires Pending(l, small0, large0, gone, p, p + psize) && p + psize == top
      modifies this
      ensures Valid() && VictimKept(old(dv), old(dvsize), old(top))
      ensures LiveChunks() == LiveOutside(l, p, p + psize)
    {
      hide Tiled, Coalesced, Tags, TopOk, AllFiled, SB.SmallBins.Valid, TB.TreeBins.Valid;
      ChunkBounds(l, p);
      NothingBeyondTop(l);
      ghost var dv0 := dv;
      VictimBounds(l, dv, dvsize);
      topsize := topsize + psize;
      top := p;
      head := head[p := Head(topsize, false, true)];
      JoinTop(l, old(head), foot, limit, p, head);
      if p == dv {
        dv := 0;
        dvsize := 0;
      }
      layout := Topped(l, p);
      FiledAfterTop(l, dv0, small0, large0, p, gone, dv, small.Sizes(), large.Sizes());
    }

    /** dispose_chunk, the part after consolidation backward. */
    method ConsolidateForward(p: int, psize0: nat, ghost l: Layout, ghost small0: map<int, nat>,
                              ghost large0: map<int, nat>, ghost gone: set<int>) returns (ok: bool)
      requires Pending(l, small0, large0, gone, p, p + psize0)
      requires dv == p ==> p + psize0 !in l.used
      requires p + psize0 in head
      modifies this, small, large
      ensures ok && Valid() && VictimKept(old(dv), old(dvsize), old(top))
      ensures LiveChunks() == LiveOutside(l, p, p + psize0)
    {
      hide Tiled, Coalesced, Tags, TopOk, AllFiled, SB.SmallBins.Valid, TB.TreeBins.Valid, VictimOk;
      hide Live, LiveOutside, Merged, Heap.VictimKept;
      hide Emptied;
      ok := true;
      var psize := psize0;
      var next := p + psize;
      ChunkBounds(l, p);
      VictimPlace(l, dv, dvsize);
      BoundaryTags(l, head, foot, limit, next);
      if next >= leastAddr {
        if !HeadAt(head, next).cinuse {
          if next == top {
            JoinWithTop(p, psize, l, small0, large0, gone);
            return;
          }
          FreeNeighbour(l, head, foot, limit, next);
          RegionExtended(l, p, next, gone, dv);
          LiveFreed(l, p, next, next + l.sizes[next]);
          FiledAt(l, dv, small0, large0, next);
          if next == dv {
            FinishVictim(p, next + dvsize, l, small0, large0, gone);
            return;
          }
          var nsize := HeadAt(head, next).size;
          psize := psize + nsize;
          ok := UnlinkChunk(next, nsize);
          ghost var gone' := gone + {next};
          if p == dv {
            FinishVictim(p, p + psize, l, small0, large0, gone');
            return;
          }
          var ok' := FinishFree(p, p + psize, l, small0, large0, gone');
          ok := ok && ok';
        } else {
          LiveFreed(l, p, next, next);
          ok := FinishFree(p, next, l, small0, large0, gone);
        }
      } else {
        ok := false;
      }
    }

    /** dispose_chunk: consolidate a chunk in both directions and bin it. */
    method DisposeChunk(p0: int, psize0: nat) returns (ok: bool)
      requires Valid() && p0 in layout.used && p0 in layout.sizes && psize0 == layout.sizes[p0]
      modifies this, small, large
      ensures ok && Valid() && LiveChunks() == old(LiveChunks()) - {p0}
      ensures VictimKept(old(dv), old(dvsize), old(top))
    {
      hide HeapOk, AllFiled, VictimOk, Region, SB.SmallBins.Valid, TB.TreeBins.Valid, Live, LiveOutside,
        Heap.VictimKept;
      ghost var l, small0, large0 := layout, small.Sizes(), large.Sizes();
      assert small0 - {} == small0 && large0 - {} == large0;
      ghost var gone: set<int> := {};
      var p, psize := p0, psize0;
      var next := p + psize;
      ChunkInUse(l, head, foot, limit, dv, dvsize, p);
      ok := true;
      if !HeadAt(head, p).pinuse {
        FreeInFront(l, head, foot, limit, dv, dvsize, p);
        var prevsize := foot[p];
        var prev := p - prevsize;
        psize := psize + prevsize;
        p := prev;
        FiledAt(l, dv, small0, large0, p);
        if prev >= leastAddr {
          if p != dv {
            ok := UnlinkChunk(p, prevsize);
            gone := {p};
          } else if HeadAt(head, next).cinuse && HeadAt(head, next).pinuse {
            FinishVictim(p, next, l, small0, large0, gone);
            return;
          }
        } else {
          ok := false;
          return;
        }
      }
      var ok' := ConsolidateForward(p, psize, l, small0, large0, gone);
      ok := ok && ok';
    }

    /** dlfree of a pointer that malloc handed out (or null). */
    method Free(mem: int) returns (ok: bool)
      requires Valid() && (mem == 0 || mem - 16 in LiveChunks())
      modifies this, small, large
      ensures ok && Valid()
      ensures LiveChunks() == if mem == 0 then old(LiveChunks()) else old(LiveChunks()) - {mem - 16}
      ensures if mem == 0 then unchanged(this) else VictimKept(old(dv), old(dvsize), old(top))
    {
      ok := true;
      if mem != 0 {
        var p := mem - 16;
        NextOf(layout, head, foot, limit, p);
        ChunkBounds(layout, p);
        BoundaryTags(layout, head, foot, limit, p);
        var psize := HeadAt(head, p).size;
        var next := p + psize;
        // address and in-use checks, and the checks on the next chunk
        if p >= leastAddr && (HeadAt(head, p).cinuse || !HeadAt(head, p).pinuse)
           && p < next && HeadAt(head, next).pinuse {
          ok := DisposeChunk(p, psize);
        } else {
          ok := false;
        }
      }
    }

    /** Freeing twice. */
    lemma KeptTwice(dv0: int, dvsize0: nat, top0: nat, dv1: int, dvsize1: nat, top1: nat)
      requires Valid() && VictimKept(dv1, dvsize1, top1) && top1 <= top0
      requires (dvsize1 == 0 <==> dvsize0 == 0 || top1 <= dv0)
      requires dvsize1 != 0 ==> dv1 <= dv0 && dv0 + dvsize0 <= dv1 + dvsize1
      ensures VictimKept(dv0, dvsize0, top0)
    {
      hide Tiled, Coalesced, Tags, TopOk, AllFiled, SB.SmallBins.Valid, TB.TreeBins.Valid;
      if dvsize != 0 { ChunkBounds(layout, dv); }
    }

    // -------------------------------------------------------------- allocating

    /** A free chunk, out of its bin (or the victim no longer), is handed out whole. */
    method TakeWhole(p: int, s: nat, ghost dv0: int, ghost small0: map<int, nat>, ghost large0: map<int, nat>,
                     ghost gone: set<int>)
      requires Bounds() && HeapOk(layout, head, foot, limit) && IsFree(layout, p) && s == layout.sizes[p]
      requires small.Valid() && large.Valid() && AllFiled(layout, dv0, small0, large0)
      requires small.Sizes() == small0 - gone && large.Sizes() == large0 - gone
      requires gone == if p == dv0 then {} else {p}
      requires if p == dv0 then dv == 0 && dvsize == 0 else dv == dv0 && VictimOk(layout, dv, dvsize)
      modifies this`head, this`layout
      ensures Valid() && LiveChunks() == old(LiveChunks())[p := s]
    {
      hide Tiled, Coalesced, Tags, TopOk, AllFiled, SB.SmallBins.Valid, TB.TreeBins.Valid, VictimOk, Live,
        Merged;
      ghost var l := layout;
      if p != dv0 { VictimPlace(l, dv, dvsize); }
      ChunkBounds(l, p);
      OnlyChunkInside(l, p);
      NothingBeyondTop(l);
      FreeIsPreceded(l, head, foot, limit, p);
      FreeNeighbour(l, head, foot, limit, p);
      NextOf(l, head, foot, limit, p);
      head := SetInuseAndPinuse(head, p, s);
      assert head == old(head)[p := Head(s, true, old(head)[p].pinuse)][p + s := old(head)[p + s].(pinuse := true)];
      LiveTaken(l, p);
      UseRegion(l, old(head), foot, limit, p, p + s, head);
      layout := Merged(l, p, p + s, true);
      FiledAfterUse(l, dv0, small0, large0, p, p + s, gone, dv, small.Sizes(), large.Sizes());
      VictimElsewhere(l, p, p + s, dv, dvsize);
    }

    /** A free chunk is cut: the front is handed out, the tags of the free rest are written. */
    method Carve(p: int, s: nat, nb: nat)
      requires Bounds() && HeapOk(layout, head, foot, limit) && IsFree(layout, p) && s == layout.sizes[p]
      requires MIN_CHUNK_SIZE <= nb && nb % MALLOC_ALIGNMENT == 0 && nb + MIN_CHUNK_SIZE <= s
      modifies this`head, this`foot, this`layout
      ensures Bounds() && HeapOk(layout, head, foot, limit)
      ensures layout == Cut(Merged(old(layout), p, p + s, true), p, nb, false)
      ensures LiveChunks() == old(LiveChunks())[p := nb]
      ensures p + nb !in old(layout.sizes) && p + nb !in old(layout.used)
      ensures var merged := Merged(old(layout), p, p + s, true); p + nb !in merged.sizes && p + nb !in merged.used
      ensures forall x :: x in old(head) && x != p && x != p + nb ==> x in head && head[x].size == old(head)[x].size
    {
      hide HeapOk, SetSizeOfInuse, SetSizeOfFree, Merged, Cut, Live;
      ghost var l := layout;
      Carved(l, head, foot, limit, p, nb);
      head := SetSizeOfInuse(head, p, nb);
      var r, rsize := p + nb, s - nb;
      head := SetSizeOfFree(head, r, rsize);
      foot := foot[r + rsize := rsize];
      layout := Cut(Merged(l, p, p + s, true), p, nb, false);
    }

    /** Bins and victim after carving: the free rest is filed. */
    method CarveAndBin(p: int, s: nat, nb: nat, ghost small0: map<int, nat>, ghost large0: map<int, nat>)
      returns (ok: bool)
      requires Bounds() && HeapOk(layout, head, foot, limit) && IsFree(layout, p) && s == layout.sizes[p]
      requires MIN_CHUNK_SIZE <= nb && nb % MALLOC_ALIGNMENT == 0 && nb + MIN_CHUNK_SIZE <= s
      requires small.Valid() && large.Valid() && AllFiled(layout, dv, small0, large0)
      requires small.Sizes() == small0 - {p} && large.Sizes() == large0 - {p}
      requires VictimOk(layout, dv, dvsize) && p != dv
      modifies this`head, this`foot, this`layout, small, large
      ensures ok && Valid() && LiveChunks() == old(LiveChunks())[p := nb]
    {
      hide HeapOk, AllFiled, VictimOk, SB.SmallBins.Valid, TB.TreeBins.Valid, Live, Merged, Cut, SmallWith, LargeWith;
      RestFiled(layout, head, foot, limit, dv, dvsize, small0, large0, p, nb);
      Carve(p, s, nb);
      ok := InsertChunk(p + nb, s - nb);
    }

    /** replace_dv after carving: the old victim, known to be small, is filed. */
    method CarveForVictim(p: int, s: nat, nb: nat, ghost small0: map<int, nat>, ghost large0: map<int, nat>)
      returns (ok: bool)
      requires Bounds() && HeapOk(layout, head, foot, limit) && IsFree(layout, p) && s == layout.sizes[p]
      requires MIN_CHUNK_SIZE <= nb && nb % MALLOC_ALIGNMENT == 0 && nb + MIN_CHUNK_SIZE <= s
      requires small.Valid() && large.Valid() && AllFiled(layout, dv, small0, large0)
      requires small.Sizes() == small0 - {p} && large.Sizes() == large0 - {p}
      requires VictimOk(layout, dv, dvsize) && p != dv && IsSmall(dvsize)
      modifies this`head, this`foot, this`layout, this`dv, this`dvsize, small
      ensures ok && Valid() && LiveChunks() == old(LiveChunks())[p := nb]
      ensures dv == p + nb && dvsize == s - nb
    {
      hide HeapOk, AllFiled, VictimOk, SB.SmallBins.Valid, TB.TreeBins.Valid, Live, Merged, Cut;
      VictimReplaced(layout, head, foot, limit, dv, dvsize, small0, large0, p, nb);
      Carve(p, s, nb);
      ok := true;
      if dvsize != 0 {
        ok := small.InsertSmall(dv, dvsize);
      }
      dvsize := s - nb;
      dv := p + nb;
    }

    /** tmalloc_large: the best fit in the tree bins, if better than the victim. */
    method TmallocLarge(nb: nat) returns (ok: bool, mem: int)
      requires Valid() && Large(nb) && nb % MALLOC_ALIGNMENT == 0
      modifies this`head, this`foot, this`layout, small, large
      ensures ok && Valid()
      ensures mem == 0 ==> unchanged(this) && unchanged(small) && unchanged(large)
      ensures mem == 0 ==> NoFit(large.Sizes(), nb) || (nb <= dvsize && NoneBetter(large.Sizes(), nb, dvsize))
      ensures mem != 0 ==> var p := mem - 16;
        && Served(old(LiveChunks()), p, nb) && LeastFit(old(large.Sizes()), p, nb)
        && (old(dvsize) >= nb ==> old(large.Sizes()[p]) < old(dvsize))
        && Placed(old(layout), old(dv), old(dvsize), p, nb) && InTurn(old(small.contents), old(large.contents), p)
    {
      hide Tiled, Coalesced, Tags, TopOk, AllFiled, SB.SmallBins.Valid, TB.TreeBins.Valid, TC.Oldest;
      ok, mem := true, 0;
      ghost var l, small0, large0 := layout, small.Sizes(), large.Sizes();
      LargeAgrees(l, head, foot, dv, small0, large0);
      var v, rsize := large.FindLarge(nb, head);
      VictimFits(l, dv, dvsize, limit);
      if v != 0 {
        FiledAt(l, dv, small0, large0, v);
        ChunkBounds(l, v);
      }
      if v != 0 && rsize < (dvsize - nb) % WORD {
        if v >= leastAddr && v < v + nb {
          ok := large.UnlinkLarge(v);
          assert small0 - {v} == small0;
          if rsize < MIN_CHUNK_SIZE {
            TakeWhole(v, rsize + nb, dv, small0, large0, {v});
          } else {
            var ok' := CarveAndBin(v, rsize + nb, nb, small0, large0);
            ok := ok && ok';
          }
          mem := v + 16;
        } else {
          ok := false;
        }
      }
    }

    /** The chunk p was handed out for nb: it is live with a size that fits closely, all else is as it was. */
    ghost predicate Served(live: map<int, nat>, p: int, nb: nat)
      reads this
    {
      && p !in live && p in LiveChunks() && LiveChunks() == live[p := LiveChunks()[p]]
      && nb <= LiveChunks()[p] < nb + MIN_CHUNK_SIZE
    }

    /**
      What serving nb from the chunk p of layout l, or from its top, leaves behind. A rest that can be a chunk is
      split off; it is the new victim if it comes from the old one or the request is small. A victim that is used
      up is gone; otherwise it stays.
      */
    ghost predicate Placed(l: Layout, dv0: int, dvsize0: nat, p: int, nb: nat)
      reads this
    {
      && (p == l.top || p in l.sizes) && p in LiveChunks()
      && LiveChunks()[p] == (if p == l.top || l.sizes[p] - nb >= MIN_CHUNK_SIZE then nb else l.sizes[p])
      && top == (if p == l.top then p + nb else l.top)
      && (dv, dvsize) == VictimAfter(l, dv0, dvsize0, p, nb)
    }

    /** tmalloc_small: the least tree chunk, its rest becoming the victim. */
    method TmallocSmall(nb: nat) returns (ok: bool, mem: int)
      requires Valid() && IsSmall(nb) && MIN_CHUNK_SIZE <= nb && nb % MALLOC_ALIGNMENT == 0 && dvsize < nb
      requires !BM.IsClear(large.treemap)
      modifies this`head, this`foot, this`layout, this`dv, this`dvsize, small, large
      ensures ok && Valid() && mem != 0
      ensures var p := mem - 16;
        && Served(old(LiveChunks()), p, nb) && LeastFit(old(large.Sizes()), p, nb)
        && Placed(old(layout), old(dv), old(dvsize), p, nb) && InTurn(old(small.contents), old(large.contents), p)
    {
      hide Tiled, Coalesced, Tags, TopOk, AllFiled, SB.SmallBins.Valid, TB.TreeBins.Valid, TC.Oldest;
      ok, mem := true, 0;
      ghost var l, small0, large0 := layout, small.Sizes(), large.Sizes();
      LargeAgrees(l, head, foot, dv, small0, large0);
      var v, rsize := large.FindSmallest(nb, head);
      FiledAt(l, dv, small0, large0, v);
      ChunkBounds(l, v);
      if v >= leastAddr && v < v + nb {
        ok := large.UnlinkLarge(v);
        assert small0 - {v} == small0;
        if rsize < MIN_CHUNK_SIZE {
          TakeWhole(v, rsize + nb, dv, small0, large0, {v});
        } else {
          var ok' := CarveForVictim(v, rsize + nb, nb, small0, large0);
          ok := ok && ok';
        }
        mem := v + 16;
      } else {
        ok := false;
      }
    }

    /** The first chunk of a small bin, whole or carved for the victim. */
    method FromSmallBin(i: nat, nb: nat) returns (ok: bool, mem: int)
      requires Valid() && i < NSMALLBINS && small.smallmap[i]
      requires IsSmall(nb) && MIN_CHUNK_SIZE <= nb && nb % MALLOC_ALIGNMENT == 0 && nb <= SmallIndexToSize(i)
      requires SmallIndexToSize(i) - nb >= MIN_CHUNK_SIZE ==> dvsize < nb
      modifies this`head, this`foot, this`layout, this`dv, this`dvsize, small, large
      ensures ok && Valid() && mem != 0
      ensures var p := mem - 16;
        && p in old(small.Sizes()) && old(small.Sizes())[p] == SmallIndexToSize(i) && Served(old(LiveChunks()), p, nb)
        && Placed(old(layout), old(dv), old(dvsize), p, nb) && InTurn(old(small.contents), old(large.contents), p)
    {
      hide Tiled, Coalesced, Tags, TopOk, AllFiled, SB.SmallBins.Valid, TB.TreeBins.Valid;
      ghost var l, small0, large0 := layout, small.Sizes(), large.Sizes();
      ghost var listing := small.Listing(i);
      var p;
      ok, p := small.UnlinkFirst(i);
      assert listing == [p] + small.Listing(i);
      FiledAt(l, dv, small0, large0, p);
      ChunkBounds(l, p);
      assert large0 - {p} == large0;
      SmallIndexOf(i);
      var rsize := SmallIndexToSize(i) - nb;
      if rsize < MIN_CHUNK_SIZE {
        TakeWhole(p, SmallIndexToSize(i), dv, small0, large0, {p});
      } else {
        var ok' := CarveForVictim(p, SmallIndexToSize(i), nb, small0, large0);
        ok := ok && ok';
      }
      mem := p + 16;
    }

    /** The victim serves the request: it is cut, or handed out whole if the rest would be too small. */
    method FromVictim(nb: nat) returns (mem: int)
      requires Valid() && MIN_CHUNK_SIZE <= nb <= dvsize && nb % MALLOC_ALIGNMENT == 0
      modifies this`head, this`foot, this`layout, this`dv, this`dvsize
      ensures Valid() && mem != 0 && mem - 16 == old(dv) && Served(old(LiveChunks()), mem - 16, nb)
      ensures Placed(old(layout), old(dv), old(dvsize), mem - 16, nb)
      ensures InTurn(old(small.contents), old(large.contents), mem - 16)
    {
      hide HeapOk, AllFiled, SB.SmallBins.Valid, TB.TreeBins.Valid, Live, Merged, Cut;
      ghost var l, small0, large0, dv0 := layout, small.Sizes(), large.Sizes(), dv;
      FreeChunk(l, head, foot, limit, dv);
      FiledAt(l, dv, small0, large0, dv);
      assert small0 - {} == small0 && large0 - {} == large0;
      var rsize := dvsize - nb;
      var p := dv;
      if rsize >= MIN_CHUNK_SIZE {
        VictimShrinks(l, head, foot, limit, dv, small0, large0, nb);
        Carve(p, dvsize, nb);
        dv := p + nb;
        dvsize := rsize;
      } else {
        var dvs := dvsize;
        dvsize := 0;
        dv := 0;
        TakeWhole(p, dvs, dv0, small0, large0, {});
      }
      mem := p + 16;
    }

    /** The bottom of top serves the request. */
    method FromTopChunk(nb: nat) returns (mem: int)
      requires Valid() && MIN_CHUNK_SIZE <= nb < topsize && nb % MALLOC_ALIGNMENT == 0
      modifies this
      ensures Valid() && mem != 0 && mem - 16 == old(top) && Served(old(LiveChunks()), mem - 16, nb)
      ensures Placed(old(layout), old(dv), old(dvsize), mem - 16, nb)
      ensures InTurn(old(small.contents), old(large.contents), mem - 16)
    {
      hide Tiled, Coalesced, Tags, AllFiled, SB.SmallBins.Valid, TB.TreeBins.Valid;
      ghost var l, small0, large0 := layout, small.Sizes(), large.Sizes();
      topsize := topsize - nb;
      var p := top;
      var r := p + nb;
      top := r;
      head := head[r := Head(topsize, false, true)];
      head := SetSizeOfInuse(head, p, nb);
      TakeFromTop(l, old(head), foot, limit, nb, head);
      TopIsNoChunk(l);
      UsedAreChunks(l);
      FiledAt(l, dv, small0, large0, p);
      layout := FromTop(l, nb);
      FiledSameFree(l, dv, small0, large0, layout);
      TopAligned(l);
      mem := p + 16;
    }

    /** The part of dlmalloc for small requests that looks into the bins; null if they do not serve. */
    method SmallRequest(nb: nat) returns (ok: bool, mem: int)
      requires Valid() && IsSmall(nb) && MIN_CHUNK_SIZE <= nb && nb % MALLOC_ALIGNMENT == 0
      modifies this, small, large
      ensures ok && Valid()
      ensures mem == 0 ==> unchanged(this) && unchanged(small) && unchanged(large)
      ensures mem == 0 ==> BinsFail(dvsize, small.Sizes(), large.Sizes(), nb)
      ensures mem != 0 ==>
        && Served(old(LiveChunks()), mem - 16, nb) && Placed(old(layout), old(dv), old(dvsize), mem - 16, nb)
        && InTurn(old(small.contents), old(large.contents), mem - 16)
      ensures mem != 0 ==> old(Chosen(layout, dv, topsize, mem - 16, nb) && CanServe(layout, topsize, nb))
    {
      hide HeapOk, Tiled, AllFiled, SB.SmallBins.Valid, TB.TreeBins.Valid, NoFit, LeastFit, Shown, NoExact, Exact;
      hide W.ShiftRight, W.ShiftLeft, BM.And, BM.LeftBits, Chosen, CanServe, VictimOk, Heap.Served, Heap.Placed,
        InTurn;
      ok, mem := true, 0;
      ghost var l, dv0, dvsize0, top0, small0, large0 := layout, dv, dvsize, topsize, small.Sizes(), large.Sizes();
      TiledIn(l, head, foot, limit);
      ghost var map0 := small.smallmap;
      SmallBinsShown(small);
      var idx := SmallIndex(nb);
      var smallbits := W.ShiftRight(small.smallmap, idx);
      ShiftedBits(map0, idx, smallbits);
      if smallbits[0] || smallbits[1] {
        // a remainderless fit; the next bin if this one is empty
        idx := idx + (if smallbits[0] then 0 else 1);
        ok, mem := FromSmallBin(idx, nb);
        LeastInBin(map0, small0, nb, idx, mem - 16);
        ExactInBin(small0, nb, idx, mem - 16);
      } else if nb > dvsize {
        if !BM.IsClear(smallbits) {
          var leftbits := BM.And(W.ShiftLeft(smallbits, idx), BM.LeftBits(BM.BitOf(idx)));
          LaterBins(map0, smallbits, idx, leftbits);
          BM.LeastBitIsolates(leftbits);
          var i := BM.TrailingZeros(BM.LeastBit(leftbits));
          ok, mem := FromSmallBin(i, nb);
          LeastInBin(map0, small0, nb, i, mem - 16);
        } else {
          NoneInBins(map0, small0, nb);
          if !BM.IsClear(large.treemap) {
            ok, mem := TmallocSmall(nb);
          } else {
            large.ClearIsEmpty();
            EmptyNoFit(large.Sizes(), nb);
          }
        }
      } else {
        NoneExact(map0, small0, nb);
      }
      if mem != 0 { ChosenForSmall(l, dv0, dvsize0, top0, small0, large0, mem - 16, nb); }
    }

    /** The part of dlmalloc for large requests that looks into the tree bins; null if they do not serve. */
    method LargeRequest(nb: nat) returns (ok: bool, mem: int)
      requires Valid() && Large(nb) && nb % MALLOC_ALIGNMENT == 0
      modifies this, small, large
      ensures ok && Valid()
      ensures mem == 0 ==> unchanged(this) && unchanged(small) && unchanged(large)
      ensures mem == 0 ==> BinsFail(dvsize, small.Sizes(), large.Sizes(), nb)
      ensures mem != 0 ==>
        && Served(old(LiveChunks()), mem - 16, nb) && Placed(old(layout), old(dv), old(dvsize), mem - 16, nb)
        && InTurn(old(small.contents), old(large.contents), mem - 16)
      ensures mem != 0 ==> old(Chosen(layout, dv, topsize, mem - 16, nb) && CanServe(layout, topsize, nb))
    {
      hide Tiled, Coalesced, Tags, TopOk, AllFiled, SB.SmallBins.Valid, TB.TreeBins.Valid, NoFit, LeastFit, NoneBetter,
        Chosen, CanServe, VictimOk, Heap.Placed, InTurn;
      ok, mem := true, 0;
      ghost var l, dv0, dvsize0, top0, small0, large0 := layout, dv, dvsize, topsize, small.Sizes(), large.Sizes();
      SmallTooSmall(l, dv0, small0, large0, nb);
      large.ClearIsEmpty();
      if !BM.IsClear(large.treemap) {
        ok, mem := TmallocLarge(nb);
        if mem != 0 { ChosenForLarge(l, dv0, dvsize0, top0, small0, large0, mem - 16, nb); }
      } else {
        EmptyNoFit(large.Sizes(), nb);
      }
    }

    /** The part of dlmalloc after the bins have failed: the victim, else top, else the system, which refuses. */
    method VictimOrTop(nb: nat) returns (mem: int)
      requires Valid()
      requires nb == WORD - 1 || (MIN_CHUNK_SIZE <= nb && nb % MALLOC_ALIGNMENT == 0
                                  && BinsFail(dvsize, small.Sizes(), large.Sizes(), nb))
      modifies this
      ensures Valid() && (mem == 0 ==> unchanged(this))
      ensures mem != 0 <==> nb < WORD - 1 && old(CanServe(layout, topsize, nb))
      ensures mem != 0 ==>
        && Served(old(LiveChunks()), mem - 16, nb) && old(Chosen(layout, dv, topsize, mem - 16, nb))
        && Placed(old(layout), old(dv), old(dvsize), mem - 16, nb)
        && InTurn(old(small.contents), old(large.contents), mem - 16)
    {
      hide Tiled, Coalesced, Tags, TopOk, AllFiled, SB.SmallBins.Valid, TB.TreeBins.Valid, NoFit, NoExact, NoneBetter,
        Chosen, CanServe, VictimOk, Heap.Placed, InTurn;
      mem := 0;
      VictimFits(layout, dv, dvsize, limit);
      TopBelow(layout, head, limit);
      if nb <= dvsize {
        ChosenVictim(layout, dv, dvsize, topsize, small.Sizes(), large.Sizes(), nb);
        mem := FromVictim(nb);
      } else {
        if nb < WORD - 1 { OnlyTop(layout, dv, dvsize, topsize, small.Sizes(), large.Sizes(), nb); }
        if nb < topsize {
          mem := FromTopChunk(nb);
        }
      }
    }

    /** dlmalloc; null stands for a request passed on to the system. */
    method Malloc(bytes: nat) returns (ok: bool, mem: int)
      requires Valid() && bytes < WORD
      modifies this, small, large
      ensures ok && Valid()
      ensures mem != 0 <==> bytes < MAX_REQUEST && old(CanServe(layout, topsize, RequestToSize(bytes)))
      ensures mem == 0 ==> unchanged(this) && unchanged(small) && unchanged(large) && LiveChunks() == old(LiveChunks())
      ensures mem != 0 ==>
        && mem % MALLOC_ALIGNMENT == 0 && mem - 16 >= base
        && Served(old(LiveChunks()), mem - 16, RequestToSize(bytes))
        && LiveChunks()[mem - 16] - CHUNK_OVERHEAD >= bytes
        && old(Chosen(layout, dv, topsize, mem - 16, RequestToSize(bytes)))
        && Placed(old(layout), old(dv), old(dvsize), mem - 16, RequestToSize(bytes))
        && InTurn(old(small.contents), old(large.contents), mem - 16)
    {
      hide Tiled, HeapOk, AllFiled, SB.SmallBins.Valid, TB.TreeBins.Valid, VictimOk, BinsFail, PadRequest, CanServe,
        Chosen, Heap.Placed, InTurn;
      ok, mem := true, 0;
      if bytes < MAX_REQUEST { RequestSizeFits(bytes); }
      var nb;
      if bytes <= MAX_SMALL_REQUEST {
        nb := if bytes < MIN_REQUEST then MIN_CHUNK_SIZE else PadRequest(bytes);
        ok, mem := SmallRequest(nb);
      } else if bytes >= MAX_REQUEST {
        nb := WORD - 1; // too big to allocate
      } else {
        nb := PadRequest(bytes);
        ok, mem := LargeRequest(nb);
      }
      if mem == 0 {
        mem := VictimOrTop(nb);
      }
      if mem != 0 { LiveBounds(layout, head, foot, limit, mem - 16); }
    }
  }

  // ---------------------------------------------------------------- facts about single steps

  /** Tags that agree with the same layout are the same. */
  lemma SameTags(l: Layout, head: Heads, head': Heads, foot: Feet, foot': Feet, limit: nat, p: int)
    requires HeapOk(l, head, foot, limit) && HeapOk(l, head', foot', limit) && Boundary(l, p)
    ensures p in head && p in head' && head[p] == head'[p]
    ensures IsFree(l, p) ==> var n := Next(l, p); n in foot && n in foot' && foot[n] == foot'[n] == l.sizes[p]
  {
    if p in l.sizes {
      assert Tagged(l, head, foot, p) && Tagged(l, head', foot', p);
    }
    if p != l.base {
      var q := PredecessorOf(l, p);
      assert Tagged(l, head, foot, q) && Tagged(l, head', foot', q);
    }
  }

  lemma EmptyLayout(l: Layout)
    requires Tiled(l)
    ensures var empty := Layout(l.base, l.base, map[], {}); Tiled(empty) && Coalesced(empty) && Live(empty) == map[]
  {
    assert l.base in l.sizes ==> ChunkAt(l, l.base);
  }

  /** The live chunks that do not start in a region. */
  function LiveOutside(l: Layout, p: int, n: int): map<int, nat> {
    map q | q in l.sizes && q in l.used && !(p <= q < n) :: l.sizes[q]
  }

  lemma LiveFreed(l: Layout, p: int, n: int, e: int)
    requires p in l.sizes && p < n <= e && forall q :: q in l.sizes && n <= q < e ==> q !in l.used
    ensures Live(Merged(l, p, e, false)) == LiveOutside(l, p, n)
  {
  }

  lemma ChunkBounds(l: Layout, p: int)
    requires Tiled(l) && p in l.sizes
    ensures l.base <= p && p + l.sizes[p] <= l.top && p % MALLOC_ALIGNMENT == 0
    ensures MIN_CHUNK_SIZE <= l.sizes[p] && l.sizes[p] % MALLOC_ALIGNMENT == 0 && l.sizes[p] % 8 == 0
    ensures Boundary(l, p + l.sizes[p])
  {
    assert ChunkAt(l, p);
    EvenMultiple(l.sizes[p]);
  }

  lemma AlignedDifference(a: nat, b: nat)
    requires a % MALLOC_ALIGNMENT == 0 && b % MALLOC_ALIGNMENT == 0 && b <= a
    ensures (a - b) % 8 == 0
  {
    var u, v := a / 16, b / 16;
    assert a - b == 8 * (2 * u - 2 * v);
  }

  lemma HeadWordBound(h: Head)
    requires h.size % 8 == 0 && h.size < WORD
    ensures HeadWord(h) < WORD
  {
    assert h.size <= WORD - 8;
  }

  lemma EvenMultiple(n: nat)
    requires n % 16 == 0
    ensures n % 8 == 0
  {
  }

  lemma LiveBounds(l: Layout, head: Heads, foot: Feet, limit: nat, p: int)
    requires HeapOk(l, head, foot, limit) && p in Live(l)
    ensures l.base <= p && p + Live(l)[p] <= l.top && p % MALLOC_ALIGNMENT == 0
  {
    ChunkBounds(l, p);
  }

  lemma FiledAt(l: Layout, dv: int, small: map<int, nat>, large: map<int, nat>, p: int)
    requires AllFiled(l, dv, small, large)
    ensures Filed(l, dv, small, large, p)
  {
  }

  lemma OnlyChunkInside(l: Layout, p: int)
    requires Tiled(l) && p in l.sizes
    ensures forall q :: q in l.sizes && p <= q < p + l.sizes[p] ==> q == p
  {
    assert ChunkAt(l, p);
  }

  /** Above a chunk in use, PINUSE is set, and the victim is not the chunk itself. */
  lemma UsedAhead(l: Layout, head: Heads, foot: Feet, limit: nat, p: int, dv: int)
    requires HeapOk(l, head, foot, limit) && p in l.sizes && p in l.used
    ensures var n := p + l.sizes[p];
      n in head && head[n].pinuse && Boundary(l, n) && (n in l.used <==> head[n].cinuse)
  {
    NextOf(l, head, foot, limit, p);
    assert ChunkAt(l, p);
  }

  lemma UsedAreChunks(l: Layout)
    requires Tiled(l)
    ensures l.used <= l.sizes.Keys
  {
  }

  lemma VictimElsewhere(l: Layout, p: int, e: int, dv: int, dvsize: nat)
    requires p in l.sizes && p < e && VictimOk(l, dv, dvsize)
    requires forall q :: q in l.sizes && p <= q < e ==> q == p
    ensures dv != p || dvsize == 0 ==> VictimOk(Merged(l, p, e, true), dv, dvsize)
  {
  }

  lemma VictimPlace(l: Layout, dv: int, dvsize: nat)
    requires VictimOk(l, dv, dvsize)
    ensures if dvsize == 0 then dv == 0 else IsFree(l, dv) && l.sizes[dv] == dvsize
  {
  }

  /** The live chunks when a free chunk is handed out whole. */
  lemma LiveTaken(l: Layout, p: int)
    requires IsFree(l, p) && l.sizes[p] > 0 && forall q :: q in l.sizes && p <= q < p + l.sizes[p] ==> q == p
    ensures var m := Merged(l, p, p + l.sizes[p], true);
      Live(m) == Live(l)[p := l.sizes[p]] && m.base == l.base && m.top == l.top
  {
  }

  /** Carving another chunk leaves the victim what it is. */
  lemma VictimOnCarve(l: Layout, p: int, s: nat, n: nat, dv: int, dvsize: nat)
    requires IsFree(l, p) && l.sizes[p] == s && 0 < n < s && VictimOk(l, dv, dvsize) && dv != p
    requires forall q :: q in l.sizes && p <= q < p + s ==> q == p
    ensures var m := Merged(l, p, p + s, true);
      p in m.used && p in m.sizes && m.sizes[p] == s && VictimOk(Cut(m, p, n, false), dv, dvsize)
  {
  }

  lemma VictimFits(l: Layout, dv: int, dvsize: nat, limit: nat)
    requires Tiled(l) && VictimOk(l, dv, dvsize) && l.base >= 0
    ensures dvsize <= l.top
    ensures dvsize != 0 ==> dvsize >= MIN_CHUNK_SIZE && dvsize % MALLOC_ALIGNMENT == 0
  {
    if dvsize != 0 { assert ChunkAt(l, dv); }
  }

  /** Cutting a free rest off a chunk in use to be the new victim, the old one being filed. */
  lemma FiledAfterVictim(l: Layout, dv: int, small: map<int, nat>, large: map<int, nat>,
                         p: int, n: nat, small': map<int, nat>)
    requires AllFiled(l, dv, small, large) && p in l.used && p in l.sizes && n < l.sizes[p] && n > 0
    requires p + n !in l.sizes && p + n !in l.used
    requires if dv in l.sizes then IsFree(l, dv) && IsSmall(l.sizes[dv]) && small' == small[dv := l.sizes[dv]]
             else small' == small
    ensures AllFiled(Cut(l, p, n, false), p + n, small', large)
  {
    var l' := Cut(l, p, n, false);
    forall q {:trigger Filed(l', p + n, small', large, q)}
      ensures Filed(l', p + n, small', large, q)
    {
      assert Filed(l, dv, small, large, q);
    }
  }

  lemma TopAligned(l: Layout)
    requires Tiled(l)
    ensures l.top % MALLOC_ALIGNMENT == 0
  {
  }

  lemma ShiftedBits(map0: BM.BinMap, idx: nat, smallbits: W.Word)
    requires idx < 32 && smallbits == W.ShiftRight(map0, idx)
    ensures |smallbits| == 32
    ensures forall k {:trigger map0[k]} :: idx <= k < 32 ==> smallbits[k - idx] == map0[k]
    ensures smallbits[0] == map0[idx]
    ensures smallbits[1] ==> idx + 1 < 32 && map0[idx + 1]
  {
  }

  /** The shifted-down map, shifted up again and masked, shows the bins after idx. */
  lemma LaterBins(map0: BM.BinMap, smallbits: W.Word, idx: nat, leftbits: BM.BinMap)
    requires idx < 32 && smallbits == W.ShiftRight(map0, idx)
    requires leftbits == BM.And(W.ShiftLeft(smallbits, idx), BM.LeftBits(BM.BitOf(idx)))
    ensures forall k :: 0 <= k < 32 ==> (leftbits[k] <==> k > idx && map0[k])
    ensures !BM.IsClear(smallbits) && !smallbits[0] ==> !BM.IsClear(leftbits)
  {
    forall k | 0 <= k < 32
      ensures leftbits[k] <==> k > idx && map0[k]
    {
      BM.LeftBitsAbove(idx, k);
    }
    if !BM.IsClear(smallbits) && !smallbits[0] {
      var j :| 0 <= j < 32 && smallbits[j];
      assert leftbits[j + idx];
    }
  }

  /** The victim lies in the region that takes it in. */
  lemma VictimInRegion(l: Layout, head: Heads, foot: Feet, limit: nat, dv: int, dvsize: nat, p: int, e: int)
    requires HeapOk(l, head, foot, limit) && VictimOk(l, dv, dvsize) && 0 < l.base
    requires p in l.sizes && p <= dv < e && e in l.used
    ensures dvsize != 0 && dv + dvsize <= e
  {
    hide Coalesced, Tags, TopOk;
    assert ChunkAt(l, p);
    assert ChunkAt(l, dv);
  }

  lemma TopBelow(l: Layout, head: Heads, limit: nat)
    requires TopOk(l, head, limit)
    ensures l.top < limit
  {
  }

  lemma EmptyNoFit(m: map<int, nat>, nb: nat)
    requires m == map[]
    ensures NoFit(m, nb)
  {
  }

  lemma NothingBeyondTop(l: Layout)
    requires Tiled(l)
    ensures forall q :: q in l.sizes ==> l.base <= q < l.top
  {
    forall q | q in l.sizes
      ensures l.base <= q < l.top
    {
      assert ChunkAt(l, q);
    }
  }

  lemma VictimBounds(l: Layout, dv: int, dvsize: nat)
    requires Tiled(l)
    ensures IsFree(l, dv) ==> l.base <= dv < l.top
  {
    if IsFree(l, dv) { assert ChunkAt(l, dv); }
  }

  lemma BoundaryTags(l: Layout, head: Heads, foot: Feet, limit: nat, n: int)
    requires HeapOk(l, head, foot, limit) && Boundary(l, n)
    ensures n in head && l.base <= n <= l.top
    ensures head[n].cinuse <==> n in l.used
    ensures n in l.sizes ==> head[n].size == l.sizes[n] && n != l.top
  {
    TopIsNoChunk(l);
    if n in l.sizes { assert Tagged(l, head, foot, n) && ChunkAt(l, n); }
  }

  /** Writing the tags of a merged free chunk, in either order. */
  lemma FreeTags(l: Layout, head: Heads, foot: Feet, limit: nat, p: int, e: int)
    requires p in head && e in head && p < e
    ensures SetSizeOfFree(SetPinuse(head, e, false), p, e - p)
         == head[p := Head(e - p, false, true)][e := head[e].(pinuse := false)]
  {
  }

  lemma LargeAgrees(l: Layout, head: Heads, foot: Feet, dv: int, small: map<int, nat>, large: map<int, nat>)
    requires Tags(l, head, foot) && AllFiled(l, dv, small, large)
    ensures forall x :: x in large ==> x in head && head[x].size == large[x]
  {
    forall x | x in large
      ensures x in head && head[x].size == large[x]
    {
      assert Filed(l, dv, small, large, x);
      assert Tagged(l, head, foot, x);
    }
  }

  lemma FreeNeighbour(l: Layout, head: Heads, foot: Feet, limit: nat, n: int)
    requires HeapOk(l, head, foot, limit) && IsFree(l, n)
    ensures n in head && head[n].size == l.sizes[n] && n + l.sizes[n] in l.used && n + l.sizes[n] in head
    ensures l.sizes[n] > 0
  {
    assert FollowedByUsed(l, n) && Tagged(l, head, foot, n) && ChunkAt(l, n);
  }

  /** The tags of a region that becomes one free chunk. */
  lemma RegionTagged(l: Layout, head: Heads, foot: Feet, limit: nat, p: int, e: int)
    requires HeapOk(l, head, foot, limit)
    requires p in l.sizes && p < e && e in l.used && p in head && head[p].pinuse
    ensures var l' := Merged(l, p, e, false);
      HeapOk(l', SetSizeOfFree(SetPinuse(head, e, false), p, e - p), foot[e := e - p], limit)
      && l'.base == l.base && l'.top == l.top
  {
    hide HeapOk;
    BoundaryTags(l, head, foot, limit, e) by { UsedAreChunksIn(l, head, foot, limit); }
    FreeTags(l, head, foot, limit, p, e);
    FreeRegion(l, head, foot, limit, p, e, head[p := Head(e - p, false, true)][e := head[e].(pinuse := false)],
      foot[e := e - p]);
  }

  lemma EmptyHeap(base: nat, limit: nat)
    requires base % MALLOC_ALIGNMENT == 0 && limit % MALLOC_ALIGNMENT == 0 && base < limit
    ensures var l := Layout(base, base, map[], {});
      HeapOk(l, map[base := Head(limit - base, false, true)], map[], limit)
      && AllFiled(l, 0, map[], map[]) && VictimOk(l, 0, 0) && Live(l) == map[]
  {
  }

  lemma TiledIn(l: Layout, head: Heads, foot: Feet, limit: nat)
    requires HeapOk(l, head, foot, limit)
    ensures Tiled(l)
  {
  }

  lemma UsedAreChunksIn(l: Layout, head: Heads, foot: Feet, limit: nat)
    requires HeapOk(l, head, foot, limit)
    ensures l.used <= l.sizes.Keys
  {
  }

  /** The bins and the victim when the region's free chunk is filed. */
  lemma RegionFiled(l: Layout, head: Heads, foot: Feet, limit: nat, dv: int, dvsize: nat,
                    small: map<int, nat>, large: map<int, nat>, gone: set<int>, p: int, e: int)
    requires HeapOk(l, head, foot, limit) && VictimOk(l, dv, dvsize) && AllFiled(l, dv, small, large)
    requires p in l.sizes && p < e && e in l.used && Emptied(l, dv, gone, p, e) && !(p <= dv < e)
    ensures var l' := Merged(l, p, e, false);
      && AllFiled(l', dv, SmallWith(small - gone, p, e - p), LargeWith(large - gone, p, e - p))
      && VictimOk(l', dv, dvsize)
    ensures p !in small - gone && p !in large - gone && l.base <= p && e <= l.top && (e - p) % 8 == 0
    ensures var head' := SetSizeOfFree(SetPinuse(head, e, false), p, e - p);
      forall x :: x in large - gone ==> x in head' && head'[x].size == large[x]
  {
    hide Coalesced, TopOk, AllFiled, Filed;
    FiledAfterFree(l, dv, small, large, p, e, gone, dv,
      SmallWith(small - gone, p, e - p), LargeWith(large - gone, p, e - p));
    LeftTheBins(l, dv, small, large, gone, p, e);
    MergedBounds(l, p, e);
    LargeAgrees(l, head, foot, dv, small, large);
    UsedUnfiled(l, dv, small, large, e);
  }

  lemma LeftTheBins(l: Layout, dv: int, small: map<int, nat>, large: map<int, nat>, gone: set<int>, p: int, e: int)
    requires AllFiled(l, dv, small, large) && p < e && Emptied(l, dv, gone, p, e)
    ensures p !in small - gone && p !in large - gone
  {
    assert Filed(l, dv, small, large, p);
  }

  lemma UsedUnfiled(l: Layout, dv: int, small: map<int, nat>, large: map<int, nat>, e: int)
    requires AllFiled(l, dv, small, large) && e in l.used
    ensures e !in small && e !in large
  {
    assert Filed(l, dv, small, large, e);
  }

  lemma MergedBounds(l: Layout, p: int, e: int)
    requires Tiled(l) && p in l.sizes && e in l.used && p < e
    ensures l.base <= p && e <= l.top && (e - p) % 8 == 0
  {
    hide Tiled;
    UsedAreChunks(l);
    MergedTiled(l, p, e, false);
    ChunkBounds(l, p);
    ChunkBounds(l, e);
    ChunkBounds(Merged(l, p, e, false), p);
  }

  /** A chunk in use that is to be freed; without a free chunk in front it is the region. */
  lemma ChunkInUse(l: Layout, head: Heads, foot: Feet, limit: nat, dv: int, dvsize: nat, p: int)
    requires HeapOk(l, head, foot, limit) && VictimOk(l, dv, dvsize) && p in l.used && p in l.sizes && l.base > 0
    ensures var n := p + l.sizes[p];
      && p in head && head[p].cinuse && head[p].size == l.sizes[p] && dv != p
      && n in head && head[n].pinuse && Boundary(l, n) && (n in l.used <==> head[n].cinuse)
      && (head[p].pinuse ==> Region(l, head, dv, {}, p, n) && LiveOutside(l, p, n) == Live(l) - {p})
  {
    hide Tiled, Coalesced, Tags, TopOk;
    BoundaryTags(l, head, foot, limit, p);
    UsedAhead(l, head, foot, limit, p, dv);
    ChunkBounds(l, p);
    OnlyChunkInside(l, p);
    NothingBeyondTop(l);
    LiveButOne(l, p, p, p + l.sizes[p]);
  }

  lemma LiveButOne(l: Layout, p0: int, p: int, n: int)
    requires p <= p0 < n && forall q :: q in l.sizes && q in l.used && p <= q < n ==> q == p0
    ensures LiveOutside(l, p, n) == Live(l) - {p0}
  {
  }

  /** The free chunk in front of one to be freed joins the region. */
  lemma FreeInFront(l: Layout, head: Heads, foot: Feet, limit: nat, dv: int, dvsize: nat, p: int)
    requires HeapOk(l, head, foot, limit) && VictimOk(l, dv, dvsize) && p in l.used && p in l.sizes && l.base > 0
    requires p in head && !head[p].pinuse
    ensures p in foot
    ensures var q, n := p - foot[p], p + l.sizes[p];
      && IsFree(l, q) && l.sizes[q] == foot[p] && l.base <= q < p && q in head && head[q].pinuse
      && (q == dv ==> VictimOk(l, q, l.sizes[q]) && dvsize == l.sizes[q])
      && Region(l, head, dv, if q == dv then {} else {q}, q, n) && LiveOutside(l, q, n) == Live(l) - {p}
      && Emptied(l, dv, if q == dv then {} else {q}, q, n)
      && (n in l.used ==> Live(Merged(l, q, n, false)) == Live(l) - {p})
  {
    hide Tiled, Coalesced, Tags, TopOk;
    PreviousFree(l, head, foot, limit, p);
    var q := p - foot[p];
    UsedAhead(l, head, foot, limit, p, dv);
    ChunkBounds(l, p);
    ChunkBounds(l, q);
    OnlyChunkInside(l, p);
    OnlyChunkInside(l, q);
    NothingBeyondTop(l);
    LiveButOne(l, p, q, p + l.sizes[p]);
    LiveFreed(l, q, p + l.sizes[p], p + l.sizes[p]);
  }

  /** A free chunk cut into one in use and a free rest. */
  lemma Carved(l: Layout, head: Heads, foot: Feet, limit: nat, p: int, n: nat)
    requires HeapOk(l, head, foot, limit) && IsFree(l, p)
    requires MIN_CHUNK_SIZE <= n && n % MALLOC_ALIGNMENT == 0 && n + MIN_CHUNK_SIZE <= l.sizes[p]
    ensures var s := l.sizes[p];
      var m := Merged(l, p, p + s, true);
      var head' := SetSizeOfFree(SetSizeOfInuse(head, p, n), p + n, s - n);
      && p in m.sizes && n <= m.sizes[p] == s && l.base <= p && p + s <= l.top
      && HeapOk(Cut(m, p, n, false), head', foot[p + s := s - n], limit)
      && Cut(m, p, n, false).base == l.base && Cut(m, p, n, false).top == l.top
      && Live(Cut(m, p, n, false)) == Live(l)[p := n]
      && p + n !in l.sizes && p + n !in l.used && p + n !in m.sizes && p + n !in m.used
      && forall x :: x in head && x != p && x != p + n ==> x in head' && head'[x].size == head[x].size
  {
    hide Tiled, Coalesced, Tags, TopOk;
    var s := l.sizes[p];
    ChunkBounds(l, p);
    OnlyChunkInside(l, p);
    FreeIsPreceded(l, head, foot, limit, p);
    FreeNeighbour(l, head, foot, limit, p);
    NextOf(l, head, foot, limit, p);
    UsedAreChunks(l);
    var head' := SetSizeOfFree(SetSizeOfInuse(head, p, n), p + n, s - n);
    assert head' == head[p := Head(n, true, head[p].pinuse)][p + n := Head(s - n, false, true)]
                        [p + s := head[p + s].(pinuse := false)];
    SplitRegion(l, head, foot, limit, p, p + s, n, head', foot[p + s := s - n]);
    LiveCarved(l, p, n);
  }

  lemma LiveCarved(l: Layout, p: int, n: nat)
    requires IsFree(l, p) && 0 < n < l.sizes[p] && p + n !in l.sizes && p + n !in l.used
    requires forall q :: q in l.sizes && p <= q < p + l.sizes[p] ==> q == p
    ensures Live(Cut(Merged(l, p, p + l.sizes[p], true), p, n, false)) == Live(l)[p := n]
  {
    LiveTaken(l, p);
  }

  /** Carving for a new victim: the old one, if there is one, is filed. */
  lemma VictimReplaced(l: Layout, head: Heads, foot: Feet, limit: nat, dv: int, dvsize: nat,
                       small: map<int, nat>, large: map<int, nat>, p: int, n: nat)
    requires HeapOk(l, head, foot, limit) && VictimOk(l, dv, dvsize) && AllFiled(l, dv, small, large) && l.base > 0
    requires IsFree(l, p) && p != dv && IsSmall(dvsize)
    requires MIN_CHUNK_SIZE <= n && n % MALLOC_ALIGNMENT == 0 && n + MIN_CHUNK_SIZE <= l.sizes[p]
    ensures var s, small1 := l.sizes[p], small - {p};
      var m := Merged(l, p, p + s, true);
      && p in m.sizes && m.sizes[p] == s && l.base <= p
      && AllFiled(Cut(m, p, n, false), p + n, if dvsize == 0 then small1 else small1[dv := dvsize], large - {p})
      && VictimOk(Cut(m, p, n, false), p + n, s - n)
      && (dvsize != 0 ==> dv !in small && dv >= l.base && dvsize % 8 == 0)
  {
    hide HeapOk, Tiled, AllFiled, Cut;
    TiledIn(l, head, foot, limit);
    ChunkBounds(l, p);
    Carved(l, head, foot, limit, p, n);
    FiledAt(l, dv, small, large, dv);
    if dvsize != 0 { ChunkBounds(l, dv); }
    OldVictimFiled(l, head, foot, limit, dv, dvsize, small, large, p, n);
    RestIsVictim(Merged(l, p, p + l.sizes[p], true), p, n);
  }

  lemma OldVictimFiled(l: Layout, head: Heads, foot: Feet, limit: nat, dv: int, dvsize: nat,
                       small: map<int, nat>, large: map<int, nat>, p: int, n: nat)
    requires HeapOk(l, head, foot, limit) && VictimOk(l, dv, dvsize) && AllFiled(l, dv, small, large) && l.base > 0
    requires IsFree(l, p) && p != dv && IsSmall(dvsize)
    requires MIN_CHUNK_SIZE <= n && n % MALLOC_ALIGNMENT == 0 && n + MIN_CHUNK_SIZE <= l.sizes[p]
    ensures var m, small1 := Merged(l, p, p + l.sizes[p], true), small - {p};
      && p in m.sizes && n <= m.sizes[p]
      && AllFiled(Cut(m, p, n, false), p + n, if dvsize == 0 then small1 else small1[dv := dvsize], large - {p})
  {
    hide HeapOk, Tiled, AllFiled, Cut;
    TiledIn(l, head, foot, limit);
    var s, small1, large1 := l.sizes[p], small - {p}, large - {p};
    ChunkBounds(l, p);
    OnlyChunkInside(l, p);
    NothingBeyondTop(l);
    Carved(l, head, foot, limit, p, n);
    FiledAfterUse(l, dv, small, large, p, p + s, {p}, dv, small1, large1);
    FiledAfterVictim(Merged(l, p, p + s, true), dv, small1, large1, p, n,
      if dvsize == 0 then small1 else small1[dv := dvsize]);
  }

  lemma RestIsVictim(l: Layout, p: int, n: nat)
    requires p in l.sizes && n < l.sizes[p] && p + n !in l.used && n > 0
    ensures VictimOk(Cut(l, p, n, false), p + n, l.sizes[p] - n)
  {
  }

  /** Carving a chunk that was binned: the rest is filed. */
  lemma RestFiled(l: Layout, head: Heads, foot: Feet, limit: nat, dv: int, dvsize: nat,
                  small: map<int, nat>, large: map<int, nat>, p: int, n: nat)
    requires HeapOk(l, head, foot, limit) && VictimOk(l, dv, dvsize) && AllFiled(l, dv, small, large) && l.base > 0
    requires IsFree(l, p) && p != dv
    requires MIN_CHUNK_SIZE <= n && n % MALLOC_ALIGNMENT == 0 && n + MIN_CHUNK_SIZE <= l.sizes[p]
    ensures var s, small1, large1 := l.sizes[p], small - {p}, large - {p};
      var m := Merged(l, p, p + s, true);
      && p in m.sizes && m.sizes[p] == s && l.base <= p && p + s <= l.top
      && AllFiled(Cut(m, p, n, false), dv, SmallWith(small1, p + n, s - n), LargeWith(large1, p + n, s - n))
      && VictimOk(Cut(m, p, n, false), dv, dvsize)
    ensures (l.sizes[p] - n) % 8 == 0 && p + n !in small && p + n !in large
    ensures forall x :: x in large && x != p ==> x in head && head[x].size == large[x] && x != p + n
  {
    hide HeapOk, AllFiled, VictimOk, Cut, Merged;
    Carved(l, head, foot, limit, p, n);
    RestOfVictim(l, head, foot, limit, dv, dvsize, p, n);
    RestInBins(l, head, foot, limit, dv, dvsize, small, large, p, n);
    FiledAt(l, dv, small, large, p + n);
    LargeInHeap(l, head, foot, limit, dv, small, large);
  }

  lemma LargeInHeap(l: Layout, head: Heads, foot: Feet, limit: nat, dv: int, small: map<int, nat>, large: map<int, nat>)
    requires HeapOk(l, head, foot, limit) && AllFiled(l, dv, small, large)
    ensures forall x :: x in large ==> x in head && head[x].size == large[x]
  {
    hide Tiled, Coalesced, Tags, TopOk, AllFiled;
    LargeAgrees(l, head, foot, dv, small, large);
  }

  lemma RestOfVictim(l: Layout, head: Heads, foot: Feet, limit: nat, dv: int, dvsize: nat, p: int, n: nat)
    requires HeapOk(l, head, foot, limit) && VictimOk(l, dv, dvsize) && IsFree(l, p) && p != dv && 0 < n < l.sizes[p]
    requires n % MALLOC_ALIGNMENT == 0
    ensures var m := Merged(l, p, p + l.sizes[p], true);
      p in m.sizes && m.sizes[p] == l.sizes[p] && VictimOk(Cut(m, p, n, false), dv, dvsize)
    ensures (l.sizes[p] - n) % 8 == 0
  {
    hide Tiled, Coalesced, Tags, TopOk, VictimOk;
    ChunkBounds(l, p);
    AlignedDifference(l.sizes[p], n);
    OnlyChunkInside(l, p);
    VictimOnCarve(l, p, l.sizes[p], n, dv, dvsize);
  }

  lemma RestInBins(l: Layout, head: Heads, foot: Feet, limit: nat, dv: int, dvsize: nat,
                   small: map<int, nat>, large: map<int, nat>, p: int, n: nat)
    requires HeapOk(l, head, foot, limit) && VictimOk(l, dv, dvsize) && AllFiled(l, dv, small, large) && l.base > 0
    requires IsFree(l, p) && p != dv
    requires MIN_CHUNK_SIZE <= n && n % MALLOC_ALIGNMENT == 0 && n + MIN_CHUNK_SIZE <= l.sizes[p]
    ensures var s, m := l.sizes[p], Merged(l, p, p + l.sizes[p], true);
      && p in m.sizes && n <= m.sizes[p]
      && AllFiled(Cut(m, p, n, false), dv, SmallWith(small - {p}, p + n, s - n), LargeWith(large - {p}, p + n, s - n))
  {
    hide Tiled, Coalesced, Tags, TopOk, AllFiled, SmallWith, LargeWith;
    var s, small1, large1 := l.sizes[p], small - {p}, large - {p};
    ChunkBounds(l, p);
    OnlyChunkInside(l, p);
    NothingBeyondTop(l);
    Carved(l, head, foot, limit, p, n);
    FiledAt(l, dv, small, large, p + n);
    FiledAfterUse(l, dv, small, large, p, p + s, {p}, dv, small1, large1);
    FiledAfterCut(Merged(l, p, p + s, true), dv, small1, large1, p, n, dv,
      SmallWith(small1, p + n, s - n), LargeWith(large1, p + n, s - n));
  }

  /** Carving the victim: the rest is the victim. */
  lemma VictimShrinks(l: Layout, head: Heads, foot: Feet, limit: nat, dv: int,
                      small: map<int, nat>, large: map<int, nat>, n: nat)
    requires HeapOk(l, head, foot, limit) && AllFiled(l, dv, small, large) && l.base > 0 && IsFree(l, dv)
    requires MIN_CHUNK_SIZE <= n && n % MALLOC_ALIGNMENT == 0 && n + MIN_CHUNK_SIZE <= l.sizes[dv]
    ensures var s := l.sizes[dv];
      var m := Merged(l, dv, dv + s, true);
      && dv in m.sizes && m.sizes[dv] == s
      && AllFiled(Cut(m, dv, n, false), dv + n, small, large) && VictimOk(Cut(m, dv, n, false), dv + n, s - n)
  {
    hide Tiled, Coalesced, Tags, TopOk, AllFiled;
    var s := l.sizes[dv];
    ChunkBounds(l, dv);
    OnlyChunkInside(l, dv);
    NothingBeyondTop(l);
    Carved(l, head, foot, limit, dv, n);
    assert small - {} == small && large - {} == large;
    FiledAfterUse(l, dv, small, large, dv, dv + s, {}, 0, small, large);
    FiledAfterVictim(Merged(l, dv, dv + s, true), 0, small, large, dv, n, small);
  }

  lemma FreeChunk(l: Layout, head: Heads, foot: Feet, limit: nat, p: int)
    requires HeapOk(l, head, foot, limit) && IsFree(l, p)
    ensures l.base <= p < l.top && p !in Live(l)
  {
    hide Coalesced, Tags, TopOk;
    ChunkBounds(l, p);
  }

  /** Taking one more free chunk into the region. */
  lemma RegionExtended(l: Layout, p: int, n: int, gone: set<int>, dv: int)
    requires Tiled(l) && IsFree(l, n) && p < n && Emptied(l, dv, gone, p, n)
    ensures n !in gone && Emptied(l, dv, gone + {n}, p, n + l.sizes[n])
    ensures n == dv ==> Emptied(l, dv, gone, p, n + l.sizes[n])
    ensures forall q :: q in l.sizes && n <= q < n + l.sizes[n] ==> q == n
  {
    assert ChunkAt(l, n);
  }
}
