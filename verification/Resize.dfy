/** Resizing in place and aligned allocation, on top of malloc and the disposal of chunks. */
module Resize {
  import opened SizeClasses
  import opened Chunks
  import opened HeapLayout
  import opened Malloc
  import SB = SmallBins
  import TB = TreeBins

  /** All of a live chunk but its front is given back: its tail becomes a chunk and is disposed of. */
  method GiveBackTail(h: Heap, p: int, nb: nat) returns (ok: bool)
    requires h.Valid() && p in h.LiveChunks()
    requires MIN_CHUNK_SIZE <= nb && nb % MALLOC_ALIGNMENT == 0 && nb + MIN_CHUNK_SIZE <= h.LiveChunks()[p]
    modifies h, h.small, h.large
    ensures ok && h.Valid() && h.LiveChunks() == old(h.LiveChunks())[p := nb]
    ensures h.VictimKept(old(h.dv), old(h.dvsize), old(h.top))
  {
    hide Tiled, Coalesced, Tags, TopOk, AllFiled, SB.SmallBins.Valid, TB.TreeBins.Valid, VictimOk, Heap.VictimKept;
    ghost var l := h.layout;
    BoundaryTags(l, h.head, h.foot, h.limit, p);
    UsedAhead(l, h.head, h.foot, h.limit, p, h.dv);
    var rsize := HeadAt(h.head, p).size - nb;
    var r := p + nb;
    h.head := SetInuse(h.head, p, nb);
    h.head := SetInuse(h.head, r, rsize);
    CutUsed(l, old(h.head), h.foot, h.limit, p, nb, h.head);
    h.layout := Cut(l, p, nb, true);
    CutKeepsFree(l, p, nb, h.dv, h.dvsize, h.small.Sizes(), h.large.Sizes());
    ok := h.DisposeChunk(r, rsize);
  }

  /** try_realloc_chunk on a chunk of this segment; 0 stands for failure. */
  method TryReallocChunk(h: Heap, p: int, nb: nat) returns (ok: bool, newp: int)
    requires h.Valid() && p in h.LiveChunks()
    requires MIN_CHUNK_SIZE <= nb < WORD && nb % MALLOC_ALIGNMENT == 0
    modifies h, h.small, h.large
    ensures ok && h.Valid()
    ensures newp == if old(RoomFor(h.layout, h.topsize, p, nb)) then p else 0
    ensures newp == 0 ==> unchanged(h) && unchanged(h.small) && unchanged(h.large)
    ensures newp == 0 ==> h.LiveChunks() == old(h.LiveChunks())
    ensures newp != 0 ==>
      && p in h.LiveChunks() && h.LiveChunks() == old(h.LiveChunks())[p := h.LiveChunks()[p]]
      && nb <= h.LiveChunks()[p] < nb + MIN_CHUNK_SIZE
      && Resized(h, old(h.layout), old(h.dv), old(h.dvsize), old(h.top), p, nb)
  {
    hide Tiled, Coalesced, Tags, TopOk, AllFiled, SB.SmallBins.Valid, TB.TreeBins.Valid, VictimOk, Heap.VictimKept;
    ok, newp := true, 0;
    ghost var l := h.layout;
    ChunkBounds(l, p);
    BoundaryTags(l, h.head, h.foot, h.limit, p);
    UsedAhead(l, h.head, h.foot, h.limit, p, h.dv);
    var oldsize := HeadAt(h.head, p).size;
    var next := p + oldsize;
    BoundaryTags(l, h.head, h.foot, h.limit, next);
    VictimPlace(l, h.dv, h.dvsize);
    if p >= h.leastAddr && HeadAt(h.head, p).cinuse && p < next && HeadAt(h.head, next).pinuse {
      if oldsize >= nb {
        if oldsize - nb >= MIN_CHUNK_SIZE {
          ok := GiveBackTail(h, p, nb);
        } else {
          h.VictimCovers(h.dv, h.dvsize, h.top);
        }
        newp := p;
      } else if next == h.top {
        if oldsize + h.topsize > nb {
          ExtendIntoTop(h, p, oldsize, nb);
          newp := p;
        }
      } else if next == h.dv {
        if oldsize + h.dvsize >= nb {
          ExtendIntoVictim(h, p, oldsize, nb);
          newp := p;
        }
      } else if !HeadAt(h.head, next).cinuse {
        if oldsize + HeadAt(h.head, next).size >= nb {
          ok := ExtendIntoNext(h, p, oldsize, nb);
          newp := p;
        }
      }
    } else {
      ok := false;
    }
  }

  /**
    What resizing the chunk p of layout l leaves behind: it keeps what is too small for a chunk, and a rest of
    the victim is the victim.
    */
  ghost predicate Resized(h: Heap, l: Layout, dv0: int, dvsize0: nat, top0: nat, p: int, nb: nat)
    reads h
  {
    && p in l.sizes && p in h.LiveChunks()
    && var next := Next(l, p);
       var room := l.sizes[p] + if l.sizes[p] < nb && next in l.sizes then l.sizes[next] else 0;
       && h.LiveChunks()[p] == (if room < nb || room - nb >= MIN_CHUNK_SIZE then nb else room)
       && if l.sizes[p] < nb && next == l.top then h.dv == dv0 && h.dvsize == dvsize0
          else if l.sizes[p] < nb && next == dv0 then
            if room - nb >= MIN_CHUNK_SIZE then h.dv == p + nb && h.dvsize == room - nb else h.dv == 0 && h.dvsize == 0
          else h.VictimKept(dv0, dvsize0, top0)
  }

  /** What is behind p, up to the next chunk in use, makes room for nb bytes; top has to keep a rest. */
  ghost predicate RoomFor(l: Layout, topsize: nat, p: int, nb: nat) {
    p in l.sizes && (
      || l.sizes[p] >= nb
      || (Next(l, p) == l.top && l.sizes[p] + topsize > nb)
      || (IsFree(l, Next(l, p)) && l.sizes[p] + l.sizes[Next(l, p)] >= nb))
  }

  /** Extending into top. */
  method ExtendIntoTop(h: Heap, p: int, oldsize: nat, nb: nat)
    requires h.Valid() && p in h.LiveChunks() && oldsize == h.LiveChunks()[p] && p + oldsize == h.top
    requires oldsize < nb < oldsize + h.topsize && nb % MALLOC_ALIGNMENT == 0
    modifies h
    ensures h.Valid() && h.LiveChunks() == old(h.LiveChunks())[p := nb]
    ensures h.dv == old(h.dv) && h.dvsize == old(h.dvsize)
  {
    hide Tiled, Coalesced, Tags, TopOk, AllFiled, SB.SmallBins.Valid, TB.TreeBins.Valid, VictimOk;
    ghost var l := h.layout;
    ChunkBounds(l, p);
    BoundaryTags(l, h.head, h.foot, h.limit, p);
    var newsize := oldsize + h.topsize;
    var newtopsize := newsize - nb;
    var newtop := p + nb;
    h.head := SetInuse(h.head, p, nb);
    h.head := h.head[newtop := Head(newtopsize, false, true)];
    h.top := newtop;
    h.topsize := newtopsize;
    GrowIntoTop(l, old(h.head), h.foot, h.limit, p, nb, h.head);
    h.layout := GrownIntoTop(l, p, nb);
    SameFree(l, h.dv, h.dvsize, h.small.Sizes(), h.large.Sizes(), h.layout);
  }

  /** Extending into the designated victim, of which a large enough rest stays the victim. */
  method ExtendIntoVictim(h: Heap, p: int, oldsize: nat, nb: nat)
    requires h.Valid() && p in h.LiveChunks() && oldsize == h.LiveChunks()[p] && p + oldsize == h.dv
    requires oldsize < nb <= oldsize + h.dvsize && nb % MALLOC_ALIGNMENT == 0 && MIN_CHUNK_SIZE <= nb
    modifies h
    ensures var room := oldsize + old(h.dvsize);
      if room - nb >= MIN_CHUNK_SIZE then
        h.Valid() && h.LiveChunks() == old(h.LiveChunks())[p := nb] && h.dv == p + nb && h.dvsize == room - nb
      else
        h.Valid() && h.LiveChunks() == old(h.LiveChunks())[p := room] && h.dv == 0 && h.dvsize == 0
  {
    hide HeapOk, AllFiled, SB.SmallBins.Valid, TB.TreeBins.Valid, VictimOk, Live, Merged, Cut;
    hide SetInuse, SetSizeOfFree, SetPinuse;
    ghost var l, small0, large0 := h.layout, h.small.Sizes(), h.large.Sizes();
    ghost var e := h.dv + h.dvsize;
    ghost var m := Merged(l, p, e, true);
    VictimPlace(l, h.dv, h.dvsize);
    LiveIs(l, p);
    RegionWithNext(l, h.head, h.foot, h.limit, p);
    VictimTaken(l, h.dv, small0, large0, p, e);
    LiveWhole(l, p, e);
    var dvs := h.dvsize;
    var dsize := oldsize + dvs - nb;
    if dsize >= MIN_CHUNK_SIZE {
      var r := p + nb;
      var n := r + dsize;
      h.head := SetInuse(h.head, p, nb);
      h.head := SetSizeOfFree(h.head, r, dsize);
      h.foot := h.foot[n := dsize];
      h.head := SetPinuse(h.head, n, false);
      h.dvsize := dsize;
      h.dv := r;
      VictimCut(l, old(h.head), old(h.foot), h.limit, p, e, nb, m, small0, large0, h.head, h.foot);
      h.layout := Cut(m, p, nb, false);
      LiveCut(m, p, nb);
    } else {
      var newsize := oldsize + dvs;
      h.head := SetInuse(h.head, p, newsize);
      h.dvsize := 0;
      h.dv := 0;
      WholeInUse(l, old(h.head), h.foot, h.limit, p, e);
      h.layout := m;
      NoVictim(m);
    }
  }

  /** The victim's front goes to p, its rest is the victim; `m` has the region as one chunk in use. */
  lemma VictimCut(l: Layout, head: Heads, foot: Feet, limit: nat, p: int, e: int, n: nat, m: Layout,
                  small: map<int, nat>, large: map<int, nat>, head': Heads, foot': Feet)
    requires HeapOk(l, head, foot, limit) && p in l.sizes && e in l.used && p < e && p in head && e in head
    requires m == Merged(l, p, e, true) && AllFiled(m, 0, small, large) && 0 !in m.sizes
    requires MIN_CHUNK_SIZE <= n && n % MALLOC_ALIGNMENT == 0 && p + n + MIN_CHUNK_SIZE <= e
    requires head' == SetPinuse(SetSizeOfFree(SetInuse(head, p, n), p + n, e - p - n), e, false)
    requires foot' == foot[e := e - p - n]
    ensures p in m.sizes && p + n !in m.used && m.sizes[p] == e - p
    ensures HeapOk(Cut(m, p, n, false), head', foot', limit) && AllFiled(Cut(m, p, n, false), p + n, small, large)
    ensures VictimOk(Cut(m, p, n, false), p + n, e - p - n)
  {
    hide HeapOk, AllFiled, VictimOk, Cut;
    VictimCutTags(head, p, e, n);
    SplitRegion(l, head, foot, limit, p, e, n, head', foot');
    UsedAreChunksIn(l, head, foot, limit);
    CutOfMerged(l, p, e, n) by { TiledIn(l, head, foot, limit); }
    FiledAfterVictim(m, 0, small, large, p, n, small);
    RestIsVictim(m, p, n);
  }

  lemma WholeInUse(l: Layout, head: Heads, foot: Feet, limit: nat, p: int, e: int)
    requires HeapOk(l, head, foot, limit) && p in l.sizes && Boundary(l, e) && p < e && p in head && e in head
    ensures HeapOk(Merged(l, p, e, true), SetInuse(head, p, e - p), foot, limit)
  {
    hide HeapOk;
    UseRegion(l, head, foot, limit, p, e, SetInuse(head, p, e - p));
  }

  lemma VictimCutTags(head: Heads, p: int, e: int, n: nat)
    requires p in head && e in head && 0 < n && p + n < e
    ensures SetPinuse(SetSizeOfFree(SetInuse(head, p, n), p + n, e - p - n), e, false)
         == head[p := Head(n, true, head[p].pinuse)][p + n := Head(e - p - n, false, true)]
                [e := head[e].(pinuse := false)]
  {
  }

  /** Extending into a binned free chunk, a large enough rest of which is disposed of. */
  method ExtendIntoNext(h: Heap, p: int, oldsize: nat, nb: nat) returns (ok: bool)
    requires h.Valid() && p in h.LiveChunks() && oldsize == h.LiveChunks()[p] && p + oldsize != h.dv
    requires IsFree(h.layout, p + oldsize) && nb % MALLOC_ALIGNMENT == 0 && MIN_CHUNK_SIZE <= nb
    requires oldsize < nb <= oldsize + h.layout.sizes[p + oldsize]
    modifies h, h.small, h.large
    ensures ok && h.Valid() && h.VictimKept(old(h.dv), old(h.dvsize), old(h.top))
    ensures var room := oldsize + old(h.layout.sizes[p + oldsize]);
      h.LiveChunks() == old(h.LiveChunks())[p := if room - nb >= MIN_CHUNK_SIZE then nb else room]
  {
    hide Tiled, Coalesced, Tags, TopOk, AllFiled, SB.SmallBins.Valid, TB.TreeBins.Valid, VictimOk, Live, Merged, Cut,
      Heap.VictimKept;
    ghost var l, small0, large0 := h.layout, h.small.Sizes(), h.large.Sizes();
    var next := p + oldsize;
    LiveIs(l, p);
    RegionWithNext(l, h.head, h.foot, h.limit, p);
    FiledAt(l, h.dv, small0, large0, next);
    VictimPlace(l, h.dv, h.dvsize);
    var nextsize := HeadAt(h.head, next).size;
    ghost var e := next + nextsize;
    ghost var m := Merged(l, p, e, true);
    var rsize := oldsize + nextsize - nb;
    ok := h.UnlinkChunk(next, nextsize);
    FiledAfterUse(l, h.dv, small0, large0, p, e, {next}, h.dv, h.small.Sizes(), h.large.Sizes());
    VictimOutside(l, p, e, h.dv, h.dvsize);
    LiveWhole(l, p, e);
    ghost var whole := SetInuse(h.head, p, oldsize + nextsize);
    WholeInUse(l, h.head, h.foot, h.limit, p, e);
    if rsize < MIN_CHUNK_SIZE {
      h.head := SetInuse(h.head, p, oldsize + nextsize);
      h.layout := m;
      h.VictimCovers(h.dv, h.dvsize, h.top);
    } else {
      var ok' := SplitWhole(h, p, nb, rsize, whole, m);
      ok := ok && ok';
    }
  }

  /** The end of extending into a free chunk: `whole` shows the extended chunk, which is cut and its tail given back. */
  method SplitWhole(h: Heap, p: int, nb: nat, rsize: nat, ghost whole: Heads, ghost m: Layout) returns (ok: bool)
    requires h.small.Valid() && h.large.Valid() && h.Bounds() && m.base == h.base && m.top == h.layout.top
    requires HeapOk(m, whole, h.foot, h.limit) && VictimOk(m, h.dv, h.dvsize)
    requires AllFiled(m, h.dv, h.small.Sizes(), h.large.Sizes())
    requires p in m.used && p in m.sizes && m.sizes[p] == nb + rsize && p in whole
    requires whole == SetInuse(h.head, p, nb + rsize)
    requires nb % MALLOC_ALIGNMENT == 0 && MIN_CHUNK_SIZE <= nb && MIN_CHUNK_SIZE <= rsize
    modifies h, h.small, h.large
    ensures ok && h.Valid() && h.LiveChunks() == Live(m)[p := nb]
    ensures h.VictimKept(old(h.dv), old(h.dvsize), old(h.top))
  {
    hide HeapOk, AllFiled, SB.SmallBins.Valid, TB.TreeBins.Valid, VictimOk, SetInuse, Live, Heap.VictimKept;
    CutWhole(m, h.head, h.foot, h.limit, p, nb, rsize, whole);
    CutKeepsFree(m, p, nb, h.dv, h.dvsize, h.small.Sizes(), h.large.Sizes()) by { TiledIn(m, whole, h.foot, h.limit); }
    var r := p + nb;
    h.head := SetInuse(h.head, p, nb);
    h.head := SetInuse(h.head, r, rsize);
    h.layout := Cut(m, p, nb, true);
    ok := h.DisposeChunk(r, rsize);
  }

  /** The extended chunk cut in two chunks in use, the second of which is to be freed. */
  lemma CutWhole(m: Layout, head: Heads, foot: Feet, limit: nat, p: int, n: nat, rest: nat, whole: Heads)
    requires HeapOk(m, whole, foot, limit) && p in m.used && p in m.sizes && m.sizes[p] == n + rest && p in whole
    requires whole == SetInuse(head, p, n + rest)
    requires n % MALLOC_ALIGNMENT == 0 && MIN_CHUNK_SIZE <= n && MIN_CHUNK_SIZE <= rest
    ensures HeapOk(Cut(m, p, n, true), SetInuse(SetInuse(head, p, n), p + n, rest), foot, limit)
    ensures Live(Cut(m, p, n, true)) - {p + n} == Live(m)[p := n]
  {
    hide HeapOk;
    CutUsed(m, whole, foot, limit, p, n, SetInuse(SetInuse(head, p, n), p + n, rest));
    CutTiled(m, p, n, true) by { TiledIn(m, whole, foot, limit); }
    UsedAreChunksIn(m, whole, foot, limit);
  }

  // ---------------------------------------------------------------- facts about single steps

  /** The free chunks, the bins and the victim are the same in both layouts. */
  lemma SameFree(l: Layout, dv: int, dvsize: nat, small: map<int, nat>, large: map<int, nat>, l': Layout)
    requires AllFiled(l, dv, small, large) && VictimOk(l, dv, dvsize)
    requires forall q :: IsFree(l', q) <==> IsFree(l, q)
    requires forall q :: IsFree(l, q) ==> q in l'.sizes && l'.sizes[q] == l.sizes[q]
    ensures AllFiled(l', dv, small, large) && VictimOk(l', dv, dvsize)
  {
    FiledSameFree(l, dv, small, large, l');
  }

  lemma CutKeepsFree(l: Layout, p: int, n: nat, dv: int, dvsize: nat, small: map<int, nat>, large: map<int, nat>)
    requires Tiled(l) && p in l.used && p in l.sizes && MIN_CHUNK_SIZE <= n && n % MALLOC_ALIGNMENT == 0
    requires n + MIN_CHUNK_SIZE <= l.sizes[p] && AllFiled(l, dv, small, large) && VictimOk(l, dv, dvsize)
    ensures AllFiled(Cut(l, p, n, true), dv, small, large) && VictimOk(Cut(l, p, n, true), dv, dvsize)
    ensures p + n !in l.used && p + n !in l.sizes
  {
    CutTiled(l, p, n, true);
    SameFree(l, dv, dvsize, small, large, Cut(l, p, n, true));
  }

  lemma CutOfMerged(l: Layout, p: int, e: int, n: nat)
    requires Tiled(l) && p in l.sizes && Boundary(l, e) && MIN_CHUNK_SIZE <= n && n % MALLOC_ALIGNMENT == 0
    requires p + n + MIN_CHUNK_SIZE <= e
    ensures var m := Merged(l, p, e, true); p + n !in m.sizes && p + n !in m.used
  {
    MergedTiled(l, p, e, true);
    CutTiled(Merged(l, p, e, true), p, n, false);
  }

  lemma NoVictim(l: Layout)
    ensures VictimOk(l, 0, 0)
  {
  }

  lemma LiveIs(l: Layout, p: int)
    ensures p in Live(l) <==> p in l.sizes && p in l.used
    ensures p in Live(l) ==> Live(l)[p] == l.sizes[p]
  {
  }

  /** The live chunks when a chunk in use takes in what is free behind it. */
  lemma LiveWhole(l: Layout, p: int, e: int)
    requires p in l.used && p in l.sizes && p < e
    requires forall q :: q in l.sizes && p <= q < e ==> q == p || q !in l.used
    ensures var m := Merged(l, p, e, true);
      && Live(m) == Live(l)[p := e - p] && m.base == l.base && m.top == l.top
      && p in m.used && p in m.sizes && m.sizes[p] == e - p
    ensures 0 !in l.sizes && p > 0 ==> 0 !in Merged(l, p, e, true).sizes
  {
  }

  lemma LiveCut(m: Layout, p: int, n: nat)
    requires p in m.used && p in m.sizes && 0 < n <= m.sizes[p] && p + n !in m.used
    ensures var l' := Cut(m, p, n, false); Live(l') == Live(m)[p := n] && l'.base == m.base && l'.top == m.top
  {
  }

  lemma VictimTaken(l: Layout, dv: int, small: map<int, nat>, large: map<int, nat>, p: int, e: int)
    requires AllFiled(l, dv, small, large) && p in l.sizes && 0 < p < e && 0 !in l.sizes && p <= dv < e
    requires forall q :: q in l.sizes && p <= q < e && IsFree(l, q) ==> q == dv
    ensures AllFiled(Merged(l, p, e, true), 0, small, large)
  {
    assert small - {} == small && large - {} == large;
    FiledAfterUse(l, dv, small, large, p, e, {}, 0, small, large);
  }

  /** A chunk in use and the free chunk behind it. */
  lemma RegionWithNext(l: Layout, head: Heads, foot: Feet, limit: nat, p: int)
    requires HeapOk(l, head, foot, limit) && p in l.used && p in l.sizes && IsFree(l, p + l.sizes[p]) && l.base > 0
    ensures var n := p + l.sizes[p]; var e := n + l.sizes[n];
      && l.base <= p && p < n < e && e in l.used && e in l.sizes && p in head && e in head && n in head
      && e % MALLOC_ALIGNMENT == 0 && p % MALLOC_ALIGNMENT == 0
      && head[e].cinuse && head[n].size == l.sizes[n] && 0 !in l.sizes
      && forall q :: q in l.sizes && p <= q < e ==> q == p || q == n
  {
    hide Tiled, Coalesced, Tags, TopOk;
    var n := p + l.sizes[p];
    UsedAreChunks(l);
    ChunkBounds(l, p);
    ChunkBounds(l, n);
    OnlyChunkInside(l, p);
    OnlyChunkInside(l, n);
    BoundaryTags(l, head, foot, limit, p);
    FreeNeighbour(l, head, foot, limit, n);
    BoundaryTags(l, head, foot, limit, n + l.sizes[n]);
    ChunkBounds(l, n + l.sizes[n]);
    NothingBeyondTop(l);
  }

  lemma VictimOutside(l: Layout, p: int, e: int, dv: int, dvsize: nat)
    requires p < e && VictimOk(l, dv, dvsize) && !(p <= dv < e)
    ensures VictimOk(Merged(l, p, e, true), dv, dvsize)
  {
  }
}
