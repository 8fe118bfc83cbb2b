/**
  The chunks of a segment and their boundary tags. A layout says where chunks start, how large they are
  and which are in use; the tags are the head and foot fields in memory that must spell it out.
  */
module HeapLayout {
  import opened SizeClasses
  import opened Chunks

  type Heads = map<int, Head>
  type Feet = map<int, nat>

  /** The chunks between base and top (top itself not included), by start address. */
  datatype Layout = Layout(base: nat, top: nat, sizes: map<int, nat>, used: set<int>)

  function Next(l: Layout, p: int): int
    requires p in l.sizes
  {
    p + l.sizes[p]
  }

  predicate Boundary(l: Layout, q: int) {
    q in l.sizes || q == l.top
  }

  predicate IsFree(l: Layout, p: int) {
    p in l.sizes && p !in l.used
  }

  ghost predicate ChunkAt(l: Layout, p: int) {
    && p in l.sizes && l.base <= p && p % MALLOC_ALIGNMENT == 0
    && l.sizes[p] >= MIN_CHUNK_SIZE && l.sizes[p] % MALLOC_ALIGNMENT == 0
    && Next(l, p) <= l.top && Boundary(l, Next(l, p))
  }

  ghost predicate Disjoint(sizes: map<int, nat>) {
    forall p, q :: p in sizes && q in sizes && p < q ==> p + sizes[p] <= q
  }

  /** The chunks tile the space from base to top. */
  ghost predicate Tiled(l: Layout) {
    && l.base <= l.top && Boundary(l, l.base) && l.top % MALLOC_ALIGNMENT == 0
    && l.used <= l.sizes.Keys
    && (forall p {:trigger ChunkAt(l, p)} :: p in l.sizes ==> ChunkAt(l, p))
    && Disjoint(l.sizes)
  }

  ghost predicate FollowedByUsed(l: Layout, p: int) {
    p in l.sizes && Next(l, p) in l.used
  }

  /** No two free chunks are adjacent, and none is adjacent to top. */
  ghost predicate Coalesced(l: Layout) {
    forall p {:trigger FollowedByUsed(l, p)} :: IsFree(l, p) ==> FollowedByUsed(l, p)
  }

  ghost predicate Tagged(l: Layout, head: Heads, foot: Feet, p: int) {
    && p in l.sizes && p in head && Next(l, p) in head
    && head[p].size == l.sizes[p]
    && (head[p].cinuse <==> p in l.used)
    && (head[Next(l, p)].pinuse <==> p in l.used)
    && (p !in l.used ==> Next(l, p) in foot && foot[Next(l, p)] == l.sizes[p])
  }

  /** Head and foot fields agree with the layout; the chunk at base counts as preceded by one in use. */
  ghost predicate Tags(l: Layout, head: Heads, foot: Feet) {
    && l.base in head && head[l.base].pinuse
    && (forall p {:trigger Tagged(l, head, foot, p)} :: p in l.sizes ==> Tagged(l, head, foot, p))
  }

  ghost predicate TopOk(l: Layout, head: Heads, limit: nat) {
    && l.top < limit && limit % MALLOC_ALIGNMENT == 0
    && l.top in head && head[l.top] == Head(limit - l.top, false, true)
  }

  ghost predicate HeapOk(l: Layout, head: Heads, foot: Feet, limit: nat) {
    Tiled(l) && Coalesced(l) && Tags(l, head, foot) && TopOk(l, head, limit)
  }

  /** The sizes of the chunks in use. */
  function Live(l: Layout): map<int, nat> {
    map p | p in l.sizes && p in l.used :: l.sizes[p]
  }

  // ---------------------------------------------------------------- neighbours

  /** Every chunk start but base ends another chunk. */
  lemma {:induction false} Predecessor(l: Layout, x: int, q: int) returns (p: int)
    requires Tiled(l) && Boundary(l, q) && x in l.sizes && x < q
    ensures p in l.sizes && Next(l, p) == q && x <= p
    decreases q - x
  {
    assert ChunkAt(l, x);
    assert q in l.sizes ==> ChunkAt(l, q) && x + l.sizes[x] <= q;
    if Next(l, x) == q {
      p := x;
    } else {
      p := Predecessor(l, Next(l, x), q);
    }
  }

  lemma PredecessorOf(l: Layout, q: int) returns (p: int)
    requires Tiled(l) && Boundary(l, q) && q != l.base
    ensures p in l.sizes && Next(l, p) == q && l.base <= p < q
  {
    if q in l.sizes { assert ChunkAt(l, q); }
    assert l.base in l.sizes;
    p := Predecessor(l, l.base, q);
    assert ChunkAt(l, p);
  }

  /** A clear PINUSE bit leads to the free chunk in front, through the foot. */
  lemma PreviousFree(l: Layout, head: Heads, foot: Feet, limit: nat, q: int)
    requires HeapOk(l, head, foot, limit) && Boundary(l, q) && q in head && !head[q].pinuse
    ensures q in foot
    ensures var p := q - foot[q];
      IsFree(l, p) && l.sizes[p] == foot[q] && Next(l, p) == q && p in head && head[p].pinuse && q in l.used
  {
    var p := PredecessorOf(l, q);
    assert Tagged(l, head, foot, p);
    assert FollowedByUsed(l, p);
    FreeIsPreceded(l, head, foot, limit, p);
  }

  /** A free chunk, and top, are preceded by a chunk in use. */
  lemma FreeIsPreceded(l: Layout, head: Heads, foot: Feet, limit: nat, q: int)
    requires HeapOk(l, head, foot, limit) && (IsFree(l, q) || q == l.top)
    ensures q in head && head[q].pinuse
  {
    if q != l.base {
      var p := PredecessorOf(l, q);
      assert Tagged(l, head, foot, p);
      TopIsNoChunk(l);
      assert p !in l.used ==> FollowedByUsed(l, p);
    }
  }

  lemma TopIsNoChunk(l: Layout)
    requires Tiled(l)
    ensures l.top !in l.sizes
  {
    assert l.top in l.sizes ==> ChunkAt(l, l.top);
  }

  /** What a chunk's neighbour above is, as the status bits tell it. */
  lemma NextOf(l: Layout, head: Heads, foot: Feet, limit: nat, p: int)
    requires HeapOk(l, head, foot, limit) && p in l.sizes
    ensures var n := Next(l, p);
      && n in head && p < n && (head[n].pinuse <==> p in l.used)
      && (n == l.top <==> n !in l.sizes)
      && (head[n].cinuse <==> n in l.used)
      && (n in l.sizes ==> head[n].size == l.sizes[n] && Next(l, n) in head)
      && (IsFree(l, n) ==> Next(l, n) in l.used && !head[Next(l, n)].pinuse)
  {
    var n := Next(l, p);
    assert ChunkAt(l, p) && Tagged(l, head, foot, p);
    TopIsNoChunk(l);
    if n in l.sizes {
      assert Tagged(l, head, foot, n) && ChunkAt(l, n);
      if n !in l.used { assert FollowedByUsed(l, n); }
    }
  }

  // ---------------------------------------------------------------- the chunks in use determine the others

  lemma LiveIsChunk(l: Layout, p: int)
    ensures p in Live(l) <==> p in l.sizes && p in l.used
    ensures p in Live(l) ==> Live(l)[p] == l.sizes[p]
  {
  }

  /** A free chunk lies between base or a chunk in use and the next chunk in use, so it is one in the other layout. */
  lemma SameFreeChunk(l: Layout, m: Layout, p: int)
    requires Tiled(l) && Coalesced(l) && Tiled(m) && Coalesced(m) && l.base == m.base && Live(l) == Live(m)
    requires IsFree(l, p)
    ensures IsFree(m, p) && m.sizes[p] == l.sizes[p]
  {
    assert FollowedByUsed(l, p) && ChunkAt(l, p);
    var n := Next(l, p);
    LiveIsChunk(l, n);
    LiveIsChunk(m, n);
    SameBoundary(l, m, p);
    assert ChunkAt(m, n);
    LiveIsChunk(l, p);
    LiveIsChunk(m, p);
    assert FollowedByUsed(m, p) && ChunkAt(m, p);
    LiveIsChunk(m, Next(m, p));
    LiveIsChunk(l, Next(m, p));
  }

  lemma SameBoundary(l: Layout, m: Layout, p: int)
    requires Tiled(l) && Coalesced(l) && Tiled(m) && l.base == m.base && Live(l) == Live(m)
    requires Boundary(l, p) && p !in l.used
    ensures Boundary(m, p)
  {
    if p != l.base {
      var q := PredecessorOf(l, p);
      assert q !in l.used ==> FollowedByUsed(l, q);
      LiveIsChunk(l, q);
      LiveIsChunk(m, q);
      assert ChunkAt(m, q);
    }
  }

  /** Two layouts with the same chunks in use are the same. */
  lemma LiveDetermines(l: Layout, m: Layout)
    requires Tiled(l) && Coalesced(l) && Tiled(m) && Coalesced(m) && l.base == m.base && Live(l) == Live(m)
    ensures l == m
  {
    hide Tiled, Coalesced, Live;
    forall p
      ensures p in l.sizes <==> p in m.sizes
      ensures p in l.sizes ==> l.sizes[p] == m.sizes[p] && (p in l.used <==> p in m.used)
    {
      LiveIsChunk(l, p);
      LiveIsChunk(m, p);
      if IsFree(l, p) { SameFreeChunk(l, m, p); }
      if IsFree(m, p) { SameFreeChunk(m, l, p); }
    }
    assert l.sizes == m.sizes;
    UsedInSizes(l);
    UsedInSizes(m);
    assert l.used == m.used;
    TopIsNoChunk(l);
    TopIsNoChunk(m);
    SameBoundary(l, m, l.top);
  }

  lemma UsedInSizes(l: Layout)
    requires Tiled(l)
    ensures l.used <= l.sizes.Keys
  {
  }

  // ---------------------------------------------------------------- changing a region

  /** The chunks from p up to e replaced by one, in use or free. */
  function Merged(l: Layout, p: int, e: int, inuse: bool): Layout
    requires e >= p
  {
    var sizes := map q | q in l.sizes && !(p <= q < e) :: l.sizes[q];
    var used := set q | q in l.used && !(p <= q < e);
    l.(sizes := sizes[p := e - p], used := if inuse then used + {p} else used)
  }

  /** A chunk cut in two. */
  function Cut(l: Layout, p: int, n: nat, inuse: bool): Layout
    requires p in l.sizes && n <= l.sizes[p]
  {
    l.(sizes := l.sizes[p := n][p + n := l.sizes[p] - n], used := if inuse then l.used + {p + n} else l.used)
  }

  /** Top moved down to p (over the chunks from there) or up to p. */
  function Topped(l: Layout, p: nat): Layout {
    var sizes := map q | q in l.sizes && q < p :: l.sizes[q];
    var used := set q | q in l.used && q < p;
    l.(top := p, sizes := sizes, used := used)
  }

  lemma MergedTiled(l: Layout, p: int, e: int, inuse: bool)
    requires Tiled(l) && p in l.sizes && Boundary(l, e) && p < e
    ensures Tiled(Merged(l, p, e, inuse))
    ensures e - p >= MIN_CHUNK_SIZE
  {
    var l' := Merged(l, p, e, inuse);
    MergedEdges(l, p, e, inuse);
    MergedDisjoint(l, p, e, inuse);
    forall q {:trigger ChunkAt(l', q)} | q in l'.sizes
      ensures ChunkAt(l', q)
    {
      MergedChunkAt(l, p, e, inuse, q);
    }
    hide Disjoint, Merged;
  }

  lemma MergedEdges(l: Layout, p: int, e: int, inuse: bool)
    requires Tiled(l) && p in l.sizes && Boundary(l, e) && p < e
    ensures p + l.sizes[p] <= e && e - p >= MIN_CHUNK_SIZE
    ensures Boundary(Merged(l, p, e, inuse), l.base)
  {
    hide Disjoint;
    assert ChunkAt(l, p);
    TopIsNoChunk(l);
    if e in l.sizes { Apart(l, p, e); }
  }

  lemma MergedChunkAt(l: Layout, p: int, e: int, inuse: bool, q: int)
    requires Tiled(l) && p in l.sizes && Boundary(l, e) && p < e && q in Merged(l, p, e, inuse).sizes
    ensures ChunkAt(Merged(l, p, e, inuse), q)
  {
    hide Disjoint;
    assert ChunkAt(l, p);
    MergedEdges(l, p, e, inuse);
    assert e in l.sizes ==> ChunkAt(l, e);
    if q != p {
      assert ChunkAt(l, q) && Boundary(l, Next(l, q));
      if q < p { Apart(l, q, p); }
    }
  }

  lemma MergedDisjoint(l: Layout, p: int, e: int, inuse: bool)
    requires Tiled(l) && p in l.sizes && Boundary(l, e) && p < e
    ensures Disjoint(Merged(l, p, e, inuse).sizes)
  {
    var s := Merged(l, p, e, inuse).sizes;
    forall a, b | a in s && b in s && a < b
      ensures a + s[a] <= b
    {
      if a == p {
        assert a + s[a] == e;
      } else if b == p {
        Apart(l, a, p);
      } else {
        Apart(l, a, b);
      }
    }
  }

  lemma Apart(l: Layout, a: int, b: int)
    requires Tiled(l) && a in l.sizes && b in l.sizes && a < b
    ensures a + l.sizes[a] <= b
  {
    assert ChunkAt(l, a) && ChunkAt(l, b);
  }

  /** Exactly the chunks of the region lie in the region. */
  lemma NextOutside(l: Layout, p: int, e: int, q: int)
    requires Tiled(l) && p in l.sizes && Boundary(l, e) && p < e
    requires q in l.sizes && !(p <= q < e)
    ensures Next(l, q) == p || Next(l, q) <= p || Next(l, q) > e
  {
    hide Disjoint;
    assert ChunkAt(l, q) && ChunkAt(l, p);
    if q < p { Apart(l, q, p); }
  }

  /** A region between a chunk in use (or base) and a chunk in use becomes one free chunk. */
  lemma FreeRegion(l: Layout, head: Heads, foot: Feet, limit: nat, p: int, e: int, head': Heads, foot': Feet)
    requires HeapOk(l, head, foot, limit) && p in l.sizes && e in l.used && p < e
    requires p in head && head[p].pinuse && e in head
    requires head' == head[p := Head(e - p, false, true)][e := head[e].(pinuse := false)]
    requires foot' == foot[e := e - p]
    ensures HeapOk(Merged(l, p, e, false), head', foot', limit)
  {
    hide Disjoint;
    var l' := Merged(l, p, e, false);
    MergedTiled(l, p, e, false);
    FreeRegionCoalesced(l, head, foot, limit, p, e);
    forall q {:trigger Tagged(l', head', foot', q)} | q in l'.sizes
      ensures Tagged(l', head', foot', q)
    {
      if q != p {
        assert Tagged(l, head, foot, q);
        NextOutside(l, p, e, q);
      }
    }
    assert ChunkAt(l, p) && ChunkAt(l, e);
  }

  lemma FreeRegionCoalesced(l: Layout, head: Heads, foot: Feet, limit: nat, p: int, e: int)
    requires HeapOk(l, head, foot, limit) && p in l.sizes && e in l.used && p < e && p in head && head[p].pinuse
    ensures Coalesced(Merged(l, p, e, false))
  {
    var l' := Merged(l, p, e, false);
    forall q {:trigger FollowedByUsed(l', q)} | IsFree(l', q)
      ensures FollowedByUsed(l', q)
    {
      if q != p {
        assert FollowedByUsed(l, q) && Tagged(l, head, foot, q);
        NextOutside(l, p, e, q);
      }
    }
  }

  lemma UseRegionCoalesced(l: Layout, p: int, e: int)
    requires Tiled(l) && Coalesced(l) && p in l.sizes && Boundary(l, e) && p < e
    ensures Coalesced(Merged(l, p, e, true))
  {
    hide Disjoint;
    var l' := Merged(l, p, e, true);
    forall q {:trigger FollowedByUsed(l', q)} | IsFree(l', q)
      ensures FollowedByUsed(l', q)
    {
      assert FollowedByUsed(l, q);
      NextOutside(l, p, e, q);
    }
  }

  /** A region becomes one chunk in use. */
  lemma UseRegion(l: Layout, head: Heads, foot: Feet, limit: nat, p: int, e: int, head': Heads)
    requires HeapOk(l, head, foot, limit) && p in l.sizes && Boundary(l, e) && p < e
    requires p in head && e in head
    requires head' == head[p := Head(e - p, true, head[p].pinuse)][e := head[e].(pinuse := true)]
    ensures HeapOk(Merged(l, p, e, true), head', foot, limit)
  {
    hide Disjoint;
    var l' := Merged(l, p, e, true);
    MergedTiled(l, p, e, true);
    UseRegionCoalesced(l, p, e);
    assert ChunkAt(l, p);
    assert e == l.top ==> head[e].pinuse;
    forall q {:trigger Tagged(l', head', foot, q)} | q in l'.sizes
      ensures Tagged(l', head', foot, q)
    {
      if q != p {
        assert Tagged(l, head, foot, q);
        NextOutside(l, p, e, q);
      }
    }
  }

  /** A region in front of a chunk in use becomes a chunk in use of size n and a free rest. */
  lemma SplitRegion(l: Layout, head: Heads, foot: Feet, limit: nat, p: int, e: int, n: nat,
                    head': Heads, foot': Feet)
    requires HeapOk(l, head, foot, limit) && p in l.sizes && e in l.used && p < e
    requires p in head && e in head
    requires MIN_CHUNK_SIZE <= n && n % MALLOC_ALIGNMENT == 0 && p + n + MIN_CHUNK_SIZE <= e
    requires head' == head[p := Head(n, true, head[p].pinuse)][p + n := Head(e - p - n, false, true)]
                          [e := head[e].(pinuse := false)]
    requires foot' == foot[e := e - p - n]
    ensures HeapOk(Cut(Merged(l, p, e, true), p, n, false), head', foot', limit)
  {
    var m := Merged(l, p, e, true);
    var head1 := head[p := Head(e - p, true, head[p].pinuse)][e := head[e].(pinuse := true)];
    UseRegion(l, head, foot, limit, p, e, head1);
    CutFree(m, head1, foot, limit, p, n, head', foot');
  }

  lemma CutTiled(l: Layout, p: int, n: nat, inuse: bool)
    requires Tiled(l) && p in l.sizes && MIN_CHUNK_SIZE <= n && n % MALLOC_ALIGNMENT == 0
    requires n + MIN_CHUNK_SIZE <= l.sizes[p]
    ensures Tiled(Cut(l, p, n, inuse))
    ensures p + n !in l.sizes
  {
    hide Disjoint;
    var l', r := Cut(l, p, n, inuse), p + n;
    assert ChunkAt(l, p);
    CutDisjoint(l, p, n);
    forall q {:trigger ChunkAt(l', q)} | q in l'.sizes
      ensures ChunkAt(l', q)
    {
      if q != r && q != p { assert ChunkAt(l, q); }
    }
    assert Boundary(l', l.base);
  }

  lemma CutDisjoint(l: Layout, p: int, n: nat)
    requires Tiled(l) && p in l.sizes && 0 < n < l.sizes[p]
    ensures p + n !in l.sizes && Disjoint(l.sizes[p := n][p + n := l.sizes[p] - n])
  {
    if p + n in l.sizes { Apart(l, p, p + n); }
    var s := l.sizes[p := n][p + n := l.sizes[p] - n];
    forall a, b | a in s && b in s && a < b
      ensures a + s[a] <= b
    {
      if b in l.sizes && p < b { Apart(l, p, b); }
      if a in l.sizes && a < p { Apart(l, a, p); }
      if a in l.sizes && p < a { Apart(l, p, a); }
      if a in l.sizes && b in l.sizes { Apart(l, a, b); }
    }
  }

  lemma NextNotInside(l: Layout, p: int, n: nat, q: int)
    requires Tiled(l) && p in l.sizes && 0 < n < l.sizes[p] && q in l.sizes && q != p
    ensures Next(l, q) != p + n && Next(l, q) != Next(l, p)
  {
    hide Disjoint;
    assert ChunkAt(l, q) && ChunkAt(l, p);
    if q < p { Apart(l, q, p); } else { Apart(l, p, q); }
  }

  lemma CutCoalesced(l: Layout, p: int, n: nat)
    requires Tiled(l) && Coalesced(l) && p in l.used && 0 < n < l.sizes[p] && Next(l, p) in l.used
    ensures Coalesced(Cut(l, p, n, false))
  {
    hide Disjoint;
    var l', r := Cut(l, p, n, false), p + n;
    CutDisjoint(l, p, n);
    forall q {:trigger FollowedByUsed(l', q)} | IsFree(l', q)
      ensures FollowedByUsed(l', q)
    {
      if q != r {
        assert FollowedByUsed(l, q);
        NextNotInside(l, p, n, q);
      }
    }
  }

  lemma CutFree(l: Layout, head: Heads, foot: Feet, limit: nat, p: int, n: nat, head': Heads, foot': Feet)
    requires HeapOk(l, head, foot, limit) && p in l.used
    requires MIN_CHUNK_SIZE <= n && n % MALLOC_ALIGNMENT == 0 && n + MIN_CHUNK_SIZE <= l.sizes[p]
    requires var e := Next(l, p);
      && e in l.used && p in head && e in head
      && head' == head[p := Head(n, true, head[p].pinuse)][p + n := Head(e - p - n, false, true)]
                      [e := head[e].(pinuse := false)]
      && foot' == foot[e := e - p - n]
    ensures HeapOk(Cut(l, p, n, false), head', foot', limit)
  {
    hide Disjoint;
    var l', r, e := Cut(l, p, n, false), p + n, Next(l, p);
    CutTiled(l, p, n, false);
    assert ChunkAt(l, p) && ChunkAt(l, e) && Tagged(l, head, foot, p);
    CutCoalesced(l, p, n);
    forall q {:trigger Tagged(l', head', foot', q)} | q in l'.sizes
      ensures Tagged(l', head', foot', q)
    {
      if q != p && q != r {
        assert Tagged(l, head, foot, q);
        NextNotInside(l, p, n, q);
      }
    }
  }

  /** A chunk in use becomes two chunks in use. */
  lemma CutUsed(l: Layout, head: Heads, foot: Feet, limit: nat, p: int, n: nat, head': Heads)
    requires HeapOk(l, head, foot, limit) && p in l.used && p in head
    requires MIN_CHUNK_SIZE <= n && n % MALLOC_ALIGNMENT == 0 && n + MIN_CHUNK_SIZE <= l.sizes[p]
    requires head' == head[p := Head(n, true, head[p].pinuse)][p + n := Head(l.sizes[p] - n, true, true)]
    ensures HeapOk(Cut(l, p, n, true), head', foot, limit)
  {
    hide Disjoint;
    var l', r := Cut(l, p, n, true), p + n;
    CutTiled(l, p, n, true);
    assert ChunkAt(l, p) && Tagged(l, head, foot, p);
    assert r != l.top;
    forall q {:trigger FollowedByUsed(l', q)} | IsFree(l', q)
      ensures FollowedByUsed(l', q)
    {
      assert FollowedByUsed(l, q);
    }
    forall q {:trigger Tagged(l', head', foot, q)} | q in l'.sizes
      ensures Tagged(l', head', foot, q)
    {
      if q != p && q != r {
        assert Tagged(l, head, foot, q);
        NextNotInside(l, p, n, q);
      }
    }
  }

  /** The chunks from p up to top join top; what ends at p is in use. */
  lemma JoinTop(l: Layout, head: Heads, foot: Feet, limit: nat, p: int, head': Heads)
    requires HeapOk(l, head, foot, limit) && p in l.sizes && p in head && head[p].pinuse && p <= limit
    requires head' == head[p := Head(limit - p, false, true)]
    ensures p >= 0 && HeapOk(Topped(l, p), head', foot, limit)
  {
    assert ChunkAt(l, p);
    var l' := Topped(l, p);
    forall q {:trigger ChunkAt(l', q)} | q in l'.sizes
      ensures ChunkAt(l', q)
    {
      assert ChunkAt(l, q);
    }
    forall q {:trigger FollowedByUsed(l', q)} | IsFree(l', q)
      ensures FollowedByUsed(l', q)
    {
      assert FollowedByUsed(l, q) && ChunkAt(l, q) && Tagged(l, head, foot, q);
    }
    forall q {:trigger Tagged(l', head', foot, q)} | q in l'.sizes
      ensures Tagged(l', head', foot, q)
    {
      assert Tagged(l, head, foot, q) && ChunkAt(l, q);
    }
  }

  /** The layout with a chunk of size n in use taken from the bottom of top. */
  function FromTop(l: Layout, n: nat): Layout {
    l.(top := l.top + n, sizes := l.sizes[l.top := n], used := l.used + {l.top})
  }

  lemma FromTopTiled(l: Layout, n: nat)
    requires Tiled(l) && MIN_CHUNK_SIZE <= n && n % MALLOC_ALIGNMENT == 0
    ensures Tiled(FromTop(l, n))
  {
    var l', t := FromTop(l, n), l.top;
    TopIsNoChunk(l);
    FromTopDisjoint(l, n);
    hide Disjoint;
    forall q {:trigger ChunkAt(l', q)} | q in l'.sizes
      ensures ChunkAt(l', q)
    {
      if q != t { assert ChunkAt(l, q); }
    }
  }

  lemma FromTopDisjoint(l: Layout, n: nat)
    requires Tiled(l)
    ensures Disjoint(l.sizes[l.top := n])
  {
    var s := l.sizes[l.top := n];
    forall a, b | a in s && b in s && a < b
      ensures a + s[a] <= b
    {
      assert a != l.top ==> ChunkAt(l, a);
      assert b != l.top ==> ChunkAt(l, b);
    }
  }

  /** A chunk in use is taken from the bottom of top. */
  lemma TakeFromTop(l: Layout, head: Heads, foot: Feet, limit: nat, n: nat, head': Heads)
    requires HeapOk(l, head, foot, limit)
    requires MIN_CHUNK_SIZE <= n && n % MALLOC_ALIGNMENT == 0 && l.top + n < limit
    requires head' == head[l.top + n := Head(limit - l.top - n, false, true)][l.top := Head(n, true, true)]
    ensures HeapOk(FromTop(l, n), head', foot, limit)
  {
    var l', t := FromTop(l, n), l.top;
    TopIsNoChunk(l);
    FromTopTiled(l, n);
    assert t + n in l.sizes ==> ChunkAt(l, t + n);
    forall q {:trigger FollowedByUsed(l', q)} | IsFree(l', q)
      ensures FollowedByUsed(l', q)
    {
      assert FollowedByUsed(l, q);
    }
    forall q {:trigger Tagged(l', head', foot, q)} | q in l'.sizes
      ensures Tagged(l', head', foot, q)
    {
      if q != t { assert Tagged(l, head, foot, q) && ChunkAt(l, q); }
    }
  }

  /** The layout with the last chunk grown into top. */
  function GrownIntoTop(l: Layout, p: int, n: nat): Layout
    requires p + n >= 0
  {
    l.(top := p + n, sizes := l.sizes[p := n])
  }

  lemma GrownTiled(l: Layout, p: int, n: nat)
    requires Tiled(l) && p in l.sizes && Next(l, p) == l.top && l.sizes[p] <= n && n % MALLOC_ALIGNMENT == 0
    ensures p + n >= 0 && Tiled(GrownIntoTop(l, p, n))
  {
    hide Disjoint;
    assert ChunkAt(l, p);
    var l' := GrownIntoTop(l, p, n);
    TopIsNoChunk(l);
    GrownDisjoint(l, p, n);
    forall q {:trigger ChunkAt(l', q)} | q in l'.sizes
      ensures ChunkAt(l', q)
    {
      assert ChunkAt(l, q);
      if q < p { Apart(l, q, p); } else if p < q { Apart(l, p, q); }
    }
  }

  lemma GrownDisjoint(l: Layout, p: int, n: nat)
    requires Tiled(l) && p in l.sizes && Next(l, p) == l.top
    ensures Disjoint(l.sizes[p := n])
  {
    var s := l.sizes[p := n];
    forall a, b | a in s && b in s && a < b
      ensures a + s[a] <= b
    {
      assert ChunkAt(l, b);
      Apart(l, a, b);
    }
  }

  /** The chunk in front of top, in use, grows into top. */
  lemma GrowIntoTop(l: Layout, head: Heads, foot: Feet, limit: nat, p: int, n: nat, head': Heads)
    requires HeapOk(l, head, foot, limit) && p in l.used && p in l.sizes && Next(l, p) == l.top && p in head
    requires l.sizes[p] <= n && n % MALLOC_ALIGNMENT == 0 && p + n < limit
    requires head' == head[p := Head(n, true, head[p].pinuse)][p + n := Head(limit - p - n, false, true)]
    ensures p + n >= 0 && HeapOk(GrownIntoTop(l, p, n), head', foot, limit)
  {
    assert ChunkAt(l, p);
    var l' := GrownIntoTop(l, p, n);
    TopIsNoChunk(l);
    GrownTiled(l, p, n);
    forall q {:trigger FollowedByUsed(l', q)} | IsFree(l', q)
      ensures FollowedByUsed(l', q)
    {
      assert FollowedByUsed(l, q);
    }
    forall q {:trigger Tagged(l', head', foot, q)} | q in l'.sizes
      ensures Tagged(l', head', foot, q)
    {
      assert Tagged(l, head, foot, q) && ChunkAt(l, q);
    }
  }

  // ---------------------------------------------------------------- walking the segment

  /** The chunks met from q on, stepping by their sizes. */
  ghost function Walk(l: Layout, q: int): (w: seq<int>)
    requires Tiled(l) && Boundary(l, q)
    decreases l.top - q
  {
    if q == l.top then [] else
      assert ChunkAt(l, q);
      [q] + Walk(l, Next(l, q))
  }

  function SumOf(l: Layout, w: seq<int>): nat
    requires forall i :: 0 <= i < |w| ==> w[i] in l.sizes
  {
    if w == [] then 0 else
      l.sizes[w[0]] + SumOf(l, w[1..])
  }

  /** The walk meets exactly the chunks from q on. */
  lemma {:induction false} WalkMeetsAll(l: Layout, q: int)
    requires Tiled(l) && Boundary(l, q)
    ensures forall x {:trigger x in Walk(l, q)} :: x in Walk(l, q) <==> x in l.sizes && x >= q
    decreases l.top - q
  {
    if q == l.top {
      forall x | x in l.sizes ensures x < q { assert ChunkAt(l, x); }
    } else {
      assert ChunkAt(l, q);
      WalkMeetsAll(l, Next(l, q));
      forall x | x in l.sizes && q < x ensures x >= Next(l, q) {}
    }
  }

  /** Each once and in order, and their sizes add up to the span. */
  lemma {:induction false} WalkCovers(l: Layout, q: int)
    requires Tiled(l) && Boundary(l, q)
    ensures forall i :: 0 <= i < |Walk(l, q)| ==> Walk(l, q)[i] in l.sizes && Walk(l, q)[i] >= q
    ensures forall i, j :: 0 <= i < j < |Walk(l, q)| ==> Walk(l, q)[i] < Walk(l, q)[j]
    ensures SumOf(l, Walk(l, q)) == l.top - q
    decreases l.top - q
  {
    if q != l.top {
      hide Tiled;
      assert ChunkAt(l, q) by { ChunkOf(l, q); }
      WalkCovers(l, Next(l, q));
      assert Walk(l, q) == [q] + Walk(l, Next(l, q));
      assert Walk(l, q)[1..] == Walk(l, Next(l, q));
    }
  }

  lemma ChunkOf(l: Layout, p: int)
    requires Tiled(l) && p in l.sizes
    ensures ChunkAt(l, p)
  {
  }
}
