/** Aligned allocation: rounding the alignment up, finding an aligned spot, giving back leader and tail. */
module Memalign {
  import opened Words
  import opened SizeClasses
  import opened HeapLayout
  import opened Malloc
  import opened Resize
  import SB = SmallBins
  import TB = TreeBins

  // ---------------------------------------------------------------- masks

  /** `x & y` on unsigned numbers. */
  function BitAnd(x: nat, y: nat): nat {
    if x == 0 || y == 0 then 0 else (x % 2) * (y % 2) + 2 * BitAnd(x / 2, y / 2)
  }

  ghost predicate IsPowerOf2(a: nat) {
    exists k: nat :: a == Pow2(k)
  }

  lemma HalfOfAnd(x: nat, y: nat)
    ensures BitAnd(x, y) / 2 == BitAnd(x / 2, y / 2) && (BitAnd(x, y) % 2 == 1 <==> x % 2 == 1 && y % 2 == 1)
  {
  }

  /** Bit by bit. */
  lemma {:induction false} AndOfBits(x: nat, y: nat, i: nat)
    ensures BitAnd(x, y) / Pow2(i) % 2 == 1 <==> x / Pow2(i) % 2 == 1 && y / Pow2(i) % 2 == 1
    decreases i
  {
    HalfOfAnd(x, y);
    if i > 0 {
      AndOfBits(x / 2, y / 2, i - 1);
      DivideTwice(x, Pow2(i - 1));
      DivideTwice(y, Pow2(i - 1));
      DivideTwice(BitAnd(x, y), Pow2(i - 1));
    }
  }

  lemma {:induction false} AndSelf(x: nat)
    ensures BitAnd(x, x) == x
  {
    if x > 0 { AndSelf(x / 2); }
  }

  lemma {:induction false} AndPredecessor(a: nat)
    requires a > 0
    ensures BitAnd(a, a - 1) == 0 <==> IsPowerOf2(a)
  {
    if a % 2 == 1 {
      if a > 1 {
        AndSelf(a / 2);
        assert (a - 1) / 2 == a / 2;
        assert !IsPowerOf2(a) by { forall k: nat ensures Pow2(k) != a { assert k > 0 ==> Pow2(k) == 2 * Pow2(k - 1); } }
      } else {
        assert a == Pow2(0);
      }
    } else {
      AndPredecessor(a / 2);
      assert (a - 1) / 2 == a / 2 - 1;
      assert BitAnd(a, a - 1) == 2 * BitAnd(a / 2, a / 2 - 1);
      if IsPowerOf2(a / 2) {
        var k: nat :| a / 2 == Pow2(k);
        assert a == Pow2(k + 1);
      }
      if IsPowerOf2(a) {
        var k: nat :| a == Pow2(k);
        assert a / 2 == Pow2(k - 1);
      }
    }
  }

  /** Masking with one less than a power of two is the remainder. */
  lemma {:induction false} LowMask(x: nat, k: nat)
    ensures BitAnd(x, Pow2(k) - 1) == x % Pow2(k)
  {
    if k > 0 {
      LowMask(x / 2, k - 1);
      HalfRemainder(x, Pow2(k - 1));
      assert (Pow2(k) - 1) / 2 == Pow2(k - 1) - 1;
    }
  }

  lemma HalfRemainder(x: nat, p: nat)
    requires p > 0
    ensures x % (2 * p) == 2 * ((x / 2) % p) + x % 2
  {
    var q, r := (x / 2) / p, (x / 2) % p;
    assert x / 2 == q * p + r;
    assert x == q * (2 * p) + (2 * r + x % 2);
    RemainderIs(x, 2 * p, q, 2 * r + x % 2);
  }

  lemma QuotientUnique(d: int, q: int, r: int, q2: int, r2: int)
    requires 0 <= r < d && 0 <= r2 < d && q * d + r == q2 * d + r2
    ensures q == q2 && r == r2
  {
    if q < q2 {
      MulMonotone(q + 1, q2, d);
    } else if q2 < q {
      MulMonotone(q2 + 1, q, d);
    }
  }

  lemma RemainderIs(x: int, d: int, q: int, r: int)
    requires d > 0 && 0 <= r < d && x == q * d + r
    ensures x % d == r && x / d == q
  {
    var q2, r2 := x / d, x % d;
    QuotientUnique(d, q, r, q2, r2);
  }

  /** Masking an n-bit word with the negative of a power of two rounds down. */
  lemma {:induction false} HighMask(x: nat, k: nat, n: nat)
    requires x < Pow2(n) && k <= n
    ensures Pow2(n) >= Pow2(k) && BitAnd(x, Pow2(n) - Pow2(k)) == x - x % Pow2(k)
  {
    if k == 0 {
      LowMask(x, n);
      RemainderIs(x, Pow2(n), 0, x);
    } else {
      assert x / 2 < Pow2(n - 1);
      HighMask(x / 2, k - 1, n - 1);
      HighMaskStep(x, Pow2(k - 1), Pow2(n - 1) - Pow2(k - 1));
      assert Pow2(n) - Pow2(k) == 2 * (Pow2(n - 1) - Pow2(k - 1));
    }
  }

  lemma HighMaskStep(x: nat, p: nat, y: nat)
    requires p > 0 && BitAnd(x / 2, y) == x / 2 - (x / 2) % p
    ensures BitAnd(x, 2 * y) == x - x % (2 * p)
  {
    AndEven(x, y);
    HalfRemainder(x, p);
  }

  lemma AndEven(x: nat, y: nat)
    ensures BitAnd(x, 2 * y) == 2 * BitAnd(x / 2, y)
  {
    assert 2 * y / 2 == y && 2 * y % 2 == 0;
  }

  // ---------------------------------------------------------------- rounding the alignment

  /** A power of two that is an admissible alignment at least as coarse as requested, and the least such. */
  ghost predicate Rounded(alignment: nat, a: nat) {
    && IsPowerOf2(a) && MIN_CHUNK_SIZE <= a && alignment <= a
    && (a > MIN_CHUNK_SIZE ==> a < 2 * alignment)
  }

  /** What n doublings in a size_t make of the first candidate. */
  function Doubled(n: nat): (a: nat)
    ensures a < WORD
  {
    if n == 0 then MALLOC_ALIGNMENT * 2 else (2 * Doubled(n - 1)) % WORD
  }

  lemma DoubledWithin(a: nat)
    requires 2 * a < WORD
    ensures (2 * a) % WORD == 2 * a
  {
  }

  lemma {:induction false} DoubledIs(n: nat)
    ensures Doubled(n) == if n < 59 then Pow2(n + 5) else 0
  {
    if n == 0 {
      assert Pow2(5) == 32;
    } else {
      DoubledIs(n - 1);
      Pow2Constants();
      if n < 59 {
        Pow2Monotone(n + 5, 63);
        assert Pow2(n + 5) == 2 * Pow2(n + 4);
        DoubledWithin(Pow2(n + 4));
      } else if n == 59 {
        assert Doubled(58) == WORD / 2;
      }
    }
  }

  lemma DoubledTwice(n: nat)
    requires n < 58
    ensures Doubled(n + 1) == 2 * Doubled(n)
  {
    DoubledIs(n);
    DoubledIs(n + 1);
  }

  lemma DoubledBound(n: nat)
    ensures Doubled(n) <= WORD / 2
  {
    Pow2Constants();
    DoubledIs(n);
    if n < 59 { Pow2Monotone(n + 5, 63); }
  }

  /** The loop that rounds the alignment ends exactly for alignments up to half the word range. */
  lemma RoundingEnds(alignment: nat)
    ensures (exists n: nat :: Doubled(n) >= alignment) <==> alignment <= WORD / 2
  {
    hide Doubled;
    Pow2Constants();
    DoubledIs(58);
    forall n: nat
      ensures Doubled(n) <= WORD / 2
    {
      DoubledBound(n);
    }
    if alignment <= WORD / 2 { assert Doubled(58) >= alignment; }
  }

  /** An alignment that a caller can ask for and that the loop never reaches. */
  lemma RoundingNeverEnds()
    ensures forall n: nat :: Doubled(n) < 0x8000_0000_0000_0001
  {
    Pow2Constants();
    RoundingEnds(0x8000_0000_0000_0001);
  }

  /** The doubled candidate has not wrapped around while it is below the alignment. */
  lemma StillDoubling(n: nat, alignment: nat)
    requires n < 59 && Doubled(n) < alignment <= WORD / 2
    ensures n + 1 < 59 && Doubled(n + 1) == (2 * Doubled(n)) % WORD
  {
    Pow2Constants();
    DoubledIs(58);
  }

  /** The first candidate that is not below the alignment. */
  lemma FirstNotBelow(n: nat, alignment: nat)
    requires n < 59 && alignment <= Doubled(n) && (n > 0 ==> Doubled(n - 1) < alignment)
    ensures IsPowerOf2(Doubled(n)) && MIN_CHUNK_SIZE <= Doubled(n) <= WORD / 2
    ensures Doubled(n) > MIN_CHUNK_SIZE ==> Doubled(n) < 2 * alignment
  {
    DoubledIs(n);
    DoubledBound(n);
    Pow2Monotone(5, n + 5);
    assert Pow2(5) == 32;
    if n > 0 { DoubledTwice(n - 1); }
  }

  method RoundAlignment(alignment0: nat) returns (alignment: nat)
    requires alignment0 <= WORD / 2
    ensures Rounded(alignment0, alignment) && alignment <= WORD / 2
  {
    hide BitAnd, IsPowerOf2, Doubled;
    alignment := alignment0;
    if alignment < MIN_CHUNK_SIZE {
      alignment := MIN_CHUNK_SIZE;
    }
    AndPredecessor(alignment);
    if BitAnd(alignment, alignment - 1) != 0 {
      var a := MALLOC_ALIGNMENT * 2;
      ghost var n := 0;
      DoubledFirst();
      while a < alignment
        invariant a == Doubled(n) && n < 59 && (n > 0 ==> Doubled(n - 1) < alignment)
        decreases 59 - n
      {
        StillDoubling(n, alignment);
        a := (2 * a) % WORD;
        n := n + 1;
      }
      FirstNotBelow(n, alignment);
      RoundedIsNotLeast(alignment0, alignment);
      alignment := a;
    }
  }

  lemma DoubledFirst()
    ensures Doubled(0) == MALLOC_ALIGNMENT * 2
  {
  }

  /** An alignment that needs rounding was not raised to a least chunk before. */
  lemma RoundedIsNotLeast(alignment0: nat, alignment: nat)
    requires alignment == (if alignment0 < MIN_CHUNK_SIZE then MIN_CHUNK_SIZE else alignment0)
    requires !IsPowerOf2(alignment)
    ensures alignment == alignment0
  {
    assert Pow2(5) == MIN_CHUNK_SIZE;
  }

  // ---------------------------------------------------------------- internal_memalign

  /** The first position at or above mem with the given alignment. */
  function AlignUp(mem: nat, a: nat): nat
    requires a > 0
  {
    (mem + a - 1) - (mem + a - 1) % a
  }

  predicate Aligned(mem: int, a: nat)
    requires a > 0
  {
    mem % a == 0
  }

  lemma AlignUpIs(mem: nat, a: nat)
    requires a > 0 && a % 16 == 0 && mem % 16 == 0 && !Aligned(mem, a)
    ensures var b := AlignUp(mem, a); mem < b < mem + a && b % 16 == 0
    ensures Aligned(AlignUp(mem, a), a) && Aligned(AlignUp(mem, a) + a, a)
  {
    var x := mem + a - 1;
    var q, r := x / a, x % a;
    assert x == q * a + r;
    RemainderIs(q * a, a, q, 0);
    RemainderIs(q * a + a, a, q + 1, 0);
    if r == a - 1 { RemainderIs(mem, a, q, 0); }
    var c := a / 16;
    assert q * a == 16 * (q * c);
    RemainderIs(q * a, 16, q * c, 0);
  }

  lemma MaskAlignsUp(mem: nat, a: nat)
    requires IsPowerOf2(a) && a <= WORD / 2 && mem + a - 1 < WORD
    ensures a > 0 && BitAnd(mem + a - 1, WORD - a) == AlignUp(mem, a)
  {
    var k: nat :| a == Pow2(k);
    Pow2Constants();
    if k > 63 { Pow2Monotone(64, k); }
    HighMask(mem + a - 1, k, 64);
  }

  lemma PowerIsAligned(a: nat)
    requires IsPowerOf2(a) && a >= 16
    ensures a % 16 == 0
  {
    var k: nat :| a == Pow2(k);
    assert Pow2(3) == 8 && Pow2(4) == 16;
    if k < 4 {
      Pow2Monotone(k, 3);
    } else {
      Pow2Add(4, k - 4);
    }
  }

  /** A free spot of the requested alignment: the leader in front of it is at least a chunk. */
  method AlignedSpot(mem: nat, a: nat) returns (newp: int)
    requires mem % 16 == 0 && IsPowerOf2(a) && MIN_CHUNK_SIZE <= a <= WORD / 2 && !Aligned(mem, a) && mem >= 16
    requires mem + a - 1 < WORD
    ensures Aligned(newp + 16, a) && newp % 16 == 0
    ensures MIN_CHUNK_SIZE <= newp - (mem - 16) <= a + 16
  {
    hide BitAnd, IsPowerOf2, AlignUp, Aligned;
    MaskAlignsUp(mem, a);
    SpotFits(mem, a);
    var p := mem - 16;
    var br := BitAnd(mem + a - 1, WORD - a) - 16;
    newp := if br - p >= MIN_CHUNK_SIZE then br else br + a;
  }

  lemma SpotFits(mem: nat, a: nat)
    requires mem % 16 == 0 && IsPowerOf2(a) && MIN_CHUNK_SIZE <= a && !Aligned(mem, a) && mem >= 16
    ensures var lead := AlignUp(mem, a) - mem; 16 <= lead < a && lead % 16 == 0 && a % 16 == 0
    ensures Aligned(AlignUp(mem, a), a) && Aligned(AlignUp(mem, a) + a, a)
    ensures AlignUp(mem, a) % 16 == 0 && (AlignUp(mem, a) + a - 16) % 16 == 0 && (AlignUp(mem, a) - 16) % 16 == 0
  {
    hide IsPowerOf2, AlignUp, Aligned;
    PowerIsAligned(a);
    AlignUpIs(mem, a);
    var u, v, w := mem / 16, AlignUp(mem, a) / 16, a / 16;
    assert mem == 16 * u && AlignUp(mem, a) == 16 * v && a == 16 * w;
    Multiple16(AlignUp(mem, a) - mem, v - u);
    Multiple16(AlignUp(mem, a) - 16, v - 1);
    Multiple16(AlignUp(mem, a) + a - 16, v + w - 1);
  }

  lemma Multiple16(x: int, k: int)
    requires x == 16 * k
    ensures x % 16 == 0 && (x > 0 ==> x >= 16)
  {
  }

  /** Enough for the chunk itself, for moving it to an aligned spot and for the leader in front of it. */
  function PaddedRequest(bytes: nat, a: nat): nat {
    RequestToSize(bytes) + a + MIN_CHUNK_SIZE - CHUNK_OVERHEAD
  }

  ghost predicate CanServeAligned(l: Layout, topsize: nat, bytes: nat, a: nat) {
    PaddedRequest(bytes, a) < MAX_REQUEST && CanServe(l, topsize, RequestToSize(PaddedRequest(bytes, a)))
  }

  /** internal_memalign; 0 stands for failure. The result is a chunk of this segment. */
  method InternalMemalign(h: Heap, alignment0: nat, bytes: nat) 
    returns (ok: bool, mem: int, ghost alignment: nat, ghost at: int)
    requires h.Valid() && alignment0 <= WORD / 2 && bytes < WORD
    modifies h, h.small, h.large
    ensures ok && h.Valid() && Rounded(alignment0, alignment) && alignment <= WORD / 2
    ensures mem != 0 <==> bytes < MAX_REQUEST - alignment && old(CanServeAligned(h.layout, h.topsize, bytes, alignment))
    ensures mem == 0 ==> unchanged(h) && h.LiveChunks() == old(h.LiveChunks())
    ensures mem != 0 ==>
      && Aligned(mem, alignment) && mem - 16 >= h.base
      && mem - 16 !in old(h.LiveChunks()) && mem - 16 in h.LiveChunks()
      && h.LiveChunks() == old(h.LiveChunks())[mem - 16 := h.LiveChunks()[mem - 16]]
      && RequestToSize(bytes) <= h.LiveChunks()[mem - 16] <= RequestToSize(bytes) + MIN_CHUNK_SIZE
      && h.LiveChunks()[mem - 16] - CHUNK_OVERHEAD >= bytes
    ensures mem != 0 ==> var req := RequestToSize(PaddedRequest(bytes, alignment));
      && old(Chosen(h.layout, h.dv, h.topsize, at, req))
      && CutOut(h, old(h.layout), old(h.dv), old(h.dvsize), at, req, mem - 16, RequestToSize(bytes), alignment)
  {
    hide HeapOk, AllFiled, SB.SmallBins.Valid, TB.TreeBins.Valid, VictimOk, IsPowerOf2, CanServe, Chosen, RequestToSize,
      BitAnd, Heap.VictimKept, VictimAfter, FirstSpot;
    ok, mem, at := true, 0, 0;
    var al := RoundAlignment(alignment0);
    alignment := al;
    if bytes >= MAX_REQUEST - al {
      return;
    }
    RequestSizeFits(bytes);
    var nb := RequestToSize(bytes);
    var req := PaddedRequest(bytes, al);
    ok, mem := h.Malloc(req);
    if mem != 0 {
      RequestSizeFits(req);
      at := mem - 16;
      ghost var live1, dv1, dvsize1, top1 := h.LiveChunks(), h.dv, h.dvsize, h.top;
      var ok', p := MoveToAligned(h, mem, al, nb);
      ghost var live2, dv2, dvsize2, top2 := h.LiveChunks(), h.dv, h.dvsize, h.top;
      Kept(h, dv1, dvsize1, top1);
      var ok2 := TrimTail(h, p, nb);
      ok := ok && ok' && ok2;
      InUse(h, p);
      mem := p + 16;
      h.KeptTwice(dv1, dvsize1, top1, dv2, dvsize2, top2);
      OnlyOneNew(old(h.LiveChunks()), live1, live2, h.LiveChunks(), at, p);
    }
  }

  /** The chunk at itself if it is aligned, else the first aligned spot that leaves a leader of at least a chunk. */
  predicate FirstSpot(at: int, p: int, a: nat)
    requires a > 0
  {
    if Aligned(at + 16, a) then p == at else Aligned(p + 16, a) && MIN_CHUNK_SIZE <= p - at <= a + 16
  }

  /** Of the live chunks only p was replaced, by some q (perhaps p itself). */
  predicate MovedTo(live: map<int, nat>, p: int, q: int, live': map<int, nat>) {
    && (q == p || q !in live) && q in live'
    && live' == (live - {p})[q := live'[q]]
  }

  lemma NotMoved(live: map<int, nat>, p: int, a: nat)
    requires p in live && a > 0 && Aligned(p + 16, a)
    ensures MovedTo(live, p, p, live) && FirstSpot(p, p, a)
  {
    assert (live - {p})[p := live[p]] == live;
  }

  lemma Moved(live: map<int, nat>, p: int, q: int, size: nat, a: nat)
    requires q !in live && a > 0 && !Aligned(p + 16, a) && Aligned(q + 16, a) && MIN_CHUNK_SIZE <= q - p <= a + 16
    ensures MovedTo(live, p, q, (live - {p})[q := size]) && FirstSpot(p, q, a)
  {
  }

  /** The chunk itself if it is aligned, else an aligned spot within it, the leader being given back. */
  method MoveToAligned(h: Heap, mem: int, al: nat, nb: nat) returns (ok: bool, p: int)
    requires h.Valid() && mem - 16 in h.LiveChunks() && IsPowerOf2(al) && MIN_CHUNK_SIZE <= al <= WORD / 2
    requires nb >= MIN_CHUNK_SIZE && h.LiveChunks()[mem - 16] >= nb + al + MIN_CHUNK_SIZE
    modifies h, h.small, h.large
    ensures ok && h.Valid() && Aligned(p + 16, al)
    ensures MovedTo(old(h.LiveChunks()), mem - 16, p, h.LiveChunks()) && h.LiveChunks()[p] >= nb
    ensures FirstSpot(mem - 16, p, al) && h.LiveChunks()[p] == old(h.LiveChunks()[mem - 16]) - (p - (mem - 16))
    ensures h.VictimKept(old(h.dv), old(h.dvsize), old(h.top))
  {
    hide HeapOk, AllFiled, SB.SmallBins.Valid, TB.TreeBins.Valid, VictimOk, IsPowerOf2, BitAnd, AlignUp,
      Heap.VictimKept, Aligned, MovedTo, FirstSpot;
    ok := true;
    ghost var live := h.LiveChunks();
    p := mem - 16;
    InUse(h, p);
    Masked(mem, al);
    if BitAnd(mem, al - 1) != 0 { // misaligned
      var newp := AlignedSpot(mem, al);
      var leadsize := newp - p;
      var newsize := HeadAt(h.head, p).size - leadsize;
      ok := GiveBackLeader(h, p, leadsize, newp, newsize);
      Moved(live, p, newp, newsize, al);
      p := newp;
    } else {
      NotMoved(live, p, al);
      h.VictimCovers(h.dv, h.dvsize, h.top);
    }
  }

  /**
    What is left of the chunk that malloc found at `at` for the padded request: the first aligned spot, what is not
    needed given back on both sides; the victim is the one malloc left, or the free chunk that took it in.
    */
  ghost predicate CutOut(h: Heap, l: Layout, dv0: int, dvsize0: nat, at: int, req: nat, p: int, nb: nat, a: nat)
    requires a > 0
    reads h
  {
    && (at == l.top || at in l.sizes) && FirstSpot(at, p, a) && p in h.LiveChunks()
    && var given := if at == l.top || l.sizes[at] - req >= MIN_CHUNK_SIZE then req else l.sizes[at];
       var left := given - (p - at);
       var v := VictimAfter(l, dv0, dvsize0, at, req);
       && h.LiveChunks()[p] == (if left > nb + MIN_CHUNK_SIZE then nb else left)
       && h.VictimKept(v.0, v.1, if at == l.top then at + req else l.top)
  }

  /** Spare room at the end is given back, unless it is no more than a least chunk. */
  method TrimTail(h: Heap, p: int, nb: nat) returns (ok: bool)
    requires h.Valid() && p in h.LiveChunks() && h.LiveChunks()[p] >= nb >= MIN_CHUNK_SIZE
    requires nb % MALLOC_ALIGNMENT == 0
    modifies h, h.small, h.large
    ensures ok && h.Valid()
    ensures var size := old(h.LiveChunks()[p]);
      h.LiveChunks() == old(h.LiveChunks())[p := if size > nb + MIN_CHUNK_SIZE then nb else size]
    ensures h.VictimKept(old(h.dv), old(h.dvsize), old(h.top))
  {
    hide HeapOk, AllFiled, SB.SmallBins.Valid, TB.TreeBins.Valid, VictimOk, Heap.VictimKept;
    ok := true;
    InUse(h, p);
    var size := HeadAt(h.head, p).size;
    if size > nb + MIN_CHUNK_SIZE {
      ok := GiveBackTail(h, p, nb);
    } else {
      h.VictimCovers(h.dv, h.dvsize, h.top);
    }
  }

  /** The front of a live chunk is given back, the rest stays in use at a higher address. */
  method GiveBackLeader(h: Heap, p: int, leadsize: nat, newp: int, newsize: nat) returns (ok: bool)
    requires h.Valid() && p in h.LiveChunks() && newp == p + leadsize
    requires leadsize % MALLOC_ALIGNMENT == 0 && MIN_CHUNK_SIZE <= leadsize && MIN_CHUNK_SIZE <= newsize
    requires leadsize + newsize == h.LiveChunks()[p]
    modifies h, h.small, h.large
    ensures ok && h.Valid() && newp !in old(h.LiveChunks())
    ensures h.LiveChunks() == (old(h.LiveChunks()) - {p})[newp := newsize]
    ensures h.VictimKept(old(h.dv), old(h.dvsize), old(h.top))
  {
    hide Tiled, Coalesced, Tags, TopOk, AllFiled, SB.SmallBins.Valid, TB.TreeBins.Valid, VictimOk, Heap.VictimKept;
    ghost var l := h.layout;
    BoundaryTags(l, h.head, h.foot, h.limit, p);
    UsedAhead(l, h.head, h.foot, h.limit, p, h.dv);
    h.head := SetInuse(h.head, newp, newsize);
    h.head := SetInuse(h.head, p, leadsize);
    CutUsed(l, old(h.head), h.foot, h.limit, p, leadsize, h.head);
    h.layout := Cut(l, p, leadsize, true);
    CutKeepsFree(l, p, leadsize, h.dv, h.dvsize, h.small.Sizes(), h.large.Sizes());
    ok := h.DisposeChunk(p, leadsize);
  }

  /** What was kept, in the terms of freeing twice. */
  lemma Kept(h: Heap, dv0: int, dvsize0: nat, top0: nat)
    requires h.VictimKept(dv0, dvsize0, top0)
    ensures h.top <= top0 && (h.dvsize == 0 <==> dvsize0 == 0 || h.top <= dv0)
    ensures h.dvsize != 0 ==> h.dv <= dv0 && dv0 + dvsize0 <= h.dv + h.dvsize
  {
  }

  /** What the head of a live chunk says. */
  lemma InUse(h: Heap, p: int)
    requires h.Valid() && p in h.LiveChunks()
    ensures HeadAt(h.head, p).size == h.LiveChunks()[p]
    ensures h.base <= p && p + h.LiveChunks()[p] < WORD && p % 16 == 0 && h.LiveChunks()[p] % 16 == 0
  {
    BoundaryTags(h.layout, h.head, h.foot, h.limit, p);
    ChunkBounds(h.layout, p);
  }

  lemma Masked(mem: nat, a: nat)
    requires IsPowerOf2(a)
    ensures a > 0 && (BitAnd(mem, a - 1) == 0 <==> Aligned(mem, a))
  {
    var k: nat :| a == Pow2(k);
    LowMask(mem, k);
  }

  lemma OnlyOneNew(live0: map<int, nat>, live1: map<int, nat>, live2: map<int, nat>, live3: map<int, nat>,
                   p: int, q: int)
    requires p !in live0 && p in live1 && live1 == live0[p := live1[p]] && MovedTo(live1, p, q, live2)
    requires q in live3 && live3 == live2[q := live3[q]]
    ensures q !in live0 && live3 == live0[q := live3[q]]
  {
  }
}
