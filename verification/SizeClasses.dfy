/**
  Sizes and bin indices of the allocator, for 64-bit words.
  A size's bits are read with Shr(s, j), the number left when the lowest j bits are dropped.
  */
module SizeClasses {
  import opened Words

  const WORD: nat := 0x1_0000_0000_0000_0000 // number of values of a size_t
  const MIN_CHUNK_SIZE: nat := 32
  const CHUNK_OVERHEAD: nat := 8
  const MALLOC_ALIGNMENT: nat := 16
  const MIN_REQUEST: nat := 23
  const MAX_REQUEST: nat := 0xFFFF_FFFF_FFFF_FF80
  const MAX_SMALL_REQUEST: nat := 232
  const NSMALLBINS: nat := 32
  const NTREEBINS: nat := 32

  // ---------------------------------------------------------------- requests

  /** `(req + CHUNK_OVERHEAD + CHUNK_ALIGN_MASK) & ~CHUNK_ALIGN_MASK` in word arithmetic. */
  function PadRequest(req: nat): nat {
    var sum := (req + CHUNK_OVERHEAD + (MALLOC_ALIGNMENT - 1)) % WORD;
    sum - sum % MALLOC_ALIGNMENT
  }

  function RequestToSize(req: nat): nat {
    if req < MIN_REQUEST then MIN_CHUNK_SIZE else PadRequest(req)
  }

  /** A chunk size that dlmalloc computes for a request is usable and least possible. */
  lemma RequestSizeFits(req: nat)
    requires req < MAX_REQUEST
    ensures var nb := RequestToSize(req);
            && nb % MALLOC_ALIGNMENT == 0 && MIN_CHUNK_SIZE <= nb < WORD
            && nb - CHUNK_OVERHEAD >= req
            && (nb > MIN_CHUNK_SIZE ==> nb - MALLOC_ALIGNMENT - CHUNK_OVERHEAD < req)
            && (req <= MAX_SMALL_REQUEST <==> IsSmall(nb))
  {
  }

  // ---------------------------------------------------------------- bits of a size

  function Shr(s: nat, j: nat): nat {
    if j == 0 then s else Shr(s, j - 1) / 2
  }

  lemma {:induction false} ShrMonotone(a: nat, b: nat, j: nat)
    requires a <= b
    ensures Shr(a, j) <= Shr(b, j)
  {
    if j > 0 { ShrMonotone(a, b, j - 1); }
  }

  lemma {:induction false} ShrAgree(a: nat, b: nat, j: nat, k: nat)
    requires j <= k && Shr(a, j) == Shr(b, j)
    ensures Shr(a, k) == Shr(b, k)
    decreases k - j
  {
    if j < k { ShrAgree(a, b, j + 1, k); }
  }

  lemma {:induction false} ShrBounds(s: nat, j: nat)
    ensures Shr(s, j) * Pow2(j) <= s < (Shr(s, j) + 1) * Pow2(j)
  {
    if j > 0 {
      ShrBounds(s, j - 1);
      HalveBounds(s, Shr(s, j - 1), Pow2(j - 1));
    }
  }

  lemma HalveBounds(s: nat, h: nat, p: nat)
    requires h * p <= s < (h + 1) * p
    ensures h / 2 * (2 * p) <= s < (h / 2 + 1) * (2 * p)
  {
    var q := h / 2;
    MulMonotone(2 * q, h, p);
    MulMonotone(h + 1, 2 * q + 2, p);
    assert q * (2 * p) == (2 * q) * p;
    assert (q + 1) * (2 * p) == (2 * q + 2) * p;
  }

  lemma MulMonotone(a: int, b: int, p: nat)
    requires a <= b
    ensures a * p <= b * p
  {
  }

  lemma ShrUnique(s: nat, j: nat, q: nat)
    requires q * Pow2(j) <= s < (q + 1) * Pow2(j)
    ensures Shr(s, j) == q
  {
    ShrBounds(s, j);
    var h, p := Shr(s, j), Pow2(j);
    if h < q { MulMonotone(h + 1, q, p); }
    if q < h { MulMonotone(q + 1, h, p); }
  }

  lemma {:induction false} Pow2Add(a: nat, b: nat)
    ensures Pow2(a + b) == Pow2(a) * Pow2(b)
  {
    if a > 0 { Pow2Add(a - 1, b); }
  }

  lemma Pow2Constants()
    ensures Pow2(7) == 0x80 && Pow2(8) == 0x100 && Pow2(15) == 0x8000 && Pow2(16) == 0x1_0000
    ensures Pow2(22) == 0x40_0000 && Pow2(32) == 0x1_0000_0000
    ensures Pow2(63) == 0x8000_0000_0000_0000 && Pow2(64) == WORD
  {
    assert Pow2(7) == 0x80;
    assert Pow2(15) == 0x8000 by { Pow2Add(7, 8); }
    Pow2Add(7, 15);
    Pow2Add(16, 16);
    Pow2Add(31, 32);
    assert Pow2(31) * 2 == Pow2(32);
    Pow2Add(32, 32);
  }

  // ---------------------------------------------------------------- reading bits off a shifting word

  /** `s << n` in a word. */
  function Shl(s: nat, n: nat): (r: nat)
    ensures r < WORD
  {
    (s * Pow2(n)) % WORD
  }

  /** `(k >> (SIZE_T_BITSIZE - 1)) & 1`. */
  function SignBit(k: nat): (b: nat) {
    (k / 0x8000_0000_0000_0000) % 2
  }

  lemma ShlAgain(s: nat, n: nat)
    ensures (2 * Shl(s, n)) % WORD == Shl(s, n + 1)
  {
    var x := s * Pow2(n);
    assert s * Pow2(n + 1) == 2 * x;
    DoubleMod(x);
  }

  lemma DoubleMod(x: nat)
    ensures (2 * (x % WORD)) % WORD == (2 * x) % WORD
  {
    var q, r := x / WORD, x % WORD;
    if 2 * r < WORD {
      ModOfSum(2 * q, 2 * r);
    } else {
      ModOfSum(2 * q + 1, 2 * r - WORD);
    }
  }

  /** The sign bit of a size shifted so that j bits are left to read is bit j - 1 of the size. */
  lemma SignBitReads(s: nat, j: nat)
    requires 1 <= j <= 64
    ensures SignBit(Shl(s, 64 - j)) == Shr(s, j - 1) % 2
  {
    var low := SplitProduct(s, j);
    SignBitOfSum(Shr(s, j - 1), low);
  }

  /** A size shifted up, as its high bits times half a word plus what is below the sign bit. */
  lemma SplitProduct(s: nat, j: nat) returns (low: nat)
    requires 1 <= j <= 64
    ensures low < 0x8000_0000_0000_0000
    ensures s * Pow2(64 - j) == Shr(s, j - 1) * 0x8000_0000_0000_0000 + low
  {
    hide Pow2, Shr;
    var p, u, h := Pow2(j - 1), Pow2(64 - j), Shr(s, j - 1);
    assert p * u == 0x8000_0000_0000_0000 by { Pow2Constants(); Pow2Add(j - 1, 64 - j); }
    ShrBounds(s, j - 1);
    var rest := s - h * p;
    assert (h + 1) * p == h * p + p;
    ScaleBelow(rest, p, u);
    low := rest * u;
    Distribute(s, h, p, rest, u);
  }

  lemma Distribute(s: nat, h: nat, p: nat, rest: nat, u: nat)
    requires s == h * p + rest
    ensures s * u == h * (p * u) + rest * u
  {
    MulAssociative(h, p, u);
  }

  lemma ScaleBelow(a: nat, p: nat, u: nat)
    requires a < p && u > 0
    ensures 0 <= a * u < p * u
  {
  }

  lemma MulAssociative(a: int, b: int, c: int)
    ensures (a * b) * c == a * (b * c)
  {
  }

  lemma SignBitOfSum(h: nat, low: nat)
    requires low < 0x8000_0000_0000_0000
    ensures SignBit((h * 0x8000_0000_0000_0000 + low) % WORD) == h % 2
  {
    var q, b := h / 2, h % 2;
    ModOfSum(q, b * 0x8000_0000_0000_0000 + low);
  }

  lemma ModOfSum(q: nat, r: nat)
    requires r < WORD
    ensures (q * WORD + r) % WORD == r
  {
  }

  // ---------------------------------------------------------------- small bins

  predicate IsSmall(s: nat) {
    s / 8 < NSMALLBINS
  }

  function SmallIndex(s: nat): nat {
    s / 8
  }

  function SmallIndexToSize(i: nat): nat {
    i * 8
  }

  // ---------------------------------------------------------------- tree bins

  /** x & b for a power of two b. */
  function AndBit(x: nat, b: nat): nat
    requires b > 0
  {
    if (x / b) % 2 == 1 then b else 0
  }

  function Wrap32(x: int): (r: nat)
    ensures r < 0x1_0000_0000
  {
    x % 0x1_0000_0000
  }

  /** `((y - threshold) >> 16) & bit` on unsigned ints: the sign of the difference, as a bit. */
  function Below(y: nat, threshold: nat, bit: nat): nat
    requires bit > 0
  {
    AndBit(Wrap32(y - threshold) / 0x1_0000, bit)
  }

  /** The position of the highest bit of a 16-bit number, without branches. */
  function HighBit16(x: nat): int {
    var n := Below(x, 0x100, 8);
    var y1 := Wrap32(x * Pow2(n));
    var k1 := Below(y1, 0x1000, 4);
    var y2 := Wrap32(y1 * Pow2(k1));
    var k2 := Below(y2, 0x4000, 2);
    var y3 := Wrap32(y2 * Pow2(k2));
    14 - (n + k1 + k2) + y3 / 0x8000
  }

  /** compute_tree_index, in the form for compilers without a bit-scan instruction. */
  function TreeIndex(s: nat): int {
    var x := s / 0x100;
    if x == 0 then 0
    else if x > 0xFFFF then NTREEBINS - 1
    else
      var k := HighBit16(x);
      if k < 0 then -1 else 2 * k + Shr(s, k + 7) % 2
  }

  /** compute_tree_index with `__builtin_clz`: the shifted size is cut to an unsigned int first. */
  function TreeIndexBuiltin(s: nat): nat {
    var x := (s / 0x100) % 0x1_0000_0000;
    if x == 0 then 0
    else if x > 0xFFFF then NTREEBINS - 1
    else
      var k := FloorLog2(x);
      2 * k + Shr(s, k + 7) % 2
  }

  function FloorLog2(x: nat): (k: nat)
    requires x > 0
    ensures Pow2(k) <= x < Pow2(k + 1)
  {
    if x == 1 then 0 else
      var k := FloorLog2(x / 2) + 1;
      assert Pow2(k) == 2 * Pow2(k - 1) && Pow2(k + 1) == 2 * Pow2(k);
      k
  }

  function MinSizeForTreeIndex(i: nat): nat {
    Pow2(i / 2 + 8) + (if i % 2 == 1 then Pow2(i / 2 + 7) else 0)
  }

  /** `leftshift_for_tree_index`. */
  function LeftShiftForTreeIndex(i: nat): nat
    requires i < NTREEBINS
  {
    if i == NTREEBINS - 1 then 0 else 63 - (i / 2 + 8 - 2)
  }

  /** How many low bits tell apart the sizes of one bin. */
  function Resolved(i: nat): (j: nat)
    requires i < NTREEBINS
    ensures 7 <= j <= 64 && LeftShiftForTreeIndex(i) == 64 - j
  {
    if i == NTREEBINS - 1 then 64 else i / 2 + 7
  }

  /** The bits above, common to all sizes of the bin. */
  function RootPrefix(i: nat): nat
    requires i < NTREEBINS
  {
    if i == NTREEBINS - 1 then 0 else 2 + i % 2
  }

  lemma BelowIs(y: nat, threshold: nat, bit: nat)
    requires y <= 0xFFFF && 0 < threshold <= 0xFFFF && bit in {2, 4, 8}
    ensures Below(y, threshold, bit) == if y < threshold then bit else 0
  {
    if y < threshold {
      assert Wrap32(y - threshold) == 0x1_0000_0000 + y - threshold;
      assert Wrap32(y - threshold) / 0x1_0000 == 0xFFFF;
    } else {
      assert Wrap32(y - threshold) == y - threshold;
    }
  }

  /** One conditional shift, which does not wrap around. */
  lemma ScaleIf(y: nat, threshold: nat, bit: nat, factor: nat)
    requires y <= 0xFFFF && 0 < threshold <= 0xFFFF && bit in {2, 4, 8} && factor == Pow2(bit)
    ensures factor == if bit == 2 then 4 else if bit == 4 then 16 else 256
    ensures var b := Below(y, threshold, bit);
      b == (if y < threshold then bit else 0)
      && Wrap32(y * Pow2(b)) == y * Pow2(b) == if y < threshold then factor * y else y
  {
    hide Below;
    BelowIs(y, threshold, bit);
    PowersTo16();
    var z := if y < threshold then factor * y else y;
    assert y * Pow2(Below(y, threshold, bit)) == z;
    hide Pow2;
    assert 0 <= z < 0x1_0000_0000 && Wrap32(z) == z;
  }

  lemma ThreeShifts(x: nat, a: nat, b: nat, c: nat)
    ensures x * Pow2(a) * Pow2(b) * Pow2(c) == x * Pow2(a + b + c)
  {
    Pow2Add(a, b);
    Pow2Add(a + b, c);
    MulAssociative(x, Pow2(a), Pow2(b));
    MulAssociative(x, Pow2(a + b), Pow2(c));
  }

  /** The conditional shifts bring the highest bit to one of two positions. */
  lemma Normalized(x: nat) returns (n: nat, y: nat)
    requires 0 < x <= 0xFFFF
    ensures n in {0, 2, 4, 6, 8, 10, 12, 14} && y == x * Pow2(n) && 0x4000 <= y <= 0xFFFF
    ensures HighBit16(x) == 14 - n + y / 0x8000
  {
    var f8, f4, f2 := Pow2(8), Pow2(4), Pow2(2);
    hide Below, Wrap32, Pow2;
    ScaleIf(x, 0x100, 8, f8);
    var k0 := Below(x, 0x100, 8);
    var y1 := Wrap32(x * Pow2(k0));
    ScaleIf(y1, 0x1000, 4, f4);
    var k1 := Below(y1, 0x1000, 4);
    var y2 := Wrap32(y1 * Pow2(k1));
    ScaleIf(y2, 0x4000, 2, f2);
    var k2 := Below(y2, 0x4000, 2);
    ThreeShifts(x, k0, k1, k2);
    n, y := k0 + k1 + k2, Wrap32(y2 * Pow2(k2));
  }

  lemma HighBit16Is(x: nat)
    requires 0 < x <= 0xFFFF
    ensures 0 <= HighBit16(x) <= 15 && Pow2(HighBit16(x)) <= x < Pow2(HighBit16(x) + 1)
  {
    hide HighBit16, Pow2;
    var n, y := Normalized(x);
    HighBitOfNormalized(x, n, y);
  }

  lemma HighBitOfNormalized(x: nat, n: nat, y: nat)
    requires n in {0, 2, 4, 6, 8, 10, 12, 14} && y == x * Pow2(n) && 0x4000 <= y <= 0xFFFF
    ensures var k := 14 - n + y / 0x8000; 0 <= k <= 15 && Pow2(k) <= x < Pow2(k + 1)
  {
    PowersTo16();
  }

  lemma PowersTo16()
    ensures Pow2(0) == 1 && Pow2(1) == 2 && Pow2(2) == 4 && Pow2(3) == 8 && Pow2(4) == 16
    ensures Pow2(5) == 32 && Pow2(6) == 64 && Pow2(7) == 128 && Pow2(8) == 256 && Pow2(9) == 512
    ensures Pow2(10) == 1024 && Pow2(11) == 2048 && Pow2(12) == 4096 && Pow2(13) == 8192
    ensures Pow2(14) == 16384 && Pow2(15) == 32768 && Pow2(16) == 65536
  {
  }

  /** The power-of-two class of a size, and the bit that halves it. */
  lemma ClassOf(s: nat, k: nat)
    requires s >= 0x100 && Pow2(k) <= s / 0x100 < Pow2(k + 1)
    ensures Shr(s, k + 7) == 2 + Shr(s, k + 7) % 2
    ensures Shr(s, k + 7) * Pow2(k + 7) <= s < (Shr(s, k + 7) + 1) * Pow2(k + 7)
  {
    PowersTo16();
    Pow2Add(k, 8);
    Pow2Add(k + 1, 8);
    assert s / 0x100 * 0x100 <= s < (s / 0x100 + 1) * 0x100;
    MulMonotone(Pow2(k), s / 0x100, 0x100);
    MulMonotone(s / 0x100 + 1, Pow2(k + 1), 0x100);
    assert Pow2(k + 1) == 2 * Pow2(k);
    ShrUnique(s, k + 8, 1);
    ShrBounds(s, k + 7);
  }

  /** The index and the root prefix of a large size that is not in the last bin by its magnitude. */
  lemma TreeIndexOfClass(s: nat, k: nat)
    requires 0x100 <= s < 0x100_0000 && Pow2(k) <= s / 0x100 < Pow2(k + 1)
    ensures k <= 15 && TreeIndex(s) == 2 * k + Shr(s, k + 7) % 2
  {
    var x := s / 0x100;
    HighBit16Is(x);
    PowersTo16();
    var h := HighBit16(x);
    if h + 1 <= k { Pow2Monotone(h + 1, k); }
    if k + 1 <= h { Pow2Monotone(k + 1, h); }
  }

  lemma {:induction false} Pow2Monotone(a: nat, b: nat)
    requires a <= b
    ensures Pow2(a) <= Pow2(b)
    decreases b
  {
    if a < b { Pow2Monotone(a, b - 1); }
  }

  /** Consecutive minimal sizes as multiples of the same power of two. */
  lemma MinSizeForm(i: nat)
    ensures MinSizeForTreeIndex(i) == (2 + i % 2) * Pow2(i / 2 + 7)
    ensures MinSizeForTreeIndex(i + 1) == (3 + i % 2) * Pow2(i / 2 + 7)
  {
    var p := Pow2(i / 2 + 7);
    assert Pow2(i / 2 + 8) == 2 * p && Pow2(i / 2 + 9) == 2 * Pow2(i / 2 + 8);
    if i % 2 == 0 {
      assert (i + 1) / 2 == i / 2 && (i + 1) % 2 == 1;
    } else {
      assert (i + 1) / 2 == i / 2 + 1 && (i + 1) % 2 == 0;
    }
  }

  /** Sizes of at least MIN_LARGE_SIZE fall into the interval of exactly the computed bin. */
  lemma TreeIndexInterval(s: nat)
    requires s >= 0x100
    ensures 0 <= TreeIndex(s) < NTREEBINS
    ensures MinSizeForTreeIndex(TreeIndex(s)) <= s
    ensures TreeIndex(s) < NTREEBINS - 1 ==> s < MinSizeForTreeIndex(TreeIndex(s) + 1)
  {
    var x := s / 0x100;
    if x > 0xFFFF {
      LastMinSize();
    } else {
      SmallClassInterval(s, FloorLog2(x));
    }
  }

  lemma LastMinSize()
    ensures MinSizeForTreeIndex(31) == 0xC0_0000
  {
    Pow2Constants();
    MinSizeForm(31);
  }

  lemma SmallClassInterval(s: nat, k: nat)
    requires 0x100 <= s < 0x100_0000 && Pow2(k) <= s / 0x100 < Pow2(k + 1)
    ensures 0 <= TreeIndex(s) < NTREEBINS
    ensures MinSizeForTreeIndex(TreeIndex(s)) <= s < MinSizeForTreeIndex(TreeIndex(s) + 1)
  {
    hide Pow2, MinSizeForTreeIndex, TreeIndex, Shr;
    TreeIndexOfClass(s, k);
    ClassOf(s, k);
    IndexOfParts(k, Shr(s, k + 7) % 2);
  }

  lemma HalvesOf(k: nat, b: nat)
    requires b < 2
    ensures (2 * k + b) / 2 == k && (2 * k + b) % 2 == b
  {
  }

  lemma IndexOfParts(k: nat, b: nat)
    requires b < 2
    ensures MinSizeForTreeIndex(2 * k + b) == (2 + b) * Pow2(k + 7)
    ensures MinSizeForTreeIndex(2 * k + b + 1) == (2 + b + 1) * Pow2(k + 7)
  {
    hide Pow2, MinSizeForTreeIndex;
    HalvesOf(k, b);
    MinSizeForm(2 * k + b);
  }

  /** The intervals of the bins are consecutive. */
  lemma MinSizesIncrease(i: nat, j: nat)
    requires i < j
    ensures MinSizeForTreeIndex(i) < MinSizeForTreeIndex(j)
    decreases j - i
  {
    MinSizeForm(i);
    if i + 1 < j {
      MinSizesIncrease(i + 1, j);
    }
  }

  /** The tree bins partition the large sizes into the intervals between consecutive minimal sizes. */
  lemma TreeIndexPartition(s: nat, i: nat)
    requires s >= 0x100 && i < NTREEBINS
    ensures TreeIndex(s) == i
       <==> MinSizeForTreeIndex(i) <= s && (i < NTREEBINS - 1 ==> s < MinSizeForTreeIndex(i + 1))
  {
    TreeIndexInterval(s);
    var t := TreeIndex(s);
    if t + 1 < i { MinSizesIncrease(t + 1, i); }
    if i + 1 < t { MinSizesIncrease(i + 1, t); }
  }

  lemma TreeIndexMonotone(a: nat, b: nat)
    requires 0x100 <= a <= b
    ensures TreeIndex(a) <= TreeIndex(b)
  {
    TreeIndexInterval(a);
    TreeIndexInterval(b);
    if TreeIndex(b) + 1 < TreeIndex(a) {
      MinSizesIncrease(TreeIndex(b) + 1, TreeIndex(a));
    }
  }

  /** All sizes of a bin agree on the bits above the resolved ones. */
  lemma RootPrefixOf(s: nat)
    requires 0x100 <= s < WORD
    ensures 0 <= TreeIndex(s) < NTREEBINS
    ensures Shr(s, Resolved(TreeIndex(s))) == RootPrefix(TreeIndex(s))
  {
    TreeIndexInterval(s);
    var i := TreeIndex(s);
    if i == NTREEBINS - 1 {
      Pow2Constants();
      ShrUnique(s, 64, 0);
    } else {
      MinSizeForm(i);
      ShrUnique(s, i / 2 + 7, 2 + i % 2);
    }
  }

  /**
    The built-in form computes the same index exactly when the size fits 40 bits, or what the
    cut to 32 bits leaves of a larger one still looks like a size of the last bin.
    */
  lemma BuiltinAgrees(s: nat)
    requires s < WORD
    ensures TreeIndexBuiltin(s) == TreeIndex(s)
       <==> s < 0x100_0000_0000 || (s / 0x100) % 0x1_0000_0000 >= 0xC000
  {
    if s < 0x100_0000_0000 {
      BuiltinAgreesBelow(s);
    } else {
      BuiltinAgreesAbove(s);
    }
  }

  lemma BuiltinAgreesBelow(s: nat)
    requires s < 0x100_0000_0000
    ensures TreeIndexBuiltin(s) == TreeIndex(s)
  {
    hide Pow2, Shr, HighBit16;
    var x := s / 0x100;
    assert x % 0x1_0000_0000 == x;
    if 0 < x <= 0xFFFF {
      TreeIndexOfClass(s, FloorLog2(x));
    }
  }

  lemma BuiltinAgreesAbove(s: nat)
    requires 0x100_0000_0000 <= s < WORD
    ensures TreeIndexBuiltin(s) == TreeIndex(s) <==> (s / 0x100) % 0x1_0000_0000 >= 0xC000
  {
    hide Pow2, Shr, HighBit16;
    var x := s / 0x100;
    var y := x % 0x1_0000_0000;
    assert x >= 0x1_0000_0000;
    assert TreeIndex(s) == NTREEBINS - 1;
    if 0 < y <= 0xFFFF {
      var k := FloorLog2(y);
      if 16 <= k {
        Pow2Constants();
        Pow2Monotone(16, k);
      }
      LowBitsClass(s, y, k);
    }
  }

  /** The class read off the low bits only. */
  lemma LowBitsClass(s: nat, y: nat, k: nat)
    requires y == (s / 0x100) % 0x1_0000_0000 && Pow2(k) <= y < Pow2(k + 1) && k <= 15
    ensures 2 * k + Shr(s, k + 7) % 2 == NTREEBINS - 1 <==> y >= 0xC000
  {
    PowersTo16();
    if k == 15 {
      Pow2Constants();
      ShrIsDiv(s, 22);
      var z := s / 0x100;
      assert s / 0x40_0000 == z / 0x4000;
      LowBit14(z, y);
    } else {
      Pow2Monotone(k + 1, 15);
    }
  }

  lemma LowBit14(z: nat, y: nat)
    requires y == z % 0x1_0000_0000 && 0x8000 <= y <= 0xFFFF
    ensures (z / 0x4000) % 2 == 1 <==> y >= 0xC000
  {
    var q, t := z / 0x1_0000_0000, y / 0x4000;
    assert z == q * 0x1_0000_0000 + y;
    assert t == 2 || t == 3;
    DivOfSum(q * 0x4_0000 + t, y - t * 0x4000, 0x4000);
    assert z / 0x4000 == 2 * (q * 0x2_0000 + 1) + (t - 2);
    HalvesOf(q * 0x2_0000 + 1, t - 2);
  }

  lemma DivOfSum(q: nat, r: nat, d: nat)
    requires r < d
    ensures (q * d + r) / d == q
  {
    var x := q * d + r;
    DivBounds(x, d);
    if x / d < q { MulMonotone(x / d + 1, q, d); }
    if q < x / d { MulMonotone(q + 1, x / d, d); }
  }

  lemma DivBounds(s: nat, d: nat)
    requires d > 0
    ensures s / d * d <= s < (s / d + 1) * d
  {
    assert s == d * (s / d) + s % d;
  }

  lemma ShrIsDiv(s: nat, j: nat)
    ensures Shr(s, j) == s / Pow2(j)
  {
    hide Shr, Pow2;
    var p := Pow2(j);
    var q := s / p;
    DivBounds(s, p);
    ShrUnique(s, j, q);
  }

  /** A size for which the two forms differ: one terabyte. */
  lemma BuiltinFails()
    ensures TreeIndexBuiltin(0x100_0000_0000) == 0 && TreeIndex(0x100_0000_0000) == NTREEBINS - 1
  {
    assert 0x100_0000_0000 / 0x100 == 0x1_0000_0000;
  }
}
