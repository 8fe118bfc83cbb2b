/** Fixed-width machine words as bit sequences, least significant bit first. */
module Words {

  type Word = seq<bool>

  /** The byte of an octet-oriented buffer. */
  type Byte = b: Word | |b| == 8 witness seq(8, i => false)

  function Zeros(n: nat): (w: Word)
    ensures |w| == n
  {
    seq(n, i => false)
  }

  function Xor(a: Word, b: Word): (c: Word)
    requires |a| == |b|
    ensures |c| == |a|
  {
    seq(|a|, i requires 0 <= i < |a| => a[i] != b[i])
  }

  /** `a << k` on a word of fixed width: bits pushed past the top are lost. */
  function ShiftLeft(a: Word, k: nat): (c: Word)
    ensures |c| == |a|
  {
    if k <= |a| then Zeros(k) + a[..|a| - k] else Zeros(|a|)
  }

  /** `a >> k` on an unsigned word. */
  function ShiftRight(a: Word, k: nat): (c: Word)
    ensures |c| == |a|
  {
    if k <= |a| then a[k..] + Zeros(k) else Zeros(|a|)
  }

  function Reverse(a: Word): (c: Word)
    ensures |c| == |a|
  {
    seq(|a|, i requires 0 <= i < |a| => a[|a| - 1 - i])
  }

  /** Conversion of an unsigned word to another width: truncation or zero extension. */
  function Resize(a: Word, n: nat): (c: Word)
    ensures |c| == n
  {
    if n <= |a| then a[..n] else a + Zeros(n - |a|)
  }

  function ToNat(a: Word): nat {
    if a == [] then 0 else (if a[0] then 1 else 0) + 2 * ToNat(a[1..])
  }

  function OfNat(v: nat, n: nat): (a: Word)
    ensures |a| == n
  {
    if n == 0 then [] else [v % 2 == 1] + OfNat(v / 2, n - 1)
  }

  function Pow2(n: nat): (p: nat)
    ensures p > 0
  {
    if n == 0 then 1 else 2 * Pow2(n - 1)
  }

  /** Quotient and remainder, given the equation. */
  lemma Divided(x: nat, n: nat, q: nat, r: nat)
    requires r < n && x == q * n + r
    ensures x / n == q && x % n == r
  {
    var d: int := x / n - q;
    assert d * n == r - x % n;
    assert d >= 1 ==> d * n >= n;
    assert d <= -1 ==> d * n + n <= 0;
  }

  lemma DivideTwice(v: nat, d: nat)
    requires d > 0
    ensures v / 2 / d == v / (2 * d)
  {
    var h := v / 2;
    var q, t := h / d, h % d;
    assert h == q * d + t;
    assert v == q * (2 * d) + (2 * t + v % 2);
    Divided(v, 2 * d, q, 2 * t + v % 2);
  }

  /** Bit i of a number's word. */
  lemma {:induction false} OfNatBits(v: nat, n: nat, i: nat)
    requires i < n
    ensures OfNat(v, n)[i] <==> v / Pow2(i) % 2 == 1
    decreases i
  {
    if i > 0 {
      OfNatBits(v / 2, n - 1, i - 1);
      DivideTwice(v, Pow2(i - 1));
    }
  }

  lemma {:induction false} ToNatBound(a: Word)
    ensures ToNat(a) < Pow2(|a|)
  {
    if a != [] { ToNatBound(a[1..]); }
  }

  lemma {:induction false} OfNatToNat(a: Word)
    ensures OfNat(ToNat(a), |a|) == a
  {
    if a != [] {
      OfNatToNat(a[1..]);
      var t := ToNat(a[1..]);
      assert (ToNat(a)) / 2 == t;
      assert a == [a[0]] + a[1..];
    }
  }

  lemma {:induction false} ToNatOfNat(v: nat, n: nat)
    requires v < Pow2(n)
    ensures ToNat(OfNat(v, n)) == v
  {
    if n > 0 {
      ToNatOfNat(v / 2, n - 1);
      assert OfNat(v, n)[1..] == OfNat(v / 2, n - 1);
    }
  }

  lemma ReverseReverse(a: Word)
    ensures Reverse(Reverse(a)) == a
  {
  }

  lemma ReverseXor(a: Word, b: Word)
    requires |a| == |b|
    ensures Reverse(Xor(a, b)) == Xor(Reverse(a), Reverse(b))
  {
  }

  lemma XorZero(a: Word)
    ensures Xor(a, Zeros(|a|)) == a && Xor(Zeros(|a|), a) == a
    ensures Xor(a, a) == Zeros(|a|)
  {
  }

  /** Regrouping of four operands. */
  lemma XorSwap(a: Word, b: Word, c: Word, d: Word)
    requires |a| == |b| == |c| == |d|
    ensures Xor(Xor(a, b), Xor(c, d)) == Xor(Xor(a, c), Xor(b, d))
  {
  }
}
