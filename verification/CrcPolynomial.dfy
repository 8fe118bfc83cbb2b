/**
  The reference meaning of a checksum: the remainder of a polynomial over GF(2).
  Polynomials are written as coefficient strings, highest power first; the divisor of degree N
  is x^N plus the N coefficients of the truncated polynomial p.
  */
module CrcPolynomial {
  import opened Words
  import opened CrcDivision

  /** The product of the polynomial q and the divisor. */
  function Multiple(q: seq<bool>, p: Word): (m: seq<bool>)
    requires |p| > 0
    ensures |m| == |q| + |p|
    decreases |q|
  {
    if q == [] then Zeros(|p|)
    else
      var k := |q| - 1;
      Xor(Multiple(q[..k], p) + [false], Zeros(k) + Scaled(q[k], p))
  }

  /** The divisor, or zero. */
  function Scaled(b: bool, p: Word): (m: seq<bool>)
    ensures |m| == |p| + 1
  {
    if b then [true] + Reverse(p) else Zeros(|p| + 1)
  }

  /** The dividend (of degree below |q| + N) is q times the divisor plus r. */
  ghost predicate Divides(dividend: seq<bool>, q: seq<bool>, r: Word, p: Word)
    requires |r| == |p| > 0 && |dividend| == |q| + |p|
  {
    dividend == Xor(Multiple(q, p), Zeros(|q|) + Reverse(r))
  }

  lemma DividesNext(dividend: seq<bool>, q: seq<bool>, r: Word, b: bool, p: Word)
    requires |r| == |p| > 0 && |dividend| == |q| + |p| && Divides(dividend, q, r, p)
    ensures Divides(dividend + [b], q + [Top(r)], AugStep(r, b, p), p)
  {
    var k, n, t := |q|, |p|, Top(r);
    assert (q + [t])[..k] == q;
    var m := Multiple(q, p) + [false];
    var s := Zeros(k) + Scaled(t, p);
    assert Multiple(q + [t], p) == Xor(m, s);
    var tail := Zeros(k) + Reverse(r) + [b];
    var tail' := Zeros(k + 1) + Reverse(AugStep(r, b, p));
    LowerPart(k, r, b, p);
    assert tail == Xor(s, tail');
    assert dividend + [b] == Xor(m, tail);
    XorAssociative(m, s, tail');
  }

  lemma XorAssociative(a: Word, b: Word, c: Word)
    requires |a| == |b| == |c|
    ensures Xor(a, Xor(b, c)) == Xor(Xor(a, b), c)
  {
  }

  lemma LowestPart(r: Word, b: bool, p: Word)
    requires |r| == |p| > 0
    ensures Reverse(r) + [b] == Xor(Scaled(Top(r), p), [false] + Reverse(AugStep(r, b, p)))
  {
    var low := [b] + r[..|r| - 1];
    assert Reverse(r) + [b] == [Top(r)] + Reverse(low);
    if Top(r) {
      ReverseXor(low, p);
      assert Reverse(low) == Xor(Reverse(p), Reverse(Xor(low, p)));
    }
  }

  lemma LowerPart(k: nat, r: Word, b: bool, p: Word)
    requires |r| == |p| > 0
    ensures Zeros(k) + Reverse(r) + [b]
         == Xor(Zeros(k) + Scaled(Top(r), p), Zeros(k + 1) + Reverse(AugStep(r, b, p)))
  {
    hide Scaled, Reverse, Xor, AugStep;
    var r' := Reverse(AugStep(r, b, p));
    LowestPart(r, b, p);
    assert Zeros(k + 1) + r' == Zeros(k) + ([false] + r');
    XorPrefix(k, Scaled(Top(r), p), [false] + r');
    assert Zeros(k) + Reverse(r) + [b] == Zeros(k) + (Reverse(r) + [b]);
  }

  lemma XorPrefix(k: nat, a: Word, b: Word)
    requires |a| == |b|
    ensures Xor(Zeros(k) + a, Zeros(k) + b) == Zeros(k) + Xor(a, b)
  {
  }

  /** Dividing the raw message from a zero remainder performs the long division of its bits. */
  lemma {:induction false} AugmentedDivides(bits: seq<bool>, p: Word) returns (q: seq<bool>)
    requires |p| > 0
    ensures |q| == |bits|
    ensures Divides(Zeros(|p|) + bits, q, AugSteps(Zeros(|p|), bits, p), p)
    decreases |bits|
  {
    var z := Zeros(|p|);
    if bits == [] {
      q := [];
      assert Reverse(z) == z && z + bits == z && Zeros(0) + Reverse(z) == z;
      XorZero(z);
    } else {
      var k := |bits| - 1;
      var init, last := bits[..k], bits[k];
      assert bits == init + [last];
      q := AugmentedDivides(init, p);
      StepsSnoc(z, init, last, p);
      DividesNext(z + init, q, AugSteps(z, init, p), last, p);
      assert z + init + [last] == z + bits;
      q := q + [Top(AugSteps(z, init, p))];
    }
  }

  lemma {:induction false} MultipleLinear(q: seq<bool>, s: seq<bool>, p: Word)
    requires |q| == |s| && |p| > 0
    ensures Multiple(Xor(q, s), p) == Xor(Multiple(q, p), Multiple(s, p))
    decreases |q|
  {
    if q == [] {
      assert Xor(q, s) == [];
      XorZero(Zeros(|p|));
    } else {
      var k := |q| - 1;
      assert Xor(q, s)[..k] == Xor(q[..k], s[..k]);
      MultipleLinear(q[..k], s[..k], p);
      var mq, ms := Multiple(q[..k], p), Multiple(s[..k], p);
      assert Xor(mq + [false], ms + [false]) == Xor(mq, ms) + [false];
      ScaledLinear(q[k], s[k], p);
      XorPrefix(k, Scaled(q[k], p), Scaled(s[k], p));
      XorSwap(mq + [false], Zeros(k) + Scaled(q[k], p), ms + [false], Zeros(k) + Scaled(s[k], p));
    }
  }

  lemma ScaledLinear(a: bool, b: bool, p: Word)
    ensures Scaled(a != b, p) == Xor(Scaled(a, p), Scaled(b, p))
  {
    XorZero(Scaled(true, p));
    XorZero(Scaled(false, p));
  }

  /** Only the zero quotient gives a multiple of degree below N. */
  lemma {:induction false} SmallMultipleIsZero(q: seq<bool>, p: Word)
    requires |p| > 0
    requires Multiple(q, p)[..|q|] == Zeros(|q|)
    ensures Multiple(q, p) == Zeros(|q| + |p|)
    decreases |q|
  {
    if q != [] {
      var k := |q| - 1;
      var m := Multiple(q[..k], p);
      forall i | 0 <= i < k
        ensures m[i] == Zeros(k)[i]
      {
        assert Multiple(q, p)[..|q|][i] == m[i];
      }
      SmallMultipleIsZero(q[..k], p);
      assert Multiple(q, p)[..|q|][k] == q[k];
      assert Multiple(q, p)[..|q|][k] == Zeros(|q|)[k];
    }
  }

  /** r is a remainder of the polynomial with the given coefficients (N leading zeros included). */
  ghost predicate IsRemainder(dividend: seq<bool>, r: Word, p: Word)
    requires |r| == |p| > 0 && |dividend| >= |p|
  {
    exists q: seq<bool> :: |q| + |p| == |dividend| && Divides(dividend, q, r, p)
  }

  /** The message's polynomial times x^N, plus the initial remainder in front of its end: times x to its length. */
  function Dividend(init: Word, bits: seq<bool>): (d: seq<bool>)
    ensures |d| == |init| + |bits| + |init|
  {
    Zeros(|init|) + Xor(bits + Zeros(|init|), Reverse(init) + Zeros(|bits|))
  }

  /** Division of the raw dividend. */
  lemma InitialEnters(init: Word, bits: seq<bool>, p: Word)
    requires |init| == |p| > 0
    ensures AugSteps(Zeros(|p|), Xor(bits + Zeros(|p|), Reverse(init) + Zeros(|bits|)), p) == Steps(init, bits, p)
  {
    hide *;
    var z, zeros := Zeros(|p|), Zeros(|bits|);
    var a := Reverse(init) + zeros;
    XorZero(z);
    AugStepsLinear(z, z, bits + z, a, p);
    AugmentedFromZero(bits, p);
    AugStepsConcat(z, Reverse(init), zeros, p);
    OnlyEntered(Reverse(init), p);
    ReverseReverse(init);
    StepsOfZeros(init, |bits|, p);
    XorZero(init);
    XorZero(bits);
    StepsLinear(z, init, bits, zeros, p);
  }

  /**
    The register after a message, from any initial remainder, is the one and only remainder of the
    dividend on division by the generator polynomial.
    */
  lemma PlainIsTheRemainder(init: Word, bits: seq<bool>, p: Word, r: Word)
    requires |init| == |r| == |p| > 0
    ensures r == Steps(init, bits, p) <==> IsRemainder(Dividend(init, bits), r, p)
  {
    hide Zeros, Xor, Reverse, Steps, AugSteps, Divides;
    var dividend := Dividend(init, bits);
    var q0 := AugmentedDivides(dividend[|p|..], p);
    InitialEnters(init, bits, p);
    var r0 := Steps(init, bits, p);
    assert dividend == Zeros(|p|) + dividend[|p|..];
    assert IsRemainder(dividend, r0, p);
    if IsRemainder(dividend, r, p) {
      var q :| |q| + |p| == |dividend| && Divides(dividend, q, r, p);
      UniqueRemainder(dividend, q, r, q0, r0, p);
    }
  }

  lemma UniqueRemainder(dividend: seq<bool>, q: seq<bool>, r: Word, q': seq<bool>, r': Word, p: Word)
    requires |r| == |r'| == |p| > 0 && |q| == |q'| && |dividend| == |q| + |p|
    requires Divides(dividend, q, r, p) && Divides(dividend, q', r', p)
    ensures r == r'
  {
    var k := |q|;
    var m, m' := Multiple(q, p), Multiple(q', p);
    var d := Zeros(k) + Xor(Reverse(r), Reverse(r'));
    XorPrefix(k, Reverse(r), Reverse(r'));
    forall i | 0 <= i < |d|
      ensures Xor(m, m')[i] == d[i]
    {
      assert dividend[i] == (m[i] != (Zeros(k) + Reverse(r))[i]);
      assert dividend[i] == (m'[i] != (Zeros(k) + Reverse(r'))[i]);
    }
    assert Xor(m, m') == d;
    MultipleLinear(q, q', p);
    assert d[..k] == Zeros(k);
    SmallMultipleIsZero(Xor(q, q'), p);
    forall i | 0 <= i < |r|
      ensures Reverse(r)[i] == Reverse(r')[i]
    {
      assert d[k + i] == Zeros(k + |p|)[k + i];
    }
    ReverseReverse(r);
    ReverseReverse(r');
    assert Reverse(r) == Reverse(r');
  }
}
