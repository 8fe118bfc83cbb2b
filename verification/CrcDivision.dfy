/**
  Division of bit strings by a polynomial over GF(2), on remainders of exactly N bits.
  The three ways of running the division that the checksum classes use are related here:
  one message bit at a time, several bits at once from a precomputed remainder,
  and the raw (augmented) message.
  */
module CrcDivision {
  import opened Words

  function Top(r: Word): bool
    requires |r| > 0
  {
    r[|r| - 1]
  }

  function XorIf(c: bool, r: Word, p: Word): (s: Word)
    requires |r| == |p|
    ensures |s| == |r|
  {
    if c then Xor(r, p) else r
  }

  /** One division step: the message bit is compared with the remainder's highest bit. */
  function Step(r: Word, b: bool, p: Word): (s: Word)
    requires |r| == |p| > 0
    ensures |s| == |r|
  {
    XorIf(Top(r) != b, ShiftLeft(r, 1), p)
  }

  function Steps(r: Word, bits: seq<bool>, p: Word): (s: Word)
    requires |r| == |p| > 0
    ensures |s| == |r|
    decreases |bits|
  {
    if bits == [] then r else Steps(Step(r, bits[0], p), bits[1..], p)
  }

  /** One step of dividing the raw message: the message bit is shifted in at the bottom. */
  function AugStep(r: Word, b: bool, p: Word): (s: Word)
    requires |r| == |p| > 0
    ensures |s| == |r|
  {
    XorIf(Top(r), [b] + r[..|r| - 1], p)
  }

  function AugSteps(r: Word, bits: seq<bool>, p: Word): (s: Word)
    requires |r| == |p| > 0
    ensures |s| == |r|
    decreases |bits|
  {
    if bits == [] then r else AugSteps(AugStep(r, bits[0], p), bits[1..], p)
  }

  /** The highest k bits of r, highest first, padded with zeros below a short word. */
  function TopBits(r: Word, k: nat): (t: seq<bool>)
    ensures |t| == k
  {
    seq(k, i requires 0 <= i < k => i < |r| && r[|r| - 1 - i])
  }

  lemma {:induction false} StepsConcat(r: Word, a: seq<bool>, b: seq<bool>, p: Word)
    requires |r| == |p| > 0
    ensures Steps(r, a + b, p) == Steps(Steps(r, a, p), b, p)
    decreases |a|
  {
    if a == [] {
      assert a + b == b;
    } else {
      assert (a + b)[1..] == a[1..] + b;
      StepsConcat(Step(r, a[0], p), a[1..], b, p);
    }
  }

  lemma {:induction false} AugStepsConcat(r: Word, a: seq<bool>, b: seq<bool>, p: Word)
    requires |r| == |p| > 0
    ensures AugSteps(r, a + b, p) == AugSteps(AugSteps(r, a, p), b, p)
    decreases |a|
  {
    if a == [] {
      assert a + b == b;
    } else {
      assert (a + b)[1..] == a[1..] + b;
      AugStepsConcat(AugStep(r, a[0], p), a[1..], b, p);
    }
  }

  lemma StepLinear(r: Word, s: Word, b: bool, c: bool, p: Word)
    requires |r| == |s| == |p| > 0
    ensures Step(Xor(r, s), b != c, p) == Xor(Step(r, b, p), Step(s, c, p))
  {
    assert ShiftLeft(Xor(r, s), 1) == Xor(ShiftLeft(r, 1), ShiftLeft(s, 1));
  }

  /** The division is linear over GF(2), in the remainder and the message together. */
  lemma {:induction false} StepsLinear(r: Word, s: Word, a: seq<bool>, b: seq<bool>, p: Word)
    requires |r| == |s| == |p| > 0 && |a| == |b|
    ensures Steps(Xor(r, s), Xor(a, b), p) == Xor(Steps(r, a, p), Steps(s, b, p))
    decreases |a|
  {
    if a != [] {
      StepLinear(r, s, a[0], b[0], p);
      assert Xor(a, b)[1..] == Xor(a[1..], b[1..]);
      StepsLinear(Step(r, a[0], p), Step(s, b[0], p), a[1..], b[1..], p);
    } else {
      assert Xor(a, b) == [];
    }
  }

  lemma AugStepLinear(r: Word, s: Word, b: bool, c: bool, p: Word)
    requires |r| == |s| == |p| > 0
    ensures AugStep(Xor(r, s), b != c, p) == Xor(AugStep(r, b, p), AugStep(s, c, p))
  {
    var n := |r| - 1;
    assert [b != c] + Xor(r, s)[..n] == Xor([b] + r[..n], [c] + s[..n]);
  }

  lemma {:induction false} AugStepsLinear(r: Word, s: Word, a: seq<bool>, b: seq<bool>, p: Word)
    requires |r| == |s| == |p| > 0 && |a| == |b|
    ensures AugSteps(Xor(r, s), Xor(a, b), p) == Xor(AugSteps(r, a, p), AugSteps(s, b, p))
    decreases |a|
  {
    if a != [] {
      AugStepLinear(r, s, a[0], b[0], p);
      assert Xor(a, b)[1..] == Xor(a[1..], b[1..]);
      AugStepsLinear(AugStep(r, a[0], p), AugStep(s, b[0], p), a[1..], b[1..], p);
    } else {
      assert Xor(a, b) == [];
    }
  }

  lemma ShiftTwice(r: Word, k: nat)
    requires k > 0
    ensures ShiftLeft(ShiftLeft(r, 1), k - 1) == ShiftLeft(r, k)
  {
  }

  lemma StepSplit(r: Word, b: bool, p: Word)
    requires |r| == |p| > 0
    ensures Step(r, b, p) == Xor(ShiftLeft(r, 1), XorIf(Top(r) != b, Zeros(|r|), p))
    ensures Step(Zeros(|r|), b, p) == XorIf(b, Zeros(|r|), p)
  {
    assert ShiftLeft(Zeros(|r|), 1) == Zeros(|r|);
    XorZero(p);
    XorZero(ShiftLeft(r, 1));
  }

  lemma MixedBits(r: Word, b: bool, bs: seq<bool>)
    requires |r| > 0
    ensures Xor([b] + bs, TopBits(r, |bs| + 1))
         == [Top(r) != b] + Xor(bs, TopBits(ShiftLeft(r, 1), |bs|))
  {
  }

  /**
    Many bits at once: the division of k message bits only needs the remainder that the top k bits
    of r, combined with the message, leave when divided alone; the rest of r is just shifted up.
    */
  lemma {:induction false} StepsAtOnce(r: Word, bits: seq<bool>, p: Word)
    requires |r| == |p| > 0
    ensures Steps(r, bits, p)
         == Xor(Steps(Zeros(|r|), Xor(bits, TopBits(r, |bits|)), p), ShiftLeft(r, |bits|))
    decreases |bits|
  {
    if bits == [] {
      assert Xor(bits, TopBits(r, 0)) == [];
      assert ShiftLeft(r, 0) == r;
      XorZero(r);
    } else {
      StepsAtOnce(ShiftLeft(r, 1), bits[1..], p);
      assert bits == [bits[0]] + bits[1..];
      StepsAtOnceCons(r, bits[0], bits[1..], p);
    }
  }

  /** What the first of several steps takes off stays separate. */
  lemma FirstStepApart(r: Word, b: bool, bs: seq<bool>, p: Word, q: Word)
    requires |r| == |p| > 0 && q == XorIf(Top(r) != b, Zeros(|r|), p)
    ensures Steps(r, [b] + bs, p) == Xor(Steps(ShiftLeft(r, 1), bs, p), Steps(q, Zeros(|bs|), p))
  {
    hide *;
    StepsCons(r, b, bs, p);
    StepSplit(r, b, p);
    XorZero(bs);
    StepsLinear(ShiftLeft(r, 1), q, bs, Zeros(|bs|), p);
  }

  lemma FirstBitApart(n: nat, t: bool, rest: seq<bool>, p: Word, q: Word)
    requires n == |p| > 0 && q == XorIf(t, Zeros(n), p)
    ensures Steps(Zeros(n), [t] + rest, p) == Xor(Steps(Zeros(n), rest, p), Steps(q, Zeros(|rest|), p))
  {
    hide *;
    XorZero(rest);
    XorZero(q);
    StepSplit(Zeros(n), t, p);
    StepsCons(Zeros(n), t, rest, p);
    StepsLinear(Zeros(n), q, rest, Zeros(|rest|), p);
  }

  lemma StepsAtOnceCons(r: Word, b: bool, bs: seq<bool>, p: Word)
    requires |r| == |p| > 0
    requires var up := ShiftLeft(r, 1);
             Steps(up, bs, p)
             == Xor(Steps(Zeros(|r|), Xor(bs, TopBits(up, |bs|)), p), ShiftLeft(up, |bs|))
    ensures Steps(r, [b] + bs, p)
         == Xor(Steps(Zeros(|r|), Xor([b] + bs, TopBits(r, |bs| + 1)), p), ShiftLeft(r, |bs| + 1))
  {
    hide *;
    var zero, rest, t := Zeros(|r|), Xor(bs, TopBits(ShiftLeft(r, 1), |bs|)), Top(r) != b;
    var q := XorIf(t, zero, p);
    FirstStepApart(r, b, bs, p, q);
    ShiftTwice(r, |bs| + 1);
    XorRotate(Steps(zero, rest, p), ShiftLeft(r, |bs| + 1), Steps(q, Zeros(|bs|), p));
    FirstBitApart(|r|, t, rest, p, q);
    MixedBits(r, b, bs);
  }

  lemma XorRotate(x: Word, y: Word, z: Word)
    requires |x| == |y| == |z|
    ensures Xor(Xor(x, y), z) == Xor(Xor(x, z), y)
  {
  }

  lemma StepsCons(r: Word, b: bool, bits: seq<bool>, p: Word)
    requires |r| == |p| > 0
    ensures Steps(r, [b] + bits, p) == Steps(Step(r, b, p), bits, p)
  {
    assert ([b] + bits)[1..] == bits;
  }

  lemma StepsSnoc(r: Word, bits: seq<bool>, b: bool, p: Word)
    requires |r| == |p| > 0
    ensures Steps(r, bits + [b], p) == Step(Steps(r, bits, p), b, p)
    ensures AugSteps(r, bits + [b], p) == AugStep(AugSteps(r, bits, p), b, p)
  {
    StepsConcat(r, bits, [b], p);
    AugStepsConcat(r, bits, [b], p);
    assert [b][1..] == [];
  }

  /** What entered at the bottom of the remainder after the bits bs, and the part of r still in it. */
  function Entered(r: Word, bs: seq<bool>): (s: Word)
    requires |bs| <= |r|
    ensures |s| == |r|
  {
    Reverse(bs) + r[..|r| - |bs|]
  }

  lemma EnteredNext(r: Word, bs: seq<bool>, last: bool)
    requires |bs| < |r|
    ensures Top(Entered(r, bs)) == r[|r| - 1 - |bs|]
    ensures [last] + Entered(r, bs)[..|r| - 1] == Entered(r, bs + [last])
    ensures TopBits(r, |bs| + 1) == TopBits(r, |bs|) + [r[|r| - 1 - |bs|]]
  {
  }

  lemma AugStepOfSum(d: Word, s: Word, last: bool, p: Word)
    requires |d| == |s| == |p| > 0
    ensures AugStep(Xor(d, s), last, p) == Xor(Step(d, Top(s), p), [last] + s[..|s| - 1])
  {
    var n := |d| - 1;
    assert [last] + Xor(d, s)[..n] == Xor(ShiftLeft(d, 1), [last] + s[..n]);
    XorRotate(ShiftLeft(d, 1), [last] + s[..n], p);
  }

  /** The same for the raw message: the new bits enter at the bottom of the shifted remainder. */
  lemma {:induction false} AugStepsAtOnce(r: Word, bits: seq<bool>, p: Word)
    requires |r| == |p| >= |bits| && |p| > 0
    ensures AugSteps(r, bits, p) == Xor(Steps(Zeros(|r|), TopBits(r, |bits|), p), Entered(r, bits))
    decreases |bits|
  {
    hide AugStep, Step, Xor;
    var zero := Zeros(|r|);
    if bits == [] {
      assert TopBits(r, 0) == [] && Entered(r, bits) == r;
      XorZero(r);
    } else {
      var k := |bits| - 1;
      var bs, last := bits[..k], bits[k];
      assert bits == bs + [last];
      AugStepsAtOnce(r, bs, p);
      StepsSnoc(r, bs, last, p);
      EnteredNext(r, bs, last);
      StepsSnoc(zero, TopBits(r, k), r[|r| - 1 - k], p);
      AugStepOfSum(Steps(zero, TopBits(r, k), p), Entered(r, bs), last, p);
    }
  }

  function Unit(n: nat, i: nat): (w: Word)
    ensures |w| == n
  {
    seq(n, j => j == i)
  }

  lemma {:induction false} UnitClimbs(n: nat, i: nat, p: Word)
    requires i < n == |p|
    ensures AugSteps(Unit(n, i), Zeros(n - i), p) == p
    decreases n - i
  {
    var z := Zeros(n - i);
    assert z[1..] == Zeros(n - i - 1);
    if i == n - 1 {
      assert [false] + Unit(n, i)[..n - 1] == Zeros(n);
      XorZero(p);
      assert AugStep(Unit(n, i), z[0], p) == p;
      assert AugSteps(p, z[1..], p) == p;
    } else {
      assert AugStep(Unit(n, i), z[0], p) == Unit(n, i + 1) by {
        assert [false] + Unit(n, i)[..n - 1] == Unit(n, i + 1);
      }
      UnitClimbs(n, i + 1, p);
    }
  }

  lemma AugStepSplit(r: Word, b: bool, p: Word)
    requires |r| == |p| > 0
    ensures AugStep(r, b, p) == Xor(AugStep(r, false, p), if b then Unit(|r|, 0) else Zeros(|r|))
    ensures Step(r, b, p) == Xor(AugStep(r, false, p), if b then p else Zeros(|r|))
  {
    var n := |r| - 1;
    var low := [false] + r[..n];
    assert [true] + r[..n] == Xor(low, Unit(|r|, 0));
    XorRotate(low, Unit(|r|, 0), p);
    assert ShiftLeft(r, 1) == low;
    assert Xor(Xor(low, p), p) == low;
    XorZero(AugStep(r, false, p));
  }

  /** Appending N zero bits turns a raw-message step into a plain step. */
  lemma AugStepThenZeros(r: Word, b: bool, p: Word)
    requires |r| == |p| > 0
    ensures AugSteps(AugStep(r, b, p), Zeros(|r|), p) == Step(AugSteps(r, Zeros(|r|), p), b, p)
  {
    var n, z, s := |r|, Zeros(|r|), AugStep(r, false, p);
    var u := if b then Unit(n, 0) else z;
    var w := AugSteps(r, z, p);
    calc {
      AugSteps(AugStep(r, b, p), z, p);
    ==  { AugStepSplit(r, b, p); }
      AugSteps(Xor(s, u), z, p);
    ==  { XorZero(z); AugStepsLinear(s, u, z, z, p); }
      Xor(AugSteps(s, z, p), AugSteps(u, z, p));
    ==  { ZerosCommute(r, p); }
      Xor(AugStep(w, false, p), AugSteps(u, z, p));
    ==  { UnitClimbs(n, 0, p); AugZero(n, n, p); AugStepSplit(w, b, p); }
      Step(w, b, p);
    }
  }

  lemma ZerosRotate(n: nat)
    ensures [false] + Zeros(n) == Zeros(n) + [false]
  {
  }

  lemma ZerosCommute(r: Word, p: Word)
    requires |r| == |p| > 0
    ensures var z := Zeros(|r|);
            AugSteps(AugStep(r, false, p), z, p) == AugStep(AugSteps(r, z, p), false, p)
  {
    hide AugStep, Step, Zeros;
    var z := Zeros(|r|);
    ZerosRotate(|r|);
    AugStepsConcat(r, [false], z, p);
    assert [false][1..] == [];
    StepsSnoc(r, z, false, p);
  }

  lemma {:induction false} AugZero(n: nat, k: nat, p: Word)
    requires n == |p| > 0
    ensures AugSteps(Zeros(n), Zeros(k), p) == Zeros(n)
    decreases k
  {
    if k > 0 {
      assert Zeros(k)[1..] == Zeros(k - 1);
      assert [false] + Zeros(n)[..n - 1] == Zeros(n);
      AugZero(n, k - 1, p);
    }
  }

  /**
    Dividing the message extended by N zero bits is the plain division of the message, from what N zero
    bits make of the remainder at the start.
    */
  lemma {:induction false} AugmentedIsPlain(r: Word, bits: seq<bool>, p: Word)
    requires |r| == |p| > 0
    ensures AugSteps(r, bits + Zeros(|p|), p) == Steps(AugSteps(r, Zeros(|p|), p), bits, p)
    decreases |bits|
  {
    var z := Zeros(|p|);
    AugStepsConcat(r, bits, z, p);
    if bits != [] {
      var k := |bits| - 1;
      var init, last := bits[..k], bits[k];
      assert bits == init + [last];
      AugmentedIsPlain(r, init, p);
      AugStepsConcat(r, init, z, p);
      StepsSnoc(AugSteps(r, z, p), init, last, p);
      StepsSnoc(r, init, last, p);
      AugStepThenZeros(AugSteps(r, init, p), last, p);
    }
  }

  /** From a zero remainder the two divisions agree. */
  lemma AugmentedFromZero(bits: seq<bool>, p: Word)
    requires |p| > 0
    ensures AugSteps(Zeros(|p|), bits + Zeros(|p|), p) == Steps(Zeros(|p|), bits, p)
  {
    AugZero(|p|, |p|, p);
    AugmentedIsPlain(Zeros(|p|), bits, p);
  }

  lemma {:induction false} StepsZero(n: nat, k: nat, p: Word)
    requires n == |p| > 0
    ensures Steps(Zeros(n), Zeros(k), p) == Zeros(n)
    decreases k
  {
    if k > 0 {
      assert Zeros(k)[1..] == Zeros(k - 1);
      assert ShiftLeft(Zeros(n), 1) == Zeros(n);
      StepsZero(n, k - 1, p);
    }
  }

  lemma XorIsZero(a: Word, b: Word)
    requires |a| == |b|
    ensures Xor(a, b) == Zeros(|a|) <==> a == b
  {
    if Xor(a, b) == Zeros(|a|) {
      forall i | 0 <= i < |a|
        ensures a[i] == b[i]
      {
        assert !Xor(a, b)[i];
      }
    }
  }

  /** N trailing bits enter without being divided: they add to the result of N zero bits. */
  lemma TrailingBits(bits: seq<bool>, c: Word, p: Word)
    requires |c| == |p| > 0
    ensures AugSteps(Zeros(|p|), bits + c, p) == Xor(Steps(Zeros(|p|), bits, p), AugSteps(Zeros(|p|), c, p))
  {
    hide *;
    var z := Zeros(|p|);
    var a := AugSteps(z, bits, p);
    AugStepsConcat(z, bits, c, p);
    AugStepsConcat(z, bits, z, p);
    AugmentedFromZero(bits, p);
    XorZero(a);
    XorZero(c);
    AugStepsLinear(a, z, z, c, p);
  }

  /** A step with a zero bit is the same in both divisions. */
  lemma {:induction false} StepsOfZeros(r: Word, k: nat, p: Word)
    requires |r| == |p| > 0
    ensures AugSteps(r, Zeros(k), p) == Steps(r, Zeros(k), p)
    decreases k
  {
    if k > 0 {
      assert Zeros(k)[1..] == Zeros(k - 1);
      assert ShiftLeft(r, 1) == [false] + r[..|r| - 1];
      StepsOfZeros(Step(r, false, p), k - 1, p);
    }
  }

  lemma OnlyEntered(c: Word, p: Word)
    requires |c| == |p| > 0
    ensures AugSteps(Zeros(|p|), c, p) == Reverse(c)
  {
    var n, z := |p|, Zeros(|p|);
    AugStepsAtOnce(z, c, p);
    assert TopBits(z, n) == z;
    StepsZero(n, n, p);
    assert Entered(z, c) == Reverse(c);
    XorZero(Reverse(c));
  }

  /** A message followed by N bits divides without remainder if and only if these are its checksum. */
  lemma CodewordDivides(bits: seq<bool>, crc: Word, p: Word)
    requires |crc| == |p| > 0
    ensures AugSteps(Zeros(|p|), bits + Reverse(crc), p) == Zeros(|p|) <==> crc == Steps(Zeros(|p|), bits, p)
  {
    hide *;
    TrailingBits(bits, Reverse(crc), p);
    OnlyEntered(Reverse(crc), p);
    ReverseReverse(crc);
    XorIsZero(Steps(Zeros(|p|), bits, p), crc);
  }
}
