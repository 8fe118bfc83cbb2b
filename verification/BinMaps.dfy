/**
  The allocator's bin maps: one bit per bin, searched with word operations only.
  */
module BinMaps {
  import opened Words

  type BinMap = m: Word | |m| == 32 witness Zeros(32)

  function Or(a: Word, b: Word): (c: Word)
    requires |a| == |b|
    ensures |c| == |a|
  {
    seq(|a|, i requires 0 <= i < |a| => a[i] || b[i])
  }

  function And(a: Word, b: Word): (c: Word)
    requires |a| == |b|
    ensures |c| == |a|
  {
    seq(|a|, i requires 0 <= i < |a| => a[i] && b[i])
  }

  function Not(a: Word): (c: Word)
    ensures |c| == |a|
  {
    seq(|a|, i requires 0 <= i < |a| => !a[i])
  }

  function Increment(a: Word): (c: Word)
    ensures |c| == |a|
  {
    if a == [] then [] else if a[0] then [false] + Increment(a[1..]) else [true] + a[1..]
  }

  /** Unsigned negation. */
  function Neg(a: Word): (c: Word)
    ensures |c| == |a|
  {
    Increment(Not(a))
  }

  /** `idx2bit(i)`. */
  function BitOf(i: nat): (m: BinMap)
    requires i < 32
  {
    seq(32, j => j == i)
  }

  function LeastBit(m: BinMap): BinMap {
    And(m, Neg(m))
  }

  function LeftBits(m: BinMap): BinMap {
    Or(ShiftLeft(m, 1), Neg(ShiftLeft(m, 1)))
  }

  predicate IsClear(m: Word) {
    forall i :: 0 <= i < |m| ==> !m[i]
  }

  /** `compute_bit2idx`: the number of trailing zeros. */
  function TrailingZeros(m: Word): (i: nat)
    requires !IsClear(m)
    ensures i < |m| && m[i]
    ensures forall j :: 0 <= j < i ==> !m[j]
  {
    if m[0] then 0 else
      assert !IsClear(m[1..]) by {
        var j :| 0 <= j < |m| && m[j];
        assert m[1..][j - 1];
      }
      1 + TrailingZeros(m[1..])
  }

  /** Negation keeps the bits up to the lowest set one, and inverts the others. */
  lemma {:induction false} NegBits(m: Word, k: nat)
    requires k < |m|
    ensures Neg(m)[k] == if IsClear(m[..k]) then m[k] else !m[k]
  {
    var n := Not(m);
    assert n[1..] == Not(m[1..]);
    if m[0] {
      if k > 0 { assert m[..k][0]; }
    } else if k > 0 {
      NegBits(m[1..], k - 1);
      assert Neg(m) == [false] + Neg(m[1..]);
      ClearPrefix(m, k);
    }
  }

  lemma ClearPrefix(m: Word, k: nat)
    requires 0 < k <= |m| && !m[0]
    ensures IsClear(m[..k]) <==> IsClear(m[1..][..k - 1])
  {
    var rest := m[1..][..k - 1];
    assert m[..k] == [m[0]] + rest;
    if IsClear(m[..k]) {
      forall i | 0 <= i < |rest|
        ensures !rest[i]
      {
        assert rest[i] == m[..k][i + 1];
      }
    }
  }

  /** x & -x isolates the lowest set bit, so its index can be read off by counting zeros. */
  lemma LeastBitIsolates(m: BinMap)
    requires !IsClear(m)
    ensures LeastBit(m) == BitOf(TrailingZeros(m))
    ensures !IsClear(LeastBit(m))
    ensures TrailingZeros(LeastBit(m)) == TrailingZeros(m)
  {
    var t := TrailingZeros(m);
    forall k | 0 <= k < 32
      ensures LeastBit(m)[k] == (k == t)
    {
      NegBits(m, k);
      if k > t {
        assert m[..k][t];
      }
    }
    assert LeastBit(m)[t];
  }

  /** The mask of the bins with a larger index. */
  lemma LeftBitsAbove(i: nat, k: nat)
    requires i < 32 && k < 32
    ensures LeftBits(BitOf(i))[k] == (k > i)
  {
    var up := ShiftLeft(BitOf(i), 1);
    assert forall j :: 0 <= j < 32 ==> up[j] == (j == i + 1);
    NegBits(up, k);
    if k > i + 1 {
      assert up[..k][i + 1];
    }
  }
}
