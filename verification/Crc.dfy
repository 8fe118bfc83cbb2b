/**
  The checksum classes: bit by bit (CrcBasic), byte by byte from a table (CrcOptimal), and on the
  augmented message. N is the width of the remainder; values live in unsigned words of `width` >= N
  bits whose bits above N are not kept clean, except where a class needs them clean.
  */
module Crc {
  import opened Words
  import opened CrcDivision
  import opened CrcPolynomial

  // ---------------------------------------------------------------- what a checksum is

  /** The bits of a message byte in the order in which they are divided. */
  function ByteBits(x: Byte, reflectIn: bool): (bits: seq<bool>)
    ensures |bits| == 8
  {
    if reflectIn then x else Reverse(x)
  }

  function MessageBits(msg: seq<Byte>, reflectIn: bool): seq<bool> {
    if msg == [] then []
    else MessageBits(msg[..|msg| - 1], reflectIn) + ByteBits(msg[|msg| - 1], reflectIn)
  }

  function Outcome(r: Word, finalXor: Word, reflectRem: bool): (v: Word)
    requires |r| == |finalXor|
  {
    Xor(if reflectRem then Reverse(r) else r, finalXor)
  }

  /** The checksum of a message, an N-bit value. */
  function Checksum(init: Word, msg: seq<Byte>, p: Word, finalXor: Word, reflectIn: bool, reflectRem: bool): (v: Word)
    requires |init| == |p| == |finalXor| > 0
  {
    Outcome(Steps(init, MessageBits(msg, reflectIn), p), finalXor, reflectRem)
  }

  /** The bits of a message in the order of division: byte by byte, from the low end of a byte if reflected. */
  predicate InOrder(bits: seq<bool>, msg: seq<Byte>, reflectIn: bool) {
    && |bits| == 8 * |msg|
    && forall i :: 0 <= i < |bits| ==> bits[i] == msg[i / 8][if reflectIn then i % 8 else 7 - i % 8]
  }

  lemma {:induction false} MessageBitsInOrder(msg: seq<Byte>, reflectIn: bool)
    ensures InOrder(MessageBits(msg, reflectIn), msg, reflectIn)
    decreases |msg|
  {
    if msg != [] {
      var k := |msg| - 1;
      var before := MessageBits(msg[..k], reflectIn);
      MessageBitsInOrder(msg[..k], reflectIn);
      var bits := MessageBits(msg, reflectIn);
      forall i | 0 <= i < |bits|
        ensures bits[i] == msg[i / 8][if reflectIn then i % 8 else 7 - i % 8]
      {
        if i < 8 * k {
          assert bits[i] == before[i] && i / 8 < k;
        } else {
          assert i / 8 == k && i % 8 == i - 8 * k;
        }
      }
    }
  }

  lemma SameOrder(bits: seq<bool>, msg: seq<Byte>, reflectIn: bool)
    requires InOrder(bits, msg, reflectIn)
    ensures bits == MessageBits(msg, reflectIn)
  {
    MessageBitsInOrder(msg, reflectIn);
  }

  /** r is v without the final mask, in the orientation of the register. */
  predicate Unmasked(r: Word, v: Word, finalXor: Word, reflectRem: bool) {
    && |r| == |v| == |finalXor|
    && (!reflectRem ==> forall i :: 0 <= i < |r| ==> r[i] == (v[i] != finalXor[i]))
    && (reflectRem ==> forall i :: 0 <= i < |r| ==> r[i] == (v[|v| - 1 - i] != finalXor[|v| - 1 - i]))
  }

  lemma OutcomeUnmasks(s: Word, finalXor: Word, reflectRem: bool)
    requires |s| == |finalXor|
    ensures Unmasked(s, Outcome(s, finalXor, reflectRem), finalXor, reflectRem)
  {
  }

  /** Each of the two words gives the other. */
  lemma UnmaskedUnique(r: Word, v: Word, s: Word, o: Word, finalXor: Word, reflectRem: bool)
    requires Unmasked(r, v, finalXor, reflectRem) && Unmasked(s, o, finalXor, reflectRem)
    ensures r == s <==> v == o
  {
    var n := |r|;
    if reflectRem {
      assert forall i :: 0 <= i < n ==> r[n - 1 - i] == (v[i] != finalXor[i]) && s[n - 1 - i] == (o[i] != finalXor[i]);
    }
  }

  /**
    A word is the checksum of a message, under any parameters, if and only if without its final mask and in the
    orientation of the register it is the remainder of the message's polynomial with the initial value.
    */
  lemma ChecksumIsPolynomialRemainder(init: Word, msg: seq<Byte>, p: Word, finalXor: Word, reflectIn: bool,
                                      reflectRem: bool, bits: seq<bool>, r: Word, v: Word)
    requires |init| == |p| == |finalXor| == |r| > 0
    requires InOrder(bits, msg, reflectIn) && Unmasked(r, v, finalXor, reflectRem)
    ensures v == Checksum(init, msg, p, finalXor, reflectIn, reflectRem) <==> IsRemainder(Dividend(init, bits), r, p)
  {
    hide Outcome, Unmasked, InOrder, MessageBits, Steps, IsRemainder, Dividend;
    SameOrder(bits, msg, reflectIn);
    PlainIsTheRemainder(init, bits, p, r);
    var s := Steps(init, bits, p);
    OutcomeUnmasks(s, finalXor, reflectRem);
    UnmaskedUnique(r, v, s, Outcome(s, finalXor, reflectRem), finalXor, reflectRem);
  }

  lemma StepsNextByte(r: Word, msg: seq<Byte>, i: nat, reflectIn: bool, p: Word)
    requires |r| == |p| > 0 && i < |msg|
    ensures Steps(r, MessageBits(msg[..i + 1], reflectIn), p)
         == Steps(Steps(r, MessageBits(msg[..i], reflectIn), p), ByteBits(msg[i], reflectIn), p)
  {
    assert msg[..i + 1][..i] == msg[..i];
    StepsConcat(r, MessageBits(msg[..i], reflectIn), ByteBits(msg[i], reflectIn), p);
  }

  lemma StepsPrefix(r: Word, bits: seq<bool>, i: nat, p: Word)
    requires |r| == |p| > 0 && i < |bits|
    ensures Steps(r, bits[..i + 1], p) == Step(Steps(r, bits[..i], p), bits[i], p)
  {
    assert bits[..i + 1] == bits[..i] + [bits[i]];
    StepsSnoc(r, bits[..i], bits[i], p);
  }

  // ---------------------------------------------------------------- the reflector

  /** The low n bits in opposite order, nothing above them. */
  function Reflected(x: Word, n: nat): (r: Word)
    requires n <= |x|
    ensures |r| == |x|
  {
    Reverse(x[..n]) + Zeros(|x| - n)
  }

  method Reflect(input: Word, n: nat) returns (reflection: Word)
    requires n <= |input|
    ensures reflection == Reflected(input, n)
  {
    reflection := Zeros(|input|);
    var x := input;
    for i := 0 to n
      invariant x == ShiftRight(input, i)
      invariant |reflection| == |input|
      invariant forall k :: 0 <= k < |input| ==>
        reflection[k] == (n - i <= k < n && input[n - 1 - k])
    {
      assert x[0] == input[i];
      if x[0] {
        reflection := reflection[n - 1 - i := true];
      }
      x := ShiftRight(x, 1);
    }
  }

  lemma NextHighBit(byte: Byte, count: nat, i: nat)
    requires i < count <= 8
    ensures ShiftLeft(byte, 8 - count + i)[7] == Reverse(byte[..count])[i]
  {
  }

  lemma ShiftLeftAgain(x: Word, k: nat)
    ensures ShiftLeft(ShiftLeft(x, k), 1) == ShiftLeft(x, k + 1)
  {
  }

  // ---------------------------------------------------------------- the bitwise class

  /** The bit step on a storage word acts on its significant bits as the division step does. */
  lemma StorageStep(rem: Word, n: nat, bit: bool, poly: Word)
    requires 0 < n && n <= |rem| && |poly| == |rem|
    ensures var mixed := if bit then rem[n - 1 := !rem[n - 1]] else rem;
            XorIf(mixed[n - 1], ShiftLeft(mixed, 1), poly)[..n] == Step(rem[..n], bit, poly[..n])
  {
    assert ShiftLeft(rem[..n], 1) == Zeros(1) + rem[..n - 1];
  }

  class CrcBasic {
    const N: nat
    const poly: Word
    const init: Word
    const final: Word
    const reflectIn: bool
    const reflectOut: bool
    var rem: Word

    ghost predicate Valid()
      reads this
    {
      && 0 < N && N <= |rem|
      && |poly| == |init| == |final| == |rem|
    }

    /** The significant bits of the remainder. */
    ghost function Rem(): (r: Word)
      requires Valid()
      reads this
      ensures |r| == N
    {
      rem[..N]
    }

    ghost function Poly(): (p: Word)
      requires Valid()
      reads this
      ensures |p| == N
    {
      poly[..N]
    }

    constructor (n: nat, poly: Word, init: Word, final: Word, reflectIn: bool, reflectOut: bool)
      requires 0 < n && n <= |poly| && |poly| == |init| == |final|
      ensures Valid() && N == n && Rem() == init[..n]
      ensures this.poly == poly && this.init == init && this.final == final
      ensures this.reflectIn == reflectIn && this.reflectOut == reflectOut
    {
      this.N := n;
      this.poly, this.init, this.final := poly, init, final;
      this.reflectIn, this.reflectOut := reflectIn, reflectOut;
      this.rem := init;
    }

    method Reset()
      requires Valid()
      modifies this
      ensures Valid() && Rem() == init[..N]
    {
      rem := init;
    }

    method ProcessBit(bit: bool)
      requires Valid()
      modifies this
      ensures Valid() && Rem() == Step(old(Rem()), bit, Poly())
    {
      StorageStep(rem, N, bit, poly);
      // the top bit then tells whether the polynomial is to be taken off
      rem := if bit then rem[N - 1 := !rem[N - 1]] else rem;
      var doPolyDiv := rem[N - 1];
      rem := ShiftLeft(rem, 1);
      if doPolyDiv {
        rem := Xor(rem, poly);
      }
    }

    /** Process the lowest `count` bits of a byte, the upper ones first. */
    method ProcessBits(byte: Byte, count: nat)
      requires Valid() && count <= 8
      modifies this
      ensures Valid() && Rem() == Steps(old(Rem()), Reverse(byte[..count]), Poly())
    {
      ghost var todo := Reverse(byte[..count]);
      ghost var r := Rem();
      var bits := ShiftLeft(byte, 8 - count);
      for i := 0 to count
        invariant Valid()
        invariant bits == ShiftLeft(byte, 8 - count + i)
        invariant Rem() == Steps(r, todo[..i], Poly())
      {
        NextHighBit(byte, count, i);
        ProcessBit(bits[7]);
        StepsPrefix(r, todo, i, Poly());
        ShiftLeftAgain(byte, 8 - count + i);
        bits := ShiftLeft(bits, 1);
      }
      assert todo[..count] == todo;
    }

    method ProcessByte(byte: Byte)
      requires Valid()
      modifies this
      ensures Valid() && Rem() == Steps(old(Rem()), ByteBits(byte, reflectIn), Poly())
    {
      var x := byte;
      if reflectIn {
        x := Reflect(byte, 8);
        ReverseReverse(byte);
        assert byte[..8] == byte;
      }
      assert x[..8] == x;
      ProcessBits(x, 8);
    }

    method ProcessBlock(msg: seq<Byte>)
      requires Valid()
      modifies this
      ensures Valid() && Rem() == Steps(old(Rem()), MessageBits(msg, reflectIn), Poly())
    {
      ghost var r := Rem();
      for i := 0 to |msg|
        invariant Valid()
        invariant Rem() == Steps(r, MessageBits(msg[..i], reflectIn), Poly())
      {
        StepsNextByte(r, msg, i, reflectIn, Poly());
        ProcessByte(msg[i]);
      }
      assert msg[..|msg|] == msg;
    }

    method GetChecksum() returns (v: Word)
      requires Valid()
      ensures |v| == |rem| && v[..N] == Outcome(Rem(), final[..N], reflectOut)
      ensures v[N..] == Zeros(|rem| - N)
    {
      var r := rem;
      if reflectOut {
        r := Reflect(rem, N);
      }
      v := MaskTo(Xor(r, final), N);
    }
  }

  /** `& sig_bits`. */
  function MaskTo(x: Word, n: nat): (r: Word)
    requires n <= |x|
  {
    x[..n] + Zeros(|x| - n)
  }

  // ---------------------------------------------------------------- the lookup table

  /** The position of the remainder of an 8-bit dividend in the table. */
  function TableIndex(v: nat, reflect: bool): (i: nat)
    requires v < 256
  {
    if reflect then ToNat(Reverse(OfNat(v, 8))) else v
  }

  lemma TableIndexInvolution(v: nat, reflect: bool)
    requires v < 256
    ensures TableIndex(v, reflect) < 256
    ensures TableIndex(TableIndex(v, reflect), reflect) == v
    ensures OfNat(TableIndex(v, reflect), 8) == if reflect then Reverse(OfNat(v, 8)) else OfNat(v, 8)
  {
    assert Pow2(8) == 256 by { assert Pow2(4) == 16; }
    var w := OfNat(v, 8);
    ToNatBound(Reverse(w));
    OfNatToNat(Reverse(w));
    ReverseReverse(w);
    ToNatOfNat(v, 8);
  }

  /** What is left of eight bits when they are divided on their own, highest bit first. */
  function Quotient8(x: Byte, p: Word): (r: Word)
    requires |p| > 0
    ensures |r| == |p|
  {
    Steps(Zeros(|p|), Reverse(x), p)
  }

  ghost predicate EntryOk(entry: Word, i: nat, n: nat, p: Word, width: nat, reflect: bool)
    requires |p| == n > 0 && n <= width && i < 256
  {
    && |entry| == width
    && if reflect then entry == Reverse(Quotient8(Reverse(OfNat(i, 8)), p)) + Zeros(width - n)
       else entry[..n] == Quotient8(OfNat(i, 8), p)
  }

  class CrcTable {
    const N: nat
    const poly: Word
    const reflect: bool
    const entries: array<Word>
    var didInit: bool

    ghost predicate Valid()
      reads this, entries
    {
      && 0 < N && N <= |poly| && 8 <= |poly| && entries.Length == 256
      && (didInit ==> forall i :: 0 <= i < 256 ==> EntryOk(entries[i], i, N, poly[..N], |poly|, reflect))
    }

    constructor (n: nat, poly: Word, reflect: bool)
      requires 0 < n && n <= |poly| && 8 <= |poly|
      ensures Valid() && !didInit && fresh(entries)
      ensures N == n && this.poly == poly && this.reflect == reflect
    {
      this.N, this.poly, this.reflect, this.didInit := n, poly, reflect, false;
      this.entries := new Word[256](_ => []);
    }

    /** The remainder that the division of one byte leaves, computed mask by mask. */
    method DivideByte(dividend: Byte) returns (remainder: Word)
      requires Valid()
      ensures |remainder| == |poly| && remainder[..N] == Quotient8(dividend, poly[..N])
    {
      ghost var msb, p := Reverse(dividend), poly[..N];
      assert forall i :: 0 <= i < 8 ==> msb[i] == dividend[7 - i];
      remainder := Zeros(|poly|);
      assert remainder[..N] == Zeros(N);
      assert msb[..0] == [];
      for i := 0 to 8
        invariant |remainder| == |poly|
        invariant remainder[..N] == Steps(Zeros(N), msb[..i], p)
      {
        StorageStep(remainder, N, msb[i], poly);
        // the dividend's bits join from the top
        if dividend[7 - i] {
          remainder := remainder[N - 1 := !remainder[N - 1]];
        }
        if remainder[N - 1] {
          remainder := ShiftLeft(remainder, 1);
          remainder := Xor(remainder, poly);
        } else {
          remainder := ShiftLeft(remainder, 1);
        }
        StepsPrefix(Zeros(N), msb, i, p);
      }
      assert msb[..8] == msb;
    }

    /** Populate the table, on the first run only. */
    method InitTable()
      requires Valid()
      modifies this, entries
      ensures Valid() && didInit
    {
      if didInit {
        return;
      }
      ghost var p := poly[..N];
      for v := 0 to 256
        invariant !didInit
        invariant forall i :: 0 <= i < 256 && TableIndex(i, reflect) < v ==>
          EntryOk(entries[i], i, N, p, |poly|, reflect)
      {
        var dividend := OfNat(v, 8);
        var remainder := DivideByte(dividend);
        TableIndexInvolution(v, reflect);
        forall i | 0 <= i < 256 && TableIndex(i, reflect) == v
          ensures i == TableIndex(v, reflect)
        {
          TableIndexInvolution(i, reflect);
        }
        if reflect {
          ReverseReverse(dividend);
          var index := Reflect(dividend, 8);
          assert dividend[..8] == dividend;
          assert index == Reverse(dividend);
          remainder := Reflect(remainder, N);
          entries[ToNat(index)] := remainder;
        } else {
          ToNatOfNatByte(v);
          entries[ToNat(dividend)] := remainder;
        }
      }
      forall i | 0 <= i < 256
        ensures TableIndex(i, reflect) < 256
      {
        TableIndexInvolution(i, reflect);
      }
      didInit := true;
    }
  }

  lemma ToNatOfNatByte(v: nat)
    requires v < 256
    ensures ToNat(OfNat(v, 8)) == v
  {
    assert Pow2(8) == 256 by { assert Pow2(4) == 16; }
    ToNatOfNat(v, 8);
  }

  // ---------------------------------------------------------------- one byte at a time

  /** The remainder's highest byte, or the remainder at the top of a byte if it is shorter. */
  function HighByte(rem: Word, n: nat): (b: Byte)
    requires 0 < n && n <= |rem| && 8 <= |rem|
  {
    if n > 8 then Resize(ShiftRight(rem, n - 8), 8) else Resize(ShiftLeft(rem, 8 - n), 8)
  }

  lemma HighByteBits(rem: Word, n: nat)
    requires 0 < n && n <= |rem| && 8 <= |rem|
    ensures Reverse(HighByte(rem, n)) == TopBits(rem[..n], 8)
  {
  }

  /** The table step is eight bit steps, on the significant bits of an unreflected remainder. */
  lemma TableStep(rem: Word, n: nat, x: Byte, entry: Word, p: Word)
    requires |p| == n > 0 && n <= |rem| && 8 <= |rem|
    requires ToNat(Xor(x, HighByte(rem, n))) < 256
    requires EntryOk(entry, ToNat(Xor(x, HighByte(rem, n))), n, p, |rem|, false)
    ensures Xor(ShiftLeft(rem, 8), entry)[..n] == Steps(rem[..n], Reverse(x), p)
  {
    var high := HighByte(rem, n);
    HighByteBits(rem, n);
    OfNatToNat(Xor(x, high));
    ReverseXor(x, high);
    StepsAtOnce(rem[..n], Reverse(x), p);
    var q, up := Quotient8(Xor(x, high), p), ShiftLeft(rem[..n], 8);
    XorShifted(rem, n, entry, q);
    assert Xor(q, up) == Xor(up, q);
  }

  lemma XorShifted(rem: Word, n: nat, entry: Word, q: Word)
    requires n <= |rem| == |entry| && |q| == n && entry[..n] == q
    ensures Xor(ShiftLeft(rem, 8), entry)[..n] == Xor(ShiftLeft(rem[..n], 8), q)
  {
  }

  lemma ReflectedShift(r: Word)
    ensures Reverse(ShiftLeft(r, 8)) == ShiftRight(Reverse(r), 8)
  {
  }

  lemma LowByteOfReflected(rem: Word, n: nat)
    requires 0 < n && n <= |rem| && 8 <= |rem| && rem[n..] == Zeros(|rem| - n)
    ensures Resize(rem, 8) == TopBits(Reverse(rem[..n]), 8)
  {
    forall i | 0 <= i < 8
      ensures Resize(rem, 8)[i] == TopBits(Reverse(rem[..n]), 8)[i]
    {
      if i >= n { assert rem[i] == rem[n..][i - n]; }
    }
  }

  /**
    The reflected table step: shifting right from reversed remainders, with a clean word above N,
    is the mirror image of eight bit steps with the bits of the byte taken lowest first.
    */
  lemma ReflectedTableStep(rem: Word, n: nat, x: Byte, entry: Word, p: Word)
    requires |p| == n > 0 && n <= |rem| && 8 <= |rem| && rem[n..] == Zeros(|rem| - n)
    requires ToNat(Xor(x, Resize(rem, 8))) < 256
    requires EntryOk(entry, ToNat(Xor(x, Resize(rem, 8))), n, p, |rem|, true)
    ensures var rem' := Xor(ShiftRight(rem, 8), entry);
            Reverse(rem'[..n]) == Steps(Reverse(rem[..n]), x, p) && rem'[n..] == Zeros(|rem| - n)
  {
    var r := Reverse(rem[..n]);
    var low := Resize(rem, 8);
    LowByteOfReflected(rem, n);
    OfNatToNat(Xor(x, low));
    var q := Quotient8(Reverse(Xor(x, low)), p);
    ReverseReverse(Xor(x, low));
    assert q == Steps(Zeros(n), Xor(x, TopBits(r, 8)), p);
    StepsAtOnce(r, x, p);
    ReflectedShift(r);
    ReverseReverse(rem[..n]);
    ReverseReverse(q);
    CleanShift(rem, n, Reverse(q));
    ReverseXor(ShiftRight(rem[..n], 8), Reverse(q));
    ReverseReverse(ShiftLeft(r, 8));
    assert Xor(ShiftLeft(r, 8), q) == Xor(q, ShiftLeft(r, 8));
  }

  lemma CleanShift(rem: Word, n: nat, q: Word)
    requires n <= |rem| && |q| == n && rem[n..] == Zeros(|rem| - n)
    ensures var rem' := Xor(ShiftRight(rem, 8), q + Zeros(|rem| - n));
            rem'[..n] == Xor(ShiftRight(rem[..n], 8), q) && rem'[n..] == Zeros(|rem| - n)
  {
    forall i | n <= i < |rem|
      ensures !rem[i]
    {
      assert rem[i] == rem[n..][i - n];
    }
  }

  // ---------------------------------------------------------------- the table-driven class

  class CrcOptimal {
    const N: nat
    const init: Word
    const final: Word
    const reflectIn: bool
    const reflectRem: bool
    const table: CrcTable
    var rem: Word

    ghost predicate Valid()
      reads this, table, table.entries
    {
      && table.Valid() && table.didInit && table.N == N && table.reflect == reflectIn
      && |rem| == |table.poly| == |init| == |final|
      && (reflectIn ==> rem[N..] == Zeros(|rem| - N))
    }

    ghost function Poly(): (p: Word)
      requires Valid()
      reads this, table, table.entries
      ensures |p| == N
    {
      table.poly[..N]
    }

    /** The interim remainder, unreflected. */
    ghost function Rem(): (r: Word)
      requires Valid()
      reads this, table, table.entries
      ensures |r| == N
    {
      if reflectIn then Reverse(rem[..N]) else rem[..N]
    }

    constructor (table: CrcTable, init: Word, final: Word, reflectRem: bool)
      requires table.Valid() && |init| == |final| == |table.poly|
      modifies table, table.entries
      ensures this.table == table && this.init == init && this.final == final
      ensures this.reflectRem == reflectRem
      ensures Valid() && Rem() == init[..table.N]
    {
      this.N, this.table, this.init, this.final := table.N, table, init, final;
      this.reflectIn, this.reflectRem := table.reflect, reflectRem;
      var r := init;
      if table.reflect {
        r := Reflect(init, table.N);
      }
      this.rem := r;
      new;
      table.InitTable();
      ReverseReverse(init[..N]);
      assert reflectIn ==> rem[..N] == Reverse(init[..N]);
    }

    method Reset(newRem: Word)
      requires Valid() && |newRem| == |rem|
      modifies this
      ensures Valid() && Rem() == newRem[..N]
    {
      rem := newRem;
      if reflectIn {
        rem := Reflect(newRem, N);
        ReverseReverse(newRem[..N]);
        assert rem[..N] == Reverse(newRem[..N]);
      }
    }

    method ProcessBlock(msg: seq<Byte>)
      requires Valid()
      modifies this
      ensures Valid() && Rem() == Steps(old(Rem()), MessageBits(msg, reflectIn), Poly())
    {
      ghost var r := Rem();
      for i := 0 to |msg|
        invariant Valid()
        invariant Rem() == Steps(r, MessageBits(msg[..i], reflectIn), Poly())
      {
        StepsNextByte(r, msg, i, reflectIn, Poly());
        ProcessByte(msg[i]);
      }
      assert msg[..|msg|] == msg;
    }

    method ProcessByte(x: Byte)
      requires Valid()
      modifies this
      ensures Valid() && Rem() == Steps(old(Rem()), ByteBits(x, reflectIn), Poly())
    {
      // compare the byte with the remainder's highest (when reflected, lowest) byte
      var index := Xor(x, if reflectIn then Resize(rem, 8) else HighByte(rem, N));
      IndexInRange(index);
      var entry := table.entries[ToNat(index)];
      assert EntryOk(entry, ToNat(index), N, Poly(), |rem|, reflectIn);
      if reflectIn {
        ReflectedTableStep(rem, N, x, entry, Poly());
      } else {
        TableStep(rem, N, x, entry, Poly());
      }
      rem := if reflectIn then ShiftRight(rem, 8) else ShiftLeft(rem, 8);
      rem := Xor(rem, entry);
    }

    /** The remainder is reflected on output when it is not already kept that way. */
    method GetChecksum() returns (v: Word)
      requires Valid()
      ensures |v| == |rem| && v[..N] == Outcome(Rem(), final[..N], reflectRem)
      ensures v[N..] == Zeros(|rem| - N)
    {
      var r := rem;
      if reflectRem != reflectIn {
        r := Reflect(rem, N);
      }
      ReverseReverse(rem[..N]);
      v := MaskTo(Xor(r, final), N);
    }
  }

  lemma IndexInRange(index: Byte)
    ensures ToNat(index) < 256
  {
    assert Pow2(8) == 256 by { assert Pow2(4) == 16; }
    ToNatBound(index);
  }

  // ---------------------------------------------------------------- both at once

  /**
    The two classes side by side, over any two storage widths: the table-driven checksum of a block
    is the bit-by-bit one, and both are the checksum of the message.
    */
  method BothChecksums(n: nat, widthB: nat, widthO: nat, poly: nat, init: nat, final: nat,
                       reflectIn: bool, reflectRem: bool, msg: seq<Byte>)
    returns (basic: Word, optimal: Word)
    requires 0 < n && n <= widthB && n <= widthO && 8 <= widthO
    ensures |basic| == widthB && |optimal| == widthO
    ensures basic[..n] == optimal[..n]
      == Checksum(OfNat(init, n), msg, OfNat(poly, n), OfNat(final, n), reflectIn, reflectRem)
    ensures basic[n..] == Zeros(widthB - n) && optimal[n..] == Zeros(widthO - n)
  {
    LowBitsOfNat(poly, n, widthB);
    LowBitsOfNat(init, n, widthB);
    LowBitsOfNat(final, n, widthB);
    LowBitsOfNat(poly, n, widthO);
    LowBitsOfNat(init, n, widthO);
    LowBitsOfNat(final, n, widthO);
    var b := new CrcBasic(n, OfNat(poly, widthB), OfNat(init, widthB), OfNat(final, widthB),
      reflectIn, reflectRem);
    b.ProcessBlock(msg);
    basic := b.GetChecksum();
    var table := new CrcTable(n, OfNat(poly, widthO), reflectIn);
    var o := new CrcOptimal(table, OfNat(init, widthO), OfNat(final, widthO), reflectRem);
    o.ProcessBlock(msg);
    optimal := o.GetChecksum();
  }

  lemma {:induction false} LowBitsOfNat(v: nat, n: nat, width: nat)
    requires n <= width
    ensures OfNat(v, width)[..n] == OfNat(v, n)
    decreases n
  {
    if n > 0 {
      LowBitsOfNat(v / 2, n - 1, width - 1);
    }
  }

  // ---------------------------------------------------------------- augmented messages

  /** Division of the raw message, byte by byte from the unreflected table. */
  method AugmentedCrc(table: CrcTable, msg: seq<Byte>, initialRemainder: Word) returns (v: Word)
    requires table.Valid() && !table.reflect && 8 <= table.N && |initialRemainder| == |table.poly|
    modifies table, table.entries
    ensures |v| == |table.poly| && v[table.N..] == Zeros(|v| - table.N)
    ensures v[..table.N]
         == AugSteps(initialRemainder[..table.N], MessageBits(msg, false), table.poly[..table.N])
  {
    var n := table.N;
    ghost var p, r := table.poly[..n], initialRemainder[..n];
    table.InitTable();
    var rem := initialRemainder;
    for i := 0 to |msg|
      invariant table.Valid() && table.didInit
      invariant |rem| == |initialRemainder|
      invariant rem[..n] == AugSteps(r, MessageBits(msg[..i], false), p)
    {
      var index := Resize(ShiftRight(rem, n - 8), 8);
      IndexInRange(index);
      var entry := table.entries[ToNat(index)];
      assert EntryOk(entry, ToNat(index), n, p, |rem|, false);
      AugmentedTableStep(rem, n, msg[i], entry, p);
      AugStepsNextByte(r, msg, i, p);
      // the low bits are clear after the shift, where the byte goes
      rem := msg[i] + ShiftLeft(rem, 8)[8..];
      rem := Xor(rem, entry);
    }
    assert msg[..|msg|] == msg;
    v := MaskTo(rem, n);
  }

  lemma AugStepsNextByte(r: Word, msg: seq<Byte>, i: nat, p: Word)
    requires |r| == |p| > 0 && i < |msg|
    ensures AugSteps(r, MessageBits(msg[..i + 1], false), p)
         == AugSteps(AugSteps(r, MessageBits(msg[..i], false), p), Reverse(msg[i]), p)
  {
    assert msg[..i + 1][..i] == msg[..i];
    AugStepsConcat(r, MessageBits(msg[..i], false), Reverse(msg[i]), p);
  }

  lemma AugmentedTableStep(rem: Word, n: nat, x: Byte, entry: Word, p: Word)
    requires |p| == n >= 8 && n <= |rem|
    requires ToNat(Resize(ShiftRight(rem, n - 8), 8)) < 256
    requires EntryOk(entry, ToNat(Resize(ShiftRight(rem, n - 8), 8)), n, p, |rem|, false)
    ensures Xor(x + ShiftLeft(rem, 8)[8..], entry)[..n] == AugSteps(rem[..n], Reverse(x), p)
  {
    var high := Resize(ShiftRight(rem, n - 8), 8);
    OfNatToNat(high);
    TopByteBits(rem, n);
    AugStepsAtOnce(rem[..n], Reverse(x), p);
    ReverseReverse(x);
    ShiftedIn(rem, n, x, entry, Quotient8(high, p));
  }

  lemma TopByteBits(rem: Word, n: nat)
    requires 8 <= n <= |rem|
    ensures Reverse(Resize(ShiftRight(rem, n - 8), 8)) == TopBits(rem[..n], 8)
  {
  }

  lemma ShiftedIn(rem: Word, n: nat, x: Byte, entry: Word, q: Word)
    requires 8 <= n <= |rem| == |entry| && |q| == n && entry[..n] == q
    ensures Xor(x + ShiftLeft(rem, 8)[8..], entry)[..n] == Xor(q, x + rem[..n][..n - 8])
  {
    assert (x + ShiftLeft(rem, 8)[8..])[..n] == x + rem[..n][..n - 8];
  }

  /** The bytes of a word whose width is a whole number of bytes, most significant byte first. */
  function BigEndian(w: Word): (s: seq<Byte>)
    requires |w| % 8 == 0
    ensures |s| == |w| / 8
    decreases |w|
  {
    if w == [] then [] else [w[|w| - 8..]] + BigEndian(w[..|w| - 8])
  }

  lemma SeqAssociative(a: seq<bool>, b: seq<bool>, c: seq<bool>)
    ensures a + b + c == a + (b + c)
  {
  }

  lemma {:induction false} MessageBitsConcat(a: seq<Byte>, b: seq<Byte>, reflectIn: bool)
    ensures MessageBits(a + b, reflectIn) == MessageBits(a, reflectIn) + MessageBits(b, reflectIn)
    decreases |b|
  {
    hide ByteBits;
    if b == [] {
      assert a + b == a;
    } else {
      var k := |b| - 1;
      assert (a + b)[..|a + b| - 1] == a + b[..k] && (a + b)[|a + b| - 1] == b[k];
      MessageBitsConcat(a, b[..k], reflectIn);
      SeqAssociative(MessageBits(a, reflectIn), MessageBits(b[..k], reflectIn), ByteBits(b[k], reflectIn));
    }
  }

  lemma {:induction false} BigEndianBits(w: Word)
    requires |w| % 8 == 0
    ensures MessageBits(BigEndian(w), false) == Reverse(w)
    decreases |w|
  {
    if w == [] {
    } else {
      var high, rest := w[|w| - 8..], w[..|w| - 8];
      BigEndianBits(rest);
      MessageBitsConcat([high], BigEndian(rest), false);
      OneByteBits(high);
      ReverseSplit(w, |w| - 8);
    }
  }

  lemma OneByteBits(x: Byte)
    ensures MessageBits([x], false) == Reverse(x)
  {
    assert [x][..0] == [];
  }

  lemma ReverseSplit(w: Word, k: nat)
    requires k <= |w|
    ensures Reverse(w) == Reverse(w[k..]) + Reverse(w[..k])
  {
  }

  /** Extending a message by N/8 zero bytes: the augmented checksum is the plain one, from the remainder of zeros. */
  lemma AugmentedByZeros(msg: seq<Byte>, r: Word, p: Word)
    requires |r| == |p| > 0 && |p| % 8 == 0
    ensures AugSteps(r, MessageBits(msg + BigEndian(Zeros(|p|)), false), p)
         == Checksum(AugSteps(r, Zeros(|p|), p), msg, p, Zeros(|p|), false, false)
  {
    var z := Zeros(|p|);
    MessageBitsConcat(msg, BigEndian(z), false);
    BigEndianBits(z);
    assert Reverse(z) == z;
    AugmentedIsPlain(r, MessageBits(msg, false), p);
    XorZero(Steps(AugSteps(r, z, p), MessageBits(msg, false), p));
  }

  /** Extending a message by a word, big end first: the augmented checksum is zero just for the message's own. */
  lemma AugmentedByChecksum(msg: seq<Byte>, crc: Word, p: Word)
    requires |crc| == |p| > 0 && |p| % 8 == 0
    ensures AugSteps(Zeros(|p|), MessageBits(msg + BigEndian(crc), false), p) == Zeros(|p|)
       <==> crc == Checksum(Zeros(|p|), msg, p, Zeros(|p|), false, false)
  {
    XorZero(Steps(Zeros(|p|), MessageBits(msg, false), p));
    MessageBitsConcat(msg, BigEndian(crc), false);
    BigEndianBits(crc);
    CodewordDivides(MessageBits(msg, false), crc, p);
  }

  /** The plain checksum from the augmented division, by running it over the message and zeros. */
  method PlainFromAugmented(table: CrcTable, msg: seq<Byte>) returns (v: Word)
    requires table.Valid() && !table.reflect && table.N > 0 && table.N % 8 == 0
    modifies table, table.entries
    ensures var p := table.poly[..table.N];
      |v| == |table.poly| && v[table.N..] == Zeros(|v| - table.N)
      && v[..table.N] == Checksum(Zeros(|p|), msg, p, Zeros(|p|), false, false)
  {
    AugmentedByZeros(msg, Zeros(table.N), table.poly[..table.N]);
    AugZero(table.N, table.N, table.poly[..table.N]);
    assert Zeros(|table.poly|)[..table.N] == Zeros(table.N);
    v := AugmentedCrc(table, msg + BigEndian(Zeros(table.N)), Zeros(|table.poly|));
  }

  /** A receiver's check: over a message and its checksum, the augmented division leaves nothing. */
  method CheckCodeword(table: CrcTable, msg: seq<Byte>, crc: Word) returns (v: Word)
    requires table.Valid() && !table.reflect && table.N > 0 && table.N % 8 == 0 && |crc| == table.N
    modifies table, table.entries
    ensures var p := table.poly[..table.N];
      v == Zeros(|v|) <==> crc == Checksum(Zeros(|p|), msg, p, Zeros(|p|), false, false)
  {
    AugmentedByChecksum(msg, crc, table.poly[..table.N]);
    assert Zeros(|table.poly|)[..table.N] == Zeros(table.N);
    v := AugmentedCrc(table, msg + BigEndian(crc), Zeros(|table.poly|));
  }
}
