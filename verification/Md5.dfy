/** The MD5 message digest: the streaming implementation against the definition of RFC 1321 on whole messages. */
module Md5 {

  type Byte = bv8
  type Word = bv32

  const WORD32: int := 0x1_0000_0000
  const BLOCK_SIZE: nat := 64

  // ---------------------------------------------------------------- words

  function Add(x: Word, y: Word): Word {
    x + y
  }

  function F(x: Word, y: Word, z: Word): Word {
    (x & y) | (!x & z)
  }

  function G(x: Word, y: Word, z: Word): Word {
    (x & z) | (y & !z)
  }

  function H(x: Word, y: Word, z: Word): Word {
    x ^ y ^ z
  }

  function I(x: Word, y: Word, z: Word): Word {
    y ^ (x | !z)
  }

  function RotateLeft(x: Word, n: bv5): Word {
    (x << n) | (x >> (32 - n as bv6))
  }

  function FF(a: Word, b: Word, c: Word, d: Word, x: Word, s: bv5, ac: Word): Word {
    Add(RotateLeft(Add(Add(Add(a, F(b, c, d)), x), ac), s), b)
  }

  function GG(a: Word, b: Word, c: Word, d: Word, x: Word, s: bv5, ac: Word): Word {
    Add(RotateLeft(Add(Add(Add(a, G(b, c, d)), x), ac), s), b)
  }

  function HH(a: Word, b: Word, c: Word, d: Word, x: Word, s: bv5, ac: Word): Word {
    Add(RotateLeft(Add(Add(Add(a, H(b, c, d)), x), ac), s), b)
  }

  function II(a: Word, b: Word, c: Word, d: Word, x: Word, s: bv5, ac: Word): Word {
    Add(RotateLeft(Add(Add(Add(a, I(b, c, d)), x), ac), s), b)
  }

  // ---------------------------------------------------------------- the definition, section 3.4 of RFC 1321

  /** The four words A, B, C, D. */
  datatype Chain = Chain(a: Word, b: Word, c: Word, d: Word)

  const INITIAL: Chain := Chain(0x67452301, 0xefcdab89, 0x98badcfe, 0x10325476)

  /** The function that a round uses. */
  function RoundFunction(r: nat, x: Word, y: Word, z: Word): Word {
    if r == 0 then F(x, y, z) else if r == 1 then G(x, y, z) else if r == 2 then H(x, y, z) else I(x, y, z)
  }

  /** The word of the block that step i uses. */
  function WordIndex(i: nat): (k: nat)
    ensures k < 16
  {
    if i < 16 then i else if i < 32 then (5 * i + 1) % 16 else if i < 48 then (3 * i + 5) % 16 else (7 * i) % 16
  }

  function ShiftOf(i: nat): bv5 {
    if i < 16 then Pick(i, 7, 12, 17, 22)
    else if i < 32 then Pick(i, 5, 9, 14, 20)
    else if i < 48 then Pick(i, 4, 11, 16, 23)
    else Pick(i, 6, 10, 15, 21)
  }

  function Pick(i: nat, s0: bv5, s1: bv5, s2: bv5, s3: bv5): bv5 {
    if i % 4 == 0 then s0 else if i % 4 == 1 then s1 else if i % 4 == 2 then s2 else s3
  }

  function OneOf(i: nat, w0: Word, w1: Word, w2: Word, w3: Word): Word {
    if i % 4 == 0 then w0 else if i % 4 == 1 then w1 else if i % 4 == 2 then w2 else w3
  }

  /** The table T, entry i + 1. */
  function Sine(i: nat): Word {
    if i < 16 then Sine1(i) else if i < 32 then Sine2(i) else if i < 48 then Sine3(i) else Sine4(i)
  }

  function Sine1(i: nat): Word {
    if i < 4 then OneOf(i, 0xd76aa478, 0xe8c7b756, 0x242070db, 0xc1bdceee)
    else if i < 8 then OneOf(i, 0xf57c0faf, 0x4787c62a, 0xa8304613, 0xfd469501)
    else if i < 12 then OneOf(i, 0x698098d8, 0x8b44f7af, 0xffff5bb1, 0x895cd7be)
    else OneOf(i, 0x6b901122, 0xfd987193, 0xa679438e, 0x49b40821)
  }

  function Sine2(i: nat): Word {
    if i < 20 then OneOf(i, 0xf61e2562, 0xc040b340, 0x265e5a51, 0xe9b6c7aa)
    else if i < 24 then OneOf(i, 0xd62f105d, 0x02441453, 0xd8a1e681, 0xe7d3fbc8)
    else if i < 28 then OneOf(i, 0x21e1cde6, 0xc33707d6, 0xf4d50d87, 0x455a14ed)
    else OneOf(i, 0xa9e3e905, 0xfcefa3f8, 0x676f02d9, 0x8d2a4c8a)
  }

  function Sine3(i: nat): Word {
    if i < 36 then OneOf(i, 0xfffa3942, 0x8771f681, 0x6d9d6122, 0xfde5380c)
    else if i < 40 then OneOf(i, 0xa4beea44, 0x4bdecfa9, 0xf6bb4b60, 0xbebfbc70)
    else if i < 44 then OneOf(i, 0x289b7ec6, 0xeaa127fa, 0xd4ef3085, 0x04881d05)
    else OneOf(i, 0xd9d4d039, 0xe6db99e5, 0x1fa27cf8, 0xc4ac5665)
  }

  function Sine4(i: nat): Word {
    if i < 52 then OneOf(i, 0xf4292244, 0x432aff97, 0xab9423a7, 0xfc93a039)
    else if i < 56 then OneOf(i, 0x655b59c3, 0x8f0ccc92, 0xffeff47d, 0x85845dd1)
    else if i < 60 then OneOf(i, 0x6fa87e4f, 0xfe2ce6e0, 0xa3014314, 0x4e0811a1)
    else OneOf(i, 0xf7537e82, 0xbd3af235, 0x2ad7d2bb, 0xeb86d391)
  }

  /** One step: the word A gets a new value, and the words change places. */
  function Turn(t: Chain, x: seq<Word>, i: nat): Chain
    requires |x| == 16
  {
    var mixed := Add(Add(Add(t.a, RoundFunction(i / 16, t.b, t.c, t.d)), x[WordIndex(i)]), Sine(i));
    Chain(t.d, Add(RotateLeft(mixed, ShiftOf(i)), t.b), t.b, t.c)
  }

  function Turns(t: Chain, x: seq<Word>, n: nat): Chain
    requires |x| == 16
  {
    if n == 0 then t else Turn(Turns(t, x, n - 1), x, n - 1)
  }

  function LittleEndian(b: seq<Byte>, k: nat): Word
    requires k + 4 <= |b|
  {
    (b[k] as Word) | (b[k + 1] as Word << 8) | (b[k + 2] as Word << 16) | (b[k + 3] as Word << 24)
  }

  function WordsOf(block: seq<Byte>): (x: seq<Word>)
    requires |block| == BLOCK_SIZE
    ensures |x| == 16
  {
    seq(16, i requires 0 <= i < 16 => LittleEndian(block, 4 * i))
  }

  function Sum(s: Chain, t: Chain): Chain {
    Chain(Add(s.a, t.a), Add(s.b, t.b), Add(s.c, t.c), Add(s.d, t.d))
  }

  function Compress(s: Chain, block: seq<Byte>): Chain
    requires |block| == BLOCK_SIZE
  {
    Sum(s, Turns(s, WordsOf(block), 64))
  }

  /** The whole blocks of a message, one after the other. */
  function Blocks(s: Chain, m: seq<Byte>): Chain
    decreases |m|
  {
    if |m| < BLOCK_SIZE then s else Blocks(Compress(s, m[..BLOCK_SIZE]), m[BLOCK_SIZE..])
  }

  function BytesOf(w: Word): (b: seq<Byte>)
    ensures |b| == 4
  {
    [(w & 0xff) as Byte, ((w >> 8) & 0xff) as Byte, ((w >> 16) & 0xff) as Byte, ((w >> 24) & 0xff) as Byte]
  }

  function Zeros(n: nat): (z: seq<Byte>)
    ensures |z| == n
  {
    seq(n, i => 0)
  }

  /** How many bytes of padding make the length 56 modulo 64; at least one. */
  function PadLength(n: nat): (k: nat)
    ensures 1 <= k <= 64 && (n + k) % 64 == 56
  {
    if n % 64 < 56 then 56 - n % 64 else 120 - n % 64
  }

  /** The bytes of the low word of a count. */
  function LowBytes(n: nat): (b: seq<Byte>)
    ensures |b| == 4
  {
    BytesOf((n % WORD32) as Word)
  }

  /** Sections 3.1 and 3.2 of RFC 1321: a one bit, zeros, and the length in bits, modulo 2^64, low word first. */
  function Padded(m: seq<Byte>): (p: seq<Byte>) {
    m + [0x80] + Zeros(PadLength(|m|) - 1) + LowBytes(8 * |m|) + LowBytes(8 * |m| / WORD32)
  }

  function Output(s: Chain): (d: seq<Byte>)
    ensures |d| == 16
  {
    BytesOf(s.a) + BytesOf(s.b) + BytesOf(s.c) + BytesOf(s.d)
  }

  /** The digest of a message, as RFC 1321 defines it. */
  function Digest(m: seq<Byte>): (d: seq<Byte>)
    ensures |d| == 16
  {
    Output(Blocks(INITIAL, Padded(m)))
  }

  // ---------------------------------------------------------------- lemmas

  lemma BytesRoundTrip(w: Word)
    ensures LittleEndian(BytesOf(w), 0) == w
  {
  }

  /** Whole blocks can be processed before the rest is known. */
  lemma {:induction false} BlocksAppend(s: Chain, m: seq<Byte>, t: seq<Byte>)
    requires |m| % BLOCK_SIZE == 0
    ensures Blocks(s, m + t) == Blocks(Blocks(s, m), t)
    decreases |m|
  {
    hide Compress;
    if m == [] {
      assert m + t == t;
    } else {
      var b, r := m[..BLOCK_SIZE], m[BLOCK_SIZE..];
      assert (m + t)[..BLOCK_SIZE] == b && (m + t)[BLOCK_SIZE..] == r + t;
      BlocksAppend(Compress(s, b), r, t);
    }
  }

  lemma OneBlock(s: Chain, b: seq<Byte>)
    requires |b| == BLOCK_SIZE
    ensures Blocks(s, b) == Compress(s, b)
  {
    hide Compress;
    assert b[..BLOCK_SIZE] == b && b[BLOCK_SIZE..] == [];
  }

  // ---------------------------------------------------------------- the implementation

  method Decode(input: seq<Byte>) returns (output: seq<Word>)
    requires |input| == BLOCK_SIZE
    ensures output == WordsOf(input)
  {
    output := [];
    var j := 0;
    while j < BLOCK_SIZE
      invariant j == 4 * |output| <= BLOCK_SIZE
      invariant forall k :: 0 <= k < |output| ==> output[k] == LittleEndian(input, 4 * k)
    {
      output := output + [LittleEndian(input, j)];
      j := j + 4;
    }
  }

  /** The order in which rounds 2 to 4 take the words. */
  lemma WordOrder2()
    ensures WordIndex(16) == 1 && WordIndex(17) == 6 && WordIndex(18) == 11 && WordIndex(19) == 0
    ensures WordIndex(20) == 5 && WordIndex(21) == 10 && WordIndex(22) == 15 && WordIndex(23) == 4
    ensures WordIndex(24) == 9 && WordIndex(25) == 14 && WordIndex(26) == 3 && WordIndex(27) == 8
    ensures WordIndex(28) == 13 && WordIndex(29) == 2 && WordIndex(30) == 7 && WordIndex(31) == 12
  {
  }

  lemma WordOrder3()
    ensures WordIndex(32) == 5 && WordIndex(33) == 8 && WordIndex(34) == 11 && WordIndex(35) == 14
    ensures WordIndex(36) == 1 && WordIndex(37) == 4 && WordIndex(38) == 7 && WordIndex(39) == 10
    ensures WordIndex(40) == 13 && WordIndex(41) == 0 && WordIndex(42) == 3 && WordIndex(43) == 6
    ensures WordIndex(44) == 9 && WordIndex(45) == 12 && WordIndex(46) == 15 && WordIndex(47) == 2
  {
  }

  lemma WordOrder4()
    ensures WordIndex(48) == 0 && WordIndex(49) == 7 && WordIndex(50) == 14 && WordIndex(51) == 5
    ensures WordIndex(52) == 12 && WordIndex(53) == 3 && WordIndex(54) == 10 && WordIndex(55) == 1
    ensures WordIndex(56) == 8 && WordIndex(57) == 15 && WordIndex(58) == 6 && WordIndex(59) == 13
    ensures WordIndex(60) == 4 && WordIndex(61) == 11 && WordIndex(62) == 2 && WordIndex(63) == 9
  {
  }

  lemma FourTurns(s: Chain, x: seq<Word>, n: nat)
    requires |x| == 16
    ensures Turns(s, x, n + 4) == Turn(Turn(Turn(Turn(Turns(s, x, n), x, n), x, n + 1), x, n + 2), x, n + 3)
  {
    hide Turn;
    assert Turns(s, x, n + 1) == Turn(Turns(s, x, n), x, n);
    assert Turns(s, x, n + 2) == Turn(Turns(s, x, n + 1), x, n + 1);
    assert Turns(s, x, n + 3) == Turn(Turns(s, x, n + 2), x, n + 2);
  }

  /** One step, by the macro of its round. */
  lemma TurnF(t: Chain, x: seq<Word>, i: nat)
    requires |x| == 16 && i / 16 == 0
    ensures Turn(t, x, i)
         == Chain(t.d, FF(t.a, t.b, t.c, t.d, x[WordIndex(i)], ShiftOf(i), Sine(i)), t.b, t.c)
  {
    hide Add, RotateLeft, F, Sine, WordIndex, ShiftOf;
  }

  lemma TurnG(t: Chain, x: seq<Word>, i: nat)
    requires |x| == 16 && i / 16 == 1
    ensures Turn(t, x, i)
         == Chain(t.d, GG(t.a, t.b, t.c, t.d, x[WordIndex(i)], ShiftOf(i), Sine(i)), t.b, t.c)
  {
    hide Add, RotateLeft, G, Sine, WordIndex, ShiftOf;
  }

  lemma TurnH(t: Chain, x: seq<Word>, i: nat)
    requires |x| == 16 && i / 16 == 2
    ensures Turn(t, x, i)
         == Chain(t.d, HH(t.a, t.b, t.c, t.d, x[WordIndex(i)], ShiftOf(i), Sine(i)), t.b, t.c)
  {
    hide Add, RotateLeft, H, Sine, WordIndex, ShiftOf;
  }

  lemma TurnI(t: Chain, x: seq<Word>, i: nat)
    requires |x| == 16 && i / 16 == 3
    ensures Turn(t, x, i)
         == Chain(t.d, II(t.a, t.b, t.c, t.d, x[WordIndex(i)], ShiftOf(i), Sine(i)), t.b, t.c)
  {
    hide Add, RotateLeft, I, Sine, WordIndex, ShiftOf;
  }

  /** Four steps, as the code of a round has them. */
  lemma FourF(t: Chain, x: seq<Word>, n: nat, n1: nat, n2: nat, n3: nat)
    requires |x| == 16 && n % 4 == 0 && n / 16 == 0 && n1 == n + 1 && n2 == n + 2 && n3 == n + 3
    ensures var a := FF(t.a, t.b, t.c, t.d, x[WordIndex(n)], 7, Sine(n));
      var d := FF(t.d, a, t.b, t.c, x[WordIndex(n1)], 12, Sine(n1));
      var c := FF(t.c, d, a, t.b, x[WordIndex(n2)], 17, Sine(n2));
      var b := FF(t.b, c, d, a, x[WordIndex(n3)], 22, Sine(n3));
      Turn(Turn(Turn(Turn(t, x, n), x, n1), x, n2), x, n3) == Chain(a, b, c, d)
  {
    assert n1 / 16 == n2 / 16 == n3 / 16 == 0;
    assert ShiftOf(n) == 7 && ShiftOf(n1) == 12 && ShiftOf(n2) == 17 && ShiftOf(n3) == 22;
    hide Turn, FF, Sine, WordIndex, ShiftOf;
    TurnF(t, x, n);
    TurnF(Turn(t, x, n), x, n1);
    TurnF(Turn(Turn(t, x, n), x, n1), x, n2);
    TurnF(Turn(Turn(Turn(t, x, n), x, n1), x, n2), x, n3);
  }

  lemma FourG(t: Chain, x: seq<Word>, n: nat, n1: nat, n2: nat, n3: nat)
    requires |x| == 16 && n % 4 == 0 && n / 16 == 1 && n1 == n + 1 && n2 == n + 2 && n3 == n + 3
    ensures var a := GG(t.a, t.b, t.c, t.d, x[WordIndex(n)], 5, Sine(n));
      var d := GG(t.d, a, t.b, t.c, x[WordIndex(n1)], 9, Sine(n1));
      var c := GG(t.c, d, a, t.b, x[WordIndex(n2)], 14, Sine(n2));
      var b := GG(t.b, c, d, a, x[WordIndex(n3)], 20, Sine(n3));
      Turn(Turn(Turn(Turn(t, x, n), x, n1), x, n2), x, n3) == Chain(a, b, c, d)
  {
    assert n1 / 16 == n2 / 16 == n3 / 16 == 1;
    assert ShiftOf(n) == 5 && ShiftOf(n1) == 9 && ShiftOf(n2) == 14 && ShiftOf(n3) == 20;
    hide Turn, GG, Sine, WordIndex, ShiftOf;
    TurnG(t, x, n);
    TurnG(Turn(t, x, n), x, n1);
    TurnG(Turn(Turn(t, x, n), x, n1), x, n2);
    TurnG(Turn(Turn(Turn(t, x, n), x, n1), x, n2), x, n3);
  }

  lemma FourH(t: Chain, x: seq<Word>, n: nat, n1: nat, n2: nat, n3: nat)
    requires |x| == 16 && n % 4 == 0 && n / 16 == 2 && n1 == n + 1 && n2 == n + 2 && n3 == n + 3
    ensures var a := HH(t.a, t.b, t.c, t.d, x[WordIndex(n)], 4, Sine(n));
      var d := HH(t.d, a, t.b, t.c, x[WordIndex(n1)], 11, Sine(n1));
      var c := HH(t.c, d, a, t.b, x[WordIndex(n2)], 16, Sine(n2));
      var b := HH(t.b, c, d, a, x[WordIndex(n3)], 23, Sine(n3));
      Turn(Turn(Turn(Turn(t, x, n), x, n1), x, n2), x, n3) == Chain(a, b, c, d)
  {
    assert n1 / 16 == n2 / 16 == n3 / 16 == 2;
    assert ShiftOf(n) == 4 && ShiftOf(n1) == 11 && ShiftOf(n2) == 16 && ShiftOf(n3) == 23;
    hide Turn, HH, Sine, WordIndex, ShiftOf;
    TurnH(t, x, n);
    TurnH(Turn(t, x, n), x, n1);
    TurnH(Turn(Turn(t, x, n), x, n1), x, n2);
    TurnH(Turn(Turn(Turn(t, x, n), x, n1), x, n2), x, n3);
  }

  lemma FourI(t: Chain, x: seq<Word>, n: nat, n1: nat, n2: nat, n3: nat)
    requires |x| == 16 && n % 4 == 0 && n / 16 == 3 && n1 == n + 1 && n2 == n + 2 && n3 == n + 3
    ensures var a := II(t.a, t.b, t.c, t.d, x[WordIndex(n)], 6, Sine(n));
      var d := II(t.d, a, t.b, t.c, x[WordIndex(n1)], 10, Sine(n1));
      var c := II(t.c, d, a, t.b, x[WordIndex(n2)], 15, Sine(n2));
      var b := II(t.b, c, d, a, x[WordIndex(n3)], 21, Sine(n3));
      Turn(Turn(Turn(Turn(t, x, n), x, n1), x, n2), x, n3) == Chain(a, b, c, d)
  {
    assert n1 / 16 == n2 / 16 == n3 / 16 == 3;
    assert ShiftOf(n) == 6 && ShiftOf(n1) == 10 && ShiftOf(n2) == 15 && ShiftOf(n3) == 21;
    hide Turn, II, Sine, WordIndex, ShiftOf;
    TurnI(t, x, n);
    TurnI(Turn(t, x, n), x, n1);
    TurnI(Turn(Turn(t, x, n), x, n1), x, n2);
    TurnI(Turn(Turn(Turn(t, x, n), x, n1), x, n2), x, n3);
  }

  /** Round 1 of transform. */
  method Round1(x: seq<Word>, ghost s: Chain, t: Chain) returns (u: Chain)
    requires |x| == 16 && t == Turns(s, x, 0)
    ensures u == Turns(s, x, 16)
  {
    hide Turns, Turn, FF, GG, HH, II;
    var a, b, c, d := t.a, t.b, t.c, t.d;
    a := FF(a, b, c, d, x[0], 7, 0xd76aa478);
    d := FF(d, a, b, c, x[1], 12, 0xe8c7b756);
    c := FF(c, d, a, b, x[2], 17, 0x242070db);
    b := FF(b, c, d, a, x[3], 22, 0xc1bdceee);
    FourTurns(s, x, 0);
    FourF(Turns(s, x, 0), x, 0, 1, 2, 3);
    assert Turns(s, x, 4) == Chain(a, b, c, d);
    a := FF(a, b, c, d, x[4], 7, 0xf57c0faf);
    d := FF(d, a, b, c, x[5], 12, 0x4787c62a);
    c := FF(c, d, a, b, x[6], 17, 0xa8304613);
    b := FF(b, c, d, a, x[7], 22, 0xfd469501);
    FourTurns(s, x, 4);
    FourF(Turns(s, x, 4), x, 4, 5, 6, 7);
    assert Turns(s, x, 8) == Chain(a, b, c, d);
    a := FF(a, b, c, d, x[8], 7, 0x698098d8);
    d := FF(d, a, b, c, x[9], 12, 0x8b44f7af);
    c := FF(c, d, a, b, x[10], 17, 0xffff5bb1);
    b := FF(b, c, d, a, x[11], 22, 0x895cd7be);
    FourTurns(s, x, 8);
    FourF(Turns(s, x, 8), x, 8, 9, 10, 11);
    assert Turns(s, x, 12) == Chain(a, b, c, d);
    a := FF(a, b, c, d, x[12], 7, 0x6b901122);
    d := FF(d, a, b, c, x[13], 12, 0xfd987193);
    c := FF(c, d, a, b, x[14], 17, 0xa679438e);
    b := FF(b, c, d, a, x[15], 22, 0x49b40821);
    FourTurns(s, x, 12);
    FourF(Turns(s, x, 12), x, 12, 13, 14, 15);
    assert Turns(s, x, 16) == Chain(a, b, c, d);
    u := Chain(a, b, c, d);
  }

  /** Round 2 of transform. */
  method Round2(x: seq<Word>, ghost s: Chain, t: Chain) returns (u: Chain)
    requires |x| == 16 && t == Turns(s, x, 16)
    ensures u == Turns(s, x, 32)
  {
    hide Turns, Turn, FF, GG, HH, II, WordIndex;
    WordOrder2();
    var a, b, c, d := t.a, t.b, t.c, t.d;
    a := GG(a, b, c, d, x[1], 5, 0xf61e2562);
    d := GG(d, a, b, c, x[6], 9, 0xc040b340);
    c := GG(c, d, a, b, x[11], 14, 0x265e5a51);
    b := GG(b, c, d, a, x[0], 20, 0xe9b6c7aa);
    FourTurns(s, x, 16);
    FourG(Turns(s, x, 16), x, 16, 17, 18, 19);
    assert Turns(s, x, 20) == Chain(a, b, c, d);
    a := GG(a, b, c, d, x[5], 5, 0xd62f105d);
    d := GG(d, a, b, c, x[10], 9, 0x2441453);
    c := GG(c, d, a, b, x[15], 14, 0xd8a1e681);
    b := GG(b, c, d, a, x[4], 20, 0xe7d3fbc8);
    FourTurns(s, x, 20);
    FourG(Turns(s, x, 20), x, 20, 21, 22, 23);
    assert Turns(s, x, 24) == Chain(a, b, c, d);
    a := GG(a, b, c, d, x[9], 5, 0x21e1cde6);
    d := GG(d, a, b, c, x[14], 9, 0xc33707d6);
    c := GG(c, d, a, b, x[3], 14, 0xf4d50d87);
    b := GG(b, c, d, a, x[8], 20, 0x455a14ed);
    FourTurns(s, x, 24);
    FourG(Turns(s, x, 24), x, 24, 25, 26, 27);
    assert Turns(s, x, 28) == Chain(a, b, c, d);
    a := GG(a, b, c, d, x[13], 5, 0xa9e3e905);
    d := GG(d, a, b, c, x[2], 9, 0xfcefa3f8);
    c := GG(c, d, a, b, x[7], 14, 0x676f02d9);
    b := GG(b, c, d, a, x[12], 20, 0x8d2a4c8a);
    FourTurns(s, x, 28);
    FourG(Turns(s, x, 28), x, 28, 29, 30, 31);
    assert Turns(s, x, 32) == Chain(a, b, c, d);
    u := Chain(a, b, c, d);
  }

  /** Round 3 of transform. */
  method Round3(x: seq<Word>, ghost s: Chain, t: Chain) returns (u: Chain)
    requires |x| == 16 && t == Turns(s, x, 32)
    ensures u == Turns(s, x, 48)
  {
    hide Turns, Turn, FF, GG, HH, II, WordIndex;
    WordOrder3();
    var a, b, c, d := t.a, t.b, t.c, t.d;
    a := HH(a, b, c, d, x[5], 4, 0xfffa3942);
    d := HH(d, a, b, c, x[8], 11, 0x8771f681);
    c := HH(c, d, a, b, x[11], 16, 0x6d9d6122);
    b := HH(b, c, d, a, x[14], 23, 0xfde5380c);
    FourTurns(s, x, 32);
    FourH(Turns(s, x, 32), x, 32, 33, 34, 35);
    assert Turns(s, x, 36) == Chain(a, b, c, d);
    a := HH(a, b, c, d, x[1], 4, 0xa4beea44);
    d := HH(d, a, b, c, x[4], 11, 0x4bdecfa9);
    c := HH(c, d, a, b, x[7], 16, 0xf6bb4b60);
    b := HH(b, c, d, a, x[10], 23, 0xbebfbc70);
    FourTurns(s, x, 36);
    FourH(Turns(s, x, 36), x, 36, 37, 38, 39);
    assert Turns(s, x, 40) == Chain(a, b, c, d);
    a := HH(a, b, c, d, x[13], 4, 0x289b7ec6);
    d := HH(d, a, b, c, x[0], 11, 0xeaa127fa);
    c := HH(c, d, a, b, x[3], 16, 0xd4ef3085);
    b := HH(b, c, d, a, x[6], 23, 0x4881d05);
    FourTurns(s, x, 40);
    FourH(Turns(s, x, 40), x, 40, 41, 42, 43);
    assert Turns(s, x, 44) == Chain(a, b, c, d);
    a := HH(a, b, c, d, x[9], 4, 0xd9d4d039);
    d := HH(d, a, b, c, x[12], 11, 0xe6db99e5);
    c := HH(c, d, a, b, x[15], 16, 0x1fa27cf8);
    b := HH(b, c, d, a, x[2], 23, 0xc4ac5665);
    FourTurns(s, x, 44);
    FourH(Turns(s, x, 44), x, 44, 45, 46, 47);
    assert Turns(s, x, 48) == Chain(a, b, c, d);
    u := Chain(a, b, c, d);
  }

  /** Round 4 of transform. */
  method Round4(x: seq<Word>, ghost s: Chain, t: Chain) returns (u: Chain)
    requires |x| == 16 && t == Turns(s, x, 48)
    ensures u == Turns(s, x, 64)
  {
    hide Turns, Turn, FF, GG, HH, II, WordIndex;
    WordOrder4();
    var a, b, c, d := t.a, t.b, t.c, t.d;
    a := II(a, b, c, d, x[0], 6, 0xf4292244);
    d := II(d, a, b, c, x[7], 10, 0x432aff97);
    c := II(c, d, a, b, x[14], 15, 0xab9423a7);
    b := II(b, c, d, a, x[5], 21, 0xfc93a039);
    FourTurns(s, x, 48);
    FourI(Turns(s, x, 48), x, 48, 49, 50, 51);
    assert Turns(s, x, 52) == Chain(a, b, c, d);
    a := II(a, b, c, d, x[12], 6, 0x655b59c3);
    d := II(d, a, b, c, x[3], 10, 0x8f0ccc92);
    c := II(c, d, a, b, x[10], 15, 0xffeff47d);
    b := II(b, c, d, a, x[1], 21, 0x85845dd1);
    FourTurns(s, x, 52);
    FourI(Turns(s, x, 52), x, 52, 53, 54, 55);
    assert Turns(s, x, 56) == Chain(a, b, c, d);
    a := II(a, b, c, d, x[8], 6, 0x6fa87e4f);
    d := II(d, a, b, c, x[15], 10, 0xfe2ce6e0);
    c := II(c, d, a, b, x[6], 15, 0xa3014314);
    b := II(b, c, d, a, x[13], 21, 0x4e0811a1);
    FourTurns(s, x, 56);
    FourI(Turns(s, x, 56), x, 56, 57, 58, 59);
    assert Turns(s, x, 60) == Chain(a, b, c, d);
    a := II(a, b, c, d, x[4], 6, 0xf7537e82);
    d := II(d, a, b, c, x[11], 10, 0xbd3af235);
    c := II(c, d, a, b, x[2], 15, 0x2ad7d2bb);
    b := II(b, c, d, a, x[9], 21, 0xeb86d391);
    FourTurns(s, x, 60);
    FourI(Turns(s, x, 60), x, 60, 61, 62, 63);
    assert Turns(s, x, 64) == Chain(a, b, c, d);
    u := Chain(a, b, c, d);
  }

  /** The length of a message whose bits are counted in count0, modulo a block. */
  lemma IndexIs(total: nat, count0: nat)
    requires count0 == (8 * total) % WORD32
    ensures count0 / 8 % BLOCK_SIZE == total % BLOCK_SIZE
  {
    var q := 8 * total / WORD32;
    assert 8 * total == q * WORD32 + count0;
    assert count0 == 8 * (total - q * 0x2000_0000);
    assert count0 / 8 == total - q * 0x2000_0000;
    assert total == count0 / 8 + 64 * (q * 0x80_0000);
  }

  /** The two halves of the bit count after length more bytes. */
  function CountLow(c0: nat, length: nat): nat {
    (c0 + (length * 8) % WORD32) % WORD32
  }

  function CountHigh(c0: nat, c1: nat, length: nat): nat {
    (c1 + (if CountLow(c0, length) < (length * 8) % WORD32 then 1 else 0) + length / 0x2000_0000) % WORD32
  }

  /** They are the number of bits modulo 2^64. */
  lemma CountIs(total: nat, c0: nat, c1: nat, length: nat)
    requires c0 < WORD32 && c1 < WORD32 && length < WORD32
    requires c0 == (8 * total) % WORD32 && c1 == (8 * total / WORD32) % WORD32
    ensures CountLow(c0, length) == (8 * (total + length)) % WORD32
    ensures CountHigh(c0, c1, length) == (8 * (total + length) / WORD32) % WORD32
  {
    var q, lq, lr := 8 * total / WORD32, length / 0x2000_0000, (length * 8) % WORD32;
    assert length * 8 == lq * WORD32 + lr by {
      assert length == lq * 0x2000_0000 + length % 0x2000_0000;
      assert length * 8 == lq * WORD32 + 8 * (length % 0x2000_0000);
    }
    assert 8 * total == q * WORD32 + c0;
    assert 8 * (total + length) == (q + lq) * WORD32 + (c0 + lr);
    var carry := if c0 + lr >= WORD32 then 1 else 0;
    assert 8 * (total + length) == (q + lq + carry) * WORD32 + (c0 + lr - carry * WORD32);
    assert 8 * (total + length) / WORD32 == q + lq + carry;
    assert c1 == q % WORD32;
  }

  /** The two words hold the length in bits, modulo 2^64. */
  predicate Counted(m: seq<Byte>, c0: nat, c1: nat) {
    c0 == (8 * |m|) % WORD32 && c1 == (8 * |m| / WORD32) % WORD32
  }

  /** The whole blocks of m are in the state, the rest is kept. */
  ghost predicate Absorbed(m: seq<Byte>, state: Chain, rest: seq<Byte>) {
    var whole := |m| - |m| % BLOCK_SIZE;
    state == Blocks(INITIAL, m[..whole]) && rest == m[whole..]
  }

  lemma AbsorbedUpTo(m: seq<Byte>, k: nat, state: Chain, rest: seq<Byte>)
    requires k % BLOCK_SIZE == 0 && k <= |m| < k + BLOCK_SIZE
    requires state == Blocks(INITIAL, m[..k]) && rest == m[k..]
    ensures Absorbed(m, state, rest) && |rest| == |m| % BLOCK_SIZE
  {
    hide Blocks;
    assert k == |m| - |m| % BLOCK_SIZE;
  }

  /** What was absorbed of the message before, seen from the message with more input. */
  lemma AbsorbedBefore(m0: seq<Byte>, input: seq<Byte>, state: Chain, rest: seq<Byte>)
    requires Absorbed(m0, state, rest)
    ensures var m, w0 := m0 + input, |m0| - |m0| % BLOCK_SIZE;
      && state == Blocks(INITIAL, m[..w0]) && w0 % BLOCK_SIZE == 0 && rest == m[w0..|m0|] && m[|m0|..] == input
  {
    hide Blocks;
    var m, w0 := m0 + input, |m0| - |m0| % BLOCK_SIZE;
    assert m[..w0] == m0[..w0];
  }

  lemma Glue(m: seq<Byte>, a: nat, b: nat, c: nat)
    requires a <= b <= c <= |m|
    ensures m[a..b] + m[b..c] == m[a..c]
  {
  }

  lemma GlueRest(m: seq<Byte>, a: nat, b: nat, rest: seq<Byte>)
    requires a <= b <= |m| && m[b..] == rest
    ensures m[a..b] + rest == m[a..]
  {
  }

  lemma AllAbsorbed(m: seq<Byte>, state: Chain, rest: seq<Byte>)
    requires Absorbed(m, state, rest) && |m| % BLOCK_SIZE == 0
    ensures state == Blocks(INITIAL, m)
  {
    hide Blocks;
    assert m[..|m|] == m;
  }

  lemma SliceOfInput(m: seq<Byte>, k: nat, input: seq<Byte>, i: nat, n: nat)
    requires k <= |m| && m[k..] == input && i + n <= |input|
    ensures m[k + i..k + i + n] == input[i..i + n]
    ensures m[k + i..] == input[i..]
  {
    assert forall j :: 0 <= j < |input| ==> m[k + j] == m[k..][j];
  }

  class MD5 {
    var finalized: bool
    var count0: nat
    var count1: nat
    var state: Chain
    const buffer: array<Byte>
    var digest: seq<Byte>
    ghost var message: seq<Byte> // all bytes since init

    ghost predicate Valid()
      reads this, buffer
    {
      && buffer.Length == BLOCK_SIZE && count0 < WORD32 && count1 < WORD32
      && (!finalized ==> Counted(message, count0, count1) && Absorbed(message, state, buffer[..|message| % BLOCK_SIZE]))
      && (finalized ==> digest == Digest(message))
    }

    constructor ()
      ensures Valid() && !finalized && message == [] && fresh(buffer)
    {
      finalized, count0, count1, state := false, 0, 0, INITIAL;
      digest, message := [], [];
      buffer := new Byte[BLOCK_SIZE](i => 0);
    }

    /** transform */
    method Transform(block: seq<Byte>)
      requires |block| == BLOCK_SIZE
      modifies this`state
      ensures state == Compress(old(state), block)
    {
      hide Turns, Turn, WordsOf;
      var x := Decode(block);
      NoTurns(state, x);
      var t := Round1(x, state, state);
      t := Round2(x, state, t);
      t := Round3(x, state, t);
      t := Round4(x, state, t);
      state := Chain(Add(state.a, t.a), Add(state.b, t.b), Add(state.c, t.c), Add(state.d, t.d));
    }

    /** memcpy into the buffer. */
    method Fill(index: nat, input: seq<Byte>)
      requires index + |input| <= buffer.Length
      modifies buffer
      ensures buffer[..index + |input|] == old(buffer[..index]) + input
    {
      for i := 0 to |input|
        invariant buffer[..index] == old(buffer[..index])
        invariant forall k :: 0 <= k < i ==> buffer[index + k] == input[k]
      {
        buffer[index + i] := input[i];
      }
    }

    /** The part of update that counts bits, in two words. */
    method CountBits(length: nat)
      requires count0 < WORD32 && count1 < WORD32 && length < WORD32
      modifies this`count0, this`count1
      ensures count0 == CountLow(old(count0), length) && count1 == CountHigh(old(count0), old(count1), length)
    {
      count0 := (count0 + (length * 8) % WORD32) % WORD32;
      if count0 < (length * 8) % WORD32 {
        count1 := (count1 + 1) % WORD32;
      }
      count1 := (count1 + length / 0x2000_0000) % WORD32;
    }

    /** update; all offsets stay within 32 bits. */
    method Update(input: seq<Byte>)
      requires Valid() && !finalized && |input| < WORD32 - BLOCK_SIZE
      modifies this`count0, this`count1, this`state, this`message, buffer
      ensures Valid() && !finalized && message == old(message) + input
    {
      hide Compress, Blocks, Digest, CountLow, CountHigh, Absorbed;
      ghost var m0 := message;
      ghost var w0 := |m0| - |m0| % BLOCK_SIZE;
      IndexIs(|m0|, count0);
      CountIs(|m0|, count0, count1, |input|);
      CountInRange(count0, count1, |input|);
      var index := count0 / 8 % BLOCK_SIZE;
      CountBits(|input|);
      AbsorbedBefore(m0, input, state, buffer[..index]);
      Absorb(index, input, m0 + input, w0);
      message := m0 + input;
    }

    /** The loop of update over the whole blocks in the input, which starts at position `start` of the message. */
    method AbsorbWhole(i0: nat, input: seq<Byte>, ghost m: seq<Byte>, ghost start: nat) returns (i: nat)
      requires i0 <= |input| < WORD32 - BLOCK_SIZE && (start + i0) % BLOCK_SIZE == 0
      requires |m| == start + |input| && m[start..] == input && state == Blocks(INITIAL, m[..start + i0])
      modifies this`state
      ensures i0 <= i <= |input| < i + BLOCK_SIZE && (start + i) % BLOCK_SIZE == 0
      ensures state == Blocks(INITIAL, m[..start + i])
    {
      hide Compress, Blocks;
      i := i0;
      while i + BLOCK_SIZE <= |input|
        invariant i0 <= i <= |input| && (start + i) % BLOCK_SIZE == 0
        invariant state == Blocks(INITIAL, m[..start + i])
      {
        SliceOfInput(m, start, input, i, BLOCK_SIZE);
        BlockDone(m, start + i, input[i..i + BLOCK_SIZE]);
        NextMultiple(start + i);
        Transform(input[i..i + BLOCK_SIZE]);
        i := i + BLOCK_SIZE;
      }
    }

    /** The part of update that completes the buffer and transforms it. */
    method FirstBlock(index: nat, first: seq<Byte>, ghost m: seq<Byte>, ghost w0: nat)
      requires buffer.Length == BLOCK_SIZE && index + |first| == BLOCK_SIZE
      requires w0 % BLOCK_SIZE == 0 && w0 + BLOCK_SIZE <= |m| && state == Blocks(INITIAL, m[..w0])
      requires buffer[..index] == m[w0..w0 + index] && first == m[w0 + index..w0 + BLOCK_SIZE]
      modifies this`state, buffer
      ensures state == Blocks(INITIAL, m[..w0 + BLOCK_SIZE])
    {
      hide Compress, Blocks;
      Glue(m, w0, w0 + index, w0 + BLOCK_SIZE);
      Fill(index, first);
      assert buffer[..] == buffer[..index + |first|];
      BlockDone(m, w0, buffer[..]);
      Transform(buffer[..]);
    }

    /** The part of update that keeps what is less than a block. */
    method KeepRest(index: nat, rest: seq<Byte>, ghost m: seq<Byte>, ghost done: nat)
      requires buffer.Length == BLOCK_SIZE && index + |rest| < BLOCK_SIZE && |m| == done + index + |rest|
      requires done % BLOCK_SIZE == 0 && state == Blocks(INITIAL, m[..done])
      requires buffer[..index] == m[done..done + index] && rest == m[done + index..]
      modifies buffer
      ensures Absorbed(m, state, buffer[..|m| % BLOCK_SIZE])
    {
      hide Compress, Blocks, Absorbed;
      GlueRest(m, done, done + index, rest);
      Fill(index, rest);
      AbsorbedUpTo(m, done, state, m[done..]);
    }

    /** The part of update that fills the buffer and transforms blocks; m is the message with the input. */
    method Absorb(index0: nat, input: seq<Byte>, ghost m: seq<Byte>, ghost w0: nat)
      requires buffer.Length == BLOCK_SIZE && index0 < BLOCK_SIZE && |input| < WORD32 - BLOCK_SIZE
      requires w0 % BLOCK_SIZE == 0 && |m| == w0 + index0 + |input| && m[w0 + index0..] == input
      requires state == Blocks(INITIAL, m[..w0]) && buffer[..index0] == m[w0..w0 + index0]
      modifies this`state, buffer
      ensures Absorbed(m, state, buffer[..|m| % BLOCK_SIZE])
    {
      hide Compress, Blocks, Absorbed;
      var index, length := index0, |input|;
      var firstPart := 64 - index;
      var i := 0;
      if length >= firstPart {
        SliceOfInput(m, w0 + index, input, 0, firstPart);
        FirstBlock(index, input[..firstPart], m, w0);
        NextMultiple(w0);
        i := AbsorbWhole(firstPart, input, m, w0 + index0);
        index := 0;
      }
      SliceOfInput(m, w0 + index0, input, i, 0);
      KeepRest(index, input[i..], m, w0 + index0 + i - index);
    }

    /** finalize */
    method Finalize()
      requires Valid()
      modifies this, buffer
      ensures Valid() && finalized && message == old(message) && digest == Digest(message)
    {
      hide Compress, Blocks, Absorbed, Padded, LowBytes, Zeros, Output, PadLength;
      if !finalized {
        ghost var m := message;
        var bits := LowBytes(count0) + LowBytes(count1);
        IndexIs(|m|, count0);
        var index := count0 / 8 % 64;
        var padLen := if index < 56 then 56 - index else 120 - index;
        PaddedParts(m, padLen, count0, count1);
        Update(([0x80] + Zeros(63))[..padLen]);
        Update(bits);
        assert message == Padded(m);
        AllAbsorbed(message, state, buffer[..|message| % BLOCK_SIZE]);
        digest := Output(state);
        message := m;
        forall k | 0 <= k < buffer.Length { buffer[k] := 0; }
        count0, count1 := 0, 0;
        finalized := true;
      }
    }
  }

  /** The constructor for a whole text. */
  method OneShot(text: seq<Byte>) returns (md5: MD5)
    requires |text| < WORD32 - BLOCK_SIZE
    ensures md5.Valid() && md5.finalized && md5.digest == Digest(text)
  {
    hide Blocks, Digest;
    md5 := new MD5();
    assert [] + text == text;
    md5.Update(text);
    md5.Finalize();
  }

  function Joined(pieces: seq<seq<Byte>>): seq<Byte> {
    if pieces == [] then [] else Joined(pieces[..|pieces| - 1]) + pieces[|pieces| - 1]
  }

  /** However a message is cut into updates, the digest is that of the whole. */
  method InPieces(pieces: seq<seq<Byte>>) returns (md5: MD5)
    requires forall i :: 0 <= i < |pieces| ==> |pieces[i]| < WORD32 - BLOCK_SIZE
    ensures md5.Valid() && md5.finalized && md5.digest == Digest(Joined(pieces))
  {
    hide Blocks, Digest;
    md5 := new MD5();
    for k := 0 to |pieces|
      invariant md5.Valid() && !md5.finalized && fresh(md5) && fresh(md5.buffer) && md5.message == Joined(pieces[..k])
    {
      assert pieces[..k + 1][..k] == pieces[..k];
      md5.Update(pieces[k]);
    }
    assert pieces[..|pieces|] == pieces;
    md5.Finalize();
  }

  lemma PaddedParts(m: seq<Byte>, padLen: nat, c0: nat, c1: nat)
    requires c0 == (8 * |m|) % WORD32 && c1 == (8 * |m| / WORD32) % WORD32
    requires padLen == if |m| % 64 < 56 then 56 - |m| % 64 else 120 - |m| % 64
    ensures padLen <= 64 && Padded(m) == m + ([0x80] + Zeros(63))[..padLen] + (LowBytes(c0) + LowBytes(c1))
    ensures |Padded(m)| % BLOCK_SIZE == 0
  {
    hide LowBytes, Zeros, PadLength;
    LowOfLow(8 * |m|);
    LowOfLow(8 * |m| / WORD32);
    PadSum(|m|, padLen);
    ZerosCut(padLen);
    PartsJoined(m, [0x80] + Zeros(padLen - 1), LowBytes(c0), LowBytes(c1));
    assert |Padded(m)| == |m| + padLen + 8;
  }

  lemma PartsJoined(m: seq<Byte>, pad: seq<Byte>, a: seq<Byte>, b: seq<Byte>)
    requires |pad| > 0
    ensures m + [pad[0]] + pad[1..] + a + b == m + pad + (a + b)
  {
  }

  lemma LowOfLow(n: nat)
    ensures LowBytes(n % WORD32) == LowBytes(n)
  {
  }

  lemma PadSum(n: nat, padLen: nat)
    requires padLen == if n % 64 < 56 then 56 - n % 64 else 120 - n % 64
    ensures padLen == PadLength(n) && 1 <= padLen <= 64 && (n + padLen + 8) % 64 == 0
  {
  }

  lemma ZerosCut(k: nat)
    requires 1 <= k <= 64
    ensures ([0x80] + Zeros(63))[..k] == [0x80] + Zeros(k - 1)
  {
  }

  lemma CountInRange(c0: nat, c1: nat, length: nat)
    ensures CountLow(c0, length) < WORD32 && CountHigh(c0, c1, length) < WORD32
  {
  }

  lemma NoTurns(s: Chain, x: seq<Word>)
    requires |x| == 16
    ensures Turns(s, x, 0) == s
  {
  }

  /** One more block of the message is processed. */
  lemma NextMultiple(k: nat)
    requires k % BLOCK_SIZE == 0
    ensures (k + BLOCK_SIZE) % BLOCK_SIZE == 0
  {
  }

  lemma BlockDone(m: seq<Byte>, k: nat, block: seq<Byte>)
    requires k % BLOCK_SIZE == 0 && k + BLOCK_SIZE <= |m| && block == m[k..k + BLOCK_SIZE]
    ensures Blocks(INITIAL, m[..k + BLOCK_SIZE]) == Compress(Blocks(INITIAL, m[..k]), block)
  {
    hide Compress;
    assert m[..k + BLOCK_SIZE] == m[..k] + block;
    BlocksAppend(INITIAL, m[..k], block);
    OneBlock(Blocks(INITIAL, m[..k]), block);
  }
}
