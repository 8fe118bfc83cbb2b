/** What the parts of MD5 compute, bit by bit, and a digest given in section A.5 of RFC 1321. */
module Md5Laws {

  import opened Md5

  // ---------------------------------------------------------------- words bit by bit

  predicate Bit(w: Word, i: bv5) {
    (w >> i) & 1 == 1
  }

  predicate ByteBit(b: Byte, i: bv5)
    requires i < 8
  {
    (b >> i) & 1 == 1
  }

  lemma NotBits(n: Word, x: Word, i: bv5)
    requires n == !x
    ensures Bit(n, i) <==> !Bit(x, i)
  {
  }

  lemma AndBits(a: Word, x: Word, y: Word, i: bv5)
    requires a == x & y
    ensures Bit(a, i) <==> Bit(x, i) && Bit(y, i)
  {
  }

  lemma OrBits(o: Word, x: Word, y: Word, i: bv5)
    requires o == x | y
    ensures Bit(o, i) <==> Bit(x, i) || Bit(y, i)
  {
  }

  lemma XorBits(o: Word, x: Word, y: Word, i: bv5)
    requires o == x ^ y
    ensures Bit(o, i) <==> Bit(x, i) != Bit(y, i)
  {
  }

  /** The part of a rotation that moves up, and the part that comes in at the bottom. */
  function Raised(x: Word, n: bv5): Word {
    x << n
  }

  function FromTop(x: Word, n: bv5): Word {
    x >> (32 - n as bv6)
  }

  lemma ShiftedLeftBits(a: Word, x: Word, n: bv5, i: bv5)
    requires a == x << n
    ensures Bit(a, i) <==> n <= i && Bit(x, i - n)
  {
  }

  lemma ShiftedRightBits(b: Word, x: Word, n: bv5, i: bv5)
    requires b == x >> (32 - n as bv6)
    ensures Bit(b, i) <==> i < n && Bit(x, i - n)
  {
  }

  lemma RaisedBits(x: Word, n: bv5, i: bv5)
    ensures Bit(Raised(x, n), i) <==> n <= i && Bit(x, i - n)
  {
    hide Bit;
    ShiftedLeftBits(Raised(x, n), x, n, i);
  }

  lemma FromTopBits(x: Word, n: bv5, i: bv5)
    ensures Bit(FromTop(x, n), i) <==> i < n && Bit(x, i - n)
  {
    hide Bit;
    ShiftedRightBits(FromTop(x, n), x, n, i);
  }

  lemma Selected(x: Word, y: Word, z: Word, n: Word, a: Word, b: Word, f: Word, i: bv5)
    requires n == !x && a == x & y && b == n & z && f == a | b
    ensures Bit(f, i) == if Bit(x, i) then Bit(y, i) else Bit(z, i)
  {
    hide Bit;
    NotBits(n, x, i);
    AndBits(a, x, y, i);
    AndBits(b, n, z, i);
    OrBits(f, a, b, i);
  }

  lemma FIs(x: Word, y: Word, z: Word)
    ensures F(x, y, z) == (x & y) | (!x & z)
  {
  }

  /** F selects by its first argument, */
  lemma FBits(x: Word, y: Word, z: Word, i: bv5)
    ensures Bit(F(x, y, z), i) == if Bit(x, i) then Bit(y, i) else Bit(z, i)
  {
    hide Bit, F;
    FIs(x, y, z);
    Selected(x, y, z, !x, x & y, !x & z, F(x, y, z), i);
  }

  lemma GIsF(x: Word, y: Word, z: Word)
    ensures G(x, y, z) == F(z, x, y)
  {
  }

  /** G by its last, */
  lemma GBits(x: Word, y: Word, z: Word, i: bv5)
    ensures Bit(G(x, y, z), i) == if Bit(z, i) then Bit(x, i) else Bit(y, i)
  {
    hide Bit, F, G;
    GIsF(x, y, z);
    FBits(z, x, y, i);
  }

  lemma HIs(x: Word, y: Word, z: Word)
    ensures H(x, y, z) == (x ^ y) ^ z
  {
  }

  lemma OddBits(x: Word, y: Word, z: Word, a: Word, f: Word, i: bv5)
    requires a == x ^ y && f == a ^ z
    ensures Bit(f, i) == ((Bit(x, i) != Bit(y, i)) != Bit(z, i))
  {
    hide Bit;
    XorBits(a, x, y, i);
    XorBits(f, a, z, i);
  }

  /** H is the parity, */
  lemma HBits(x: Word, y: Word, z: Word, i: bv5)
    ensures Bit(H(x, y, z), i) == ((Bit(x, i) != Bit(y, i)) != Bit(z, i))
  {
    hide Bit, H;
    HIs(x, y, z);
    OddBits(x, y, z, x ^ y, H(x, y, z), i);
  }

  lemma IIs(x: Word, y: Word, z: Word)
    ensures I(x, y, z) == y ^ (x | !z)
  {
  }

  lemma Mixed(x: Word, y: Word, z: Word, n: Word, a: Word, f: Word, i: bv5)
    requires n == !z && a == x | n && f == y ^ a
    ensures Bit(f, i) == (Bit(y, i) != (Bit(x, i) || !Bit(z, i)))
  {
    hide Bit;
    NotBits(n, z, i);
    OrBits(a, x, n, i);
    XorBits(f, y, a, i);
  }

  /** and I mixes in its last argument negated. */
  lemma IBits(x: Word, y: Word, z: Word, i: bv5)
    ensures Bit(I(x, y, z), i) == (Bit(y, i) != (Bit(x, i) || !Bit(z, i)))
  {
    hide Bit, I;
    IIs(x, y, z);
    Mixed(x, y, z, !z, x | !z, I(x, y, z), i);
  }

  lemma RotateLeftIs(x: Word, n: bv5)
    ensures RotateLeft(x, n) == Raised(x, n) | FromTop(x, n)
  {
  }

  /** Rotating to the left moves every bit up n places, and those at the top to the bottom. */
  lemma RotatedBits(x: Word, n: bv5, i: bv5)
    ensures Bit(RotateLeft(x, n), i) == Bit(x, i - n)
  {
    hide Bit, RotateLeft, Raised, FromTop;
    RotateLeftIs(x, n);
    RaisedBits(x, n, i);
    FromTopBits(x, n, i);
    OrBits(RotateLeft(x, n), Raised(x, n), FromTop(x, n), i);
  }

  /** Words are read low byte first. */
  lemma LittleEndianBits(b: seq<Byte>, k: nat, i: bv5)
    requires k + 4 <= |b| && i < 8
    ensures Bit(LittleEndian(b, k), i) == ByteBit(b[k], i) && Bit(LittleEndian(b, k), 8 + i) == ByteBit(b[k + 1], i)
    ensures Bit(LittleEndian(b, k), 16 + i) == ByteBit(b[k + 2], i)
    ensures Bit(LittleEndian(b, k), 24 + i) == ByteBit(b[k + 3], i)
  {
  }

  /** The initial words are the bytes of section 3.3 of RFC 1321. */
  lemma InitialBytes()
    ensures Output(INITIAL)
         == [0x01, 0x23, 0x45, 0x67, 0x89, 0xab, 0xcd, 0xef, 0xfe, 0xdc, 0xba, 0x98, 0x76, 0x54, 0x32, 0x10]
  {
  }

  // ---------------------------------------------------------------- padding

  /** A one bit and zeros up to the length, which takes the last eight bytes. */
  predicate PaddedTo(m: seq<Byte>, p: seq<Byte>) {
    && |m| + 8 < |p| && p[..|m|] == m && p[|m|] == 0x80
    && forall i :: |m| < i < |p| - 8 ==> p[i] == 0
  }

  /** The low 32 bits of a number. */
  function LowWord(n: nat): Word {
    (n % 0x1_0000_0000) as Word
  }

  lemma PaddedPlaces(m: seq<Byte>, z: seq<Byte>, a: seq<Byte>, b: seq<Byte>)
    requires |a| == |b| == 4 && forall i :: 0 <= i < |z| ==> z[i] == 0
    ensures var p := m + [0x80] + z + a + b; var n := |p| - 8;
      n == |m| + 1 + |z| && PaddedTo(m, p) && p[n..n + 4] == a && p[n + 4..n + 8] == b
  {
  }

  /** The padding, with as many bytes as whole blocks need but no more, and the length in bits behind it. */
  lemma PaddingLaw(m: seq<Byte>)
    ensures var p := Padded(m); var n := |p| - 8;
      && PaddedTo(m, p) && n < |m| + 65 && |p| % BLOCK_SIZE == 0
      && LittleEndian(p, n) == LowWord(8 * |m|) && LittleEndian(p, n + 4) == LowWord(8 * |m| / WORD32)
  {
    hide LowBytes, LittleEndian, Zeros, PadLength, PaddedTo, LowWord;
    var p, n := Padded(m), |Padded(m)| - 8;
    var a, b := LowBytes(8 * |m|), LowBytes(8 * |m| / WORD32);
    ZerosAre(PadLength(|m|) - 1);
    PaddedPlaces(m, Zeros(PadLength(|m|) - 1), a, b);
    LowBytesRead(8 * |m|);
    LowBytesRead(8 * |m| / WORD32);
    assert a[0..4] == a && b[0..4] == b;
    SameWord(p, n, a, 0);
    SameWord(p, n + 4, b, 0);
  }

  lemma ZerosAre(n: nat)
    ensures forall i :: 0 <= i < n ==> Zeros(n)[i] == 0
  {
  }

  lemma LowBytesRead(n: nat)
    ensures LittleEndian(LowBytes(n), 0) == LowWord(n)
  {
    hide LittleEndian, BytesOf;
    BytesRoundTrip((n % WORD32) as Word);
  }

  lemma SameWord(p: seq<Byte>, k: nat, b: seq<Byte>, j: nat)
    requires k + 4 <= |p| && j + 4 <= |b| && p[k..k + 4] == b[j..j + 4]
    ensures LittleEndian(p, k) == LittleEndian(b, j)
  {
    var s := p[k..k + 4];
    assert s[0] == p[k] && s[1] == p[k + 1] && s[2] == p[k + 2] && s[3] == p[k + 3];
    assert s[0] == b[j] && s[1] == b[j + 1] && s[2] == b[j + 2] && s[3] == b[j + 3];
  }

  // ---------------------------------------------------------------- a digest of section A.5 of RFC 1321

  const ALPHABET: seq<Byte> := [
    0x61, 0x62, 0x63, 0x64, 0x65, 0x66, 0x67, 0x68, 0x69, 0x6a, 0x6b, 0x6c, 0x6d,
    0x6e, 0x6f, 0x70, 0x71, 0x72, 0x73, 0x74, 0x75, 0x76, 0x77, 0x78, 0x79, 0x7a
  ]

  /** The words of the only block of the padded alphabet. */
  predicate AlphabetWords(x: seq<Word>) {
    && |x| == 16
    && x[0] == 0x64636261 && x[1] == 0x68676665 && x[2] == 0x6c6b6a69 && x[3] == 0x706f6e6d
    && x[4] == 0x74737271 && x[5] == 0x78777675 && x[6] == 0x00807a79 && x[7] == 0x00000000
    && x[8] == 0x00000000 && x[9] == 0x00000000 && x[10] == 0x00000000 && x[11] == 0x00000000
    && x[12] == 0x00000000 && x[13] == 0x00000000 && x[14] == 0x000000d0 && x[15] == 0x00000000
  }

  /** The four words after so many steps. */
  const AFTER_8: Chain := Chain(0xfe15f787, 0xda9bbb0d, 0xb71122fc, 0xa811b278)
  const AFTER_16: Chain := Chain(0x1754a316, 0x608d6b7e, 0x00df74d5, 0x85567d90)
  const AFTER_24: Chain := Chain(0x570c43e0, 0xc9f162d4, 0xc28ab49d, 0x977efd2a)
  const AFTER_32: Chain := Chain(0xf54d8710, 0xaeb35766, 0x2e69afc7, 0x927b72e2)
  const AFTER_40: Chain := Chain(0xb9c0c733, 0x8d41bf99, 0x23a9451b, 0xf1e6dc7a)
  const AFTER_48: Chain := Chain(0xb5d41f9c, 0x71d10367, 0x703d54d8, 0xa04b4904)
  const AFTER_56: Chain := Chain(0xc1e942f1, 0x83877d1b, 0x23a68048, 0xd9bb987c)
  const AFTER_64: Chain := Chain(0x708ed9c2, 0x1116e6d8, 0xd38f1e7f, 0x2baf1354)

  lemma AlphabetTurns8(x: seq<Word>)
    requires AlphabetWords(x) && Turns(INITIAL, x, 0) == INITIAL
    ensures Turns(INITIAL, x, 8) == AFTER_8
  {
    hide Turns, Turn;
    FourTurns(INITIAL, x, 0);
    FourF(Turns(INITIAL, x, 0), x, 0, 1, 2, 3);
    assert Turns(INITIAL, x, 4) == Chain(0xd6d117a6, 0x4503b812, 0x227d8cf1, 0xaab1aaaa);
    FourTurns(INITIAL, x, 4);
    FourF(Turns(INITIAL, x, 4), x, 4, 5, 6, 7);
    assert Turns(INITIAL, x, 8) == AFTER_8;
  }

  lemma AlphabetTurns16(x: seq<Word>)
    requires AlphabetWords(x) && Turns(INITIAL, x, 8) == AFTER_8
    ensures Turns(INITIAL, x, 16) == AFTER_16
  {
    hide Turns, Turn;
    FourTurns(INITIAL, x, 8);
    FourF(Turns(INITIAL, x, 8), x, 8, 9, 10, 11);
    assert Turns(INITIAL, x, 12) == Chain(0xae752899, 0x56cfa5cb, 0x7d4bd80b, 0x2bbe757f);
    FourTurns(INITIAL, x, 12);
    FourF(Turns(INITIAL, x, 12), x, 12, 13, 14, 15);
    assert Turns(INITIAL, x, 16) == AFTER_16;
  }

  lemma AlphabetTurns24(x: seq<Word>)
    requires AlphabetWords(x) && Turns(INITIAL, x, 16) == AFTER_16
    ensures Turns(INITIAL, x, 24) == AFTER_24
  {
    hide Turns, Turn, WordIndex;
    WordOrder2();
    FourTurns(INITIAL, x, 16);
    FourG(Turns(INITIAL, x, 16), x, 16, 17, 18, 19);
    assert Turns(INITIAL, x, 20) == Chain(0x2d8071cc, 0x4c2145b3, 0xedfe7e4b, 0x5dcee119);
    FourTurns(INITIAL, x, 20);
    FourG(Turns(INITIAL, x, 20), x, 20, 21, 22, 23);
    assert Turns(INITIAL, x, 24) == AFTER_24;
  }

  lemma AlphabetTurns32(x: seq<Word>)
    requires AlphabetWords(x) && Turns(INITIAL, x, 24) == AFTER_24
    ensures Turns(INITIAL, x, 32) == AFTER_32
  {
    hide Turns, Turn, WordIndex;
    WordOrder2();
    FourTurns(INITIAL, x, 24);
    FourG(Turns(INITIAL, x, 24), x, 24, 25, 26, 27);
    assert Turns(INITIAL, x, 28) == Chain(0x25bfae3b, 0xe6d3b398, 0xf8c8365f, 0x89980104);
    FourTurns(INITIAL, x, 28);
    FourG(Turns(INITIAL, x, 28), x, 28, 29, 30, 31);
    assert Turns(INITIAL, x, 32) == AFTER_32;
  }

  lemma AlphabetTurns40(x: seq<Word>)
    requires AlphabetWords(x) && Turns(INITIAL, x, 32) == AFTER_32
    ensures Turns(INITIAL, x, 40) == AFTER_40
  {
    hide Turns, Turn, WordIndex;
    WordOrder3();
    FourTurns(INITIAL, x, 32);
    FourH(Turns(INITIAL, x, 32), x, 32, 33, 34, 35);
    assert Turns(INITIAL, x, 36) == Chain(0xb4bf680e, 0x06a5e211, 0x2361ed0a, 0x4c8ffa80);
    FourTurns(INITIAL, x, 36);
    FourH(Turns(INITIAL, x, 36), x, 36, 37, 38, 39);
    assert Turns(INITIAL, x, 40) == AFTER_40;
  }

  lemma AlphabetTurns48(x: seq<Word>)
    requires AlphabetWords(x) && Turns(INITIAL, x, 40) == AFTER_40
    ensures Turns(INITIAL, x, 48) == AFTER_48
  {
    hide Turns, Turn, WordIndex;
    WordOrder3();
    FourTurns(INITIAL, x, 40);
    FourH(Turns(INITIAL, x, 40), x, 40, 41, 42, 43);
    assert Turns(INITIAL, x, 44) == Chain(0xa3e88ead, 0x90a35af5, 0x66f6468d, 0x02c0b11c);
    FourTurns(INITIAL, x, 44);
    FourH(Turns(INITIAL, x, 44), x, 44, 45, 46, 47);
    assert Turns(INITIAL, x, 48) == AFTER_48;
  }

  lemma AlphabetTurns56(x: seq<Word>)
    requires AlphabetWords(x) && Turns(INITIAL, x, 48) == AFTER_48
    ensures Turns(INITIAL, x, 56) == AFTER_56
  {
    hide Turns, Turn, WordIndex;
    WordOrder4();
    FourTurns(INITIAL, x, 48);
    FourI(Turns(INITIAL, x, 48), x, 48, 49, 50, 51);
    assert Turns(INITIAL, x, 52) == Chain(0xfc32dd6e, 0x33edb197, 0xb35602cb, 0x65456b34);
    FourTurns(INITIAL, x, 52);
    FourI(Turns(INITIAL, x, 52), x, 52, 53, 54, 55);
    assert Turns(INITIAL, x, 56) == AFTER_56;
  }

  lemma AlphabetTurns64(x: seq<Word>)
    requires AlphabetWords(x) && Turns(INITIAL, x, 56) == AFTER_56
    ensures Turns(INITIAL, x, 64) == AFTER_64
  {
    hide Turns, Turn, WordIndex;
    WordOrder4();
    FourTurns(INITIAL, x, 56);
    FourI(Turns(INITIAL, x, 56), x, 56, 57, 58, 59);
    assert Turns(INITIAL, x, 60) == Chain(0x0077c208, 0x5e6bc930, 0xa3e2247f, 0x847fc2e7);
    FourTurns(INITIAL, x, 60);
    FourI(Turns(INITIAL, x, 60), x, 60, 61, 62, 63);
    assert Turns(INITIAL, x, 64) == AFTER_64;
  }

  const ALPHABET_0: seq<Byte> := [
    0x61, 0x62, 0x63, 0x64, 0x65, 0x66, 0x67, 0x68,
    0x69, 0x6a, 0x6b, 0x6c, 0x6d, 0x6e, 0x6f, 0x70
  ]
  const ALPHABET_4: seq<Byte> := [
    0x71, 0x72, 0x73, 0x74, 0x75, 0x76, 0x77, 0x78,
    0x79, 0x7a, 0x80, 0x00, 0x00, 0x00, 0x00, 0x00
  ]
  const ALPHABET_8: seq<Byte> := [
    0x00, 0x00, 0x00, 0x00, 0x00, 0x00, 0x00, 0x00,
    0x00, 0x00, 0x00, 0x00, 0x00, 0x00, 0x00, 0x00
  ]
  const ALPHABET_12: seq<Byte> := [
    0x00, 0x00, 0x00, 0x00, 0x00, 0x00, 0x00, 0x00,
    0xd0, 0x00, 0x00, 0x00, 0x00, 0x00, 0x00, 0x00
  ]
  const ALPHABET_BLOCK: seq<Byte> := ALPHABET_0 + ALPHABET_4 + ALPHABET_8 + ALPHABET_12

  lemma AlphabetLength()
    ensures LowBytes(8 * |ALPHABET|) == [0xd0, 0, 0, 0] && LowBytes(8 * |ALPHABET| / WORD32) == [0, 0, 0, 0]
  {
    assert |ALPHABET| == 26;
    assert (208 % WORD32) as Word == 0xd0 && (0 % WORD32) as Word == 0;
  }

  lemma WordHere(b: seq<Byte>, k: nat, b0: Byte, b1: Byte, b2: Byte, b3: Byte, w: Word)
    requires k + 4 <= |b| && b[k] == b0 && b[k + 1] == b1 && b[k + 2] == b2 && b[k + 3] == b3
    requires w == (b0 as Word) | (b1 as Word << 8) | (b2 as Word << 16) | (b3 as Word << 24)
    ensures LittleEndian(b, k) == w
  {
  }

  lemma WordsHere(block: seq<Byte>, k: nat, part: seq<Byte>)
    requires |block| == BLOCK_SIZE && k + 4 <= 16 && block[4 * k..4 * k + 16] == part
    ensures var x := WordsOf(block);
      && x[k] == LittleEndian(part, 0) && x[k + 1] == LittleEndian(part, 4)
      && x[k + 2] == LittleEndian(part, 8) && x[k + 3] == LittleEndian(part, 12)
  {
    hide LittleEndian;
    assert forall j :: 0 <= j < 16 ==> part[j] == block[4 * k + j];
    SameWord(block, 4 * k, part, 0);
    SameWord(block, 4 * (k + 1), part, 4);
    SameWord(block, 4 * (k + 2), part, 8);
    SameWord(block, 4 * (k + 3), part, 12);
  }

  lemma AlphabetWords0()
    ensures |ALPHABET_0| == 16
    ensures LittleEndian(ALPHABET_0, 0) == 0x64636261 && LittleEndian(ALPHABET_0, 4) == 0x68676665
    ensures LittleEndian(ALPHABET_0, 8) == 0x6c6b6a69 && LittleEndian(ALPHABET_0, 12) == 0x706f6e6d
  {
    hide LittleEndian;
    WordHere(ALPHABET_0, 0, 0x61, 0x62, 0x63, 0x64, 0x64636261);
    WordHere(ALPHABET_0, 4, 0x65, 0x66, 0x67, 0x68, 0x68676665);
    WordHere(ALPHABET_0, 8, 0x69, 0x6a, 0x6b, 0x6c, 0x6c6b6a69);
    WordHere(ALPHABET_0, 12, 0x6d, 0x6e, 0x6f, 0x70, 0x706f6e6d);
  }

  lemma AlphabetWords4()
    ensures |ALPHABET_4| == 16
    ensures LittleEndian(ALPHABET_4, 0) == 0x74737271 && LittleEndian(ALPHABET_4, 4) == 0x78777675
    ensures LittleEndian(ALPHABET_4, 8) == 0x00807a79 && LittleEndian(ALPHABET_4, 12) == 0x00000000
  {
    hide LittleEndian;
    WordHere(ALPHABET_4, 0, 0x71, 0x72, 0x73, 0x74, 0x74737271);
    WordHere(ALPHABET_4, 4, 0x75, 0x76, 0x77, 0x78, 0x78777675);
    WordHere(ALPHABET_4, 8, 0x79, 0x7a, 0x80, 0x00, 0x00807a79);
    WordHere(ALPHABET_4, 12, 0x00, 0x00, 0x00, 0x00, 0x00000000);
  }

  lemma AlphabetWords8()
    ensures |ALPHABET_8| == 16
    ensures LittleEndian(ALPHABET_8, 0) == 0x00000000 && LittleEndian(ALPHABET_8, 4) == 0x00000000
    ensures LittleEndian(ALPHABET_8, 8) == 0x00000000 && LittleEndian(ALPHABET_8, 12) == 0x00000000
  {
    hide LittleEndian;
    WordHere(ALPHABET_8, 0, 0x00, 0x00, 0x00, 0x00, 0x00000000);
    WordHere(ALPHABET_8, 4, 0x00, 0x00, 0x00, 0x00, 0x00000000);
    WordHere(ALPHABET_8, 8, 0x00, 0x00, 0x00, 0x00, 0x00000000);
    WordHere(ALPHABET_8, 12, 0x00, 0x00, 0x00, 0x00, 0x00000000);
  }

  lemma AlphabetWords12()
    ensures |ALPHABET_12| == 16
    ensures LittleEndian(ALPHABET_12, 0) == 0x00000000 && LittleEndian(ALPHABET_12, 4) == 0x00000000
    ensures LittleEndian(ALPHABET_12, 8) == 0x000000d0 && LittleEndian(ALPHABET_12, 12) == 0x00000000
  {
    hide LittleEndian;
    WordHere(ALPHABET_12, 0, 0x00, 0x00, 0x00, 0x00, 0x00000000);
    WordHere(ALPHABET_12, 4, 0x00, 0x00, 0x00, 0x00, 0x00000000);
    WordHere(ALPHABET_12, 8, 0xd0, 0x00, 0x00, 0x00, 0x000000d0);
    WordHere(ALPHABET_12, 12, 0x00, 0x00, 0x00, 0x00, 0x00000000);
  }

  lemma PaddedAlphabet()
    ensures Padded(ALPHABET) == ALPHABET_BLOCK && |ALPHABET_BLOCK| == BLOCK_SIZE
  {
    hide LowBytes;
    AlphabetLength();
    assert PadLength(26) == 30;
  }

  lemma WordsOfAlphabet()
    ensures |ALPHABET_BLOCK| == BLOCK_SIZE && AlphabetWords(WordsOf(ALPHABET_BLOCK))
  {
    hide LittleEndian;
    AlphabetWords0();
    AlphabetWords4();
    AlphabetWords8();
    AlphabetWords12();
    WordsHere(ALPHABET_BLOCK, 0, ALPHABET_0);
    WordsHere(ALPHABET_BLOCK, 4, ALPHABET_4);
    WordsHere(ALPHABET_BLOCK, 8, ALPHABET_8);
    WordsHere(ALPHABET_BLOCK, 12, ALPHABET_12);
  }

  /** The digest of the alphabet is the one given there. */
  lemma AlphabetDigest()
    ensures Digest(ALPHABET)
         == [0xc3, 0xfc, 0xd3, 0xd7, 0x61, 0x92, 0xe4, 0x00, 0x7d, 0xfb, 0x49, 0x6c, 0xca, 0x67, 0xe1, 0x3b]
  {
    hide Turns, WordsOf, Padded, LowBytes;
    var block := Padded(ALPHABET);
    PaddedAlphabet();
    WordsOfAlphabet();
    var x := WordsOf(block);
    NoTurns(INITIAL, x);
    AlphabetTurns8(x);
    AlphabetTurns16(x);
    AlphabetTurns24(x);
    AlphabetTurns32(x);
    AlphabetTurns40(x);
    AlphabetTurns48(x);
    AlphabetTurns56(x);
    AlphabetTurns64(x);
    OneBlock(INITIAL, block);
  }
}
