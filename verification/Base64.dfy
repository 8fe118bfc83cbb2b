/** Base64 with resumable encoder and decoder states, against the encoding of section 4 of RFC 4648. */
module Base64 {
  import Words

  type Byte = x: int | 0 <= x < 256
  type Sextet = x: int | 0 <= x < 64

  const CHARS_PER_LINE: nat := 0x7fffffff
  const GROUPS_PER_LINE: nat := CHARS_PER_LINE / 4

  /** base64_encode_value on the values that occur: the alphabet A-Z a-z 0-9 + / */
  function EncodeValue(v: Sextet): char {
    if v < 26 then ('A' as int + v) as char
    else if v < 52 then ('a' as int + v - 26) as char
    else if v < 62 then ('0' as int + v - 52) as char
    else if v == 62 then '+' else '/'
  }

  /** A byte of code; `{` is left out, for which the table is read one past its end. */
  predicate IsCode(c: char) {
    c < (256 as char) && c != '{'
  }

  /** base64_decode_value; bytes outside of the table, also those above 127, give -1. */
  function DecodeValue(c: char): (v: int)
    requires IsCode(c)
    ensures v < 64
  {
    if 'A' <= c <= 'Z' then c as int - 'A' as int
    else if 'a' <= c <= 'z' then c as int - 'a' as int + 26
    else if '0' <= c <= '9' then c as int - '0' as int + 52
    else if c == '+' then 62 else if c == '/' then 63
    else if c == '=' then -2 else -1
  }

  /** The alphabet of table 1 of RFC 4648. */
  const UPPER: string := "ABCDEFGHIJKLMNOPQRSTUVWXYZ"
  const LOWER: string := "abcdefghijklmnopqrstuvwxyz"
  const OTHERS: string := "0123456789+/"

  function Symbol(v: Sextet): char {
    if v < 26 then UPPER[v] else if v < 52 then LOWER[v - 26] else OTHERS[v - 52]
  }

  lemma UpperCase(v: nat)
    requires v < 26
    ensures UPPER[v] == ('A' as int + v) as char
  {
  }

  lemma LowerCase(v: nat)
    requires v < 26
    ensures LOWER[v] == ('a' as int + v) as char
  {
  }

  lemma DigitsAndSigns(v: nat)
    requires v < 12
    ensures OTHERS[v] == if v < 10 then ('0' as int + v) as char else if v == 10 then '+' else '/'
  {
  }

  lemma SymbolIs(v: Sextet)
    ensures EncodeValue(v) == Symbol(v)
  {
    if v < 26 {
      UpperCase(v);
    } else if v < 52 {
      LowerCase(v - 26);
    } else {
      DigitsAndSigns(v - 52);
    }
  }

  lemma Inverses(v: Sextet, c: char)
    requires IsCode(c)
    ensures DecodeValue(c) == v <==> c == EncodeValue(v)
  {
  }

  /** The two functions go by the alphabet; no other byte of code has a value. */
  lemma AlphabetIs(v: Sextet, c: char)
    requires IsCode(c)
    ensures EncodeValue(v) == Symbol(v)
    ensures DecodeValue(c) == v <==> c == Symbol(v)
    ensures DecodeValue(c) < 0 <==> forall u: Sextet :: c != Symbol(u)
  {
    hide EncodeValue, DecodeValue, Symbol;
    SymbolIs(v);
    Inverses(v, c);
    forall u: Sextet
      ensures DecodeValue(c) == u <==> c == Symbol(u)
    {
      SymbolIs(u);
      Inverses(u, c);
    }
    if DecodeValue(c) >= 0 {
      var u: Sextet := DecodeValue(c);
      assert c == Symbol(u);
    }
  }

  // ---------------------------------------------------------------- the encoding of whole messages

  /** Three bytes as four groups of six bits. */
  function Split(b0: Byte, b1: Byte, b2: Byte): (s: seq<Sextet>)
    ensures |s| == 4
  {
    var n: int := 0x1_0000 * (b0 as int) + 0x100 * (b1 as int) + (b2 as int);
    var s0, s1, s2, s3 := n / 0x4_0000, n / 0x1000 % 64, n / 64 % 64, n % 64;
    [s0, s1, s2, s3]
  }

  function Symbols(s: seq<Sextet>): (code: string)
    ensures |code| == |s|
  {
    seq(|s|, i requires 0 <= i < |s| => EncodeValue(s[i]))
  }

  function LineEnd(groups: nat): string {
    if groups % GROUPS_PER_LINE == 0 then "\n" else ""
  }

  /** The code of the whole groups of three bytes, with the periodic newline. */
  function Groups(m: seq<Byte>): string
    requires |m| % 3 == 0
  {
    if m == [] then "" else
      var k := |m| - 3;
      Groups(m[..k]) + Symbols(Split(m[k], m[k + 1], m[k + 2])) + LineEnd(|m| / 3)
  }

  /** One or two bytes left over: zero bits are added, and the code is padded. */
  function Tail(r: seq<Byte>): string
    requires |r| < 3
  {
    if r == [] then ""
    else if |r| == 1 then Symbols(Split(r[0], 0, 0)[..2]) + "=="
    else Symbols(Split(r[0], r[1], 0)[..3]) + "="
  }

  function Whole(n: nat): (w: nat)
    ensures w % 3 == 0 && w <= n < w + 3
  {
    n - n % 3
  }

  function Encode(m: seq<Byte>): string {
    Groups(m[..Whole(|m|)]) + Tail(m[Whole(|m|)..])
  }

  lemma {:induction false} GroupsLength(m: seq<Byte>)
    requires |m| % 3 == 0
    ensures |Groups(m)| == 4 * (|m| / 3) + |m| / 3 / GROUPS_PER_LINE
  {
    hide Symbols, Split;
    if m != [] {
      GroupsLength(m[..|m| - 3]);
      LineCount(|m| / 3);
      Words.Divided(|m|, 3, |m[..|m| - 3]| / 3 + 1, 0);
    }
  }

  lemma LineCount(g: nat)
    requires g > 0
    ensures g / GROUPS_PER_LINE == (g - 1) / GROUPS_PER_LINE + if g % GROUPS_PER_LINE == 0 then 1 else 0
  {
    OneMore(g - 1, GROUPS_PER_LINE);
  }

  lemma OneMore(x: nat, n: nat)
    requires n > 1
    ensures (x + 1) % n == (if x % n + 1 == n then 0 else x % n + 1)
    ensures (x + 1) / n == x / n + if (x + 1) % n == 0 then 1 else 0
  {
    var q, r := x / n, x % n;
    if r + 1 == n { Words.Divided(x + 1, n, q + 1, 0); } else { Words.Divided(x + 1, n, q, r + 1); }
  }

  /** Four characters for every three bytes begun, and the newlines. */
  lemma EncodedLength(m: seq<Byte>)
    ensures |Encode(m)| == 4 * ((|m| + 2) / 3) + |m| / 3 / GROUPS_PER_LINE
  {
    hide Groups, Tail;
    var w := Whole(|m|);
    GroupsLength(m[..w]);
    TailLength(m[w..]);
    assert w / 3 == |m| / 3;
    assert (|m| + 2) / 3 == |m| / 3 + if |m| == w then 0 else 1;
  }

  lemma TailLength(r: seq<Byte>)
    requires |r| < 3
    ensures |Tail(r)| == if r == [] then 0 else 4
  {
    hide Split, EncodeValue;
  }

  // ---------------------------------------------------------------- the decoding of whole codes

  /** Four groups of six bits as three bytes. */
  function Unite(s0: Sextet, s1: Sextet, s2: Sextet, s3: Sextet): (b: seq<Byte>)
    ensures |b| == 3
  {
    var n: int := 0x4_0000 * (s0 as int) + 0x1000 * (s1 as int) + 64 * (s2 as int) + (s3 as int);
    var b0, b1, b2 := n / 0x1_0000, n / 0x100 % 0x100, n % 0x100;
    [b0, b1, b2]
  }

  /** The values of the characters that have one. */
  function Values(code: string): seq<Sextet>
    requires forall i :: 0 <= i < |code| ==> IsCode(code[i])
  {
    if code == "" then [] else
      var k := |code| - 1;
      Values(code[..k]) + if DecodeValue(code[k]) >= 0 then [DecodeValue(code[k])] else []
  }

  function BytesOf4(s: seq<Sextet>): (b: seq<Byte>)
    requires |s| % 4 == 0
    ensures |b| == 3 * (|s| / 4)
  {
    if s == [] then [] else
      var k := |s| - 4;
      BytesOf4(s[..k]) + Unite(s[k], s[k + 1], s[k + 2], s[k + 3])
  }

  function Whole4(n: nat): (w: nat)
    ensures w % 4 == 0 && w <= n < w + 4
  {
    n - n % 4
  }

  /** The complete bytes of fewer than four values. */
  function BytesOfRest(r: seq<Sextet>): (b: seq<Byte>)
    requires |r| < 4
    ensures |b| == 3 * |r| / 4
  {
    if |r| < 2 then []
    else if |r| == 2 then Unite(r[0], r[1], 0, 0)[..1]
    else Unite(r[0], r[1], r[2], 0)[..2]
  }

  /** The bytes that are complete once these values have been read. */
  function Bytes(s: seq<Sextet>): (b: seq<Byte>)
    ensures |b| == 3 * |s| / 4
  {
    BytesOf4(s[..Whole4(|s|)]) + BytesOfRest(s[Whole4(|s|)..])
  }

  // ---------------------------------------------------------------- the round trip

  /** The base-64 digits of a number below 2^24. */
  lemma SixBitDigits(a: int, b: int, c: int, d: int)
    requires 0 <= a && 0 <= b < 64 && 0 <= c < 64 && 0 <= d < 64
    ensures var n := 0x4_0000 * a + 0x1000 * b + 64 * c + d;
      n / 0x4_0000 == a && n / 0x1000 % 64 == b && n / 64 % 64 == c && n % 64 == d
  {
    var n := 0x4_0000 * a + 0x1000 * b + 64 * c + d;
    assert n / 64 == 0x1000 * a + 64 * b + c;
    assert n / 0x1000 == 64 * a + b;
  }

  lemma SplitIs(b0: Byte, b1: Byte, b2: Byte)
    ensures Split(b0, b1, b2) == [b0 / 4, b0 % 4 * 16 + b1 / 16, b1 % 16 * 4 + b2 / 64, b2 % 64]
  {
    var n: int := 0x1_0000 * (b0 as int) + 0x100 * (b1 as int) + (b2 as int);
    var a: int, b: int, c: int, d: int := b0 / 4, b0 % 4 * 16 + b1 / 16, b1 % 16 * 4 + b2 / 64, b2 % 64;
    assert n == 0x4_0000 * a + 0x1000 * b + 64 * c + d;
    SixBitDigits(a, b, c, d);
  }

  /** The base-256 digits of a number below 2^24. */
  lemma ByteDigits(a: int, b: int, c: int)
    requires 0 <= a && 0 <= b < 256 && 0 <= c < 256
    ensures var n := 0x1_0000 * a + 0x100 * b + c; n / 0x1_0000 == a && n / 0x100 % 0x100 == b && n % 0x100 == c
  {
    assert (0x1_0000 * a + 0x100 * b + c) / 0x100 == 0x100 * a + b;
  }

  lemma UniteIs(s0: Sextet, s1: Sextet, s2: Sextet, s3: Sextet)
    ensures Unite(s0, s1, s2, s3) == [s0 * 4 + s1 / 16, s1 % 16 * 16 + s2 / 4, s2 % 4 * 64 + s3]
  {
    var n: int := 0x4_0000 * (s0 as int) + 0x1000 * (s1 as int) + 64 * (s2 as int) + (s3 as int);
    var v0: int, v1: int, v2: int, v3: int := s0, s1, s2, s3;
    var a, b, c := v0 * 4 + v1 / 16, v1 % 16 * 16 + v2 / 4, v2 % 4 * 64 + v3;
    assert n == 0x1_0000 * a + 0x100 * b + c;
    ByteDigits(a, b, c);
  }

  lemma UniteSplit(b0: Byte, b1: Byte, b2: Byte)
    ensures var s := Split(b0, b1, b2); Unite(s[0], s[1], s[2], s[3]) == [b0, b1, b2]
    ensures var s := Split(b0, b1, 0); Unite(s[0], s[1], s[2], 0)[..2] == [b0, b1]
    ensures var s := Split(b0, 0, 0); Unite(s[0], s[1], 0, 0)[..1] == [b0]
  {
    hide Unite, Split;
    SplitIs(b0, b1, b2);
    SplitIs(b0, b1, 0);
    SplitIs(b0, 0, 0);
    var s, t, u := Split(b0, b1, b2), Split(b0, b1, 0), Split(b0, 0, 0);
    assert s[1] / 16 == b0 % 4 && s[1] % 16 == b1 / 16 && s[2] / 4 == b1 % 16 && s[2] % 4 == b2 / 64;
    assert t[1] / 16 == b0 % 4 && t[1] % 16 == b1 / 16 && t[2] / 4 == b1 % 16;
    assert u[1] / 16 == b0 % 4;
    UniteIs(s[0], s[1], s[2], s[3]);
    UniteIs(t[0], t[1], t[2], 0);
    UniteIs(u[0], u[1], 0, 0);
  }

  /** All six-bit groups of whole groups of bytes. */
  function Sextets(m: seq<Byte>): (s: seq<Sextet>)
    requires |m| % 3 == 0
    ensures |s| == 4 * (|m| / 3)
  {
    if m == [] then [] else
      var k := |m| - 3;
      Sextets(m[..k]) + Split(m[k], m[k + 1], m[k + 2])
  }

  lemma BytesOf4Append(s: seq<Sextet>, t: seq<Sextet>)
    requires |s| % 4 == 0 && |t| == 4
    ensures BytesOf4(s + t) == BytesOf4(s) + Unite(t[0], t[1], t[2], t[3])
  {
    hide Unite;
    assert (s + t)[..|s|] == s;
  }

  lemma {:induction false} BytesOfSextets(m: seq<Byte>)
    requires |m| % 3 == 0
    ensures BytesOf4(Sextets(m)) == m
  {
    hide Split, Unite;
    if m != [] {
      var k := |m| - 3;
      BytesOfSextets(m[..k]);
      UniteSplit(m[k], m[k + 1], m[k + 2]);
      BytesOf4Append(Sextets(m[..k]), Split(m[k], m[k + 1], m[k + 2]));
      assert m == m[..k] + [m[k], m[k + 1], m[k + 2]];
    }
  }

  predicate AllCode(code: string) {
    forall i :: 0 <= i < |code| ==> IsCode(code[i])
  }

  lemma {:induction false} ValuesConcat(a: string, b: string)
    requires AllCode(a) && AllCode(b)
    ensures Values(a + b) == Values(a) + Values(b)
  {
    hide DecodeValue;
    if b == "" {
      assert a + b == a;
    } else {
      var k := |b| - 1;
      assert (a + b)[..|a + b| - 1] == a + b[..k];
      ValuesConcat(a, b[..k]);
    }
  }

  lemma {:induction false} ValuesOfSymbols(s: seq<Sextet>)
    ensures AllCode(Symbols(s)) && Values(Symbols(s)) == s
  {
    if s != [] {
      var k := |s| - 1;
      ValuesOfSymbols(s[..k]);
      assert Symbols(s)[..k] == Symbols(s[..k]);
      assert DecodeValue(EncodeValue(s[k])) == s[k];
    }
  }

  lemma ValuesOfFill()
    ensures Values("\n") == [] && Values("=") == [] && Values("==") == [] && Values("") == []
  {
    assert "=="[..1] == "=";
  }

  lemma {:induction false} ValuesOfGroups(m: seq<Byte>)
    requires |m| % 3 == 0
    ensures AllCode(Groups(m)) && Values(Groups(m)) == Sextets(m)
  {
    hide Split, DecodeValue, Symbols, Values, EncodeValue;
    ValuesOfFill();
    if m != [] {
      var k := |m| - 3;
      ValuesOfGroups(m[..k]);
      var s := Split(m[k], m[k + 1], m[k + 2]);
      ValuesOfSymbols(s);
      ValuesConcat(Groups(m[..k]), Symbols(s));
      var code := Groups(m[..k]) + Symbols(s);
      ValuesConcat(code, "\n");
      assert code + "" == code && Sextets(m[..k]) + s + [] == Sextets(m);
    }
  }

  lemma ValuesOfTail(r: seq<Byte>)
    requires |r| < 3
    ensures AllCode(Tail(r)) && |Values(Tail(r))| < 4 && BytesOfRest(Values(Tail(r))) == r
  {
    hide Split, DecodeValue, Symbols, Values, EncodeValue, Unite;
    ValuesOfFill();
    if |r| == 1 {
      ValuesOfSymbols(Split(r[0], 0, 0)[..2]);
      ValuesConcat(Symbols(Split(r[0], 0, 0)[..2]), "==");
      UniteSplit(r[0], 0, 0);
    } else if |r| == 2 {
      ValuesOfSymbols(Split(r[0], r[1], 0)[..3]);
      ValuesConcat(Symbols(Split(r[0], r[1], 0)[..3]), "=");
      UniteSplit(r[0], r[1], 0);
    }
  }

  /** Decoding what encoding gives returns the message. */
  lemma RoundTrip(m: seq<Byte>)
    ensures AllCode(Encode(m)) && Bytes(Values(Encode(m))) == m
  {
    hide DecodeValue, Groups, Tail, Values, BytesOfRest, BytesOf4;
    var w := Whole(|m|);
    ValuesOfGroups(m[..w]);
    ValuesOfTail(m[w..]);
    BytesOfSextets(m[..w]);
    ValuesConcat(Groups(m[..w]), Tail(m[w..]));
    var a, b := Sextets(m[..w]), Values(Tail(m[w..]));
    assert Whole4(|a + b|) == |a|;
    assert (a + b)[..|a|] == a && (a + b)[|a|..] == b;
    assert m[..w] + m[w..] == m;
  }

  // ---------------------------------------------------------------- the encoder

  datatype EncodeStep = StepA | StepB | StepC

  /** The characters written for one or two bytes of a group. */
  function Begun(r: seq<Byte>): string
    requires |r| < 3
  {
    if r == [] then "" else if |r| == 1 then Symbols(Split(r[0], 0, 0)[..1]) else Symbols(Split(r[0], r[1], 0)[..2])
  }

  /** The group of six bits that is only partly known after these bytes. */
  function Pending(r: seq<Byte>): Sextet
    requires 0 < |r| < 3
  {
    if |r| == 1 then Split(r[0], 0, 0)[1] else Split(r[0], r[1], 0)[2]
  }

  function StepAfter(n: nat): EncodeStep {
    if n % 3 == 0 then StepA else if n % 3 == 1 then StepB else StepC
  }

  lemma NextCount(g: nat)
    ensures var next := g % GROUPS_PER_LINE + 1;
      (g + 1) % GROUPS_PER_LINE == if next == GROUPS_PER_LINE then 0 else next
  {
    OneMore(g, GROUPS_PER_LINE);
  }

  /** Step, kept bits, group count and output stand for the message so far. */
  ghost predicate Encoded(m: seq<Byte>, code: string, step: EncodeStep, result: Sextet, stepcount: nat) {
    var w := Whole(|m|);
    && step == StepAfter(|m|)
    && (step != StepA ==> result == Pending(m[w..]))
    && stepcount == w / 3 % GROUPS_PER_LINE
    && code == Groups(m[..w]) + Begun(m[w..])
  }

  lemma NothingEncoded()
    ensures Encoded([], "", StepA, 0, 0)
  {
    Words.Divided(0, GROUPS_PER_LINE, 0, 0);
  }

  lemma FirstOfGroup(m: seq<Byte>, b: Byte, code: string, result: Sextet, stepcount: nat)
    requires Encoded(m, code, StepA, result, stepcount)
    ensures Encoded(m + [b], code + [EncodeValue(b / 4)], StepB, b % 4 * 16, stepcount)
  {
    hide EncodeValue, Split, Groups;
    SplitIs(b, 0, 0);
    var m' := m + [b];
    assert m[..|m|] == m && m[|m|..] == [];
    assert m'[..|m|] == m && m'[|m|..] == [b];
  }

  lemma SecondOfGroup(m: seq<Byte>, b: Byte, code: string, result: Sextet, stepcount: nat)
    requires Encoded(m, code, StepB, result, stepcount)
    ensures result + b / 16 < 64
    ensures Encoded(m + [b], code + [EncodeValue(result + b / 16)], StepC, b % 16 * 4, stepcount)
  {
    hide EncodeValue, Split, Groups;
    var w, m' := Whole(|m|), m + [b];
    var b0 := m[w];
    SplitIs(b0, 0, 0);
    SplitIs(b0, b, 0);
    assert m'[..w] == m[..w] && m'[w..] == m[w..] + [b];
    assert Begun(m'[w..]) == Begun(m[w..]) + [EncodeValue(result + b / 16)];
  }

  lemma WholeGroup(m: seq<Byte>, g: nat, b0: Byte, b1: Byte, b2: Byte)
    requires |m| == g * 3
    ensures Groups(m + [b0, b1, b2]) == Groups(m) + Symbols(Split(b0, b1, b2)) + LineEnd(g + 1)
  {
    hide Symbols, Split, LineEnd;
    var m' := m + [b0, b1, b2];
    Words.Divided(|m'|, 3, g + 1, 0);
    assert m'[..|m'| - 3] == m;
  }

  lemma GroupEnds(b0: Byte, b1: Byte, b2: Byte)
    ensures Pending([b0, b1]) + b2 / 64 < 64
    ensures Symbols(Split(b0, b1, b2))
         == Begun([b0, b1]) + [EncodeValue(Pending([b0, b1]) + b2 / 64), EncodeValue(b2 % 64)]
  {
    hide EncodeValue, Split;
    SplitIs(b0, b1, 0);
    SplitIs(b0, b1, b2);
  }

  lemma ThirdOfGroup(m: seq<Byte>, b: Byte, code: string, result: Sextet, stepcount: nat)
    requires Encoded(m, code, StepC, result, stepcount)
    ensures result + b / 64 < 64
    ensures var two := [EncodeValue(result + b / 64), EncodeValue(b % 64)];
      if stepcount + 1 == GROUPS_PER_LINE then Encoded(m + [b], code + two + "\n", StepA, b % 64, 0)
      else Encoded(m + [b], code + two, StepA, b % 64, stepcount + 1)
  {
    hide EncodeValue, Split, Groups, Symbols, Begun, Pending;
    var w, m' := Whole(|m|), m + [b];
    assert m[w..] == [m[w], m[w + 1]] && m' == m[..w] + [m[w], m[w + 1], b];
    WholeGroup(m[..w], w / 3, m[w], m[w + 1], b);
    GroupEnds(m[w], m[w + 1], b);
    NextCount(w / 3);
    EmptyBegun();
    assert m'[..|m'|] == m' && m'[|m'|..] == [];
    assert code + [EncodeValue(result + b / 64), EncodeValue(b % 64)]
        == Groups(m[..w]) + (Begun(m[w..]) + [EncodeValue(result + b / 64), EncodeValue(b % 64)]);
  }

  lemma EmptyBegun()
    ensures Begun([]) == ""
  {
  }

  class Encoder {
    var step: EncodeStep
    var result: Sextet
    var stepcount: nat
    ghost var message: seq<Byte> // all input since the state was initialised
    ghost var code: string // all output

    ghost predicate Valid()
      reads this
    {
      Encoded(message, code, step, result, stepcount)
    }

    /** base64_init_encodestate */
    constructor ()
      ensures Valid() && message == [] && code == ""
    {
      NothingEncoded();
      step, result, stepcount := StepA, 0, 0;
      message, code := [], "";
    }

    /** One turn of the encoder: the byte is taken up at the step where the last one left off. */
    method EncodeByte(fragment: Byte) returns (out: string)
      requires Valid()
      modifies this
      ensures Valid() && message == old(message) + [fragment] && code == old(code) + out
    {
      hide Encoded, EncodeValue;
      match step {
        case StepA =>
          FirstOfGroup(message, fragment, code, result, stepcount);
          result := fragment / 4;
          out := [EncodeValue(result)];
          result := fragment % 4 * 16;
          step := StepB;
        case StepB =>
          SecondOfGroup(message, fragment, code, result, stepcount);
          result := result + fragment / 16;
          out := [EncodeValue(result)];
          result := fragment % 16 * 4;
          step := StepC;
        case StepC =>
          ThirdOfGroup(message, fragment, code, result, stepcount);
          ghost var two := [EncodeValue(result + fragment / 64), EncodeValue(fragment % 64)];
          result := result + fragment / 64;
          out := [EncodeValue(result)];
          result := fragment % 64;
          out := out + [EncodeValue(result)];
          step := StepA;
          stepcount := stepcount + 1;
          assert out == two && code + (out + "\n") == code + two + "\n";
          if stepcount == GROUPS_PER_LINE {
            out := out + "\n";
            stepcount := 0;
          }
      }
      message := message + [fragment];
      code := code + out;
    }

    /** base64_encode_block */
    method EncodeBlock(input: seq<Byte>) returns (out: string)
      requires Valid()
      modifies this
      ensures Valid() && message == old(message) + input && code == old(code) + out
    {
      hide Encoder.Valid;
      out := "";
      for i := 0 to |input|
        invariant Valid() && message == old(message) + input[..i] && code == old(code) + out
      {
        var c := EncodeByte(input[i]);
        out := out + c;
        assert input[..i + 1] == input[..i] + [input[i]];
      }
      assert input[..|input|] == input;
    }

    /** base64_encode_blockend: whatever the calls before, all output together is the code of all input. */
    method EncodeBlockEnd() returns (out: string)
      requires Valid()
      ensures code + out == Encode(message)
    {
      hide Groups, EncodeValue, Split;
      match step {
        case StepB => out := [EncodeValue(result)] + "==";
        case StepC => out := [EncodeValue(result)] + "=";
        case StepA => out := "";
      }
    }
  }

  // ---------------------------------------------------------------- the decoder

  /** What is kept of a byte that is not complete. */
  function Kept(r: seq<Sextet>): Byte
    requires 0 < |r| < 4
  {
    var v: int := r[|r| - 1];
    if |r| == 1 then v * 4 else if |r| == 2 then v % 16 * 16 else v % 4 * 64
  }

  lemma NextInGroup(s: seq<Sextet>, v: Sextet)
    requires |s| % 4 < 3
    ensures var k, s' := Whole4(|s|), s + [v];
      var r := s[k..];
      && s'[Whole4(|s'|)..] == r + [v]
      && (|r| == 0 ==> Bytes(s') == Bytes(s) && Kept([v]) == v * 4)
      && (|r| == 1 ==> Kept(r) + v / 16 < 256 && Bytes(s') == Bytes(s) + [Kept(r) + v / 16])
      && (|r| == 2 ==> Kept(r) + v / 4 < 256 && Bytes(s') == Bytes(s) + [Kept(r) + v / 4])
      && (|r| == 1 ==> Kept(r + [v]) == v % 16 * 16)
      && (|r| == 2 ==> Kept(r + [v]) == v % 4 * 64)
  {
    hide Unite, BytesOf4;
    var k, s' := Whole4(|s|), s + [v];
    var r := s[k..];
    assert s'[..k] == s[..k] && s'[k..] == r + [v];
    if |r| > 0 { UniteIs(r[0], (r + [v])[1], 0, 0); }
    if |r| == 2 { UniteIs(r[0], r[1], v, 0); }
  }

  lemma NextCompletes(s: seq<Sextet>, v: Sextet)
    requires |s| % 4 == 3
    ensures var r := s[Whole4(|s|)..];
      |r| == 3 && Kept(r) + v < 256 && Bytes(s + [v]) == Bytes(s) + [Kept(r) + v]
  {
    hide Unite, BytesOf4;
    var k, s' := Whole4(|s|), s + [v];
    var r := s[k..];
    UniteIs(r[0], r[1], r[2], 0);
    UniteIs(r[0], r[1], r[2], v);
    assert s'[..k] == s[..k];
    BytesOf4Append(s[..k], r + [v]);
    assert s'[..Whole4(|s'|)] == s[..k] + (r + [v]) && s'[Whole4(|s'|)..] == [];
  }

  /** One more value: it completes a byte, unless it is the first of a group. */
  lemma NextValue(s: seq<Sextet>, v: Sextet)
    ensures var k, s' := Whole4(|s|), s + [v];
      var r := s[k..];
      && (|r| < 3 ==> s'[Whole4(|s'|)..] == r + [v])
      && (|r| == 0 ==> Bytes(s') == Bytes(s) && Kept([v]) == v * 4)
      && (|r| == 1 ==> Kept(r) + v / 16 < 256 && Bytes(s') == Bytes(s) + [Kept(r) + v / 16])
      && (|r| == 2 ==> Kept(r) + v / 4 < 256 && Bytes(s') == Bytes(s) + [Kept(r) + v / 4])
      && (|r| == 1 ==> Kept(r + [v]) == v % 16 * 16)
      && (|r| == 2 ==> Kept(r + [v]) == v % 4 * 64)
      && (|r| == 3 ==> Kept(r) + v < 256 && Bytes(s') == Bytes(s) + [Kept(r) + v] && |s'| % 4 == 0)
  {
    hide Kept, Bytes;
    if |s| % 4 == 3 { NextCompletes(s, v); } else { NextInGroup(s, v); }
  }

  lemma ValuesUpTo(code: string, i: nat)
    requires AllCode(code) && i < |code|
    ensures Values(code[..i + 1])
         == Values(code[..i]) + if DecodeValue(code[i]) >= 0 then [DecodeValue(code[i])] else []
    ensures |Values(code[..i + 1])| <= |Values(code)|
  {
    hide DecodeValue;
    assert code[..i + 1][..i] == code[..i];
    ValuesConcat(code[..i + 1], code[i + 1..]);
    assert code[..i + 1] + code[i + 1..] == code;
  }

  class Decoder {
    var step: nat // step_a to step_d
    var plainchar: Byte
    ghost var values: seq<Sextet> // all values read since the state was initialised

    ghost predicate Valid()
      reads this
    {
      step == |values| % 4 && (step != 0 ==> plainchar == Kept(values[Whole4(|values|)..]))
    }

    /** base64_init_decodestate */
    constructor ()
      ensures Valid() && values == []
    {
      step, plainchar, values := 0, 0, [];
    }

    /**
      base64_decode_block: the complete bytes go to the start of `out`. The one behind them is touched, too, and
      nothing further.
      */
    method DecodeBlock(code: string, out: array<Byte>) returns (n: nat)
      requires Valid() && AllCode(code)
      requires |Bytes(values + Values(code))| - |Bytes(values)| < out.Length
      modifies this, out
      ensures Valid() && values == old(values) + Values(code)
      ensures n < out.Length && Bytes(values) == old(Bytes(values)) + out[..n]
      ensures n == 3 * |values| / 4 - 3 * |old(values)| / 4
      ensures forall i :: n < i < out.Length ==> out[i] == old(out[i])
    {
      hide Bytes, Kept, Values, DecodeValue;
      n := 0;
      out[0] := plainchar;
      ValuesOfFill();
      assert code[..0] == "";
      for i := 0 to |code|
        invariant values == old(values) + Values(code[..i]) && step == |values| % 4
        invariant n < out.Length && Bytes(values) == old(Bytes(values)) + out[..n]
        invariant step != 0 ==> out[n] == Kept(values[Whole4(|values|)..])
        invariant forall i :: n < i < out.Length ==> out[i] == old(out[i])
      {
        ValuesUpTo(code, i);
        var fragment := DecodeValue(code[i]);
        if fragment >= 0 {
          assert |Bytes(values + [fragment])| <= |Bytes(old(values) + Values(code))|;
          n := TakeUp(fragment, out, n, old(values));
        }
      }
      assert code[..|code|] == code;
      plainchar := out[n];
    }

    /** One value is taken up at the step where the last one left off. */
    method TakeUp(fragment: Sextet, out: array<Byte>, n0: nat, ghost s0: seq<Sextet>) returns (n: nat)
      requires step == |values| % 4 && n0 < out.Length && Bytes(values) == Bytes(s0) + out[..n0]
      requires step != 0 ==> out[n0] == Kept(values[Whole4(|values|)..])
      requires |Bytes(values + [fragment])| - |Bytes(s0)| < out.Length
      modifies this`step, this`values, out
      ensures values == old(values) + [fragment] && step == |values| % 4
      ensures n0 <= n < out.Length && Bytes(values) == Bytes(s0) + out[..n]
      ensures step != 0 ==> out[n] == Kept(values[Whole4(|values|)..])
      ensures forall i :: n < i < out.Length ==> out[i] == old(out[i])
    {
      hide Bytes, Kept;
      NextValue(values, fragment);
      n := n0;
      match step {
        case 0 =>
          out[n] := fragment * 4;
        case 1 =>
          out[n] := out[n] + fragment / 16;
          n := n + 1;
          out[n] := fragment % 16 * 16;
        case 2 =>
          out[n] := out[n] + fragment / 4;
          n := n + 1;
          out[n] := fragment % 4 * 64;
        case _ =>
          out[n] := out[n] + fragment;
          n := n + 1;
      }
      assert n == n0 + 1 ==> out[..n] == old(out[..n0]) + [out[n0]];
      step := (step + 1) % 4;
      values := values + [fragment];
    }
  }

  // ---------------------------------------------------------------- streams in pieces

  function Joined<T>(pieces: seq<seq<T>>): seq<T> {
    if pieces == [] then [] else Joined(pieces[..|pieces| - 1]) + pieces[|pieces| - 1]
  }

  /** However a message is cut into calls, its code is the same. */
  method EncodePieces(pieces: seq<seq<Byte>>) returns (code: string)
    ensures code == Encode(Joined(pieces))
  {
    hide Encode, Encoder.Valid;
    var state := new Encoder();
    code := "";
    for k := 0 to |pieces|
      invariant state.Valid() && fresh(state) && state.message == Joined(pieces[..k]) && state.code == code
    {
      assert pieces[..k + 1][..k] == pieces[..k];
      var out := state.EncodeBlock(pieces[k]);
      code := code + out;
    }
    assert pieces[..|pieces|] == pieces;
    var end := state.EncodeBlockEnd();
    code := code + end;
  }

  lemma {:induction false} JoinedCode(pieces: seq<string>)
    requires forall i :: 0 <= i < |pieces| ==> AllCode(pieces[i])
    ensures AllCode(Joined(pieces))
    decreases |pieces|
  {
    if pieces != [] { JoinedCode(pieces[..|pieces| - 1]); }
  }

  /** However a code is cut into calls, the bytes decoded are the same. */
  method DecodePieces(pieces: seq<string>) returns (plain: seq<Byte>)
    requires forall i :: 0 <= i < |pieces| ==> AllCode(pieces[i])
    ensures AllCode(Joined(pieces)) && plain == Bytes(Values(Joined(pieces)))
  {
    hide Bytes, Values;
    JoinedCode(pieces);
    var state := new Decoder();
    plain := [];
    EmptyBytes();
    for k := 0 to |pieces|
      invariant state.Valid() && fresh(state) && AllCode(Joined(pieces[..k]))
      invariant state.values == Values(Joined(pieces[..k])) && plain == Bytes(state.values)
    {
      assert pieces[..k + 1][..k] == pieces[..k];
      JoinedCode(pieces[..k + 1]);
      ValuesConcat(Joined(pieces[..k]), pieces[k]);
      var out := new Byte[|pieces[k]| + 1](i => 0);
      ShortEnough(state.values, pieces[k]);
      var n := state.DecodeBlock(pieces[k], out);
      plain := plain + out[..n];
    }
    assert pieces[..|pieces|] == pieces;
  }

  lemma EmptyBytes()
    ensures Values("") == [] && Bytes([]) == []
  {
  }

  lemma {:induction false} ValuesLength(code: string)
    requires AllCode(code)
    ensures |Values(code)| <= |code|
  {
    if code != "" { ValuesLength(code[..|code| - 1]); }
  }

  /** A buffer one longer than the code has room for what it decodes to. */
  lemma ShortEnough(s: seq<Sextet>, code: string)
    requires AllCode(code)
    ensures |Bytes(s + Values(code))| - |Bytes(s)| < |code| + 1
  {
    hide Bytes, Values;
    ValuesLength(code);
  }

  /** The round trip through both, whatever the pieces on either side. */
  method StreamRoundTrip(pieces: seq<seq<Byte>>, cuts: seq<string>) returns (plain: seq<Byte>)
    requires Joined(cuts) == Encode(Joined(pieces)) && forall i :: 0 <= i < |cuts| ==> AllCode(cuts[i])
    ensures plain == Joined(pieces)
  {
    hide Encode, Bytes, Values;
    plain := DecodePieces(cuts);
    RoundTrip(Joined(pieces));
  }

  // ---------------------------------------------------------------- examples

  lemma OneMoreGroup(m: seq<Byte>, b0: Byte, b1: Byte, b2: Byte)
    requires |m| % 3 == 0 && |m| < 300
    ensures Groups(m + [b0, b1, b2]) == Groups(m) + Symbols(Split(b0, b1, b2))
  {
    hide Split, Symbols, LineEnd;
    var t := m + [b0, b1, b2];
    assert t[..|m|] == m;
    NoLineEnd(|t|);
  }

  lemma NoLineEnd(n: nat)
    requires 3 <= n < 1000
    ensures LineEnd(n / 3) == ""
  {
    Words.Divided(n / 3, GROUPS_PER_LINE, 0, n / 3);
  }

  lemma SymbolsOf(s: seq<Sextet>, code: string)
    requires |s| == |code| && forall i :: 0 <= i < |s| ==> EncodeValue(s[i]) == code[i]
    ensures Symbols(s) == code
  {
    hide EncodeValue;
  }

  const FOOBAR: seq<Byte> := [0x66, 0x6f, 0x6f, 0x62, 0x61, 0x72]

  lemma NoGroups()
    ensures Groups(FOOBAR[..0]) == "" && FOOBAR[..0] == [] && Tail(FOOBAR[..0]) == ""
  {
  }

  lemma WholeGroups()
    ensures Groups(FOOBAR[..3]) == "Zm9v" && Groups(FOOBAR) == "Zm9vYmFy"
  {
    hide Symbols, Groups, Split;
    NoGroups();
    OneMoreGroup([], 0x66, 0x6f, 0x6f);
    SplitIs(0x66, 0x6f, 0x6f);
    SymbolsOf(Split(0x66, 0x6f, 0x6f), "Zm9v");
    assert FOOBAR[..3] == [] + [0x66, 0x6f, 0x6f];
    OneMoreGroup(FOOBAR[..3], 0x62, 0x61, 0x72);
    SplitIs(0x62, 0x61, 0x72);
    SymbolsOf(Split(0x62, 0x61, 0x72), "YmFy");
    assert FOOBAR == FOOBAR[..3] + [0x62, 0x61, 0x72];
  }

  lemma OneByteTail(b0: Byte, c0: char, c1: char)
    requires c0 == EncodeValue(b0 / 4) && c1 == EncodeValue(b0 % 4 * 16)
    ensures Tail([b0]) == [c0, c1] + "=="
  {
    hide Symbols, EncodeValue, Split;
    SplitIs(b0, 0, 0);
    SymbolsOf(Split(b0, 0, 0)[..2], [c0, c1]);
  }

  lemma TwoByteTail(b0: Byte, b1: Byte, c0: char, c1: char, c2: char)
    requires c0 == EncodeValue(b0 / 4) && c1 == EncodeValue(b0 % 4 * 16 + b1 / 16) && c2 == EncodeValue(b1 % 16 * 4)
    ensures Tail([b0, b1]) == [c0, c1, c2] + "="
  {
    hide Symbols, EncodeValue, Split;
    SplitIs(b0, b1, 0);
    SymbolsOf(Split(b0, b1, 0)[..3], [c0, c1, c2]);
  }

  lemma Tails()
    ensures Tail([0x66]) == "Zg==" && Tail([0x66, 0x6f]) == "Zm8="
    ensures Tail([0x62]) == "Yg==" && Tail([0x62, 0x61]) == "YmE="
  {
    hide Tail;
    OneByteTail(0x66, 'Z', 'g');
    TwoByteTail(0x66, 0x6f, 'Z', 'm', '8');
    OneByteTail(0x62, 'Y', 'g');
    TwoByteTail(0x62, 0x61, 'Y', 'm', 'E');
  }

  lemma EncodedAs(k: nat, n: nat, code: string, tail: string)
    requires k <= n <= |FOOBAR| && k % 3 == 0 && n - k < 3 && Groups(FOOBAR[..k]) == code && Tail(FOOBAR[k..n]) == tail
    ensures Encode(FOOBAR[..n]) == code + tail
  {
    hide Groups, Tail;
    var m := FOOBAR[..n];
    assert Whole(|m|) == k;
    assert m[..k] == FOOBAR[..k] && m[k..] == FOOBAR[k..n];
  }

  /** The examples of section 10 of RFC 4648. */
  lemma TestVectors()
    ensures |FOOBAR| == 6 && FOOBAR == [0x66, 0x6f, 0x6f, 0x62, 0x61, 0x72]
    ensures Encode(FOOBAR[..0]) == "" && Encode(FOOBAR[..1]) == "Zg==" && Encode(FOOBAR[..2]) == "Zm8="
    ensures Encode(FOOBAR[..3]) == "Zm9v" && Encode(FOOBAR[..4]) == "Zm9vYg==" && Encode(FOOBAR[..5]) == "Zm9vYmE="
    ensures Encode(FOOBAR[..6]) == "Zm9vYmFy"
  {
    hide Groups, Tail, Encode;
    NoGroups();
    WholeGroups();
    Tails();
    assert FOOBAR[0..1] == [0x66] && FOOBAR[0..2] == [0x66, 0x6f];
    assert FOOBAR[3..4] == [0x62] && FOOBAR[3..5] == [0x62, 0x61];
    assert FOOBAR[..6] == FOOBAR && FOOBAR[3..3] == FOOBAR[6..6] == FOOBAR[..0];
    EncodedAs(0, 0, "", "");
    EncodedAs(0, 1, "", "Zg==");
    EncodedAs(0, 2, "", "Zm8=");
    EncodedAs(3, 3, "Zm9v", "");
    EncodedAs(3, 4, "Zm9v", "Yg==");
    EncodedAs(3, 5, "Zm9v", "YmE=");
    EncodedAs(6, 6, "Zm9vYmFy", "");
  }
}
