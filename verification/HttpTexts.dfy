/** The library functions of the request parser from outside: numbers in base ten, names in any letter case, tokens. */
module HttpTexts {
  import opened HttpParser
  import opened HttpGrammar
  import Words

  // ---------------------------------------------------------------- numbers

  const DIGITS: string := "0123456789"

  /** A number in base ten. */
  function Decimal(n: nat): (s: string)
    ensures s != ""
  {
    if n < 10 then [DIGITS[n]] else Decimal(n / 10) + [DIGITS[n % 10]]
  }

  predicate AllZeros(s: string) {
    forall i :: 0 <= i < |s| ==> s[i] == '0'
  }

  /** A number with zeros in front. */
  predicate IsNumeral(s: string, n: nat) {
    |Decimal(n)| <= |s| && AllZeros(s[..|s| - |Decimal(n)|]) && s[|s| - |Decimal(n)|..] == Decimal(n)
  }

  predicate AllDigits(s: string) {
    forall i :: 0 <= i < |s| ==> s[i] in DIGITS
  }

  lemma DigitValue(d: nat)
    requires d < 10
    ensures IsDigit(DIGITS[d]) && Digit(DIGITS[d]) == d && DIGITS[d] in DIGITS
  {
  }

  lemma DigitsListed(c: char)
    ensures IsDigit(c) <==> c in DIGITS
    ensures IsDigit(c) ==> 0 <= Digit(c) < 10 && DIGITS[Digit(c)] == c
  {
    if IsDigit(c) {
      DigitValue(c as int - '0' as int);
    }
  }

  lemma {:induction false} DigitsSnoc(s: string, c: char, v: int)
    requires AllDigits(s) && c in DIGITS
    ensures IsDigit(c) && Digits(s + [c], v) == Digits(s, v) * 10 + Digit(c)
    decreases |s|
  {
    DigitsListed(c);
    if s == "" {
      assert s + [c] == [c];
    } else {
      DigitsListed(s[0]);
      assert (s + [c])[1..] == s[1..] + [c];
      DigitsSnoc(s[1..], c, v * 10 + Digit(s[0]));
    }
  }

  /** Reading stops at what is no digit. */
  lemma {:induction false} DigitsStop(s: string, t: string, v: int)
    requires AllDigits(s) && (t == "" || t[0] !in DIGITS)
    ensures Digits(s + t, v) == Digits(s, v)
    decreases |s|
  {
    if s == "" {
      assert s + t == t;
      if t != "" { DigitsListed(t[0]); }
    } else {
      DigitsListed(s[0]);
      assert (s + t)[1..] == s[1..] + t;
      DigitsStop(s[1..], t, v * 10 + Digit(s[0]));
    }
  }

  lemma {:induction false} DecimalIsDigits(n: nat)
    ensures AllDigits(Decimal(n))
  {
    if n < 10 {
      DigitValue(n);
    } else {
      DecimalIsDigits(n / 10);
      DigitValue(n % 10);
    }
  }

  lemma DecimalSnoc(n: nat, d: nat)
    requires d < 10
    ensures Decimal(10 * n + d) == if n == 0 then [DIGITS[d]] else Decimal(n) + [DIGITS[d]]
  {
    Words.Divided(10 * n + d, 10, n, d);
  }

  lemma {:induction false} DecimalValue(n: nat)
    ensures Digits(Decimal(n), 0) == n
  {
    if n < 10 {
      DigitValue(n);
    } else {
      DecimalValue(n / 10);
      DecimalIsDigits(n / 10);
      DigitValue(n % 10);
      DigitsSnoc(Decimal(n / 10), DIGITS[n % 10], 0);
    }
  }

  lemma {:induction false} ZerosInFront(z: string, t: string)
    requires AllZeros(z)
    ensures Digits(z + t, 0) == Digits(t, 0)
    decreases |z|
  {
    if z == "" {
      assert z + t == t;
    } else {
      assert (z + t)[1..] == z[1..] + t;
      ZerosInFront(z[1..], t);
    }
  }

  lemma NumeralValue(s: string, n: nat)
    requires IsNumeral(s, n)
    ensures Digits(s, 0) == n && AllDigits(s)
  {
    var k := |s| - |Decimal(n)|;
    assert s == s[..k] + s[k..];
    ZerosInFront(s[..k], s[k..]);
    DecimalValue(n);
    DecimalIsDigits(n);
    forall i | 0 <= i < |s|
      ensures s[i] in DIGITS
    {
      if i < k { assert s[i] == s[..k][i] == DIGITS[0]; } else { assert s[i] == s[k..][i - k]; }
    }
  }

  lemma {:induction false} ValueOfDigits(s: string)
    requires s != "" && AllDigits(s)
    ensures Digits(s, 0) >= 0 && IsNumeral(s, Digits(s, 0))
    decreases |s|
  {
    var k := |s| - 1;
    var init, c := s[..k], s[k];
    assert s == init + [c];
    DigitsListed(c);
    DigitsSnoc(init, c, 0);
    if init == "" {
      assert s == [c] == Decimal(Digit(c));
    } else {
      ValueOfDigits(init);
      NumeralSnoc(init, Digits(init, 0), Digit(c));
    }
  }

  lemma NumeralSnoc(s: string, m: nat, d: nat)
    requires IsNumeral(s, m) && d < 10
    ensures IsNumeral(s + [DIGITS[d]], 10 * m + d)
  {
    DecimalSnoc(m, d);
    var t, z := s + [DIGITS[d]], s[..|s| - |Decimal(m)|];
    if m == 0 {
      assert t[..|t| - 1] == s && t[|t| - 1..] == [DIGITS[d]];
      assert Decimal(0) == ['0'];
      assert s == z + s[|z|..];
    } else {
      assert t[..|z|] == z && t[|z|..] == s[|z|..] + [DIGITS[d]];
    }
  }

  /** The value of digits is n if and only if they are n in base ten, with zeros in front. */
  lemma DigitsAreNumerals(s: string, n: nat)
    requires s != "" && AllDigits(s)
    ensures Digits(s, 0) == n <==> IsNumeral(s, n)
  {
    ValueOfDigits(s);
    if IsNumeral(s, n) { NumeralValue(s, n); }
  }

  predicate IsBlankText(s: string) {
    forall i :: 0 <= i < |s| ==> s[i] as int == 32 || 9 <= s[i] as int <= 13
  }

  lemma {:induction false} BlanksSkipped(b: string, t: string)
    requires IsBlankText(b) && (t == "" || !IsBlankText(t[..1]))
    ensures SkipSpace(b + t) == t
    decreases |b|
  {
    if b == "" {
      assert b + t == t;
      assert t != "" ==> t[..1] == [t[0]] && !IsSpace(t[0]);
    } else {
      assert (b + t)[1..] == b[1..] + t;
      BlanksSkipped(b[1..], t);
    }
  }

  /** What is converted, in full: behind blanks and a sign, up to what is no digit; no digits count as zero. */
  lemma AtoiReads(blanks: string, sign: string, digits: string, n: nat, rest: string)
    requires IsBlankText(blanks) && ((digits == "" && n == 0) || IsNumeral(digits, n))
    requires sign == "" || sign == "+" || sign == "-"
    requires rest == "" || rest[0] !in DIGITS
    requires sign + digits == "" && rest != "" ==> !IsBlankText(rest[..1]) && rest[0] != '+' && rest[0] != '-'
    ensures Atoi(blanks + sign + digits + rest) == if sign == "-" then 0 - n else n
  {
    hide Digits, SkipSpace, IsNumeral, IsBlankText, AllDigits;
    var t := sign + digits + rest;
    DigitsRead(digits, n, rest);
    assert blanks + sign + digits + rest == blanks + t;
    FirstIsNoBlank(sign, digits, rest);
    BlanksSkipped(blanks, t);
    if sign == "" {
      assert t == digits + rest;
    } else {
      assert t[0] == sign[0] && t[1..] == digits + rest;
    }
  }

  lemma DigitsRead(digits: string, n: nat, rest: string)
    requires (digits == "" && n == 0) || IsNumeral(digits, n)
    requires rest == "" || rest[0] !in DIGITS
    ensures AllDigits(digits) && Digits(digits + rest, 0) == n
  {
    if digits == "" {
      assert Digits("", 0) == 0;
    } else {
      NumeralValue(digits, n);
    }
    DigitsStop(digits, rest, 0);
  }

  lemma FirstIsNoBlank(sign: string, digits: string, rest: string)
    requires AllDigits(digits) && (sign == "" || sign == "+" || sign == "-")
    requires sign + digits == "" && rest != "" ==> !IsBlankText(rest[..1]) && rest[0] != '+' && rest[0] != '-'
    ensures var t := sign + digits + rest;
      && (t != "" ==> !IsBlankText(t[..1]) && (t[0] == '-' <==> sign == "-") && (t[0] == '+' <==> sign == "+"))
  {
    var t := sign + digits + rest;
    if t != "" {
      assert t[..1] == [t[0]];
      if sign == "" && digits != "" { DigitsListed(digits[0]); }
    }
  }

  // ---------------------------------------------------------------- letters

  /** In either case, letter by letter. */
  predicate InAnyCase(s: string, low: string, up: string) {
    |s| == |low| == |up| && forall i :: 0 <= i < |s| ==> s[i] == low[i] || s[i] == up[i]
  }

  predicate LetterCases(low: char, up: char) {
    || ('A' <= up <= 'Z' && low as int == up as int + 32)
    || (low == up && !('A' <= up <= 'Z') && !('a' <= up <= 'z'))
  }

  lemma SameLetter(a: char, c: char, low: char, up: char)
    requires LetterCases(low, up) && (a == low || a == up)
    ensures Lower(a) == Lower(c) <==> c == low || c == up
  {
  }

  lemma SameInAnyCase(a: string, s: string, low: string, up: string)
    requires InAnyCase(a, low, up) && forall i :: 0 <= i < |a| ==> LetterCases(low[i], up[i])
    ensures SameIgnoringCase(a, s) <==> InAnyCase(s, low, up)
  {
    hide Lower, LetterCases;
    if |s| == |a| {
      forall i | 0 <= i < |a|
        ensures Lower(a[i]) == Lower(s[i]) <==> s[i] == low[i] || s[i] == up[i]
      {
        SameLetter(a[i], s[i], low[i], up[i]);
      }
    }
  }

  predicate LengthName(name: string) {
    InAnyCase(name, "content-length", "CONTENT-LENGTH")
  }

  /** Names and methods are compared without regard to case. */
  lemma ContentLengthNames(h: Header)
    ensures IsContentLength(h) <==> LengthName(h.name)
  {
    SameInAnyCase("Content-Length", h.name, "content-length", "CONTENT-LENGTH");
  }

  lemma VerbNames(verb: string)
    ensures SameIgnoringCase(verb, "POST") <==> InAnyCase(verb, "post", "POST")
    ensures SameIgnoringCase(verb, "GET") <==> InAnyCase(verb, "get", "GET")
  {
    SameSymmetric(verb, "POST");
    SameSymmetric(verb, "GET");
    SameInAnyCase("POST", verb, "post", "POST");
    SameInAnyCase("GET", verb, "get", "GET");
  }

  lemma SameSymmetric(a: string, b: string)
    ensures SameIgnoringCase(a, b) <==> SameIgnoringCase(b, a)
  {
  }

  predicate IsAlphanumeric(c: char) {
    'A' <= c <= 'Z' || 'a' <= c <= 'z' || c in DIGITS
  }

  lemma LettersAndDigits(c: char)
    requires IsAlphanumeric(c)
    ensures IsToken(c)
  {
    DigitsListed(c);
  }

  lemma OtherCharacters(c: char)
    requires !IsAlphanumeric(c)
    ensures IsToken(c) <==> c in "!#$%&'*+-.^_`|~"
  {
    DigitsListed(c);
  }

  /** The characters of a token: letters, digits and fifteen others. */
  lemma TokenCharacters(c: char)
    ensures IsToken(c) <==> IsAlphanumeric(c) || c in "!#$%&'*+-.^_`|~"
  {
    if IsAlphanumeric(c) { LettersAndDigits(c); } else { OtherCharacters(c); }
  }

  /** The characters of a target or a value: the printable ones of ASCII, and all beyond ASCII. */
  lemma TextCharacters(c: char)
    ensures !IsCtl(c) <==> ' ' <= c <= '~' || c as int >= 128
  {
  }

  // ---------------------------------------------------------------- the length a message declares

  /** A value that begins with a number: spaces, perhaps a plus sign, the number, and no further digit. */
  ghost predicate LengthText(s: string, n: nat) {
    exists spaces: string, sign: string, digits: string, rest: string ::
      IsLengthText(spaces, sign, digits, rest, n) && s == spaces + sign + digits + rest
  }

  predicate IsLengthText(spaces: string, sign: string, digits: string, rest: string, n: nat) {
    && (forall i :: 0 <= i < |spaces| ==> spaces[i] == ' ') && (sign == "" || sign == "+")
    && IsNumeral(digits, n) && (rest == "" || rest[0] !in DIGITS)
  }

  lemma NumeralBegins(s: string, n: nat)
    requires IsNumeral(s, n)
    ensures s != ""
  {
  }

  lemma LengthRead(h: Header, n: nat)
    requires LengthText(h.value, n) && n < SIZE_T
    ensures LengthField(h) == n
  {
    hide IsNumeral;
    var spaces, sign, digits, rest :|
      IsLengthText(spaces, sign, digits, rest, n) && h.value == spaces + sign + digits + rest;
    NumeralBegins(digits, n);
    AtoiReads(spaces, sign, digits, n, rest);
  }

  /** The last field of that name declares the length; without one it is zero. */
  ghost predicate Declares(fields: seq<Field>, n: nat) {
    || (n == 0 && forall j :: 0 <= j < |fields| ==> !LengthName(fields[j].name))
    || exists k :: 0 <= k < |fields| && DeclaresAt(fields, k, n)
  }

  ghost predicate DeclaresAt(fields: seq<Field>, k: nat, n: nat)
    requires k < |fields|
  {
    && LengthName(fields[k].name) && LengthText(HeaderOf(fields[k]).value, n)
    && forall j :: k < j < |fields| ==> !LengthName(fields[j].name)
  }

  lemma {:induction false} DeclaredIsRead(fields: seq<Field>, n: nat)
    requires Declares(fields, n) && n < SIZE_T
    ensures LastLength(fields, 0) == n
    decreases |fields|
  {
    hide LengthName, LengthText, IsContentLength, LengthField;
    if fields != [] {
      var last := |fields| - 1;
      var h := HeaderOf(fields[last]);
      ContentLengthNames(h);
      if LengthName(fields[last].name) {
        LengthRead(h, n);
      } else {
        if k :| 0 <= k < |fields| && DeclaresAt(fields, k, n) {
          assert k < last && DeclaresAt(fields[..last], k, n);
        }
        DeclaredIsRead(fields[..last], n);
      }
    }
  }
}
