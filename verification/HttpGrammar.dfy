/** The texts that the request head parser accepts: a printer, and the parser as its inverse. */
module HttpGrammar {
  import opened HttpParser

  /** A continuation line: blanks, and text that does not begin with one. */
  datatype Fold = Fold(blanks: string, text: string)

  datatype Field = Field(name: string, first: string, folds: seq<Fold>)

  datatype Message = Message(verb: string, uri: string, major: string, minor: string, fields: seq<Field>)

  const CRLF: string := "\r\n"

  // ---------------------------------------------------------------- the printer

  function PrintFolds(folds: seq<Fold>): string {
    if folds == [] then "" else
      var n := |folds| - 1;
      PrintFolds(folds[..n]) + folds[n].blanks + folds[n].text + CRLF
  }

  function PrintField(f: Field): string {
    f.name + ": " + f.first + CRLF + PrintFolds(f.folds)
  }

  function PrintFields(fields: seq<Field>): string {
    if fields == [] then "" else
      var n := |fields| - 1;
      PrintFields(fields[..n]) + PrintField(fields[n])
  }

  function RequestLine(m: Message): string {
    m.verb + " " + m.uri + " HTTP/" + m.major + "." + m.minor + CRLF
  }

  function Print(m: Message): string {
    RequestLine(m) + PrintFields(m.fields) + CRLF
  }

  // ---------------------------------------------------------------- which messages

  predicate Token(s: string) {
    s != "" && forall i :: 0 <= i < |s| ==> IsToken(s[i])
  }

  predicate Visible(s: string) {
    forall i :: 0 <= i < |s| ==> !IsCtl(s[i])
  }

  predicate Number(s: string) {
    s != "" && forall i :: 0 <= i < |s| ==> IsDigit(s[i])
  }

  predicate IsBlank(c: char) {
    c == ' ' || c == '\t'
  }

  predicate FoldOk(f: Fold) {
    && f.blanks != "" && (forall i :: 0 <= i < |f.blanks| ==> IsBlank(f.blanks[i]))
    && Visible(f.text) && (f.text != "" ==> !IsBlank(f.text[0]))
  }

  predicate FieldOk(f: Field) {
    Token(f.name) && Visible(f.first) && forall i :: 0 <= i < |f.folds| ==> FoldOk(f.folds[i])
  }

  predicate UriOk(s: string) {
    Visible(s) && forall i :: 0 <= i < |s| ==> s[i] != ' '
  }

  predicate MessageOk(m: Message) {
    && Token(m.verb) && UriOk(m.uri) && Number(m.major) && Number(m.minor)
    && forall i :: 0 <= i < |m.fields| ==> FieldOk(m.fields[i])
  }

  // ---------------------------------------------------------------- what they mean

  function FoldedText(folds: seq<Fold>): string {
    if folds == [] then "" else FoldedText(folds[..|folds| - 1]) + folds[|folds| - 1].text
  }

  function HeaderOf(f: Field): Header {
    Header(f.name, f.first + FoldedText(f.folds))
  }

  function HeadersOf(fields: seq<Field>): (h: seq<Header>)
    ensures |h| == |fields|
  {
    seq(|fields|, i requires 0 <= i < |fields| => HeaderOf(fields[i]))
  }

  /** The value of the last Content-Length field, if there is one. */
  function LastLength(fields: seq<Field>, none: nat): nat {
    if fields == [] then none else
      var f := HeaderOf(fields[|fields| - 1]);
      if IsContentLength(f) then LengthField(f) else LastLength(fields[..|fields| - 1], none)
  }

  function Meaning(m: Message, length: nat, none: nat): Head {
    Head(m.verb, m.uri, Digits(m.major, 0), Digits(m.minor, 0), length, HeadersOf(m.fields), LastLength(m.fields, none))
  }

  // ---------------------------------------------------------------- runs of the parser

  /** All of s is consumed on the way from p to q. */
  ghost predicate Runs(p: Parser, s: string, q: Parser) {
    Ok(p) && Parse(p, s) == Parsed(Indeterminate, q, |s|)
  }

  lemma RunsConcat(p: Parser, a: string, q: Parser, b: string, r: Parser)
    requires Runs(p, a, q) && Runs(q, b, r)
    ensures Runs(p, a + b, r)
  {
    CutIndependent(p, a, b);
  }

  lemma RunsOne(p: Parser, c: char, q: Parser)
    requires Ok(p) && Consume(Counted(p), c) == Step(Indeterminate, q)
    ensures Runs(p, [c], q)
  {
    assert [c][1..] == "";
  }

  lemma RunsNone(p: Parser)
    requires Ok(p)
    ensures Runs(p, "", p)
  {
  }

  function Longer(h: Head, n: nat): Head {
    h.(headerLength := h.headerLength + n)
  }

  lemma {:induction false} RunsVerb(h: Head, s: string)
    requires forall i :: 0 <= i < |s| ==> IsToken(s[i])
    ensures Runs(Parser(Method, h), s, Parser(Method, Longer(h, |s|).(verb := h.verb + s)))
    decreases |s|
  {
    if s == "" {
      assert h.verb + s == h.verb;
    } else {
      var h1 := Longer(h, 1).(verb := h.verb + [s[0]]);
      RunsOne(Parser(Method, h), s[0], Parser(Method, h1));
      RunsVerb(h1, s[1..]);
      assert [s[0]] + s[1..] == s && h1.verb + s[1..] == h.verb + s;
      RunsConcat(Parser(Method, h), [s[0]], Parser(Method, h1), s[1..],
        Parser(Method, Longer(h, |s|).(verb := h.verb + s)));
    }
  }

  lemma {:induction false} RunsUri(h: Head, s: string)
    requires UriOk(s)
    ensures Runs(Parser(Uri, h), s, Parser(Uri, Longer(h, |s|).(uri := h.uri + s)))
    decreases |s|
  {
    if s == "" {
      assert h.uri + s == h.uri;
    } else {
      var h1 := Longer(h, 1).(uri := h.uri + [s[0]]);
      RunsOne(Parser(Uri, h), s[0], Parser(Uri, h1));
      RunsUri(h1, s[1..]);
      assert [s[0]] + s[1..] == s && h1.uri + s[1..] == h.uri + s;
      RunsConcat(Parser(Uri, h), [s[0]], Parser(Uri, h1), s[1..], Parser(Uri, Longer(h, |s|).(uri := h.uri + s)));
    }
  }

  lemma {:induction false} RunsMajor(h: Head, s: string)
    requires forall i :: 0 <= i < |s| ==> IsDigit(s[i])
    ensures Runs(Parser(HttpVersionMajor, h), s, Parser(HttpVersionMajor, Longer(h, |s|).(major := Digits(s, h.major))))
    decreases |s|
  {
    if s != "" {
      var h1 := Longer(h, 1).(major := h.major * 10 + Digit(s[0]));
      RunsOne(Parser(HttpVersionMajor, h), s[0], Parser(HttpVersionMajor, h1));
      RunsMajor(h1, s[1..]);
      assert [s[0]] + s[1..] == s;
      RunsConcat(Parser(HttpVersionMajor, h), [s[0]], Parser(HttpVersionMajor, h1), s[1..],
        Parser(HttpVersionMajor, Longer(h, |s|).(major := Digits(s, h.major))));
    }
  }

  lemma {:induction false} RunsMinor(h: Head, s: string)
    requires forall i :: 0 <= i < |s| ==> IsDigit(s[i])
    ensures Runs(Parser(HttpVersionMinor, h), s, Parser(HttpVersionMinor, Longer(h, |s|).(minor := Digits(s, h.minor))))
    decreases |s|
  {
    if s != "" {
      var h1 := Longer(h, 1).(minor := h.minor * 10 + Digit(s[0]));
      RunsOne(Parser(HttpVersionMinor, h), s[0], Parser(HttpVersionMinor, h1));
      RunsMinor(h1, s[1..]);
      assert [s[0]] + s[1..] == s;
      RunsConcat(Parser(HttpVersionMinor, h), [s[0]], Parser(HttpVersionMinor, h1), s[1..],
        Parser(HttpVersionMinor, Longer(h, |s|).(minor := Digits(s, h.minor))));
    }
  }

  /** The head with another last header. */
  function WithLast(h: Head, done: seq<Header>, last: Header, n: nat): Head {
    Longer(h, n).(headers := done + [last])
  }

  lemma {:induction false} RunsName(h: Head, done: seq<Header>, last: Header, s: string)
    requires h.headers == done + [last] && forall i :: 0 <= i < |s| ==> IsToken(s[i])
    ensures Runs(Parser(HeaderName, h), s,
                 Parser(HeaderName, WithLast(h, done, last.(name := last.name + s), |s|)))
    decreases |s|
  {
    if s == "" {
      assert last.name + s == last.name;
    } else {
      var last1 := last.(name := last.name + [s[0]]);
      var h1 := WithLast(h, done, last1, 1);
      RunsOne(Parser(HeaderName, h), s[0], Parser(HeaderName, h1));
      RunsName(h1, done, last1, s[1..]);
      assert [s[0]] + s[1..] == s && last1.name + s[1..] == last.name + s;
      RunsConcat(Parser(HeaderName, h), [s[0]], Parser(HeaderName, h1), s[1..],
        Parser(HeaderName, WithLast(h, done, last.(name := last.name + s), |s|)));
    }
  }

  lemma {:induction false} RunsValue(h: Head, done: seq<Header>, last: Header, s: string)
    requires h.headers == done + [last] && Visible(s)
    ensures Runs(Parser(HeaderValue, h), s,
                 Parser(HeaderValue, WithLast(h, done, last.(value := last.value + s), |s|)))
    decreases |s|
  {
    if s == "" {
      assert last.value + s == last.value;
    } else {
      var last1 := last.(value := last.value + [s[0]]);
      var h1 := WithLast(h, done, last1, 1);
      RunsOne(Parser(HeaderValue, h), s[0], Parser(HeaderValue, h1));
      RunsValue(h1, done, last1, s[1..]);
      assert [s[0]] + s[1..] == s && last1.value + s[1..] == last.value + s;
      RunsConcat(Parser(HeaderValue, h), [s[0]], Parser(HeaderValue, h1), s[1..],
        Parser(HeaderValue, WithLast(h, done, last.(value := last.value + s), |s|)));
    }
  }

  lemma {:induction false} RunsBlanks(h: Head, s: string)
    requires h.headers != [] && forall i :: 0 <= i < |s| ==> IsBlank(s[i])
    ensures Runs(Parser(HeaderLws, h), s, Parser(HeaderLws, Longer(h, |s|)))
    decreases |s|
  {
    if s != "" {
      RunsOne(Parser(HeaderLws, h), s[0], Parser(HeaderLws, Longer(h, 1)));
      RunsBlanks(Longer(h, 1), s[1..]);
      assert [s[0]] + s[1..] == s;
      RunsConcat(Parser(HeaderLws, h), [s[0]], Parser(HeaderLws, Longer(h, 1)), s[1..],
        Parser(HeaderLws, Longer(h, |s|)));
    }
  }

  /** One more character. */
  lemma Then(p: Parser, a: string, q: Parser, c: char, r: Parser)
    requires Runs(p, a, q) && Consume(Counted(q), c) == Step(Indeterminate, r)
    ensures Runs(p, a + [c], r)
  {
    RunsOne(q, c, r);
    RunsConcat(p, a, q, [c], r);
  }

  // ---------------------------------------------------------------- printed messages are accepted

  lemma RunsTarget(h: Head, verb: string, uri: string)
    requires h.verb == "" && h.uri == "" && Token(verb) && UriOk(uri)
    ensures var t := verb + " " + uri + " ";
      Runs(Parser(MethodStart, h), t, Parser(HttpVersionH, Longer(h, |t|).(verb := verb, uri := uri)))
  {
    hide Parse, Runs;
    var p := Parser(MethodStart, h);
    var h1 := Longer(h, 1).(verb := [verb[0]]);
    assert h.verb + [verb[0]] == [verb[0]];
    RunsOne(p, verb[0], Parser(Method, h1));
    RunsVerb(h1, verb[1..]);
    assert [verb[0]] + verb[1..] == verb;
    var h2 := Longer(h, |verb|).(verb := verb);
    RunsConcat(p, [verb[0]], Parser(Method, h1), verb[1..], Parser(Method, h2));
    Then(p, verb, Parser(Method, h2), ' ', Parser(Uri, Longer(h2, 1)));
    RunsUri(Longer(h2, 1), uri);
    assert "" + uri == uri;
    var h3 := Longer(h2, 1 + |uri|).(uri := uri);
    RunsConcat(p, verb + " ", Parser(Uri, Longer(h2, 1)), uri, Parser(Uri, h3));
    Then(p, verb + " " + uri, Parser(Uri, h3), ' ', Parser(HttpVersionH, Longer(h3, 1)));
  }

  lemma RunsProtocol(h: Head)
    ensures Runs(Parser(HttpVersionH, h), "HTTP/", Parser(HttpVersionMajorStart, Longer(h, 5).(major := 0, minor := 0)))
  {
    var p := Parser(HttpVersionH, h);
    RunsOne(p, 'H', Parser(HttpVersionT1, Longer(h, 1)));
    Then(p, "H", Parser(HttpVersionT1, Longer(h, 1)), 'T', Parser(HttpVersionT2, Longer(h, 2)));
    assert "H" + ['T'] == "HT";
    Then(p, "HT", Parser(HttpVersionT2, Longer(h, 2)), 'T', Parser(HttpVersionP, Longer(h, 3)));
    assert "HT" + ['T'] == "HTT";
    Then(p, "HTT", Parser(HttpVersionP, Longer(h, 3)), 'P', Parser(HttpVersionSlash, Longer(h, 4)));
    assert "HTT" + ['P'] == "HTTP";
    Then(p, "HTTP", Parser(HttpVersionSlash, Longer(h, 4)), '/',
      Parser(HttpVersionMajorStart, Longer(h, 5).(major := 0, minor := 0)));
    assert "HTTP" + ['/'] == "HTTP/";
  }

  lemma RunsVersion(h: Head, major: string, minor: string)
    requires h.major == 0 && h.minor == 0 && Number(major) && Number(minor)
    ensures var t := major + "." + minor + CRLF;
      Runs(Parser(HttpVersionMajorStart, h), t,
           Parser(HeaderLineStart, Longer(h, |t|).(major := Digits(major, 0), minor := Digits(minor, 0))))
  {
    hide Parse, Runs;
    var p := Parser(HttpVersionMajorStart, h);
    var h1 := Longer(h, 1).(major := Digit(major[0]));
    RunsOne(p, major[0], Parser(HttpVersionMajor, h1));
    RunsMajor(h1, major[1..]);
    assert [major[0]] + major[1..] == major;
    var h2 := Longer(h, |major|).(major := Digits(major, 0));
    RunsConcat(p, [major[0]], Parser(HttpVersionMajor, h1), major[1..], Parser(HttpVersionMajor, h2));
    Then(p, major, Parser(HttpVersionMajor, h2), '.', Parser(HttpVersionMinorStart, Longer(h2, 1)));
    RunsMinorPart(Longer(h2, 1), minor);
    var t2 := minor + CRLF;
    RunsConcat(p, major + ".", Parser(HttpVersionMinorStart, Longer(h2, 1)), t2,
      Parser(HeaderLineStart, Longer(h2, 1 + |t2|).(minor := Digits(minor, 0))));
    assert major + "." + t2 == major + "." + minor + CRLF;
  }

  lemma RunsMinorPart(h: Head, minor: string)
    requires h.minor == 0 && Number(minor)
    ensures var t := minor + CRLF;
      Runs(Parser(HttpVersionMinorStart, h), t, Parser(HeaderLineStart, Longer(h, |t|).(minor := Digits(minor, 0))))
  {
    hide Parse, Runs;
    var p := Parser(HttpVersionMinorStart, h);
    var h1 := Longer(h, 1).(minor := Digit(minor[0]));
    RunsOne(p, minor[0], Parser(HttpVersionMinor, h1));
    RunsMinor(h1, minor[1..]);
    assert [minor[0]] + minor[1..] == minor;
    var h2 := Longer(h, |minor|).(minor := Digits(minor, 0));
    RunsConcat(p, [minor[0]], Parser(HttpVersionMinor, h1), minor[1..], Parser(HttpVersionMinor, h2));
    Then(p, minor, Parser(HttpVersionMinor, h2), '\r', Parser(ExpectingNewline1, Longer(h2, 1)));
    Then(p, minor + "\r", Parser(ExpectingNewline1, Longer(h2, 1)), '\n', Parser(HeaderLineStart, Longer(h2, 2)));
    assert minor + "\r" + ['\n'] == minor + CRLF;
  }

  lemma RunsRequestLine(h: Head, m: Message)
    requires h.verb == "" && h.uri == "" && MessageOk(m)
    ensures var t := RequestLine(m);
      Runs(Parser(MethodStart, h), t, Parser(HeaderLineStart,
        Longer(h, |t|).(verb := m.verb, uri := m.uri, major := Digits(m.major, 0), minor := Digits(m.minor, 0))))
  {
    hide Parse, Runs;
    RunsTarget(h, m.verb, m.uri);
    var t1, t3 := m.verb + " " + m.uri + " ", m.major + "." + m.minor + CRLF;
    var h1 := Longer(h, |t1|).(verb := m.verb, uri := m.uri);
    RunsProtocol(h1);
    var h2 := Longer(h1, 5).(major := 0, minor := 0);
    RunsConcat(Parser(MethodStart, h), t1, Parser(HttpVersionH, h1), "HTTP/", Parser(HttpVersionMajorStart, h2));
    RunsVersion(h2, m.major, m.minor);
    var h3 := Longer(h2, |t3|).(major := Digits(m.major, 0), minor := Digits(m.minor, 0));
    RunsConcat(Parser(MethodStart, h), t1 + "HTTP/", Parser(HttpVersionMajorStart, h2), t3,
      Parser(HeaderLineStart, h3));
    assert t1 + "HTTP/" + t3 == RequestLine(m);
  }

  /** What the end of a header line makes of the head. */
  function AfterLine(h: Head, n: nat): Head
    requires h.headers != []
  {
    var last := h.headers[|h.headers| - 1];
    var h1 := Longer(h, n);
    if IsContentLength(last) then h1.(contentLength := LengthField(last)) else h1
  }

  lemma RunsLineEnd(h: Head)
    requires h.headers != []
    ensures Runs(Parser(HeaderValue, h), CRLF, Parser(HeaderLineStart, AfterLine(h, 2)))
    ensures Runs(Parser(HeaderLws, h), CRLF, Parser(HeaderLineStart, AfterLine(h, 2)))
  {
    var h1 := Longer(h, 1);
    RunsOne(Parser(HeaderValue, h), '\r', Parser(ExpectingNewline2, h1));
    RunsOne(Parser(HeaderLws, h), '\r', Parser(ExpectingNewline2, h1));
    Then(Parser(HeaderValue, h), "\r", Parser(ExpectingNewline2, h1), '\n', Parser(HeaderLineStart, AfterLine(h, 2)));
    Then(Parser(HeaderLws, h), "\r", Parser(ExpectingNewline2, h1), '\n', Parser(HeaderLineStart, AfterLine(h, 2)));
    assert "\r" + ['\n'] == CRLF;
  }

  lemma TokenBegins(c: char)
    requires IsToken(c)
    ensures c != '\r' && c != ' ' && c != '\t' && c != ':'
  {
  }

  lemma SameName(a: Header, b: Header)
    requires a.name == b.name
    ensures IsContentLength(a) == IsContentLength(b)
  {
  }

  /** The name of a field, up to where its value begins. */
  lemma RunsNameAndSpace(h: Head, name: string)
    requires Token(name)
    ensures Runs(Parser(HeaderLineStart, h), name + ": ",
      Parser(HeaderValue, WithLast(h, h.headers, Header(name, ""), |name| + 2)))
  {
    hide Parse, Runs, IsTspecial, IsCtl;
    TokenBegins(name[0]);
    var p, done := Parser(HeaderLineStart, h), h.headers;
    var h1 := WithLast(h, done, Header([name[0]], ""), 1);
    assert (done + [Header("", "")])[|done| := Header([name[0]], "")] == done + [Header([name[0]], "")];
    assert "" + [name[0]] == [name[0]];
    RunsOne(p, name[0], Parser(HeaderName, h1));
    RunsName(h1, done, Header([name[0]], ""), name[1..]);
    assert [name[0]] + name[1..] == name;
    var h2 := WithLast(h, done, Header(name, ""), |name|);
    RunsConcat(p, [name[0]], Parser(HeaderName, h1), name[1..], Parser(HeaderName, h2));
    Then(p, name, Parser(HeaderName, h2), ':', Parser(SpaceBeforeHeaderValue, Longer(h2, 1)));
    Then(p, name + ":", Parser(SpaceBeforeHeaderValue, Longer(h2, 1)), ' ', Parser(HeaderValue, Longer(h2, 2)));
    assert name + ":" + [' '] == name + ": ";
  }

  /** The first line of a field. */
  lemma RunsFirstLine(h: Head, f: Field)
    requires FieldOk(f)
    ensures var t, last := f.name + ": " + f.first + CRLF, Header(f.name, f.first);
      Runs(Parser(HeaderLineStart, h), t, Parser(HeaderLineStart, AfterLine(WithLast(h, h.headers, last, |t| - 2), 2)))
  {
    hide Parse, Runs, AfterLine, IsTspecial, IsCtl;
    var p, done := Parser(HeaderLineStart, h), h.headers;
    RunsNameAndSpace(h, f.name);
    var h2 := WithLast(h, done, Header(f.name, ""), |f.name| + 2);
    RunsValue(h2, done, Header(f.name, ""), f.first);
    assert "" + f.first == f.first;
    var h3 := WithLast(h, done, Header(f.name, f.first), |f.name| + 2 + |f.first|);
    RunsConcat(p, f.name + ": ", Parser(HeaderValue, h2), f.first, Parser(HeaderValue, h3));
    RunsLineEnd(h3);
    RunsConcat(p, f.name + ": " + f.first, Parser(HeaderValue, h3), CRLF, Parser(HeaderLineStart, AfterLine(h3, 2)));
  }

  /** A continuation line. */
  lemma RunsFold(h: Head, done: seq<Header>, last: Header, f: Fold)
    requires FoldOk(f) && h.headers == done + [last]
    ensures var t := f.blanks + f.text + CRLF;
      Runs(Parser(HeaderLineStart, h), t,
           Parser(HeaderLineStart, AfterLine(WithLast(h, done, last.(value := last.value + f.text), |t| - 2), 2)))
  {
    hide Parse, Runs;
    var p := Parser(HeaderLineStart, h);
    RunsOne(p, f.blanks[0], Parser(HeaderLws, Longer(h, 1)));
    RunsBlanks(Longer(h, 1), f.blanks[1..]);
    assert [f.blanks[0]] + f.blanks[1..] == f.blanks;
    var h1 := Longer(h, |f.blanks|);
    RunsConcat(p, [f.blanks[0]], Parser(HeaderLws, Longer(h, 1)), f.blanks[1..], Parser(HeaderLws, h1));
    var h3 := WithLast(h, done, last.(value := last.value + f.text), |f.blanks| + |f.text|);
    RunsLineEnd(h3);
    if f.text == "" {
      assert last.value + f.text == last.value && h3 == h1 && f.blanks + f.text == f.blanks;
      RunsConcat(p, f.blanks, Parser(HeaderLws, h1), CRLF, Parser(HeaderLineStart, AfterLine(h3, 2)));
    } else {
      var last1 := last.(value := last.value + [f.text[0]]);
      var h2 := WithLast(h1, done, last1, 1);
      Then(p, f.blanks, Parser(HeaderLws, h1), f.text[0], Parser(HeaderValue, h2));
      RunsValue(h2, done, last1, f.text[1..]);
      assert last1.value + f.text[1..] == last.value + f.text;
      assert f.blanks + [f.text[0]] + f.text[1..] == f.blanks + f.text;
      RunsConcat(p, f.blanks + [f.text[0]], Parser(HeaderValue, h2), f.text[1..], Parser(HeaderValue, h3));
      RunsConcat(p, f.blanks + f.text, Parser(HeaderValue, h3), CRLF, Parser(HeaderLineStart, AfterLine(h3, 2)));
    }
  }

  /** A field with its continuation lines, after other fields. */
  lemma {:induction false} RunsField(h: Head, f: Field, none: nat)
    requires FieldOk(f) && h.contentLength == none
    ensures var t := PrintField(f);
      Runs(Parser(HeaderLineStart, h), t, Parser(HeaderLineStart,
        Longer(h, |t|).(headers := h.headers + [HeaderOf(f)],
                        contentLength := if IsContentLength(HeaderOf(f)) then LengthField(HeaderOf(f)) else none)))
    decreases |f.folds|
  {
    hide Parse, Runs, FoldOk, IsContentLength, LengthField;
    var p, done := Parser(HeaderLineStart, h), h.headers;
    if f.folds == [] {
      RunsFirstLine(h, f);
      assert f.first + "" == f.first;
      assert PrintField(f) == f.name + ": " + f.first + CRLF;
    } else {
      var n := |f.folds| - 1;
      var g := f.(folds := f.folds[..n]);
      RunsField(h, g, none);
      var t1 := PrintField(g);
      var length := if IsContentLength(HeaderOf(g)) then LengthField(HeaderOf(g)) else none;
      var h1 := Longer(h, |t1|).(headers := done + [HeaderOf(g)], contentLength := length);
      RunsFold(h1, done, HeaderOf(g), f.folds[n]);
      assert HeaderOf(g).value + f.folds[n].text == HeaderOf(f).value;
      SameName(HeaderOf(g), HeaderOf(f));
      var t2 := f.folds[n].blanks + f.folds[n].text + CRLF;
      assert t1 + t2 == PrintField(f);
      RunsConcat(p, t1, Parser(HeaderLineStart, h1), t2,
        Parser(HeaderLineStart, AfterLine(WithLast(h1, done, HeaderOf(f), |t2| - 2), 2)));
    }
  }

  lemma NoHeaders()
    ensures HeadersOf([]) == []
  {
  }

  lemma OneMoreHeader(fields: seq<Field>)
    requires fields != []
    ensures HeadersOf(fields) == HeadersOf(fields[..|fields| - 1]) + [HeaderOf(fields[|fields| - 1])]
  {
  }

  lemma {:induction false} RunsFields(h: Head, fields: seq<Field>)
    requires h.headers == [] && forall i :: 0 <= i < |fields| ==> FieldOk(fields[i])
    ensures var t := PrintFields(fields);
      Runs(Parser(HeaderLineStart, h), t, Parser(HeaderLineStart,
        Longer(h, |t|).(headers := HeadersOf(fields), contentLength := LastLength(fields, h.contentLength))))
    decreases |fields|
  {
    hide Parse, Runs, HeadersOf, PrintField, HeaderOf, IsContentLength, LengthField, FieldOk;
    if fields == [] {
      NoHeaders();
      RunsNone(Parser(HeaderLineStart, h));
    } else {
      var n := |fields| - 1;
      RunsFields(h, fields[..n]);
      var t1 := PrintFields(fields[..n]);
      var h1 := Longer(h, |t1|).(headers := HeadersOf(fields[..n]),
                                 contentLength := LastLength(fields[..n], h.contentLength));
      RunsField(h1, fields[n], h1.contentLength);
      OneMoreHeader(fields);
      RunsConcat(Parser(HeaderLineStart, h), t1, Parser(HeaderLineStart, h1), PrintField(fields[n]),
        Parser(HeaderLineStart, Longer(h1, |PrintField(fields[n])|).(headers := HeadersOf(fields),
                                contentLength := LastLength(fields, h.contentLength))));
    }
  }

  /** A request as the server starts out with. */
  function Blank(contentLength: nat): Parser {
    Parser(MethodStart, Head("", "", 0, 0, 0, [], contentLength))
  }

  /** The parser inverts the printer: a printed message is accepted, with its own parts as the fields. */
  lemma PrintedIsParsed(m: Message, rest: string, none: nat)
    requires MessageOk(m)
    ensures Parse(Blank(none), Print(m) + rest)
         == Parsed(Good, Parser(ExpectingNewline3, Meaning(m, |Print(m)|, none)), |Print(m)|)
  {
    hide Parse, PrintFields, RequestLine;
    var p, h := Blank(none), Blank(none).head;
    RunsRequestLine(h, m);
    var t1, t2 := RequestLine(m), PrintFields(m.fields);
    var h1 := Longer(h, |t1|).(verb := m.verb, uri := m.uri, major := Digits(m.major, 0), minor := Digits(m.minor, 0));
    RunsFields(h1, m.fields);
    var h2 := Longer(h1, |t2|).(headers := HeadersOf(m.fields), contentLength := LastLength(m.fields, none));
    RunsConcat(p, t1, Parser(HeaderLineStart, h1), t2, Parser(HeaderLineStart, h2));
    var h3 := Longer(h2, 1);
    Then(p, t1 + t2, Parser(HeaderLineStart, h2), '\r', Parser(ExpectingNewline3, h3));
    assert t1 + t2 + ['\r'] + "\n" == Print(m);
    EndsGood(p, t1 + t2 + ['\r'], h3, rest);
  }

  lemma EndsGood(p: Parser, s: string, h: Head, rest: string)
    requires Runs(p, s, Parser(ExpectingNewline3, h))
    ensures Parse(p, s + "\n" + rest) == Parsed(Good, Parser(ExpectingNewline3, Longer(h, 1)), |s| + 1)
  {
    var q := Parser(ExpectingNewline3, h);
    assert Parse(q, "\n" + rest) == Parsed(Good, Parser(ExpectingNewline3, Longer(h, 1)), 1);
    CutIndependent(p, s, "\n" + rest);
    assert s + ("\n" + rest) == s + "\n" + rest;
  }
}
