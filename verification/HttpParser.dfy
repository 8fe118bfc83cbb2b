/**
  The HTTP request head parser: one character at a time, resumable between reads.
  A byte is a char; those above 127 are the negative values of a signed C char.
  */
module HttpParser {

  datatype State =
    | MethodStart | Method | Uri
    | HttpVersionH | HttpVersionT1 | HttpVersionT2 | HttpVersionP | HttpVersionSlash
    | HttpVersionMajorStart | HttpVersionMajor | HttpVersionMinorStart | HttpVersionMinor
    | ExpectingNewline1 | HeaderLineStart | HeaderLws | HeaderName | SpaceBeforeHeaderValue
    | HeaderValue | ExpectingNewline2 | ExpectingNewline3

  datatype Header = Header(name: string, value: string)

  /** What the parser fills in of a request. */
  datatype Head = Head(verb: string, uri: string, major: int, minor: int, headerLength: nat,
                       headers: seq<Header>, contentLength: nat)

  datatype ResultType = Good | Bad | Indeterminate

  const SIZE_T: nat := 0x1_0000_0000_0000_0000

  predicate IsChar(c: char) {
    c <= (127 as char)
  }

  predicate IsCtl(c: char) {
    c <= (31 as char) || c == (127 as char)
  }

  predicate IsTspecial(c: char) {
    c in "()<>@,;:\\\"/[]?={} \t"
  }

  predicate IsDigit(c: char) {
    '0' <= c <= '9'
  }

  predicate IsToken(c: char) {
    IsChar(c) && !IsCtl(c) && !IsTspecial(c)
  }

  function Digit(c: char): int
    requires IsDigit(c)
  {
    c as int - '0' as int
  }

  // ---------------------------------------------------------------- library functions used

  function Lower(c: char): char {
    if 'A' <= c <= 'Z' then (c as int + 32) as char else c
  }

  /** `0 == stricmp(a, b)` on strings without NUL */
  predicate SameIgnoringCase(a: string, b: string) {
    |a| == |b| && forall i :: 0 <= i < |a| ==> Lower(a[i]) == Lower(b[i])
  }

  predicate IsSpace(c: char) {
    c == ' ' || ('\t' <= c <= '\r')
  }

  function SkipSpace(s: string): string {
    if s != "" && IsSpace(s[0]) then SkipSpace(s[1..]) else s
  }

  /** The leading digits, read on from a value. */
  function Digits(s: string, v: int): int {
    if s != "" && IsDigit(s[0]) then Digits(s[1..], v * 10 + Digit(s[0])) else v
  }

  /** `atoi`, without the overflow that C leaves undefined */
  function Atoi(s: string): int {
    var t := SkipSpace(s);
    if t != "" && t[0] == '-' then -Digits(t[1..], 0)
    else if t != "" && t[0] == '+' then Digits(t[1..], 0)
    else Digits(t, 0)
  }

  function LengthField(h: Header): nat {
    Atoi(h.value) % SIZE_T
  }

  predicate IsContentLength(h: Header) {
    SameIgnoringCase("Content-Length", h.name)
  }

  // ---------------------------------------------------------------- one character

  datatype Parser = Parser(state: State, head: Head)

  datatype Step = Step(result: ResultType, next: Parser)

  function Go(p: Parser, state: State): Step {
    Step(Indeterminate, p.(state := state))
  }

  function Refuse(p: Parser): Step {
    Step(Bad, p)
  }

  function PushName(h: Head, c: char): Head
    requires h.headers != []
  {
    var n := |h.headers| - 1;
    h.(headers := h.headers[n := h.headers[n].(name := h.headers[n].name + [c])])
  }

  function PushValue(h: Head, c: char): Head
    requires h.headers != []
  {
    var n := |h.headers| - 1;
    h.(headers := h.headers[n := h.headers[n].(value := h.headers[n].value + [c])])
  }

  /** States within a header presuppose one. */
  predicate Ok(p: Parser) {
    p.state in {HeaderName, SpaceBeforeHeaderValue, HeaderValue, HeaderLws, ExpectingNewline2} ==> p.head.headers != []
  }

  /** What a character does to the parser and the request. */
  function Consume(p: Parser, c: char): (s: Step)
    requires Ok(p)
    ensures Ok(s.next) && s.next.head.headerLength == p.head.headerLength
  {
    var h := p.head;
    match p.state
    case MethodStart =>
      if !IsToken(c) then Refuse(p) else Go(Parser(p.state, h.(verb := h.verb + [c])), Method)
    case Method =>
      if c == ' ' then Go(p, Uri)
      else if !IsToken(c) then Refuse(p)
      else Go(Parser(p.state, h.(verb := h.verb + [c])), Method)
    case Uri =>
      if c == ' ' then Go(p, HttpVersionH)
      else if IsCtl(c) then Refuse(p)
      else Go(Parser(p.state, h.(uri := h.uri + [c])), Uri)
    case HttpVersionH => if c == 'H' then Go(p, HttpVersionT1) else Refuse(p)
    case HttpVersionT1 => if c == 'T' then Go(p, HttpVersionT2) else Refuse(p)
    case HttpVersionT2 => if c == 'T' then Go(p, HttpVersionP) else Refuse(p)
    case HttpVersionP => if c == 'P' then Go(p, HttpVersionSlash) else Refuse(p)
    case HttpVersionSlash =>
      if c == '/' then Go(Parser(p.state, h.(major := 0, minor := 0)), HttpVersionMajorStart) else Refuse(p)
    case HttpVersionMajorStart =>
      if IsDigit(c) then Go(Parser(p.state, h.(major := h.major * 10 + Digit(c))), HttpVersionMajor) else Refuse(p)
    case HttpVersionMajor =>
      if c == '.' then Go(p, HttpVersionMinorStart)
      else if IsDigit(c) then Go(Parser(p.state, h.(major := h.major * 10 + Digit(c))), HttpVersionMajor)
      else Refuse(p)
    case HttpVersionMinorStart =>
      if IsDigit(c) then Go(Parser(p.state, h.(minor := h.minor * 10 + Digit(c))), HttpVersionMinor) else Refuse(p)
    case HttpVersionMinor =>
      if c == '\r' then Go(p, ExpectingNewline1)
      else if IsDigit(c) then Go(Parser(p.state, h.(minor := h.minor * 10 + Digit(c))), HttpVersionMinor)
      else Refuse(p)
    case ExpectingNewline1 => if c == '\n' then Go(p, HeaderLineStart) else Refuse(p)
    case HeaderLineStart =>
      if c == '\r' then Go(p, ExpectingNewline3)
      else if h.headers != [] && (c == ' ' || c == '\t') then Go(p, HeaderLws)
      else if !IsToken(c) then Refuse(p)
      else Go(Parser(p.state, PushName(h.(headers := h.headers + [Header("", "")]), c)), HeaderName)
    case HeaderLws =>
      if c == '\r' then Go(p, ExpectingNewline2)
      else if c == ' ' || c == '\t' then Go(p, HeaderLws)
      else if IsCtl(c) then Refuse(p)
      else Go(Parser(p.state, PushValue(h, c)), HeaderValue)
    case HeaderName =>
      if c == ':' then Go(p, SpaceBeforeHeaderValue)
      else if !IsToken(c) then Refuse(p)
      else Go(Parser(p.state, PushName(h, c)), HeaderName)
    case SpaceBeforeHeaderValue => if c == ' ' then Go(p, HeaderValue) else Refuse(p)
    case HeaderValue =>
      if c == '\r' then Go(p, ExpectingNewline2)
      else if IsCtl(c) then Refuse(p)
      else Go(Parser(p.state, PushValue(h, c)), HeaderValue)
    case ExpectingNewline2 =>
      if c == '\n' then
        var last := h.headers[|h.headers| - 1];
        var h' := if IsContentLength(last) then h.(contentLength := LengthField(last)) else h;
        Go(Parser(p.state, h'), HeaderLineStart)
      else Refuse(p)
    case ExpectingNewline3 => Step(if c == '\n' then Good else Bad, p)
  }

  // ---------------------------------------------------------------- a piece of input

  function Counted(p: Parser): Parser {
    p.(head := p.head.(headerLength := p.head.headerLength + 1))
  }

  datatype Parsed = Parsed(result: ResultType, next: Parser, used: nat)

  /** parse: characters are consumed until the head is complete, or bad, or the input is at its end. */
  function Parse(p: Parser, input: string): (r: Parsed)
    requires Ok(p)
    ensures Ok(r.next) && r.used <= |input| && r.next.head.headerLength == p.head.headerLength + r.used
    ensures r.result == Indeterminate ==> r.used == |input|
    decreases |input|
  {
    if input == "" then Parsed(Indeterminate, p, 0) else
      var s := Consume(Counted(p), input[0]);
      if s.result != Indeterminate then Parsed(s.result, s.next, 1) else
        var r := Parse(s.next, input[1..]);
        Parsed(r.result, r.next, r.used + 1)
  }

  /** Cutting the input makes no difference: what was not decided by a is decided by going on with b. */
  lemma {:induction false} CutIndependent(p: Parser, a: string, b: string)
    requires Ok(p)
    ensures var ra := Parse(p, a);
      Parse(p, a + b)
      == if ra.result == Indeterminate then var rb := Parse(ra.next, b); rb.(used := |a| + rb.used) else ra
    decreases |a|
  {
    if a == "" {
      assert a + b == b;
    } else {
      assert (a + b)[1..] == a[1..] + b;
      var s := Consume(Counted(p), a[0]);
      if s.result == Indeterminate { CutIndependent(s.next, a[1..], b); }
    }
  }

  // ---------------------------------------------------------------- the methods

  class Request {
    var verb: string
    var uri: string
    var major: int
    var minor: int
    var headerLength: nat
    var headers: seq<Header>
    var contentLength: nat
    var content: string

    constructor ()
      ensures Value() == Head("", "", 0, 0, 0, [], 0) && content == ""
    {
      verb, uri, major, minor, headerLength, headers, contentLength, content := "", "", 0, 0, 0, [], 0, "";
    }

    /** The part that the parser fills in. */
    function Value(): Head
      reads this
    {
      Head(verb, uri, major, minor, headerLength, headers, contentLength)
    }

    method PushNameChar(c: char)
      requires headers != []
      modifies this`headers
      ensures Value() == PushName(old(Value()), c)
    {
      var n := |headers| - 1;
      headers := headers[n := headers[n].(name := headers[n].name + [c])];
    }

    method PushValueChar(c: char)
      requires headers != []
      modifies this`headers
      ensures Value() == PushValue(old(Value()), c)
    {
      var n := |headers| - 1;
      headers := headers[n := headers[n].(value := headers[n].value + [c])];
    }
  }

  class RequestParser {
    var state: State

    constructor ()
      ensures state == MethodStart
    {
      state := MethodStart;
    }

    ghost function With(req: Request): Parser
      reads this, req
    {
      Parser(state, req.Value())
    }

    /** consume */
    method ConsumeChar(req: Request, input: char) returns (r: ResultType)
      requires Ok(With(req))
      modifies this, req
      ensures Step(r, With(req)) == Consume(old(With(req)), input) && req.content == old(req.content)
    {
      r := Indeterminate;
      match state {
        case MethodStart =>
          if !IsChar(input) || IsCtl(input) || IsTspecial(input) { return Bad; }
          state := Method;
          req.verb := req.verb + [input];
        case Method =>
          if input == ' ' {
            state := Uri;
          } else if !IsChar(input) || IsCtl(input) || IsTspecial(input) {
            return Bad;
          } else {
            req.verb := req.verb + [input];
          }
        case Uri =>
          if input == ' ' {
            state := HttpVersionH;
          } else if IsCtl(input) {
            return Bad;
          } else {
            req.uri := req.uri + [input];
          }
        case HttpVersionH =>
          if input != 'H' { return Bad; }
          state := HttpVersionT1;
        case HttpVersionT1 =>
          if input != 'T' { return Bad; }
          state := HttpVersionT2;
        case HttpVersionT2 =>
          if input != 'T' { return Bad; }
          state := HttpVersionP;
        case HttpVersionP =>
          if input != 'P' { return Bad; }
          state := HttpVersionSlash;
        case HttpVersionSlash =>
          if input != '/' { return Bad; }
          req.major, req.minor := 0, 0;
          state := HttpVersionMajorStart;
        case HttpVersionMajorStart =>
          if !IsDigit(input) { return Bad; }
          req.major := req.major * 10 + Digit(input);
          state := HttpVersionMajor;
        case HttpVersionMajor =>
          if input == '.' {
            state := HttpVersionMinorStart;
          } else if IsDigit(input) {
            req.major := req.major * 10 + Digit(input);
          } else {
            return Bad;
          }
        case HttpVersionMinorStart =>
          if !IsDigit(input) { return Bad; }
          req.minor := req.minor * 10 + Digit(input);
          state := HttpVersionMinor;
        case HttpVersionMinor =>
          if input == '\r' {
            state := ExpectingNewline1;
          } else if IsDigit(input) {
            req.minor := req.minor * 10 + Digit(input);
          } else {
            return Bad;
          }
        case ExpectingNewline1 =>
          if input != '\n' { return Bad; }
          state := HeaderLineStart;
        case HeaderLineStart =>
          if input == '\r' {
            state := ExpectingNewline3;
          } else if req.headers != [] && (input == ' ' || input == '\t') {
            state := HeaderLws;
          } else if !IsChar(input) || IsCtl(input) || IsTspecial(input) {
            return Bad;
          } else {
            req.headers := req.headers + [Header("", "")];
            req.PushNameChar(input);
            state := HeaderName;
          }
        case HeaderLws =>
          if input == '\r' {
            state := ExpectingNewline2;
          } else if input == ' ' || input == '\t' {
          } else if IsCtl(input) {
            return Bad;
          } else {
            state := HeaderValue;
            req.PushValueChar(input);
          }
        case HeaderName =>
          if input == ':' {
            state := SpaceBeforeHeaderValue;
          } else if !IsChar(input) || IsCtl(input) || IsTspecial(input) {
            return Bad;
          } else {
            req.PushNameChar(input);
          }
        case SpaceBeforeHeaderValue =>
          if input != ' ' { return Bad; }
          state := HeaderValue;
        case HeaderValue =>
          if input == '\r' {
            state := ExpectingNewline2;
          } else if IsCtl(input) {
            return Bad;
          } else {
            req.PushValueChar(input);
          }
        case ExpectingNewline2 =>
          if input != '\n' { return Bad; }
          state := HeaderLineStart;
          var last := req.headers[|req.headers| - 1];
          if SameIgnoringCase("Content-Length", last.name) {
            req.contentLength := Atoi(last.value) % SIZE_T;
          }
        case ExpectingNewline3 =>
          r := if input == '\n' then Good else Bad;
      }
    }

    /** parse */
    method ParseInput(req: Request, input: string) returns (r: ResultType, used: nat)
      requires Ok(With(req))
      modifies this, req
      ensures Parsed(r, With(req), used) == Parse(old(With(req)), input) && req.content == old(req.content)
    {
      hide Consume;
      used := 0;
      while used < |input|
        invariant used <= |input| && Ok(With(req)) && req.content == old(req.content)
        invariant var rest := Parse(With(req), input[used..]);
          Parse(old(With(req)), input) == rest.(used := used + rest.used)
      {
        req.headerLength := req.headerLength + 1;
        r := ConsumeChar(req, input[used]);
        used := used + 1;
        if r == Good || r == Bad {
          return;
        }
      }
      r := Indeterminate;
    }
  }
}
