/** The converse of printing: whatever the parser accepts is a printed message. */
module HttpLanguage {
  import opened HttpParser
  import opened HttpGrammar

  /** The request line and the header lines, without the empty line at the end. */
  function Lines(m: Message): string {
    RequestLine(m) + PrintFields(m.fields)
  }

  function Last(m: Message): Field
    requires m.fields != []
  {
    m.fields[|m.fields| - 1]
  }

  function Before(m: Message): string
    requires m.fields != []
  {
    RequestLine(m) + PrintFields(m.fields[..|m.fields| - 1])
  }

  /** A field whose last line has not been ended. */
  function OpenField(f: Field): string {
    if f.folds == [] then f.name + ": " + f.first else
      var k := |f.folds| - 1;
      f.name + ": " + f.first + CRLF + PrintFolds(f.folds[..k]) + f.folds[k].blanks + f.folds[k].text
  }

  lemma EndOfLine(f: Field)
    ensures OpenField(f) + CRLF == PrintField(f)
  {
    if f.folds == [] {
      assert PrintFolds(f.folds) == "";
    }
  }

  predicate HasField(state: State) {
    state in {HeaderName, SpaceBeforeHeaderValue, HeaderValue, HeaderLws, ExpectingNewline2}
  }

  /** What has been read in a state, as far as the message is known. */
  function Read(state: State, m: Message): string
    requires HasField(state) ==> m.fields != []
  {
    var target, start := m.verb + " " + m.uri + " ", m.verb + " " + m.uri + " HTTP/";
    match state
    case MethodStart => ""
    case Method => m.verb
    case Uri => m.verb + " " + m.uri
    case HttpVersionH => target
    case HttpVersionT1 => target + "H"
    case HttpVersionT2 => target + "HT"
    case HttpVersionP => target + "HTT"
    case HttpVersionSlash => target + "HTTP"
    case HttpVersionMajorStart => start
    case HttpVersionMajor => start + m.major
    case HttpVersionMinorStart => start + m.major + "."
    case HttpVersionMinor => start + m.major + "." + m.minor
    case ExpectingNewline1 => start + m.major + "." + m.minor + "\r"
    case HeaderLineStart => Lines(m)
    case HeaderName => Before(m) + Last(m).name
    case SpaceBeforeHeaderValue => Before(m) + Last(m).name + ":"
    case HeaderValue => Before(m) + OpenField(Last(m))
    case HeaderLws => Before(m) + OpenField(Last(m))
    case ExpectingNewline2 => Before(m) + OpenField(Last(m)) + "\r"
    case ExpectingNewline3 => Lines(m) + "\r"
  }

  /** What the states presuppose of the message so far. */
  predicate Fits(state: State, m: Message) {
    match state
    case MethodStart => m.fields == []
    case Method => m.fields == [] && m.uri == ""
    case Uri => m.fields == []
    case HttpVersionH => m.fields == []
    case HttpVersionT1 => m.fields == []
    case HttpVersionT2 => m.fields == []
    case HttpVersionP => m.fields == []
    case HttpVersionSlash => m.fields == []
    case HttpVersionMajorStart => m.fields == []
    case HttpVersionMajor => m.fields == []
    case HttpVersionMinorStart => m.fields == []
    case HttpVersionMinor => m.fields == []
    case ExpectingNewline1 => m.fields == []
    case HeaderLineStart => true
    case HeaderName => m.fields != [] && Last(m).first == "" && Last(m).folds == []
    case SpaceBeforeHeaderValue => m.fields != [] && Last(m).first == "" && Last(m).folds == []
    case HeaderValue => m.fields != [] && (Last(m).folds != [] ==> Last(m).folds[|Last(m).folds| - 1].text != "")
    case HeaderLws => m.fields != [] && Last(m).folds != [] && Last(m).folds[|Last(m).folds| - 1].text == ""
    case ExpectingNewline2 => m.fields != []
    case ExpectingNewline3 => true
  }

  /** After reading s, the parser is where the message m has led it. */
  ghost predicate Reached(p: Parser, s: string, m: Message) {
    && Ok(p) && MessageOk(m) && |p.head.headers| == |m.fields|
    && Fits(p.state, m) && s == Read(p.state, m)
  }

  function WithLastField(m: Message, f: Field): Message
    requires m.fields != []
  {
    m.(fields := m.fields[|m.fields| - 1 := f])
  }

  lemma LastFieldChanged(m: Message, f: Field)
    requires m.fields != [] && MessageOk(m) && FieldOk(f)
    ensures var m' := WithLastField(m, f);
      MessageOk(m') && Before(m') == Before(m) && Last(m') == f && |m'.fields| == |m.fields|
  {
    var m' := WithLastField(m, f);
    assert m'.fields[..|m.fields| - 1] == m.fields[..|m.fields| - 1];
  }

  function WithLastText(f: Field, c: char): Field {
    if f.folds == [] then f.(first := f.first + [c]) else
      var k := |f.folds| - 1;
      f.(folds := f.folds[k := f.folds[k].(text := f.folds[k].text + [c])])
  }

  lemma TextExtended(f: Field, c: char)
    requires FieldOk(f) && !IsCtl(c)
    requires f.folds != [] && f.folds[|f.folds| - 1].text == "" ==> !IsBlank(c)
    ensures FieldOk(WithLastText(f, c)) && OpenField(WithLastText(f, c)) == OpenField(f) + [c]
  {
    if f.folds != [] {
      var k := |f.folds| - 1;
      var g := f.folds[k].(text := f.folds[k].text + [c]);
      assert FoldOk(f.folds[k]);
      assert FoldOk(g);
      assert f.folds[k := g][..k] == f.folds[..k];
    } else {
      assert f.name + ": " + (f.first + [c]) == f.name + ": " + f.first + [c];
    }
  }

  lemma BlankAdded(f: Field, c: char)
    requires FieldOk(f) && IsBlank(c)
    ensures var g := f.(folds := f.folds + [Fold([c], "")]);
      FieldOk(g) && OpenField(g) == PrintField(f) + [c]
    ensures f.folds != [] && f.folds[|f.folds| - 1].text == "" ==>
      var k := |f.folds| - 1;
      var g := f.(folds := f.folds[k := f.folds[k].(blanks := f.folds[k].blanks + [c])]);
      FieldOk(g) && OpenField(g) == OpenField(f) + [c]
  {
    var g := f.(folds := f.folds + [Fold([c], "")]);
    assert g.folds[..|f.folds|] == f.folds;
    assert FoldOk(Fold([c], ""));
    if f.folds != [] && f.folds[|f.folds| - 1].text == "" {
      var k := |f.folds| - 1;
      var b := f.folds[k].(blanks := f.folds[k].blanks + [c]);
      assert FoldOk(f.folds[k]) && FoldOk(b);
      assert f.folds[k := b][..k] == f.folds[..k];
    }
  }

  /** One character read of the method or the target. */
  lemma StepInTarget(p: Parser, s: string, m: Message, c: char, q: Parser) returns (m': Message)
    requires Reached(p, s, m) && Consume(Counted(p), c) == Step(Indeterminate, q)
    requires p.state in {MethodStart, Method, Uri}
    ensures Reached(q, s + [c], m')
  {
    hide Lines, Before, OpenField, FieldOk, IsToken, IsCtl;
    m' := m;
    match p.state {
      case MethodStart => m' := Message([c], "", "0", "0", []);
      case Method => if c != ' ' { m' := m.(verb := m.verb + [c]); }
      case Uri => if c != ' ' { m' := m.(uri := m.uri + [c]); }
    }
    assert s + [c] == Read(q.state, m');
  }

  /** One character read of the protocol's name, or the end of the request line. */
  lemma StepInProtocol(p: Parser, s: string, m: Message, c: char, q: Parser)
    requires Reached(p, s, m) && Consume(Counted(p), c) == Step(Indeterminate, q)
    requires p.state in {HttpVersionH, HttpVersionT1, HttpVersionT2, HttpVersionP, HttpVersionSlash}
    ensures Reached(q, s + [c], m)
  {
    hide Lines, Before, OpenField, MessageOk;
    assert s + [c] == Read(q.state, m);
  }

  /** One character read of the version or of the end of the request line. */
  lemma StepInVersion(p: Parser, s: string, m: Message, c: char, q: Parser) returns (m': Message)
    requires Reached(p, s, m) && Consume(Counted(p), c) == Step(Indeterminate, q)
    requires p.state in
      {HttpVersionMajorStart, HttpVersionMajor, HttpVersionMinorStart, HttpVersionMinor, ExpectingNewline1}
    ensures Reached(q, s + [c], m')
  {
    hide Before, OpenField, FieldOk, IsToken, IsCtl;
    m' := m;
    match p.state {
      case HttpVersionMajorStart => m' := m.(major := [c]);
      case HttpVersionMajor => if c != '.' { m' := m.(major := m.major + [c]); }
      case HttpVersionMinorStart => m' := m.(minor := [c]);
      case HttpVersionMinor => if c != '\r' { m' := m.(minor := m.minor + [c]); }
      case ExpectingNewline1 =>
    }
    assert s + [c] == Read(q.state, m');
  }

  /** One character read in the request line. */
  lemma StepInRequestLine(p: Parser, s: string, m: Message, c: char, q: Parser) returns (m': Message)
    requires Reached(p, s, m) && Consume(Counted(p), c) == Step(Indeterminate, q)
    requires !HasField(p.state) && !p.state.HeaderLineStart?
    ensures Reached(q, s + [c], m')
  {
    hide Reached, Consume;
    ReachedOk(p, s, m);
    NotGoingOn(p, c);
    if p.state in {MethodStart, Method, Uri} {
      m' := StepInTarget(p, s, m, c, q);
    } else if p.state in {HttpVersionH, HttpVersionT1, HttpVersionT2, HttpVersionP, HttpVersionSlash} {
      StepInProtocol(p, s, m, c, q);
      m' := m;
    } else {
      m' := StepInVersion(p, s, m, c, q);
    }
  }

  lemma NotGoingOn(p: Parser, c: char)
    requires Ok(p)
    ensures p.state.ExpectingNewline3? ==> Consume(Counted(p), c).result != Indeterminate
  {
  }

  lemma NewField(m: Message, c: char)
    requires MessageOk(m) && IsToken(c)
    ensures var m' := m.(fields := m.fields + [Field([c], "", [])]);
      MessageOk(m') && Before(m') + Last(m').name == Lines(m) + [c]
  {
    var m' := m.(fields := m.fields + [Field([c], "", [])]);
    assert m'.fields[..|m.fields|] == m.fields;
    assert FieldOk(Field([c], "", []));
  }

  lemma LinesOfOpen(m: Message)
    requires m.fields != []
    ensures Before(m) + PrintField(Last(m)) == Lines(m)
    ensures Before(m) + OpenField(Last(m)) + CRLF == Lines(m)
  {
    EndOfLine(Last(m));
  }

  /** One character read at the start of a header line: the end, a new header, or a continuation. */
  lemma StepAtLineStart(p: Parser, s: string, m: Message, c: char, q: Parser) returns (m': Message)
    requires Reached(p, s, m) && Consume(Counted(p), c) == Step(Indeterminate, q)
    requires p.state.HeaderLineStart?
    ensures Reached(q, s + [c], m')
  {
    hide PrintField, PrintFolds, PrintFields, RequestLine, OpenField, MessageOk, FieldOk, IsTspecial, IsCtl;
    m' := m;
    if c == '\r' {
    } else if IsBlank(c) && m.fields != [] {
      LinesOfOpen(m);
      LastOk(m);
      BlankAdded(Last(m), c);
      var g := Last(m).(folds := Last(m).folds + [Fold([c], "")]);
      LastFieldChanged(m, g);
      m' := WithLastField(m, g);
    } else {
      m' := m.(fields := m.fields + [Field([c], "", [])]);
      NewField(m, c);
    }
    assert s + [c] == Read(q.state, m');
  }

  /** One character read of a header's name, or behind it. */
  lemma StepInName(p: Parser, s: string, m: Message, c: char, q: Parser) returns (m': Message)
    requires Reached(p, s, m) && Consume(Counted(p), c) == Step(Indeterminate, q)
    requires p.state.HeaderName? || p.state.SpaceBeforeHeaderValue?
    ensures Reached(q, s + [c], m')
  {
    hide PrintField, PrintFolds, PrintFields, RequestLine, OpenField, MessageOk, FieldOk, IsTspecial, IsCtl, Before;
    m' := m;
    LastOk(m);
    match p.state {
      case HeaderName =>
        if c != ':' {
          var g := Last(m).(name := Last(m).name + [c]);
          NameExtended(Last(m), c);
          LastFieldChanged(m, g);
          m' := WithLastField(m, g);
        }
      case SpaceBeforeHeaderValue =>
        OpenEmpty(Last(m));
    }
    assert s + [c] == Read(q.state, m');
  }

  /** One character read in a header's value, or in the blanks or at the line end within it. */
  lemma StepInValue(p: Parser, s: string, m: Message, c: char, q: Parser) returns (m': Message)
    requires Reached(p, s, m) && Consume(Counted(p), c) == Step(Indeterminate, q)
    requires p.state.HeaderValue? || p.state.HeaderLws? || p.state.ExpectingNewline2?
    ensures Reached(q, s + [c], m')
  {
    hide PrintField, PrintFolds, PrintFields, RequestLine, OpenField, MessageOk, FieldOk;
    m' := m;
    LinesOfOpen(m);
    LastOk(m);
    match p.state {
      case HeaderValue =>
        if c != '\r' {
          TextExtended(Last(m), c);
          LastFieldChanged(m, WithLastText(Last(m), c));
          m' := WithLastField(m, WithLastText(Last(m), c));
        }
      case HeaderLws =>
        if IsBlank(c) {
          BlankAdded(Last(m), c);
          var k := |Last(m).folds| - 1;
          var g := Last(m).(folds := Last(m).folds[k := Last(m).folds[k].(blanks := Last(m).folds[k].blanks + [c])]);
          LastFieldChanged(m, g);
          m' := WithLastField(m, g);
        } else if c != '\r' {
          TextExtended(Last(m), c);
          LastFieldChanged(m, WithLastText(Last(m), c));
          m' := WithLastField(m, WithLastText(Last(m), c));
        }
      case ExpectingNewline2 =>
        assert Before(m) + OpenField(Last(m)) + "\r" + ['\n'] == Before(m) + OpenField(Last(m)) + CRLF;
    }
    assert s + [c] == Read(q.state, m');
  }

  lemma LastOk(m: Message)
    requires MessageOk(m) && m.fields != []
    ensures FieldOk(Last(m))
  {
  }

  lemma NameExtended(f: Field, c: char)
    requires FieldOk(f) && IsToken(c)
    ensures FieldOk(f.(name := f.name + [c]))
  {
  }

  lemma OpenEmpty(f: Field)
    requires f.first == "" && f.folds == []
    ensures OpenField(f) == f.name + ":" + [' ']
  {
  }

  lemma ReachedOk(p: Parser, s: string, m: Message)
    requires Reached(p, s, m)
    ensures Ok(p)
  {
  }

  lemma NotSpecial()
    ensures !IsTspecial('X')
  {
  }

  lemma StartReached(none: nat) returns (m: Message)
    ensures Reached(Blank(none), "", m)
  {
    hide IsTspecial;
    assert !IsTspecial('X') by { NotSpecial(); }
    m := Message("X", "", "0", "0", []);
  }

  lemma GoodNow(p: Parser, s: string, m: Message, c: char)
    requires Reached(p, s, m) && Consume(Counted(p), c).result == Good
    ensures MessageOk(m) && Print(m) == s + [c]
  {
    hide PrintField, PrintFields, RequestLine, OpenField, MessageOk, IsTspecial, IsContentLength, LengthField;
    assert Lines(m) + "\r" + [c] == Lines(m) + CRLF;
  }

  lemma {:induction false} ReachedGood(p: Parser, s: string, m0: Message, input: string) returns (m: Message)
    requires Reached(p, s, m0) && Parse(p, input).result == Good
    ensures MessageOk(m) && Print(m) == s + input[..Parse(p, input).used]
    decreases |input|
  {
    hide Consume, Reached, Print, MessageOk;
    ReachedOk(p, s, m0);
    var c := input[0];
    var step := Consume(Counted(p), c);
    if step.result == Good {
      m := m0;
      assert input[..1] == [c];
      GoodNow(p, s, m, c);
    } else {
      var m1;
      if p.state.HeaderLineStart? {
        m1 := StepAtLineStart(p, s, m0, c, step.next);
      } else if p.state.HeaderName? || p.state.SpaceBeforeHeaderValue? {
        m1 := StepInName(p, s, m0, c, step.next);
      } else if p.state.HeaderValue? || p.state.HeaderLws? || p.state.ExpectingNewline2? {
        m1 := StepInValue(p, s, m0, c, step.next);
      } else {
        m1 := StepInRequestLine(p, s, m0, c, step.next);
      }
      m := ReachedGood(step.next, s + [c], m1, input[1..]);
      var n := Parse(step.next, input[1..]).used;
      assert input[..n + 1] == [c] + input[1..][..n];
    }
  }

  /** The parser accepts exactly the printed messages, and at once when they are complete. */
  lemma AcceptsExactlyThePrinted(input: string, none: nat)
    ensures Parse(Blank(none), input).result == Good <==> exists m :: MessageOk(m) && Print(m) <= input
    ensures forall m :: MessageOk(m) && Print(m) <= input ==> Parse(Blank(none), input).used == |Print(m)|
  {
    hide MessageOk, Print, Reached, Parse;
    forall m | MessageOk(m) && Print(m) <= input
      ensures Parse(Blank(none), input).result == Good && Parse(Blank(none), input).used == |Print(m)|
    {
      assert input == Print(m) + input[|Print(m)|..];
      PrintedIsParsed(m, input[|Print(m)|..], none);
    }
    if Parse(Blank(none), input).result == Good {
      var m0 := StartReached(none);
      var m := ReachedGood(Blank(none), "", m0, input);
      assert Print(m) == input[..Parse(Blank(none), input).used];
    }
  }

  // ---------------------------------------------------------------- what is refused

  /** A character that leads on from a state, towards the end of a message. */
  datatype Move = Move(c: char, next: State, left: nat)

  function Onward(state: State): Move {
    match state
    case MethodStart => Move('X', Method, 14)
    case Method => Move(' ', Uri, 13)
    case Uri => Move(' ', HttpVersionH, 12)
    case HttpVersionH => Move('H', HttpVersionT1, 11)
    case HttpVersionT1 => Move('T', HttpVersionT2, 10)
    case HttpVersionT2 => Move('T', HttpVersionP, 9)
    case HttpVersionP => Move('P', HttpVersionSlash, 8)
    case HttpVersionSlash => Move('/', HttpVersionMajorStart, 7)
    case HttpVersionMajorStart => Move('1', HttpVersionMajor, 6)
    case HttpVersionMajor => Move('.', HttpVersionMinorStart, 5)
    case HttpVersionMinorStart => Move('0', HttpVersionMinor, 4)
    case HttpVersionMinor => Move('\r', ExpectingNewline1, 3)
    case HeaderName => Move(':', SpaceBeforeHeaderValue, 5)
    case SpaceBeforeHeaderValue => Move(' ', HeaderValue, 4)
    case HeaderValue => Move('\r', ExpectingNewline2, 3)
    case HeaderLws => Move('\r', ExpectingNewline2, 3)
    case ExpectingNewline1 => Move('\n', HeaderLineStart, 2)
    case ExpectingNewline2 => Move('\n', HeaderLineStart, 2)
    case HeaderLineStart => Move('\r', ExpectingNewline3, 1)
    case ExpectingNewline3 => Move('\n', ExpectingNewline3, 0)
  }

  lemma OnwardStep(p: Parser)
    requires Ok(p)
    ensures var m, s := Onward(p.state), Consume(Counted(p), Onward(p.state).c);
      if p.state.ExpectingNewline3? then s.result == Good
      else s.result == Indeterminate && s.next.state == m.next && Onward(m.next).left < m.left
  {
    hide IsTspecial;
    NotSpecial();
  }

  function Completion(state: State): string
    decreases Onward(state).left
  {
    var m := Onward(state);
    if Onward(m.next).left < m.left then [m.c] + Completion(m.next) else [m.c]
  }

  lemma {:induction false} CompletionAccepted(p: Parser)
    requires Ok(p)
    ensures Parse(p, Completion(p.state)).result == Good
    decreases Onward(p.state).left
  {
    hide Consume, Onward;
    OnwardStep(p);
    var m := Onward(p.state);
    var s := Consume(Counted(p), m.c);
    if s.result == Indeterminate {
      assert ([m.c] + Completion(m.next))[1..] == Completion(m.next);
      CompletionAccepted(s.next);
    }
  }

  /** An input is refused exactly when, however it goes on, it does not begin with a printed message. */
  lemma RefusesExactlyTheHopeless(input: string, none: nat)
    ensures Parse(Blank(none), input).result == Bad
       <==> forall rest: string, m :: MessageOk(m) ==> !(Print(m) <= input + rest)
  {
    hide MessageOk, Print, Parse, Completion;
    var p := Parse(Blank(none), input);
    forall rest: string
      ensures Parse(Blank(none), input + rest).result == Good <==> exists m :: MessageOk(m) && Print(m) <= input + rest
      ensures p.result == Bad ==> Parse(Blank(none), input + rest).result == Bad
    {
      AcceptsExactlyThePrinted(input + rest, none);
      CutIndependent(Blank(none), input, rest);
    }
    if p.result != Bad {
      var rest := if p.result == Good then "" else Completion(p.next.state);
      assert Parse(Blank(none), input + rest).result == Good by {
        CutIndependent(Blank(none), input, rest);
        if p.result == Indeterminate { CompletionAccepted(p.next); }
      }
    }
  }
}
