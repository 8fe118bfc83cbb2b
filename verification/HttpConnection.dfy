/** One connection of the HTTP server: reads are parsed until the head is complete, then collected until the body is. */
module HttpConnection {
  import opened HttpParser
  import opened HttpGrammar
  import opened HttpTexts

  const MAX_PACKAGE_SIZE: nat := 16384
  const BUFFER_SIZE: nat := 2048

  /** What the connection waits for, or how it has ended. */
  datatype Progress =
    | AwaitHead | AwaitContent
    | Handled(head: Head, content: string) // handle_request was called, its reply is written
    | BadRequest // the stock reply is written
    | Stopped // the peer went away

  // ---------------------------------------------------------------- what all bytes together mean

  /** The verdict on the bytes after a complete head. */
  function JudgeBody(head: Head, body: string): Progress {
    if SameIgnoringCase(head.verb, "POST") then
      if |body| == head.contentLength then Handled(head, body)
      else if |body| < head.contentLength then AwaitContent
      else BadRequest
    else if SameIgnoringCase(head.verb, "GET") then Handled(head, "")
    else BadRequest
  }

  /** The verdict on all bytes received, whichever way they came. */
  function Judge(s: string): Progress {
    if |s| > MAX_PACKAGE_SIZE then BadRequest else
      var r := Parse(Blank(0), s);
      match r.result
      case Good => JudgeBody(r.next.head, s[r.used..])
      case Bad => BadRequest
      case Indeterminate => AwaitHead
  }

  class Connection {
    const request: Request
    const parser: RequestParser
    var total: nat // total_bytes_received_
    var progress: Progress
    ghost var received: string
    ghost var calls: seq<(Head, string)> // calls of handle_request, with the request's content

    /** A connection still reading has judged all it has received as a whole. */
    ghost predicate Valid()
      reads this, request, parser
    {
      && total == |received|
      && (progress.AwaitHead? || progress.AwaitContent? ==> progress == Judge(received))
      && (progress.AwaitHead? ==>
            && request.content == "" && Ok(parser.With(request))
            && Parse(Blank(0), received) == Parsed(Indeterminate, parser.With(request), |received|))
      && (progress.AwaitContent? ==>
            && SameIgnoringCase(request.verb, "POST") && request.headerLength <= |received|
            && request.content == received[request.headerLength..]
            && Parse(Blank(0), received) == Parsed(Good, parser.With(request), request.headerLength))
      && calls == if progress.Handled? then [(progress.head, progress.content)] else []
    }

    constructor ()
      ensures Valid() && progress == AwaitHead && received == "" && fresh(request) && fresh(parser)
    {
      request := new Request();
      parser := new RequestParser();
      total, progress, received, calls := 0, AwaitHead, "", [];
    }

    /** do_check */
    method DoCheck()
      modifies this`progress, this`calls
      ensures progress == if |request.content| == request.contentLength then Handled(request.Value(), request.content)
                          else if |request.content| < request.contentLength then AwaitContent else BadRequest
      ensures calls == old(calls) + if progress.Handled? then [(progress.head, progress.content)] else []
    {
      var size := |request.content|;
      if size == request.contentLength {
        calls := calls + [(request.Value(), request.content)];
        progress := Handled(request.Value(), request.content);
      } else if size < request.contentLength {
        progress := AwaitContent;
      } else {
        progress := BadRequest;
      }
    }

    /** do_read_head, when the read completes. */
    method HeadRead(data: string)
      requires Valid() && progress == AwaitHead && 0 < |data| <= BUFFER_SIZE
      modifies this, request, parser
      ensures Valid() && received == old(received) + data && progress == Judge(received)
    {
      hide Consume, Parse, SameIgnoringCase;
      ghost var before := received;
      received := received + data;
      total := total + |data|;
      if total > MAX_PACKAGE_SIZE {
        progress := BadRequest;
        return;
      }
      CutIndependent(Blank(0), before, data);
      var result, used := parser.ParseInput(request, data);
      match result {
        case Good =>
          assert received[request.headerLength..] == data[used..];
          if SameIgnoringCase(request.verb, "POST") {
            var contentBytes := total - request.headerLength;
            if contentBytes > 0 {
              request.content := request.content + data[|data| - contentBytes..];
            }
            assert request.content == received[request.headerLength..];
            DoCheck();
          } else if SameIgnoringCase(request.verb, "GET") {
            calls := calls + [(request.Value(), request.content)];
            progress := Handled(request.Value(), request.content);
          } else {
            progress := BadRequest;
          }
        case Bad =>
          progress := BadRequest;
        case Indeterminate =>
      }
    }

    /** do_read_content, when the read completes. */
    method ContentRead(data: string)
      requires Valid() && progress == AwaitContent && 0 < |data| <= BUFFER_SIZE
      modifies this, request
      ensures Valid() && received == old(received) + data && progress == Judge(received)
    {
      ghost var before := received;
      received := received + data;
      total := total + |data|;
      if total > MAX_PACKAGE_SIZE {
        progress := BadRequest;
        return;
      }
      CutIndependent(Blank(0), before, data);
      request.content := request.content + data;
      assert request.content == received[request.headerLength..];
      DoCheck();
    }

    /** A read ends in an error: the connection is stopped. */
    method ReadFailed()
      requires Valid() && (progress == AwaitHead || progress == AwaitContent)
      modifies this`progress
      ensures Valid() && progress == Stopped && calls == []
    {
      progress := Stopped;
    }
  }

  // ---------------------------------------------------------------- whole requests

  function Joined(pieces: seq<string>): string {
    if pieces == [] then "" else Joined(pieces[..|pieces| - 1]) + pieces[|pieces| - 1]
  }

  /** Of a complete POST message, every part short of the whole leaves the connection waiting. */
  lemma WaitsForWholePost(m: Message, body: string, s: string)
    requires MessageOk(m) && InAnyCase(m.verb, "post", "POST") && Declares(m.fields, |body|)
    requires |Print(m) + body| <= MAX_PACKAGE_SIZE && s <= Print(m) + body
    ensures s == Print(m) + body ==> Judge(s) == Handled(Meaning(m, |Print(m)|, 0), body)
    ensures s != Print(m) + body ==> Judge(s) == AwaitHead || Judge(s) == AwaitContent
  {
    hide Print, MessageOk, Declares, InAnyCase, SameIgnoringCase;
    var head := Print(m);
    VerbNames(m.verb);
    DeclaredIsRead(m.fields, |body|);
    if |s| < |head| {
      assert head == s + head[|s|..];
      assert head + "" == head;
      PrintedIsParsed(m, "", 0);
      CutIndependent(Blank(0), s, head[|s|..]);
    } else {
      var part := s[|head|..];
      assert s == head + part && part == body[..|part|];
      PrintedIsParsed(m, part, 0);
      assert s[|head|..] == part;
      assert s != head + body ==> |part| < |body| by { if |part| == |body| { assert part == body; } }
    }
  }

  /** What becomes of other messages: a GET, an unknown method, a POST with more than its body, and too much data. */
  lemma JudgedOthers(m: Message, rest: string, length: nat)
    requires MessageOk(m)
    ensures var s := Print(m) + rest;
      if |s| > 16384 then Judge(s) == BadRequest
      else if InAnyCase(m.verb, "get", "GET") then Judge(s) == Handled(Meaning(m, |Print(m)|, 0), "")
      else if InAnyCase(m.verb, "post", "POST") then
        Declares(m.fields, length) && length < |rest| ==> Judge(s) == BadRequest
      else Judge(s) == BadRequest
  {
    hide Print, MessageOk, Declares, InAnyCase, SameIgnoringCase;
    VerbNames(m.verb);
    NotBoth(m.verb);
    PrintedIsParsed(m, rest, 0);
    assert (Print(m) + rest)[|Print(m)|..] == rest;
    if Declares(m.fields, length) && length < |rest| <= MAX_PACKAGE_SIZE { DeclaredIsRead(m.fields, length); }
  }

  lemma NotBoth(verb: string)
    ensures !InAnyCase(verb, "get", "GET") || !InAnyCase(verb, "post", "POST")
  {
  }

  lemma {:induction false} JoinedPrefix(pieces: seq<string>, k: nat)
    requires k <= |pieces|
    ensures Joined(pieces[..k]) <= Joined(pieces)
    ensures (forall i :: 0 <= i < |pieces| ==> pieces[i] != "") && k < |pieces| ==>
      |Joined(pieces[..k])| < |Joined(pieces)|
    decreases |pieces|
  {
    if k == |pieces| {
      assert pieces[..k] == pieces;
    } else {
      var n := |pieces| - 1;
      JoinedPrefix(pieces[..n], k);
      assert pieces[..n][..k] == pieces[..k];
    }
  }

  /**
    However a complete POST message is cut into reads, the request is handled exactly once, after the
    last read, with the body as its content.
    */
  method ServePost(c: Connection, m: Message, body: string, pieces: seq<string>)
    requires c.Valid() && c.progress == AwaitHead && c.received == ""
    requires MessageOk(m) && InAnyCase(m.verb, "post", "POST") && Declares(m.fields, |body|)
    requires |Print(m) + body| <= MAX_PACKAGE_SIZE && Joined(pieces) == Print(m) + body
    requires forall i :: 0 <= i < |pieces| ==> 0 < |pieces[i]| <= BUFFER_SIZE
    modifies c, c.request, c.parser
    ensures c.Valid() && c.progress == Handled(Meaning(m, |Print(m)|, 0), body)
    ensures c.calls == [(Meaning(m, |Print(m)|, 0), body)]
  {
    hide Print, MessageOk, Judge, Meaning, Declares, InAnyCase;
    for k := 0 to |pieces|
      invariant c.Valid() && c.received == Joined(pieces[..k])
      invariant k < |pieces| ==> (c.progress == AwaitHead || c.progress == AwaitContent) && c.calls == []
      invariant c.progress == Judge(c.received)
    {
      JoinedPrefix(pieces, k + 1);
      assert pieces[..k + 1][..k] == pieces[..k];
      WaitsForWholePost(m, body, Joined(pieces[..k + 1]));
      if c.progress == AwaitHead {
        c.HeadRead(pieces[k]);
      } else {
        c.ContentRead(pieces[k]);
      }
    }
    assert pieces[..|pieces|] == pieces;
    WaitsForWholePost(m, body, Joined(pieces));
  }
}
