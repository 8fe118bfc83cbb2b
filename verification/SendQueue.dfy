/** The client's sending side: PDUs leave a first-in first-out queue by writes that may be partial. */
module SendQueue {
  import opened Framing

  datatype SendError = ErrOk | ErrSendTimeout | ErrConnectionLost

  /** How a PDU left the queue, and how many of its bytes had been written by then. */
  datatype Fate = Sent | TimedOut(written: nat) | Lost(written: nat) | Abandoned(written: nat)

  /** appl_pdu */
  class Pdu {
    const data: Octets
    const hasCallback: bool // on_sent_ is set
    const expireTime: int
    var offset: nat

    constructor (data: Octets, hasCallback: bool, expireTime: int)
      ensures this.data == data && this.hasCallback == hasCallback && this.expireTime == expireTime && offset == 0
    {
      this.data, this.hasCallback, this.expireTime, offset := data, hasCallback, expireTime, 0;
    }
  }

  predicate Distinct(s: seq<Pdu>) {
    forall i, j :: 0 <= i < j < |s| ==> s[i] != s[j]
  }

  /** The bytes of a PDU that its fate says were written. */
  function WrittenOf(p: Pdu, f: Fate): Octets {
    match f
    case Sent => p.data
    case TimedOut(n) => if n <= |p.data| then p.data[..n] else p.data
    case Lost(n) => if n <= |p.data| then p.data[..n] else p.data
    case Abandoned(n) => if n <= |p.data| then p.data[..n] else p.data
  }

  /** The callback of a PDU with that fate; an abandoned one gets none. */
  function CallbackOf(p: Pdu, f: Fate): seq<(Pdu, SendError)> {
    if !p.hasCallback then [] else
      match f
      case Sent => [(p, ErrOk)]
      case TimedOut(_) => [(p, ErrSendTimeout)]
      case Lost(_) => [(p, ErrConnectionLost)]
      case Abandoned(_) => []
  }

  /** The bytes written for the PDUs gone, in order. */
  function Written(gone: seq<Pdu>, fates: seq<Fate>): Octets
    requires |gone| == |fates|
  {
    if gone == [] then [] else
      Written(gone[..|gone| - 1], fates[..|gone| - 1]) + WrittenOf(gone[|gone| - 1], fates[|gone| - 1])
  }

  function Callbacks(gone: seq<Pdu>, fates: seq<Fate>): seq<(Pdu, SendError)>
    requires |gone| == |fates|
  {
    if gone == [] then [] else
      Callbacks(gone[..|gone| - 1], fates[..|gone| - 1]) + CallbackOf(gone[|gone| - 1], fates[|gone| - 1])
  }

  /** One more PDU gone. */
  lemma OneMore(gone: seq<Pdu>, fates: seq<Fate>, p: Pdu, f: Fate)
    requires |gone| == |fates|
    ensures Written(gone + [p], fates + [f]) == Written(gone, fates) + WrittenOf(p, f)
    ensures Callbacks(gone + [p], fates + [f]) == Callbacks(gone, fates) + CallbackOf(p, f)
  {
    var g, h := gone + [p], fates + [f];
    assert g[..|g| - 1] == gone && h[..|g| - 1] == fates;
  }

  /** At most one callback for each PDU gone, and none for the others. */
  lemma {:induction false} CallbackOnce(gone: seq<Pdu>, fates: seq<Fate>, p: Pdu)
    requires |gone| == |fates| && Distinct(gone)
    ensures CallsTo(Callbacks(gone, fates), p) <= 1
    ensures p !in gone ==> CallsTo(Callbacks(gone, fates), p) == 0
  {
    if gone != [] {
      var n := |gone| - 1;
      CallbackOnce(gone[..n], fates[..n], p);
      CallsToConcat(Callbacks(gone[..n], fates[..n]), CallbackOf(gone[n], fates[n]), p);
      assert p == gone[n] ==> p !in gone[..n];
    }
  }

  function CallsTo(calls: seq<(Pdu, SendError)>, p: Pdu): nat {
    if calls == [] then 0 else (if calls[0].0 == p then 1 else 0) + CallsTo(calls[1..], p)
  }

  lemma {:induction false} CallsToConcat(a: seq<(Pdu, SendError)>, b: seq<(Pdu, SendError)>, p: Pdu)
    ensures CallsTo(a + b, p) == CallsTo(a, p) + CallsTo(b, p)
  {
    if a == [] {
      assert a + b == b;
    } else {
      assert (a + b)[1..] == a[1..] + b;
      CallsToConcat(a[1..], b, p);
    }
  }

  function Datas(s: seq<Pdu>): (d: seq<Octets>)
    ensures |d| == |s|
  {
    seq(|s|, i requires 0 <= i < |s| => s[i].data)
  }

  predicate AllSent(fates: seq<Fate>) {
    forall f :: f in fates ==> f.Sent?
  }

  /** Without drops, what was written for the PDUs gone is their concatenation. */
  lemma {:induction false} WrittenWhole(gone: seq<Pdu>, fates: seq<Fate>)
    requires |gone| == |fates| && AllSent(fates)
    ensures Written(gone, fates) == Concat(Datas(gone))
  {
    if gone != [] {
      var n := |gone| - 1;
      WrittenWhole(gone[..n], fates[..n]);
      ConcatAppend(Datas(gone[..n]), gone[n].data);
      assert Datas(gone) == Datas(gone[..n]) + [gone[n].data];
    }
  }

  /** How many writes the PDUs take at most, when each write takes something. */
  function Cost(queue: seq<Pdu>): nat {
    if queue == [] then 0 else |queue[0].data| + 1 + Cost(queue[1..])
  }

  // ---------------------------------------------------------------- runs

  /** What send does next: it takes up to so many bytes, or none (0 or -1); and the judgement on its error. */
  datatype Answer = Answer(taken: int, closeAfter: bool, now: int)

  datatype Event = Send(data: Octets, hasCallback: bool, expireTime: int) | Write(answer: Answer)

  /** The answer neither breaks the connection nor comes too late for a PDU that it takes a part of. */
  predicate Spares(a: Answer, data: Octets, expireTime: int) {
    if a.taken <= 0 then !a.closeAfter else a.now <= expireTime || |data| <= a.taken
  }

  /** The PDUs handed over, in order. */
  function SentDatas(events: seq<Event>): seq<Octets> {
    if events == [] then [] else
      var n := |events| - 1;
      SentDatas(events[..n]) + if events[n].Send? then [events[n].data] else []
  }

  predicate SparesQueue(events: seq<Event>, queue: seq<Pdu>) {
    forall i, p :: 0 <= i < |events| && events[i].Write? && p in queue ==>
      Spares(events[i].answer, p.data, p.expireTime)
  }

  predicate SparesSent(events: seq<Event>) {
    forall i, j :: 0 <= j < |events| && 0 <= i < |events| && events[i].Write? && events[j].Send? ==>
      Spares(events[i].answer, events[j].data, events[j].expireTime)
  }

  class Sender {
    var isOpen: bool
    var queue: seq<Pdu>
    ghost var accepted: seq<Pdu> // every PDU ever queued on this connection, in order
    ghost var fates: seq<Fate> // of the first ones, which have left the queue and were disposed of
    ghost var wire: Octets // all bytes written
    ghost var calls: seq<(Pdu, SendError)> // all callbacks handed over

    ghost predicate Bookkept()
      reads this`queue, this`accepted, this`fates, this`calls
    {
      && |fates| <= |accepted| && queue == accepted[|fates|..] && Distinct(accepted)
      && calls == Callbacks(accepted[..|fates|], fates)
    }

    /** The bytes written of the PDU in front. */
    ghost function FrontWritten(): Octets
      requires queue != [] ==> queue[0].offset <= |queue[0].data|
      reads this`queue, queue
    {
      if queue == [] then [] else queue[0].data[..queue[0].offset]
    }

    ghost predicate Valid()
      reads this`queue, this`accepted, this`fates, this`wire, this`calls, queue
    {
      && Bookkept()
      && (forall i :: 0 <= i < |queue| ==> queue[i].offset <= |queue[i].data| && (i > 0 ==> queue[i].offset == 0))
      && wire == Written(accepted[..|fates|], fates) + FrontWritten()
    }

    /** A fresh connection. */
    constructor ()
      ensures Valid() && isOpen && queue == [] && accepted == [] && fates == [] && wire == [] && calls == []
    {
      isOpen, queue := true, [];
      accepted, fates, wire, calls := [], [], [], [];
    }

    /** async_send */
    method AsyncSend(data: Octets, hasCallback: bool, expireTime: int)
      requires Valid() && forall p :: p in accepted ==> allocated(p)
      modifies this`queue, this`accepted
      ensures Valid()
      ensures !isOpen ==> queue == old(queue) && accepted == old(accepted)
      ensures isOpen ==>
        && |queue| == |old(queue)| + 1 && queue[..|old(queue)|] == old(queue) && fresh(queue[|old(queue)|])
        && accepted == old(accepted) + [queue[|old(queue)|]]
        && queue[|old(queue)|].data == data && queue[|old(queue)|].hasCallback == hasCallback
        && queue[|old(queue)|].expireTime == expireTime && queue[|old(queue)|].offset == 0
    {
      if isOpen {
        var pdu := new Pdu(data, hasCallback, expireTime);
        queue := queue + [pdu];
        accepted := accepted + [pdu];
        assert accepted[..|fates|] == old(accepted[..|fates|]);
      }
    }

    /** pop_front, with the callback posted to the application thread as the PDU's fate demands; it is then deleted. */
    method PopFront(ghost f: Fate)
      requires Bookkept() && queue != []
      modifies this`queue, this`fates, this`calls
      ensures Bookkept() && queue == old(queue)[1..] && fates == old(fates) + [f]
      ensures calls == old(calls) + CallbackOf(old(queue)[0], f)
      ensures Written(accepted[..|fates|], fates)
           == old(Written(accepted[..|fates|], fates)) + WrittenOf(old(queue)[0], f)
    {
      hide Written, Callbacks, CallbackOf, WrittenOf, Distinct;
      OneMore(accepted[..|fates|], fates, queue[0], f);
      assert accepted[..|fates| + 1] == accepted[..|fates|] + [queue[0]];
      calls := calls + CallbackOf(queue[0], f);
      fates := fates + [f];
      queue := queue[1..];
    }

    /** The PDU in front has left the queue; its callback, if it has one, is handed over with the given error. */
    twostate predicate Left(f: Fate, e: SendError)
      requires old(queue) != []
      reads this`queue, this`fates, this`calls
    {
      && queue == old(queue)[1..] && fates == old(fates) + [f]
      && calls == old(calls) + if old(queue)[0].hasCallback then [(old(queue)[0], e)] else []
    }

    /** The queue is as it was, with k bytes of the PDU in front written. */
    twostate predicate Stays(k: int)
      requires old(queue) != []
      reads this`queue, this`fates, this`calls, queue
    {
      queue == old(queue) && fates == old(fates) && calls == old(calls) && queue[0].offset == k
    }

    /**
      do_write, with the outcome n of send: a number of bytes taken, or -1; closeAfter is the judgement
      on the socket's error, now the clock.
      */
    method DoWrite(n: int, closeAfter: bool, now: int) returns (ok: bool)
      requires Valid() && n >= -1 && (queue != [] ==> n <= |queue[0].data| - queue[0].offset)
      modifies this`queue, this`fates, this`calls, this`wire, queue`offset
      ensures Valid() && accepted == old(accepted)
      ensures !isOpen || old(queue) == [] ==>
        ok == isOpen && queue == old(queue) && fates == old(fates) && calls == old(calls) && wire == old(wire)
        && forall p :: p in queue ==> p.offset == old(p.offset)
      ensures isOpen && old(queue) != [] ==>
        var p, k := old(queue)[0], old(queue[0].offset);
        && wire == old(wire) + (if n > 0 then p.data[k..k + n] else [])
        && (if n == |p.data| - k then ok && Left(Sent, ErrOk)
            else if n > 0 && now <= p.expireTime then ok && Stays(k + n)
            else if n > 0 then ok && Left(TimedOut(k + n), ErrSendTimeout)
            else if closeAfter then !ok && Left(Lost(k), ErrConnectionLost)
            else ok && Stays(k))
    {
      hide Sender.Valid, Sender.Left, Sender.Stays;
      ok := false;
      if !isOpen {
        return;
      }
      if queue != [] {
        ok := WriteFront(n, closeAfter, now);
      } else {
        ok := true;
      }
    }

    /** The part of do_write for the PDU in front. */
    method WriteFront(n: int, closeAfter: bool, now: int) returns (ok: bool)
      requires Valid() && queue != [] && n >= -1 && n <= |queue[0].data| - queue[0].offset
      modifies this`queue, this`fates, this`calls, this`wire, queue`offset
      ensures Valid() && accepted == old(accepted)
      ensures var p, k := old(queue)[0], old(queue[0].offset);
        && wire == old(wire) + (if n > 0 then p.data[k..k + n] else [])
        && (if n == |p.data| - k then ok && Left(Sent, ErrOk)
            else if n > 0 && now <= p.expireTime then ok && Stays(k + n)
            else if n > 0 then ok && Left(TimedOut(k + n), ErrSendTimeout)
            else if closeAfter then !ok && Left(Lost(k), ErrConnectionLost)
            else ok && Stays(k))
    {
      hide Written, WrittenOf, CallbackOf, Sender.Bookkept, Sender.Valid, Sender.FrontWritten;
      Opened();
      var v := queue[0];
      ghost var gone := Written(accepted[..|fates|], fates);
      var left := |v.data| - v.offset;
      if n > 0 { wire := wire + v.data[v.offset..v.offset + n]; }
      Taken(gone, v.data, v.offset, n);
      WrittenCases(v, v.offset + if n > 0 then n else 0);
      CallbackCases(v, v.offset + if n > 0 then n else 0);
      assert wire == gone + v.data[..v.offset + if n > 0 then n else 0];
      ok := true;
      if n == left {
        PopFront(Sent);
      } else if n > 0 {
        if v.expireTime - now >= 0 {
          v.offset := v.offset + n;
        } else {
          PopFront(TimedOut(v.offset + n));
        }
      } else if closeAfter {
        PopFront(Lost(v.offset));
        ok := false;
      }
      Settled();
    }

    /** handle_error: the connection is closed and the queue cleared. */
    method HandleError()
      requires Valid()
      modifies this`isOpen, this`queue, this`fates, this`calls
      ensures Valid() && !isOpen && queue == [] && accepted == old(accepted) && wire == old(wire)
      ensures calls == old(calls) && |fates| == |accepted| && old(fates) <= fates
      ensures forall i :: |old(fates)| <= i < |fates| ==> fates[i].Abandoned?
    {
      hide Sender.Valid;
      isOpen := false;
      while queue != []
        invariant Valid() && !isOpen && old(fates) <= fates
        invariant forall i :: |old(fates)| <= i < |fates| ==> fates[i].Abandoned?
        invariant calls == old(calls) && wire == old(wire) && accepted == old(accepted)
        decreases |queue|
      {
        AbandonFront();
      }
      AllGone();
    }

    /** handle_error disposes of the PDU in front. */
    method AbandonFront()
      requires Valid() && queue != []
      modifies this`queue, this`fates, this`calls
      ensures Valid() && queue == old(queue)[1..] && calls == old(calls)
      ensures exists n :: fates == old(fates) + [Abandoned(n)]
    {
      hide Written, Callbacks, CallbackOf, Distinct;
      NoCallback(queue[0], queue[0].offset);
      PopFront(Abandoned(queue[0].offset));
      assert FrontWritten() == [];
      assert calls == old(calls) + [];
    }

    lemma AllGone()
      requires Valid() && queue == []
      ensures |fates| == |accepted|
    {
    }

    /** What a valid queue says of the PDU in front. */
    lemma Opened()
      requires Valid() && queue != []
      ensures Bookkept() && |fates| <= |accepted| && queue[0].offset <= |queue[0].data|
      ensures forall i :: 0 < i < |queue| ==> queue[i].offset == 0 && queue[i] != queue[0]
      ensures wire == Written(accepted[..|fates|], fates) + queue[0].data[..queue[0].offset]
    {
      QueueDistinct();
    }

    lemma Settled()
      requires Bookkept() && |fates| <= |accepted| && forall i :: 0 < i < |queue| ==> queue[i].offset == 0
      requires queue != [] ==> queue[0].offset <= |queue[0].data|
      requires wire == Written(accepted[..|fates|], fates)
                       + if queue == [] then [] else queue[0].data[..queue[0].offset]
      ensures Valid()
    {
      hide Written;
    }

    lemma QueueDistinct()
      requires Bookkept() && queue != []
      ensures |fates| <= |accepted| && forall i :: 0 < i < |queue| ==> queue[i] != queue[0]
    {
    }

    /** No PDU is lost track of: each is queued once or was disposed of once, with at most one callback. */
    lemma EachOnce(p: Pdu)
      requires Valid() && p in accepted
      ensures p in queue <==> p !in accepted[..|fates|]
      ensures CallsTo(calls, p) <= 1
      ensures p in queue ==> CallsTo(calls, p) == 0
    {
      CallbackOnce(accepted[..|fates|], fates, p);
      var i :| 0 <= i < |accepted| && accepted[i] == p;
      if i >= |fates| { assert queue[i - |fates|] == p; }
    }

    /** While no PDU was dropped: the stream is the completed PDUs, then what the offset says of the one in front. */
    lemma WireIsFifo()
      requires Valid() && AllSent(fates)
      ensures |fates| <= |accepted|
      ensures wire == Concat(Datas(accepted[..|fates|])) + if queue == [] then [] else queue[0].data[..queue[0].offset]
    {
      WrittenWhole(accepted[..|fates|], fates);
    }

    /** One event: a PDU is queued, or the front one is written; a failing write closes the connection. */
    method Serve(e: Event)
      requires Valid() && (forall p :: p in accepted ==> allocated(p)) && (e.Write? ==> e.answer.taken >= -1)
      modifies this, queue`offset
      ensures Valid() && old(accepted) <= accepted && old(fates) <= fates
      ensures forall k :: 0 <= k < |queue| ==>
        (queue[k] in old(queue)
        || (fresh(queue[k]) && e.Send? && queue[k].data == e.data && queue[k].expireTime == e.expireTime))
      ensures old(isOpen) && AllSent(old(fates)) && SparesQueue([e], old(queue)) ==> isOpen && AllSent(fates)
      ensures old(isOpen) ==> Datas(accepted) == Datas(old(accepted)) + SentDatas([e])
      ensures old(isOpen) && isOpen && e.Write? && e.answer.taken > 0 && old(queue) != [] ==> Work() < old(Work())
      ensures e.Write? && old(queue) == [] ==> queue == []
    {
      hide Sender.Valid;
      match e {
        case Send(data, hasCallback, expireTime) =>
          AsyncSend(data, hasCallback, expireTime);
        case Write(a) =>
          var left := if queue == [] then 0 else |queue[0].data| - queue[0].offset;
          FrontLeft();
          assert queue != [] && SparesQueue([e], queue) ==> Spares([e][0].answer, queue[0].data, queue[0].expireTime);
          var ok := DoWrite(if a.taken < left then a.taken else left, a.closeAfter, a.now);
          if !ok {
            HandleError();
          }
      }
    }

    /**
      A run, PDUs being handed over between the writes in any order. While no write fails and none comes too late
      for a PDU that it takes a part of, nothing is dropped, and the stream is what was handed over, in order.
      */
    method Run(events: seq<Event>)
      requires Valid() && isOpen && AllSent(fates) && forall p :: p in accepted ==> allocated(p)
      requires forall i :: 0 <= i < |events| && events[i].Write? ==> events[i].answer.taken >= -1
      modifies this, queue`offset
      ensures Valid() && old(accepted) <= accepted && old(fates) <= fates
      ensures SparesQueue(events, old(queue)) && SparesSent(events) ==>
        && isOpen && AllSent(fates) && |fates| <= |accepted|
        && Datas(accepted) == Datas(old(accepted)) + SentDatas(events)
        && wire == Concat(Datas(accepted[..|fates|])) + if queue == [] then [] else queue[0].data[..queue[0].offset]
    {
      hide Sender.Valid, Spares, Datas, SentDatas, AllSent, SparesQueue, SparesSent;
      ghost var spared := SparesQueue(events, queue) && SparesSent(events);
      NothingSent(accepted);
      for i := 0 to |events|
        invariant Valid() && old(accepted) <= accepted && old(fates) <= fates
        invariant forall k :: 0 <= k < |queue| ==> queue[k] in old(queue) || fresh(queue[k])
        invariant spared ==> isOpen && AllSent(fates) && SparesQueue(events, queue)
        invariant spared ==> Datas(accepted) == Datas(old(accepted)) + SentDatas(events[..i])
      {
        ghost var before := queue;
        OneEvent(events, i, queue);
        Serve(events[i]);
        if spared { StillSpared(events, i, before, queue); }
      }
      assert events[..|events|] == events;
      if spared { WireIsFifo(); }
    }

    /** When writes take something each, as many as the queue costs leave it empty. */
    method Drain(answers: seq<Answer>)
      requires Valid() && isOpen && AllSent(fates) && (forall p :: p in accepted ==> allocated(p))
      requires forall i :: 0 <= i < |answers| ==> answers[i].taken > 0
      requires forall i, p :: 0 <= i < |answers| && p in queue ==> Spares(answers[i], p.data, p.expireTime)
      requires |answers| >= Work()
      modifies this, queue`offset
      ensures Valid() && isOpen && queue == [] && AllSent(fates) && Datas(accepted) == Datas(old(accepted))
      ensures wire == Concat(Datas(accepted))
    {
      hide Sender.Valid, Datas, SentDatas, AllSent;
      for i := 0 to |answers|
        invariant Valid() && isOpen && AllSent(fates) && Datas(accepted) == Datas(old(accepted))
        invariant forall k :: 0 <= k < |queue| ==> queue[k] in old(queue)
        invariant queue != [] ==> Work() <= |answers| - i
      {
        var e := Write(answers[i]);
        SparedNow(answers, i, queue);
        NoneSent(answers[i]);
        Serve(e);
      }
      WorkLeft();
      WireIsFifo();
      AllGone();
      assert accepted[..|fates|] == accepted;
    }

    lemma WorkLeft()
      requires Valid()
      ensures queue != [] ==> Work() > 0
    {
    }

    /** What is still to be written, and one for each PDU. */
    function Work(): int
      reads this`queue, queue
    {
      Cost(queue) - if queue == [] then 0 else queue[0].offset
    }

    lemma FrontLeft()
      requires Valid()
      ensures queue != [] ==> queue[0].offset <= |queue[0].data|
    {
    }
  }

  /**
    From end to end: the receiver of all that a drained sender wrote, in whatever pieces, delivers the PDUs handed
    over, in order, and nothing is left.
    */
  method Transfer(s: Sender, r: Receiver, pieces: seq<Octets>) returns (ok: bool)
    requires s.Valid() && s.queue == [] && AllSent(s.fates) && Concat(pieces) == s.wire
    requires r.Valid() && r.received == [] && r.dispatched == [] && WithinLimit(r.decode)
    requires forall p :: p in s.accepted ==> IsPdu(r.decode, p.data)
    modifies r, r.buffer
    ensures ok && r.Valid() && r.Delivered() == Datas(s.accepted) && r.Rest() == []
  {
    hide Sender.Valid, Receiver.Valid, AllSent, WithinLimit, Usable, Split, Left;
    s.AllGone();
    assert s.accepted[..|s.fates|] == s.accepted;
    s.WireIsFifo();
    ghost var datas := Datas(s.accepted);
    NoPdu(r);
    SplitOfConcat(r.decode, datas, []);
    assert Concat(datas) + [] == Concat(datas) && r.received + Concat(pieces) == Concat(datas);
    ok := r.ServeReads(pieces);
  }

  lemma NoPdu(r: Receiver)
    requires r.Valid()
    ensures Usable(r.decode) && !HasPdu(r.decode, [])
  {
  }

  lemma NothingSent(accepted: seq<Pdu>)
    ensures Datas(accepted) == Datas(accepted) + SentDatas([])
  {
  }

  lemma NoneSent(a: Answer)
    ensures SentDatas([Write(a)]) == []
  {
  }

  lemma OneEvent(events: seq<Event>, i: nat, queue: seq<Pdu>)
    requires i < |events|
    ensures SentDatas(events[..i + 1]) == SentDatas(events[..i]) + SentDatas([events[i]])
    ensures SparesQueue(events, queue) ==> SparesQueue([events[i]], queue)
  {
    assert events[..i + 1][..i] == events[..i];
  }

  lemma StillSpared(events: seq<Event>, i: nat, before: seq<Pdu>, after: seq<Pdu>)
    requires i < |events| && SparesQueue(events, before) && SparesSent(events)
    requires forall k :: 0 <= k < |after| ==>
      (after[k] in before
      || (events[i].Send? && after[k].data == events[i].data && after[k].expireTime == events[i].expireTime))
    ensures SparesQueue(events, after)
  {
    hide Spares;
  }

  lemma SparedNow(answers: seq<Answer>, i: nat, queue: seq<Pdu>)
    requires i < |answers| && forall p :: p in queue ==> Spares(answers[i], p.data, p.expireTime)
    ensures SparesQueue([Write(answers[i])], queue)
  {
    hide Spares;
  }

  lemma Taken(gone: Octets, data: Octets, k: nat, n: int)
    requires k <= |data| && n <= |data| - k
    ensures n > 0 ==> (gone + data[..k]) + data[k..k + n] == gone + data[..k + n]
    ensures n == |data| - k ==> data[..k + n] == data
  {
  }

  lemma WrittenCases(p: Pdu, n: nat)
    requires n <= |p.data|
    ensures WrittenOf(p, Sent) == p.data
    ensures WrittenOf(p, TimedOut(n)) == p.data[..n] && WrittenOf(p, Lost(n)) == p.data[..n]
  {
  }

  lemma CallbackCases(p: Pdu, n: nat)
    ensures CallbackOf(p, Sent) == if p.hasCallback then [(p, ErrOk)] else []
    ensures CallbackOf(p, TimedOut(n)) == if p.hasCallback then [(p, ErrSendTimeout)] else []
    ensures CallbackOf(p, Lost(n)) == if p.hasCallback then [(p, ErrConnectionLost)] else []
  {
  }

  lemma NoCallback(p: Pdu, n: nat)
    ensures CallbackOf(p, Abandoned(n)) == []
  {
  }
}
