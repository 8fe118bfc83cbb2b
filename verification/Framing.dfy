/**
  The client's receiving side: length-delimited PDUs are reassembled from reads that may cut the
  stream anywhere, and queued for the application.
  */
module Framing {

  type Octet = x: int | 0 <= x < 256
  type Octets = seq<Octet>

  const BUFFER_SIZE: nat := 65536
  const MAX_PDU_LEN: nat := 10 * 1024 * 1024

  /** What the user's decode function returns, and what it stores to its length argument. */
  datatype Decoded = Decoded(ok: bool, len: int)

  type Decoder = Octets -> Decoded

  /** What was decoded from some bytes stands when more bytes follow. */
  ghost predicate StableOn(d: Decoder, s: Octets, t: Octets) {
    (!d(s).ok || d(s).len != -1) ==> d(s + t) == d(s)
  }

  /**
    The decoders that the client is made for: verdicts are final, lengths are positive, and a header is
    no longer than the buffer.
    */
  ghost predicate Usable(d: Decoder) {
    && (forall s, t {:trigger StableOn(d, s, t)} :: StableOn(d, s, t))
    && (forall s :: d(s).ok ==> d(s).len == -1 || 0 < d(s).len)
    && (forall s :: d(s).ok && |s| >= BUFFER_SIZE ==> d(s).len != -1)
  }

  /** Lengths leave room for a whole buffer below the limit. */
  ghost predicate WithinLimit(d: Decoder) {
    forall s :: d(s).ok ==> d(s).len <= MAX_PDU_LEN - BUFFER_SIZE
  }

  /** A whole PDU is at the head of the stream. */
  predicate HasPdu(d: Decoder, s: Octets) {
    d(s).ok && 0 < d(s).len <= |s|
  }

  /** The splitting of a stream by lengths, as far as PDUs are complete. */
  function Split(d: Decoder, s: Octets): seq<Octets> {
    if HasPdu(d, s) then [s[..d(s).len]] + Split(d, s[d(s).len..]) else []
  }

  /** What the splitting leaves over. */
  function Left(d: Decoder, s: Octets): Octets {
    if HasPdu(d, s) then Left(d, s[d(s).len..]) else s
  }

  function Concat(pdus: seq<Octets>): Octets {
    if pdus == [] then [] else pdus[0] + Concat(pdus[1..])
  }

  lemma {:induction false} ConcatAppend(a: seq<Octets>, p: Octets)
    ensures Concat(a + [p]) == Concat(a) + p
  {
    if a == [] {
      assert [p][1..] == [];
    } else {
      assert (a + [p])[1..] == a[1..] + [p];
      ConcatAppend(a[1..], p);
    }
  }

  /** Nothing is lost by splitting. */
  lemma {:induction false} SplitConserves(d: Decoder, s: Octets)
    ensures Concat(Split(d, s)) + Left(d, s) == s
    decreases |s|
  {
    if HasPdu(d, s) {
      var n := d(s).len;
      SplitConserves(d, s[n..]);
      assert Split(d, s)[1..] == Split(d, s[n..]);
      assert s == s[..n] + s[n..];
    }
  }

  /** What the decoder says of the first bytes it says of all of them. */
  lemma DecodedFor(d: Decoder, s: Octets, t: Octets)
    requires Usable(d) && (!d(s).ok || d(s).len != -1)
    ensures d(s + t) == d(s)
  {
    assert StableOn(d, s, t);
  }

  lemma DecodedLength(d: Decoder, s: Octets)
    requires Usable(d) && d(s).ok
    ensures (d(s).len == -1 && |s| < BUFFER_SIZE) || 0 < d(s).len
  {
  }

  /** More bytes only add PDUs: splitting goes on where it stopped. */
  lemma {:induction false} SplitAppend(d: Decoder, s: Octets, t: Octets)
    requires Usable(d)
    ensures Split(d, s + t) == Split(d, s) + Split(d, Left(d, s) + t)
    ensures Left(d, s + t) == Left(d, Left(d, s) + t)
    decreases |s|
  {
    hide Usable;
    if HasPdu(d, s) {
      DecodedFor(d, s, t);
      var n := d(s).len;
      assert (s + t)[..n] == s[..n] && (s + t)[n..] == s[n..] + t;
      SplitAppend(d, s[n..], t);
    }
  }

  /** The decoder takes a PDU as one. */
  predicate IsPdu(d: Decoder, p: Octets) {
    p != [] && d(p) == Decoded(true, |p|)
  }

  /** Splitting undoes concatenation. */
  lemma {:induction false} SplitOfConcat(d: Decoder, pdus: seq<Octets>, rest: Octets)
    requires Usable(d) && !HasPdu(d, rest) && forall i :: 0 <= i < |pdus| ==> IsPdu(d, pdus[i])
    ensures Split(d, Concat(pdus) + rest) == pdus && Left(d, Concat(pdus) + rest) == rest
    decreases |pdus|
  {
    hide Usable;
    if pdus == [] {
      assert [] + rest == rest;
    } else {
      var p, t := pdus[0], Concat(pdus[1..]) + rest;
      SplitOfConcat(d, pdus[1..], rest);
      assert IsPdu(d, p);
      DecodedFor(d, p, t);
      assert Concat(pdus) + rest == p + t && (p + t)[|p|..] == t && (p + t)[..|p|] == p;
    }
  }

  /** However a stream is cut in two, the PDUs of the first part are a prefix of those of the whole. */
  lemma SplitPrefix(d: Decoder, s: Octets, t: Octets)
    requires Usable(d)
    ensures Split(d, s) <= Split(d, s + t)
  {
    SplitAppend(d, s, t);
  }

  /** The bytes that splitting leaves over begin no PDU. */
  ghost predicate Illegal(d: Decoder, s: Octets) {
    Left(d, s) != [] && !d(Left(d, s)).ok
  }

  lemma IllegalStays(d: Decoder, s: Octets, t: Octets)
    requires Usable(d) && Illegal(d, s)
    ensures Illegal(d, s + t)
  {
    SplitAppend(d, s, t);
    DecodedFor(d, Left(d, s), t);
  }

  /** The delivered PDUs and the rest are the stream, and splitting the stream and splitting the rest agree. */
  ghost predicate Tracks(d: Decoder, received: Octets, delivered: seq<Octets>, rest: Octets) {
    && received == Concat(delivered) + rest
    && Split(d, received) == delivered + Split(d, rest)
    && Left(d, received) == Left(d, rest)
  }

  lemma TrackMore(d: Decoder, received: Octets, delivered: seq<Octets>, rest: Octets, data: Octets)
    requires Usable(d) && Tracks(d, received, delivered, rest)
    ensures Tracks(d, received + data, delivered, rest + data)
  {
    hide Split, Left, Usable, Concat;
    SplitAppend(d, received, data);
    SplitAppend(d, rest, data);
    assert Concat(delivered) + (rest + data) == received + data;
    assert delivered + Split(d, rest) + Split(d, Left(d, rest) + data) == delivered + Split(d, rest + data);
  }

  lemma TrackPdu(d: Decoder, received: Octets, delivered: seq<Octets>, rest: Octets)
    requires Tracks(d, received, delivered, rest) && HasPdu(d, rest)
    ensures Tracks(d, received, delivered + [rest[..d(rest).len]], rest[d(rest).len..])
  {
    var n := d(rest).len;
    ConcatAppend(delivered, rest[..n]);
    assert Concat(delivered) + rest == Concat(delivered) + rest[..n] + rest[n..];
    assert delivered + Split(d, rest) == delivered + [rest[..n]] + Split(d, rest[n..]);
  }

  /** What one look at the undelivered bytes does: the PDU at their head is delivered, if it is whole. */
  ghost predicate After(d: Decoder, rest: Octets, queue: seq<Octets>, queue': seq<Octets>, rest': Octets) {
    if HasPdu(d, rest) then queue' == queue + [rest[..d(rest).len]] && rest' == rest[d(rest).len..]
    else queue' == queue && rest' == rest
  }

  lemma TrackAfter(d: Decoder, received: Octets, gone: seq<Octets>, queue: seq<Octets>, queue': seq<Octets>,
    rest: Octets, rest': Octets)
    requires Tracks(d, received, gone + queue, rest) && After(d, rest, queue, queue', rest')
    ensures Tracks(d, received, gone + queue', rest')
  {
    hide Tracks;
    if HasPdu(d, rest) {
      TrackPdu(d, received, gone + queue, rest);
      assert gone + queue' == gone + queue + [rest[..d(rest).len]];
    }
  }

  function Min(a: int, b: int): (m: int)
    ensures m <= a && m <= b && (m == a || m == b)
  {
    if a < b then a else b
  }

  class Receiver {
    const decode: Decoder
    const buffer: array<Octet>
    var offset: int
    var receiving: Octets // receiving_pdu_
    var expected: int // expected_pdu_length_
    var recvQueue: seq<Octets>
    var tooLong: bool // error_ was set to ERR_PDU_TOO_LONG
    ghost var received: Octets // all bytes of the connection
    ghost var dispatched: seq<Octets> // PDUs already passed on to the application

    ghost predicate Formed()
      reads this`offset
    {
      Usable(decode) && buffer.Length == BUFFER_SIZE && 0 <= offset <= BUFFER_SIZE
    }

    /** The bytes not yet part of a delivered PDU. */
    ghost function Rest(): Octets
      requires Formed()
      reads this`offset, this`receiving, buffer
    {
      receiving + buffer[..offset]
    }

    ghost function Delivered(): seq<Octets>
      reads this`dispatched, this`recvQueue
    {
      dispatched + recvQueue
    }

    ghost predicate Valid()
      reads this, buffer
    {
      && Formed() && offset < BUFFER_SIZE && !tooLong
      && InPdu()
      && Tracks(decode, received, Delivered(), Rest())
    }

    /** Between PDUs nothing is collected; within one, the buffer is empty and bytes are missing. */
    ghost predicate InPdu()
      reads this`offset, this`receiving, this`expected
    {
      && (expected == -1 ==> receiving == [])
      && (expected != -1 ==>
            && offset == 0 && |receiving| < expected
            && decode(receiving) == Decoded(true, expected))
    }

    /** The state after a successful connect. */
    constructor (decode: Decoder)
      requires Usable(decode)
      ensures Valid() && received == [] && Delivered() == [] && this.decode == decode && fresh(buffer)
    {
      this.decode := decode;
      buffer := new Octet[BUFFER_SIZE](i => 0);
      offset, receiving, expected, recvQueue, tooLong := 0, [], -1, [], false;
      received, dispatched := [], [];
    }

    /** connect: what a reconnect resets. */
    method Reset()
      requires Usable(decode) && buffer.Length == BUFFER_SIZE
      modifies this
      ensures Valid() && received == [] && Delivered() == []
    {
      expected := -1;
      tooLong := false;
      offset := 0;
      receiving := [];
      recvQueue := [];
      received, dispatched := [], [];
    }

    /** move_received_pdu */
    method MoveReceivedPdu()
      modifies this`recvQueue, this`receiving, this`expected
      ensures recvQueue == old(recvQueue) + [old(receiving)] && receiving == [] && expected == -1
    {
      recvQueue := recvQueue + [receiving];
      receiving := [];
      expected := -1;
    }

    /** recv: the socket writes its bytes behind the offset. */
    method Fill(data: Octets)
      requires 0 <= offset && offset + |data| <= buffer.Length
      modifies buffer
      ensures buffer[..offset + |data|] == old(buffer[..offset]) + data
    {
      for i := 0 to |data|
        invariant buffer[..offset] == old(buffer[..offset])
        invariant forall k :: 0 <= k < i ==> buffer[offset + k] == data[k]
      {
        buffer[offset + i] := data[i];
      }
    }

    /** memmove of the m bytes at position k to the front of the buffer. */
    method MoveToFront(k: nat, m: nat)
      requires k + m <= buffer.Length
      modifies buffer
      ensures buffer[..m] == old(buffer[k..k + m])
    {
      for i := 0 to m
        invariant forall j :: 0 <= j < i ==> buffer[j] == old(buffer[k + j])
        invariant forall j :: i <= j < buffer.Length ==> buffer[j] == old(buffer[j])
      {
        buffer[i] := buffer[k + i];
      }
    }

    /**
      do_read, with the outcome of recv: n bytes `data` if n > 0, an orderly end if n == 0, or no data;
      closeAfter is the judgement on the socket's error. A call that has bytes to look at delivers the
      PDU at the head of the undelivered bytes if it is whole, and fails if it is illegal, or continued
      beyond the limit.
      */
    method DoRead(open: bool, n0: int, data: Octets, closeAfter: bool) returns (ok: bool)
      requires Valid() && n0 >= -1 && |data| == (if n0 > 0 then n0 else 0) && |data| <= BUFFER_SIZE - offset
      modifies this, buffer
      ensures Formed() && dispatched == old(dispatched)
      ensures var looks, rest := n0 > 0 || (n0 == -1 && old(offset) != 0), old(Rest()) + data;
        && (tooLong <==> open && looks && old(expected) != -1 && |rest| > MAX_PDU_LEN)
        && (ok <==> open && !tooLong && if looks then decode(rest).ok else !closeAfter)
        && (ok ==> Valid() && received == old(received) + data)
        && (ok && looks && HasPdu(decode, rest) ==>
              recvQueue == old(recvQueue) + [rest[..decode(rest).len]] && Rest() == rest[decode(rest).len..])
        && (ok && !(looks && HasPdu(decode, rest)) ==> recvQueue == old(recvQueue) && Rest() == rest)
    {
      hide Usable, Tracks, Split, Left, InPdu, HasPdu;
      ok := false;
      if !open {
        return;
      }
      ghost var rest0, rest := Rest(), Rest() + data;
      TrackMore(decode, received, Delivered(), rest0, data);
      Fill(data);
      assert Rest() == rest0;
      if n0 > 0 || (n0 == -1 && offset != 0) {
        var n := if n0 == -1 then 0 else n0;
        assert receiving + buffer[..n + offset] == rest;
        ok := Look(n + offset);
        if ok {
          received := received + data;
          TrackAfter(decode, received, dispatched, old(recvQueue), recvQueue, rest, Rest());
        }
      } else {
        if closeAfter {
          return;
        }
        ok := true;
        assert data == [];
        assert received + data == received && rest == rest0;
      }
    }

    /** do_read's look at all bytes received. */
    method Look(transferred: nat) returns (ok: bool)
      requires Formed() && InPdu() && !tooLong && transferred <= BUFFER_SIZE
      modifies this`offset, this`receiving, this`expected, this`recvQueue, this`tooLong, buffer
      ensures Formed()
      ensures var rest := old(receiving + buffer[..transferred]);
        && (tooLong <==> old(expected) != -1 && |rest| > MAX_PDU_LEN)
        && (ok <==> !tooLong && decode(rest).ok)
        && (ok ==> offset < BUFFER_SIZE && InPdu() && After(decode, rest, old(recvQueue), recvQueue, Rest()))
    {
      hide Usable, After;
      ghost var rest := receiving + buffer[..transferred];
      if expected == -1 {
        assert rest == buffer[..transferred];
        ok := DecodeLength(transferred);
      } else {
        DecodedFor(decode, receiving, buffer[..transferred]);
        ok := ContinuePdu(transferred);
      }
    }

    /** do_read between PDUs: the length is decoded, and the PDU started. */
    method DecodeLength(transferred: nat) returns (ok: bool)
      requires Formed() && expected == -1 && receiving == [] && transferred <= BUFFER_SIZE
      modifies this`offset, this`receiving, this`expected, this`recvQueue, buffer
      ensures Formed()
      ensures ok == old(decode(buffer[..transferred]).ok)
      ensures ok ==> offset < BUFFER_SIZE && InPdu()
      ensures ok ==> After(decode, old(buffer[..transferred]), old(recvQueue), recvQueue, Rest())
    {
      hide Usable;
      ghost var rest := buffer[..transferred];
      if decode(rest).ok { DecodedLength(decode, rest); }
      var r := decode(buffer[..transferred]);
      expected := r.len;
      if r.ok {
        if expected < 0 { // header insufficient
          offset := transferred;
        } else {
          receiving := receiving + buffer[..Min(expected, transferred)];
          if transferred >= expected {
            assert receiving == rest[..expected];
            offset := transferred - expected;
            assert buffer[expected..expected + offset] == rest[expected..];
            if offset > 0 {
              MoveToFront(expected, offset);
            }
            MoveReceivedPdu();
            assert Rest() == buffer[..offset];
          } else { // all of the buffer consumed
            assert receiving == rest;
            offset := 0;
            assert Rest() == rest;
          }
        }
        ok := true;
      } else {
        ok := false;
      }
    }

    /** do_read within a PDU. */
    method ContinuePdu(transferred: nat) returns (ok: bool)
      requires Formed() && expected != -1 && |receiving| < expected && !tooLong
      requires decode(receiving) == Decoded(true, expected) && transferred <= BUFFER_SIZE
      requires decode(receiving + buffer[..transferred]) == decode(receiving)
      modifies this`offset, this`receiving, this`expected, this`recvQueue, this`tooLong, buffer
      ensures Formed() && (ok <==> !tooLong) && (tooLong <==> |old(receiving)| + transferred > MAX_PDU_LEN)
      ensures ok ==> offset < BUFFER_SIZE && InPdu()
      ensures ok ==> After(decode, old(receiving + buffer[..transferred]), old(recvQueue), recvQueue, Rest())
    {
      hide Usable;
      ghost var rest := receiving + buffer[..transferred];
      if |receiving| + transferred > MAX_PDU_LEN {
        tooLong := true;
        return false;
      }
      var needed := expected - |receiving|;
      if needed > 0 {
        receiving := receiving + buffer[..Min(transferred, needed)];
        offset := transferred - needed;
        if offset >= 0 {
          assert receiving == rest[..expected];
          assert buffer[needed..needed + offset] == rest[expected..];
          if offset > 0 {
            MoveToFront(needed, offset);
          }
          MoveReceivedPdu();
          assert Rest() == buffer[..offset];
        } else { // all of the buffer consumed
          DecodedFor(decode, old(receiving), buffer[..transferred]);
          assert receiving == rest;
          offset := 0;
          assert Rest() == rest;
        }
      }
      ok := true;
    }

    /** The loop of dispatch_received_pdu. */
    method TakePackets(count0: int) returns (calls: seq<Octets>)
      requires recvQueue != []
      modifies this`recvQueue
      ensures calls + recvQueue == old(recvQueue)
      ensures |calls| == Min(|old(recvQueue)|, if count0 < 1 then 1 else count0)
    {
      calls := [];
      var count := count0;
      while true
        invariant recvQueue != [] && calls + recvQueue == old(recvQueue)
        invariant count == count0 - |calls| && (|calls| > 0 ==> count > 0)
        decreases |recvQueue|
      {
        var packet := recvQueue[0];
        recvQueue := recvQueue[1..];
        calls := calls + [packet];
        count := count - 1;
        assert calls + recvQueue == old(recvQueue);
        if recvQueue == [] || count <= 0 {
          break;
        }
      }
    }

    /** dispatch_received_pdu: up to count PDUs, but at least one, go to the application. */
    method Dispatch(count: int) returns (calls: seq<Octets>)
      requires Valid()
      modifies this`recvQueue, this`dispatched
      ensures Valid() && Delivered() == old(Delivered()) && dispatched == old(dispatched) + calls
      ensures |calls| == Min(|old(recvQueue)|, if count < 1 then 1 else count)
    {
      hide Usable, Tracks, InPdu;
      calls := [];
      if recvQueue == [] {
        return;
      }
      calls := TakePackets(count);
      dispatched := dispatched + calls;
      assert dispatched + recvQueue == old(dispatched) + (calls + recvQueue);
    }

    /** With lengths within the limit, no read is refused for being too long. */
    lemma NeverTooLong(data: Octets)
      requires Valid() && WithinLimit(decode) && expected != -1 && |data| <= BUFFER_SIZE - offset
      ensures |Rest() + data| <= MAX_PDU_LEN
    {
      assert decode(receiving).len <= MAX_PDU_LEN - BUFFER_SIZE;
    }

    /** The delivered PDUs are the first ones of the stream, and all of them once no whole PDU is left over. */
    lemma DeliveredAreFirst()
      requires Valid()
      ensures Delivered() <= Split(decode, received)
      ensures !HasPdu(decode, Rest()) ==> Delivered() == Split(decode, received)
      ensures Left(decode, received) == Left(decode, Rest())
      ensures Concat(Delivered()) + Rest() == Concat(Split(decode, received)) + Left(decode, received) == received
    {
      SplitConserves(decode, received);
    }

    /**
      The reads of the service loop for what the socket delivers next: a piece that does not fit the
      buffer takes several, and without any bytes there is one read that finds none.
      */
    method Feed(piece: Octets) returns (ok: bool)
      requires Valid() && WithinLimit(decode)
      modifies this, buffer
      ensures Formed() && dispatched == old(dispatched)
      ensures ok ==> Valid() && received == old(received) + piece
      ensures !ok ==> Illegal(decode, old(received) + piece)
    {
      hide Usable, WithinLimit, Tracks, InPdu, Split, Left, HasPdu, Illegal;
      ghost var start := received;
      var rest := piece;
      ok := true;
      while true
        invariant Valid() && dispatched == old(dispatched) && ok && received + rest == start + piece
        decreases |rest|
      {
        var n := Min(|rest|, BUFFER_SIZE - offset);
        ReadFails(rest[..n]);
        assert received + rest[..n] + rest[n..] == received + rest;
        ghost var before := received;
        ok := DoRead(true, if n > 0 then n else -1, rest[..n], false);
        if !ok {
          IllegalStays(decode, before + rest[..n], rest[n..]);
          return;
        }
        rest := rest[n..];
        if rest == [] {
          break;
        }
      }
      assert received + rest == received;
    }

    /** A read can fail only if the bytes left over are illegal. */
    lemma ReadFails(data: Octets)
      requires Valid() && WithinLimit(decode) && |data| <= BUFFER_SIZE - offset
      ensures expected != -1 ==> |Rest() + data| <= MAX_PDU_LEN
      ensures Rest() + data != [] && !decode(Rest() + data).ok ==> Illegal(decode, received + data)
    {
      if expected != -1 { NeverTooLong(data); }
      TrackMore(decode, received, Delivered(), Rest(), data);
    }

    lemma NotIllegal()
      requires Valid() && !HasPdu(decode, Rest()) && (Rest() == [] || decode(Rest()).ok)
      ensures !Illegal(decode, received)
    {
    }

    lemma NonePending()
      requires Valid() && offset == 0
      ensures !HasPdu(decode, Rest()) && (Rest() == [] || decode(Rest()).ok)
    {
      assert Rest() == receiving;
    }

    /** The service loop while bytes are left in the buffer and none arrive, up to a read that changes nothing. */
    method Drain() returns (ok: bool)
      requires Valid() && WithinLimit(decode)
      modifies this, buffer
      ensures Formed() && dispatched == old(dispatched)
      ensures ok ==> Valid() && received == old(received) && !HasPdu(decode, Rest())
      ensures ok ==> !Illegal(decode, received)
      ensures !ok ==> Illegal(decode, old(received))
    {
      hide Usable, WithinLimit, Tracks, Split, Left, Illegal;
      ok := true;
      while offset > 0
        invariant Valid() && ok && received == old(received) && dispatched == old(dispatched)
        decreases |Rest()|
      {
        var queued := |recvQueue|;
        ghost var rest := Rest();
        ReadFails([]);
        assert rest + [] == rest && received + [] == received;
        ok := DoRead(true, -1, [], false);
        if !ok {
          return;
        }
        if |recvQueue| == queued {
          NotIllegal();
          return;
        }
      }
      NonePending();
      NotIllegal();
    }

    /** However the bytes arrive, the service loop delivers the splitting of all of them, or fails on an illegal PDU. */
    method ServeReads(pieces: seq<Octets>) returns (ok: bool)
      requires Valid() && WithinLimit(decode)
      modifies this, buffer
      ensures Formed() && dispatched == old(dispatched)
      ensures ok <==> !Illegal(decode, old(received) + Concat(pieces))
      ensures ok ==> Valid() && received == old(received) + Concat(pieces)
      ensures ok ==> Delivered() == Split(decode, received) && Rest() == Left(decode, received)
    {
      hide Usable, WithinLimit, Tracks, InPdu, Illegal;
      assert pieces[0..] == pieces;
      for i := 0 to |pieces|
        invariant Valid() && dispatched == old(dispatched)
        invariant received + Concat(pieces[i..]) == old(received) + Concat(pieces)
      {
        ghost var before := received;
        assert before + (pieces[i] + Concat(pieces[i + 1..])) == before + pieces[i] + Concat(pieces[i + 1..]);
        assert pieces[i..][1..] == pieces[i + 1..];
        ok := Feed(pieces[i]);
        if !ok {
          IllegalStays(decode, before + pieces[i], Concat(pieces[i + 1..]));
          return;
        }
      }
      assert received + [] == received;
      ok := Drain();
      if ok { DeliveredAreFirst(); }
    }
  }
}
