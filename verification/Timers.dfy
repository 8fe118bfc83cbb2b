/**
  The client's timer queue: a vector ordered by falling time to wait, so that the timer that is due
  first is at the back. Clock readings are in nanoseconds, waits in microseconds, cut towards zero.
  */
module Timers {

  const MICROSECOND: int := 1000

  /** duration_cast to microseconds */
  function Micros(d: int): int {
    if d >= 0 then d / MICROSECOND else -((-d) / MICROSECOND)
  }

  /** What is cut off is less than a microsecond; a wait is not positive as soon as less than one is left. */
  lemma MicrosCut(d: int)
    ensures if d >= 0 then 0 <= d - Micros(d) * 1000 < 1000 else -1000 < d - Micros(d) * 1000 <= 0
    ensures Micros(d) <= 0 <==> d < 1000
  {
  }

  /** deadline_timer */
  class Timer {
    var duration: int // microseconds
    var loop: bool
    var expireTime: int

    constructor (duration: int, loop: bool, now: int)
      ensures this.duration == duration && this.loop == loop && expireTime == now + duration * MICROSECOND
    {
      this.duration, this.loop := duration, loop;
      expireTime := now + duration * MICROSECOND;
    }

    method ExpiresFromNow(now: int)
      modifies this`expireTime
      ensures expireTime == now + duration * MICROSECOND
    {
      expireTime := now + duration * MICROSECOND;
    }

    function WaitDuration(now: int): int
      reads this
    {
      Micros(expireTime - now)
    }

    predicate Expired(now: int)
      reads this
    {
      WaitDuration(now) <= 0
    }
  }

  // ---------------------------------------------------------------- order

  ghost predicate Distinct(q: seq<Timer>) {
    forall i, j :: 0 <= i < j < |q| ==> q[i] != q[j]
  }

  ghost predicate WholeMicros(q: seq<Timer>)
    reads q
  {
    forall t :: t in q ==> t.expireTime % MICROSECOND == 0
  }

  /** The order that the comparison of waits makes, at the time of sorting. */
  ghost predicate SortedAt(q: seq<Timer>, at: int)
    reads q
  {
    forall i, j :: 0 <= i < j < |q| ==> q[i].WaitDuration(at) >= q[j].WaitDuration(at)
  }

  lemma {:induction false} DistinctCounts(q: seq<Timer>)
    ensures Distinct(q) <==> forall t :: multiset(q)[t] <= 1
  {
    if q != [] {
      var n := |q| - 1;
      assert q == q[..n] + [q[n]];
      DistinctCounts(q[..n]);
      if Distinct(q) {
        assert Distinct(q[..n]) && q[n] !in q[..n];
        assert q[n] !in multiset(q[..n]);
      }
      if forall t :: multiset(q)[t] <= 1 {
        forall t ensures multiset(q[..n])[t] <= 1 { assert multiset(q)[t] <= 1; }
        assert multiset(q)[q[n]] <= 1;
        assert q[n] !in multiset(q[..n]);
        assert q[n] !in q[..n];
      }
    }
  }

  lemma SameTimers(q: seq<Timer>, r: seq<Timer>)
    requires multiset(q) == multiset(r)
    ensures forall t :: t in q <==> t in r
    ensures Distinct(q) ==> Distinct(r)
    ensures |q| == |r|
  {
    DistinctCounts(q);
    DistinctCounts(r);
    forall t
      ensures t in q <==> t in r
    {
      assert t in q <==> t in multiset(q);
      assert t in r <==> t in multiset(r);
    }
    assert |q| == |multiset(q)|;
  }

  lemma SortedEmpty(now: int)
    ensures SortedAt([], now)
  {
  }

  lemma InsertedSorted(r: seq<Timer>, k: nat, x: Timer, now: int)
    requires SortedAt(r, now) && k <= |r| && (k > 0 ==> r[k - 1].WaitDuration(now) >= x.WaitDuration(now))
    requires k < |r| ==> r[k].WaitDuration(now) < x.WaitDuration(now)
    ensures SortedAt(r[..k] + [x] + r[k..], now)
  {
    var s := r[..k] + [x] + r[k..];
    forall i, j | 0 <= i < j < |s|
      ensures s[i].WaitDuration(now) >= s[j].WaitDuration(now)
    {
      hide Timer.WaitDuration;
      var a, b := if i < k then i else i - 1, if j < k then j else j - 1;
      if i < k && k < |r| && j > k { assert r[i].WaitDuration(now) >= r[b].WaitDuration(now); }
      if i < k - 1 && j == k { assert r[i].WaitDuration(now) >= r[k - 1].WaitDuration(now); }
      if i == k && j > k + 1 { assert r[k].WaitDuration(now) >= r[b].WaitDuration(now); }
    }
  }

  /** std::sort with the client's comparison; of timers with equal waits, any order would do. */
  method Sort(q: seq<Timer>, now: int) returns (r: seq<Timer>)
    ensures multiset(r) == multiset(q) && SortedAt(r, now)
  {
    hide SortedAt, Timer.WaitDuration;
    r := [];
    SortedEmpty(now);
    for i := 0 to |q|
      invariant multiset(r) == multiset(q[..i]) && SortedAt(r, now)
    {
      var k := |r|;
      while k > 0 && r[k - 1].WaitDuration(now) < q[i].WaitDuration(now)
        invariant 0 <= k <= |r| && (k < |r| ==> r[k].WaitDuration(now) < q[i].WaitDuration(now))
      {
        k := k - 1;
      }
      InsertedSorted(r, k, q[i], now);
      assert r == r[..k] + r[k..];
      assert q[..i + 1] == q[..i] + [q[i]];
      r := r[..k] + [q[i]] + r[k..];
    }
    assert q[..|q|] == q;
  }

  // ---------------------------------------------------------------- the queue

  /** Only looping timers that fired have a new deadline. */
  ghost predicate NewDeadline(t: Timer, was: int, fired: bool, now: int)
    reads t
  {
    t.expireTime == if fired && t.loop then now + t.duration * MICROSECOND else was
  }

  lemma DistinctAt(q: seq<Timer>, k: nat)
    requires Distinct(q) && k < |q|
    ensures forall j :: 0 <= j < |q| && j != k ==> q[j] != q[k]
  {
  }

  lemma NoneLooping()
    ensures Looping([]) == [] && FiredFrom([]) == []
  {
  }

  lemma EmptyDistinct()
    ensures Distinct([])
  {
  }

  lemma ErasedSorted(q: seq<Timer>, k: nat, at: int)
    requires k < |q| && Distinct(q) && SortedAt(q, at)
    ensures var r := q[..k] + q[k + 1..];
      q[k] !in r && Distinct(r) && SortedAt(r, at) && (WholeMicros(q) ==> WholeMicros(r))
  {
    hide Timer.WaitDuration;
    var r := q[..k] + q[k + 1..];
    assert forall i :: 0 <= i < |r| ==> r[i] == q[if i < k then i else i + 1];
  }

  lemma LaterNot(q: seq<Timer>, k: nat, r: seq<Timer>)
    requires Distinct(q) && k < |q| && Distinct(r) && forall t :: t in r ==> t in q[k + 1..]
    ensures q[k] !in r && Distinct(r + [q[k]]) && forall t :: t in r + [q[k]] ==> t in q[k..]
  {
    assert q[k..] == [q[k]] + q[k + 1..];
  }

  lemma InsertedDistinct(q: seq<Timer>, k: nat, r: seq<Timer>)
    requires Distinct(q) && k <= |q| && Distinct(r) && forall t :: t in r ==> t in q[k..]
    ensures Distinct(q[..k] + r)
  {
    forall i, j | 0 <= i < k && 0 <= j < |r|
      ensures q[i] != r[j]
    {
      assert r[j] in q[k..];
    }
  }

  function Deadlines(q: seq<Timer>): (d: seq<int>)
    reads q
    ensures |d| == |q| && forall i :: 0 <= i < |q| ==> d[i] == q[i].expireTime
  {
    if q == [] then [] else Deadlines(q[..|q| - 1]) + [q[|q| - 1].expireTime]
  }

  /** `SortedAt` and `WholeMicros`, for deadlines noted down earlier. */
  ghost predicate InOrder(d: seq<int>, at: int) {
    forall i, j :: 0 <= i < j < |d| ==> Micros(d[i] - at) >= Micros(d[j] - at)
  }

  ghost predicate AllWhole(d: seq<int>) {
    forall i :: 0 <= i < |d| ==> d[i] % MICROSECOND == 0
  }

  lemma DeadlinesInOrder(q: seq<Timer>, at: int)
    requires SortedAt(q, at)
    ensures InOrder(Deadlines(q), at) && (WholeMicros(q) ==> AllWhole(Deadlines(q)))
  {
    hide Micros;
    assert forall i :: 0 <= i < |q| ==> q[i] in q;
  }

  /** What did not fire has its deadlines, and its order. */
  lemma StillSorted(q: seq<Timer>, k: nat, at: int, now: int, was: seq<int>)
    requires k <= |q| == |was| && Distinct(q) && InOrder(was, at)
    requires forall i :: 0 <= i < |q| ==> NewDeadline(q[i], was[i], i >= k, now)
    ensures Distinct(q[..k]) && SortedAt(q[..k], at)
    ensures AllWhole(was) && now % MICROSECOND == 0 ==> WholeMicros(q)
  {
    hide Micros;
    forall i | 0 <= i < |q|
      ensures i < k ==> q[i].expireTime == was[i]
      ensures AllWhole(was) && now % MICROSECOND == 0 ==> q[i].expireTime % MICROSECOND == 0
    {
      assert NewDeadline(q[i], was[i], i >= k, now);
    }
  }

  datatype Event = Event(timer: Timer, cancelled: bool)

  /** The callbacks of timers taken from the back. */
  function FiredFrom(q: seq<Timer>): seq<Event> {
    if q == [] then [] else FiredFrom(q[1..]) + [Event(q[0], false)]
  }

  function Looping(q: seq<Timer>): seq<Timer>
    reads q`loop
  {
    if q == [] then [] else Looping(q[1..]) + if q[0].loop then [q[0]] else []
  }

  lemma TakenFrom(q: seq<Timer>, k: nat)
    requires k < |q|
    ensures FiredFrom(q[k..]) == FiredFrom(q[k + 1..]) + [Event(q[k], false)]
    ensures Looping(q[k..]) == Looping(q[k + 1..]) + if q[k].loop then [q[k]] else []
  {
    assert q[k..][1..] == q[k + 1..];
  }

  /** Backwards, and not as cancelled. */
  lemma {:induction false} FiredAre(q: seq<Timer>)
    ensures |FiredFrom(q)| == |q| && forall i :: 0 <= i < |q| ==> FiredFrom(q)[i] == Event(q[|q| - 1 - i], false)
    decreases |q|
  {
    if q != [] {
      FiredAre(q[1..]);
    }
  }

  /** Each timer as often as before, if it loops. */
  lemma {:induction false} LoopingAre(q: seq<Timer>, t: Timer)
    ensures multiset(Looping(q))[t] == if t.loop then multiset(q)[t] else 0
    decreases |q|
  {
    if q != [] {
      LoopingAre(q[1..], t);
      assert q == [q[0]] + q[1..];
    }
  }

  // ---------------------------------------------------------------- which timers fire

  /** A pass that keeps the timers up to `kept` was stopped there by one not yet expired, or kept none. */
  ghost predicate StopsAt(q: seq<Timer>, kept: nat, now: int)
    reads q
  {
    && kept <= |q| && (kept > 0 ==> !q[kept - 1].Expired(now))
    && forall i :: kept <= i < |q| ==> q[i].Expired(now)
  }

  ghost predicate FiresExactly(q: seq<Timer>, kept: nat, now: int)
    reads q
  {
    forall i :: 0 <= i < |q| ==> (q[i].Expired(now) <==> i >= kept)
  }

  /** What a pass at this reading is for: it fires all that is expired. */
  ghost predicate PassIsExact(q: seq<Timer>, now: int)
    reads q
  {
    forall kept {:trigger StopsAt(q, kept, now)} :: 0 <= kept && StopsAt(q, kept, now) ==> FiresExactly(q, kept, now)
  }

  ghost predicate ExpiredAreLast(q: seq<Timer>, now: int)
    reads q
  {
    forall i, j :: 0 <= i < j < |q| && q[i].Expired(now) ==> q[j].Expired(now)
  }

  ghost predicate Falling(q: seq<Timer>)
    reads q
  {
    forall i, j :: 0 <= i < j < |q| ==> q[j].expireTime <= q[i].expireTime
  }

  lemma {:induction false} PassStops(q: seq<Timer>, now: int) returns (kept: nat)
    ensures StopsAt(q, kept, now)
  {
    hide Timer.Expired;
    kept := |q|;
    while kept > 0 && q[kept - 1].Expired(now)
      invariant kept <= |q| && forall i :: kept <= i < |q| ==> q[i].Expired(now)
    {
      kept := kept - 1;
    }
  }

  /** At one reading, a pass is exact if and only if no expired timer stands in front of one that is not. */
  lemma ExactIfLast(q: seq<Timer>, now: int)
    ensures PassIsExact(q, now) <==> ExpiredAreLast(q, now)
  {
    hide Timer.Expired;
    if PassIsExact(q, now) {
      var kept := PassStops(q, now);
      assert FiresExactly(q, kept, now);
    }
    if ExpiredAreLast(q, now) {
      forall kept {:trigger StopsAt(q, kept, now)} | 0 <= kept && StopsAt(q, kept, now)
        ensures FiresExactly(q, kept, now)
      {
        assert kept > 0 ==> !q[kept - 1].Expired(now);
      }
    }
  }

  /** Just when the one in front has expired, one that is due later by a nanosecond has not. */
  lemma LaterIsNotExpired(a: Timer, b: Timer)
    ensures var now := a.expireTime - (MICROSECOND - 1);
      a.Expired(now) && (a.expireTime < b.expireTime <==> !b.Expired(now))
  {
  }

  lemma EarlierIsExpired(a: Timer, b: Timer, now: int)
    requires b.expireTime <= a.expireTime
    ensures b.WaitDuration(now) <= a.WaitDuration(now) && (a.Expired(now) ==> b.Expired(now))
  {
  }

  /** At all readings, a pass fires exactly the expired timers if and only if the deadlines fall. */
  lemma FiresExactlyTheExpired(q: seq<Timer>)
    ensures (forall now :: PassIsExact(q, now)) <==> Falling(q)
    ensures (forall now :: ExpiredAreLast(q, now)) <==> Falling(q)
  {
    hide Timer.Expired, PassIsExact;
    forall now
      ensures PassIsExact(q, now) <==> ExpiredAreLast(q, now)
      ensures Falling(q) ==> ExpiredAreLast(q, now)
    {
      ExactIfLast(q, now);
      if Falling(q) {
        forall i, j | 0 <= i < j < |q| && q[i].Expired(now)
          ensures q[j].Expired(now)
        {
          EarlierIsExpired(q[i], q[j], now);
        }
      }
    }
    if forall now :: ExpiredAreLast(q, now) {
      forall i, j | 0 <= i < j < |q|
        ensures q[j].expireTime <= q[i].expireTime
      {
        LaterIsNotExpired(q[i], q[j]);
        assert ExpiredAreLast(q, q[i].expireTime - (MICROSECOND - 1));
      }
    }
  }

  /** How far apart in time timers are whose waits, cut to microseconds, are in order. */
  lemma SortedApart(a: Timer, b: Timer, at: int)
    requires a.WaitDuration(at) >= b.WaitDuration(at)
    ensures b.expireTime < a.expireTime + MICROSECOND
         || at - MICROSECOND < a.expireTime < b.expireTime < at + MICROSECOND
    ensures a.WaitDuration(at) > b.WaitDuration(at) ==> b.expireTime < a.expireTime
  {
  }

  /** After sorting, the deadlines fall if and only if they do among timers with equal waits. */
  lemma FallingIfTiesDo(q: seq<Timer>, at: int)
    requires SortedAt(q, at)
    ensures Falling(q) <==> forall i, j ::
      0 <= i < j < |q| && q[i].WaitDuration(at) == q[j].WaitDuration(at) ==> q[j].expireTime <= q[i].expireTime
  {
    hide Timer.WaitDuration;
    forall i, j | 0 <= i < j < |q|
      ensures q[i].WaitDuration(at) >= q[j].WaitDuration(at)
      ensures q[i].WaitDuration(at) > q[j].WaitDuration(at) ==> q[j].expireTime <= q[i].expireTime
    {
      SortedApart(q[i], q[j], at);
    }
  }

  lemma WholeWait(t: Timer, now: int)
    requires t.expireTime % MICROSECOND == 0 && now % MICROSECOND == 0
    ensures t.expireTime - now == t.WaitDuration(now) * MICROSECOND
  {
    var k, l := t.expireTime / MICROSECOND, now / MICROSECOND;
    assert t.expireTime - now == (k - l) * MICROSECOND;
  }

  /** So they fall if the clock ticks in whole microseconds; then exactly what is due is expired. */
  lemma WholeClockFalls(q: seq<Timer>, at: int)
    requires SortedAt(q, at) && WholeMicros(q) && at % MICROSECOND == 0
    ensures Falling(q)
    ensures forall t, now :: t in q && now % MICROSECOND == 0 ==> (t.Expired(now) <==> t.expireTime <= now)
  {
    hide Timer.WaitDuration;
    forall t, now | t in q && now % MICROSECOND == 0
      ensures t.Expired(now) <==> t.expireTime <= now
    {
      WholeWait(t, now);
    }
    forall i, j | 0 <= i < j < |q|
      ensures q[j].expireTime <= q[i].expireTime
    {
      assert q[i] in q && q[j] in q;
      WholeWait(q[i], at);
      WholeWait(q[j], at);
    }
  }

  /** All timers that are due fire, and none a microsecond early. */
  ghost predicate DueFire(q: seq<Timer>, kept: nat, now: int)
    reads q
  {
    forall i :: 0 <= i < |q| ==> if i < kept then now < q[i].expireTime else q[i].expireTime < now + MICROSECOND
  }

  /** However fine the clock, if it has not gone back since the sorting; else one microsecond can be lost. */
  lemma SteadyClockBound(q: seq<Timer>, kept: nat, at: int, now: int)
    requires SortedAt(q, at) && StopsAt(q, kept, now)
    ensures at <= now ==> DueFire(q, kept, now)
    ensures forall i :: 0 <= i < kept ==> now - MICROSECOND < q[i].expireTime
    ensures forall i :: kept <= i < |q| ==> q[i].expireTime < now + MICROSECOND
  {
    forall i | 0 <= i < kept
      ensures now - MICROSECOND < q[i].expireTime
      ensures at <= now ==> now < q[i].expireTime
    {
      if i < kept - 1 {
        SortedApart(q[i], q[kept - 1], at);
      }
    }
  }

  /**
    But an expired timer can be missed: of deadlines 1400 and 1500, sorted at time 0 into this order,
    the one in front is expired at time 500 and the one at the back is not.
    */
  lemma ExpiredTimerMissed(a: Timer, b: Timer)
    requires a.expireTime == 1400 && b.expireTime == 1500
    ensures SortedAt([a, b], 0) && a.Expired(500) && StopsAt([a, b], 2, 500)
  {
  }

  // ---------------------------------------------------------------- how long to wait

  function Max(a: int, b: int): int {
    if a > b then a else b
  }

  /** The least of a limit and the waits of all timers. */
  function LeastWait(q: seq<Timer>, usec: int, now: int): (w: int)
    reads q
    ensures w <= usec && forall t :: t in q ==> w <= t.WaitDuration(now)
    ensures w == usec || exists t :: t in q && w == t.WaitDuration(now)
  {
    if q == [] then usec
    else
      var rest, wait := LeastWait(q[1..], usec, now), q[0].WaitDuration(now);
      assert q == [q[0]] + q[1..];
      if wait < rest then wait else rest
  }

  /** The timer that is taken for the one due first. */
  function Back(q: seq<Timer>): seq<Timer> {
    if q == [] then [] else [q[|q| - 1]]
  }

  ghost predicate EarliestAtBack(q: seq<Timer>)
    reads q
  {
    forall t, b :: t in q && b in Back(q) ==> b.expireTime <= t.expireTime
  }

  lemma LeastIs(q: seq<Timer>, usec: int, now: int, w: int)
    requires w <= usec && forall t :: t in q ==> w <= t.WaitDuration(now)
    requires w == usec || exists t :: t in q && w == t.WaitDuration(now)
    ensures LeastWait(q, usec, now) == w
  {
  }

  /** The wait of the timer at the back is the least of all at every reading, if and only if it is due first. */
  lemma WaitsForEarliest(q: seq<Timer>)
    ensures (forall usec, now :: Max(0, LeastWait(Back(q), usec, now)) == Max(0, LeastWait(q, usec, now)))
       <==> EarliestAtBack(q)
  {
    if EarliestAtBack(q) {
      forall usec, now
        ensures LeastWait(Back(q), usec, now) == LeastWait(q, usec, now)
      {
        EarliestWait(q, usec, now);
      }
    } else {
      var t, b :| t in q && b in Back(q) && t.expireTime < b.expireTime;
      LaterIsNotExpired(t, b);
      var now := t.expireTime - (MICROSECOND - 1);
      assert LeastWait(q, 1, now) <= t.WaitDuration(now) <= 0;
      LeastIs(Back(q), 1, now, 1);
      assert Max(0, LeastWait(Back(q), 1, now)) != Max(0, LeastWait(q, 1, now));
    }
  }

  lemma EarliestWait(q: seq<Timer>, usec: int, now: int)
    requires EarliestAtBack(q)
    ensures LeastWait(Back(q), usec, now) == LeastWait(q, usec, now)
  {
    hide Timer.WaitDuration, Timer.Expired, LeastWait;
    forall t, b | t in q && b in Back(q)
      ensures b.WaitDuration(now) <= t.WaitDuration(now)
    {
      EarlierIsExpired(t, b, now);
    }
    assert forall b :: b in Back(q) ==> b in q;
    assert q != [] ==> q[|q| - 1] in Back(q);
    LeastIs(q, usec, now, LeastWait(Back(q), usec, now));
  }

  /** Falling deadlines are enough. */
  lemma FallingWaitsForEarliest(q: seq<Timer>)
    requires Falling(q)
    ensures EarliestAtBack(q)
  {
    forall t, b | t in q && b in Back(q)
      ensures b.expireTime <= t.expireTime
    {
      var i :| 0 <= i < |q| && q[i] == t;
    }
  }

  lemma AfterSorting(t: Timer, b: Timer, at: int, now: int)
    requires t.WaitDuration(at) >= b.WaitDuration(at)
    ensures Max(0, b.WaitDuration(now)) <= Max(0, t.WaitDuration(now)) + if at <= now then 1 else 2
  {
  }

  /** However fine the clock, the wait is the least one or a microsecond more; two, if the clock has gone back. */
  lemma SteadyClockWait(q: seq<Timer>, usec: int, at: int, now: int)
    requires SortedAt(q, at)
    ensures LeastWait(q, usec, now) <= LeastWait(Back(q), usec, now)
    ensures Max(0, LeastWait(Back(q), usec, now)) <= Max(0, LeastWait(q, usec, now)) + if at <= now then 1 else 2
  {
    hide Timer.WaitDuration, LeastWait;
    if q != [] {
      var b := q[|q| - 1];
      assert b in q && b in Back(q);
      if t :| t in q && LeastWait(q, usec, now) == t.WaitDuration(now) {
        var i :| 0 <= i < |q| && q[i] == t;
        AfterSorting(t, b, at, now);
      }
    }
  }

  /** And it can be more: for the deadlines above, one timer is due and the wait is one microsecond. */
  lemma WaitTooLong(a: Timer, b: Timer)
    requires a.expireTime == 1400 && b.expireTime == 1500
    ensures SortedAt([a, b], 0) && LeastWait(Back([a, b]), 100, 500) == 1 && LeastWait([a, b], 100, 500) == 0
  {
    assert b in [b] && a in [a, b];
    LeastIs([b], 100, 500, 1);
    LeastIs([a, b], 100, 500, 0);
  }

  // ---------------------------------------------------------------- the queue

  lemma WholeSubset(q: seq<Timer>, r: seq<Timer>)
    requires forall t :: t in r ==> t in q
    ensures WholeMicros(q) ==> WholeMicros(r)
  {
  }

  lemma EarliestNotInFront(q: seq<Timer>, t: Timer, timer: Timer, now: int)
    requires SortedAt(q, now) && t in q
    ensures timer.WaitDuration(now) < t.WaitDuration(now) ==> q[0] != timer
  {
    hide Timer.WaitDuration;
    var i :| 0 <= i < |q| && q[i] == t;
  }

  lemma NothingStops(now: int)
    ensures StopsAt([], 0, now)
  {
  }

  /** Wherever the pass stops. */
  lemma PassFires(q: seq<Timer>, at: int, now: int)
    requires SortedAt(q, at)
    ensures forall kept {:trigger StopsAt(q, kept, now)} :: 0 <= kept && StopsAt(q, kept, now) ==>
      && (Falling(q) ==> FiresExactly(q, kept, now)) && (at <= now ==> DueFire(q, kept, now))
  {
    hide StopsAt, FiresExactly, DueFire, Falling, SortedAt;
    FiresExactlyTheExpired(q);
    assert Falling(q) ==> PassIsExact(q, now);
    forall kept {:trigger StopsAt(q, kept, now)} | 0 <= kept && StopsAt(q, kept, now) && at <= now
      ensures DueFire(q, kept, now)
    {
      SteadyClockBound(q, kept, at, now);
    }
  }

  class TimerQueue {
    var queue: seq<Timer>
    ghost var sortedAt: int // the reading of the clock at the last sort
    ghost var events: seq<Event> // callbacks run or handed over

    ghost predicate Valid()
      reads this, queue
    {
      Distinct(queue) && SortedAt(queue, sortedAt)
    }

    /** So far the clock has ticked in whole microseconds. */
    ghost predicate WholeClock()
      reads this, queue
    {
      WholeMicros(queue) && sortedAt % MICROSECOND == 0
    }

    constructor ()
      ensures Valid() && WholeClock() && queue == [] && events == []
    {
      queue, sortedAt, events := [], 0, [];
    }

    /**
      schedule_timer; wake tells whether the event loop is interrupted. It is for the timer due last: one
      that is due before all others, for which the wait under way is too long, only wakes an empty queue.
      */
    method ScheduleTimer(timer: Timer, now: int) returns (wake: bool)
      requires Valid()
      modifies this`queue, this`sortedAt
      ensures Valid()
      ensures timer in old(queue) ==> queue == old(queue) && sortedAt == old(sortedAt) && !wake
      ensures timer !in old(queue) ==>
        && multiset(queue) == multiset(old(queue)) + multiset{timer} && (wake <==> queue[0] == timer)
        && sortedAt == now && SortedAt(queue, now)
      ensures timer !in old(queue) && (forall t :: t in old(queue) ==> timer.WaitDuration(now) < t.WaitDuration(now))
        ==> (wake <==> old(queue) == [])
      ensures old(WholeClock()) && now % MICROSECOND == 0 && timer.expireTime % MICROSECOND == 0 ==> WholeClock()
    {
      hide Timer.WaitDuration;
      wake := false;
      if timer in queue {
        return;
      }
      var pushed := queue + [timer];
      queue := Sort(pushed, now);
      sortedAt := now;
      SameTimers(pushed, queue);
      wake := timer == queue[0];
      if old(queue) != [] {
        EarliestNotInFront(queue, old(queue)[0], timer, now);
      }
    }

    /** cancel_timer */
    method CancelTimer(timer: Timer)
      requires Valid()
      modifies this`queue, this`events
      ensures Valid() && (old(WholeClock()) ==> WholeClock())
      ensures timer !in old(queue) ==> queue == old(queue) && events == old(events)
      ensures timer in old(queue) ==>
        && timer !in queue && events == old(events) + [Event(timer, true)]
        && exists k :: 0 <= k < |old(queue)| && old(queue)[k] == timer && queue == old(queue)[..k] + old(queue)[k + 1..]
    {
      hide Distinct, SortedAt, WholeMicros;
      var k := 0;
      while k < |queue| && queue[k] != timer
        invariant 0 <= k <= |queue| && timer !in queue[..k]
      {
        k := k + 1;
      }
      if k < |queue| {
        ErasedSorted(queue, k, sortedAt);
        events := events + [Event(timer, true)];
        queue := queue[..k] + queue[k + 1..];
      } else {
        assert queue[..k] == queue;
      }
    }

    /**
      perform_timeout_timers, at one reading of the clock: from the back, timers fire as long as they
      are expired; looping ones are queued again with a new deadline.
      */
    method PerformTimeoutTimers(now: int) returns (ghost kept: nat)
      requires Valid()
      modifies this`queue, this`sortedAt, this`events, queue`expireTime
      ensures Valid() && (old(WholeClock()) && now % MICROSECOND == 0 ==> WholeClock())
      ensures old(StopsAt(queue, kept, now))
      ensures old(Falling(queue)) ==> old(FiresExactly(queue, kept, now))
      ensures old(sortedAt) <= now ==> old(DueFire(queue, kept, now))
      ensures events == old(events) + FiredFrom(old(queue)[kept..])
      ensures multiset(queue) == multiset(old(queue)[..kept] + old(Looping(queue[kept..])))
      ensures if old(Looping(queue[kept..])) == [] then queue == old(queue)[..kept] && sortedAt == old(sortedAt)
              else SortedAt(queue, now) && sortedAt == now
      ensures forall i :: 0 <= i < |old(queue)| ==> NewDeadline(old(queue)[i], old(queue[i].expireTime), i >= kept, now)
    {
      hide StopsAt, FiresExactly, DueFire, Falling, Timer.Expired, SortedAt, Distinct;
      hide NewDeadline, WholeMicros, InOrder, AllWhole, Deadlines, Looping, FiredFrom;
      ghost var q0, was, at := queue, Deadlines(queue), sortedAt;
      PassFires(queue, at, now);
      if queue == [] {
        NoneLooping();
        NothingStops(now);
        return 0;
      }
      DeadlinesInOrder(queue, at);
      var loopTimers;
      loopTimers, kept := FireExpired(now);
      StillSorted(q0, kept, at, now, was);
      InsertedDistinct(q0, kept, loopTimers);
      WholeSubset(q0, queue + loopTimers);
      Requeue(loopTimers, now);
    }

    /** The end of perform_timeout_timers: the looping timers go back into the queue. */
    method Requeue(loopTimers: seq<Timer>, now: int)
      requires Distinct(queue + loopTimers) && SortedAt(queue, sortedAt)
      modifies this`queue, this`sortedAt
      ensures Valid() && multiset(queue) == multiset(old(queue) + loopTimers)
      ensures if loopTimers == [] then queue == old(queue) && sortedAt == old(sortedAt)
              else SortedAt(queue, now) && sortedAt == now
      ensures WholeMicros(old(queue) + loopTimers) && old(sortedAt) % MICROSECOND == 0 && now % MICROSECOND == 0
        ==> WholeClock()
    {
      hide SortedAt, Distinct, WholeMicros;
      var inserted := queue + loopTimers;
      if loopTimers != [] {
        queue := Sort(inserted, now);
        sortedAt := now;
        SameTimers(inserted, queue);
        WholeSubset(inserted, queue);
      } else {
        assert inserted == queue;
      }
    }

    /** The loop of perform_timeout_timers. */
    method FireExpired(now: int) returns (loopTimers: seq<Timer>, ghost kept: nat)
      requires Distinct(queue)
      modifies this`queue, this`events, queue`expireTime
      ensures kept <= |old(queue)| && queue == old(queue)[..kept] && old(StopsAt(queue, kept, now))
      ensures events == old(events) + FiredFrom(old(queue)[kept..])
      ensures loopTimers == old(Looping(queue[kept..]))
      ensures Distinct(loopTimers) && forall t :: t in loopTimers ==> t in old(queue)[kept..] && t.loop
      ensures forall i :: 0 <= i < |old(queue)| ==> NewDeadline(old(queue)[i], old(queue[i].expireTime), i >= kept, now)
    {
      hide Distinct, Timer.Expired, FiredFrom, Looping;
      loopTimers, kept := [], |queue|;
      EmptyDistinct();
      NoneLooping();
      ghost var q0 := queue;
      assert q0[kept..] == [];
      while queue != []
        invariant kept == |queue| <= |q0| && queue == q0[..kept]
        invariant forall i :: kept <= i < |q0| ==> old(q0[i].Expired(now))
        invariant forall i :: 0 <= i < |q0| ==> NewDeadline(q0[i], old(q0[i].expireTime), i >= kept, now)
        invariant events == old(events) + FiredFrom(q0[kept..])
        invariant loopTimers == old(Looping(q0[kept..]))
        invariant Distinct(loopTimers) && forall t :: t in loopTimers ==> t in q0[kept..] && t.loop
      {
        var earliest := queue[|queue| - 1];
        assert NewDeadline(q0[kept - 1], old(q0[kept - 1].expireTime), false, now);
        if earliest.Expired(now) {
          queue := queue[..|queue| - 1];
          events := events + [Event(earliest, false)];
          TakenFrom(q0, kept - 1);
          assert Looping(q0[kept - 1..]) == old(Looping(q0[kept - 1..])) && Looping(q0[kept..]) == loopTimers;
          DistinctAt(q0, kept - 1);
          LaterNot(q0, kept - 1, loopTimers);
          if earliest.loop {
            earliest.ExpiresFromNow(now);
            loopTimers := loopTimers + [earliest];
          }
          kept := kept - 1;
        } else {
          break;
        }
      }
    }

    /** get_wait_duration: how long select may wait, in seconds and microseconds. */
    method GetWaitDuration(sendQueueEmpty: bool, usec: int, now: int) returns (sec: int, micros: int)
      requires Valid()
      ensures 0 <= micros < 1000000 && 0 <= sec
      ensures !sendQueueEmpty ==> sec == 0 && micros == 0
      ensures sendQueueEmpty ==> sec * 1000000 + micros == Max(0, LeastWait(Back(queue), usec, now))
      ensures sendQueueEmpty && EarliestAtBack(queue) ==>
        sec * 1000000 + micros == Max(0, LeastWait(queue, usec, now))
      ensures sendQueueEmpty ==>
        0 <= sec * 1000000 + micros - Max(0, LeastWait(queue, usec, now)) <= if sortedAt <= now then 1 else 2
    {
      hide LeastWait, Timer.WaitDuration, Distinct, SortedAt, EarliestAtBack;
      sec, micros := 0, 0;
      if !sendQueueEmpty {
        return;
      }
      var minDuration := usec;
      if queue != [] {
        var duration := queue[|queue| - 1].WaitDuration(now);
        if minDuration > duration {
          minDuration := duration;
        }
      }
      LeastIs(Back(queue), usec, now, minDuration);
      if EarliestAtBack(queue) { EarliestWait(queue, usec, now); }
      SteadyClockWait(queue, usec, sortedAt, now);
      if minDuration > 0 {
        sec := minDuration / 1000000;
        micros := minDuration % 1000000;
      }
    }

    /** handle_error: all timers are cancelled. */
    method CancelAll()
      requires Valid()
      modifies this`queue, this`events
      ensures Valid() && queue == [] && |events| == |old(events)| + |old(queue)| && old(events) <= events
      ensures forall i :: 0 <= i < |old(queue)| ==> events[|old(events)| + i] == Event(old(queue)[i], true)
    {
      ghost var q0, n := queue, |events|;
      for i := 0 to |queue|
        invariant queue == q0 && |events| == n + i && old(events) <= events
        invariant forall j :: 0 <= j < i ==> events[n + j] == Event(q0[j], true)
      {
        events := events + [Event(queue[i], true)];
      }
      queue := [];
    }
  }

  /** A timer that is due before the one in the queue does not interrupt the event loop. */
  method EarlierUnnoticed(now: int) returns (wake: bool)
    ensures !wake
  {
    hide Distinct, SortedAt, WholeMicros;
    var timers := new TimerQueue();
    var late := new Timer(2, false, now);
    var early := new Timer(1, false, now);
    assert early.WaitDuration(now) < late.WaitDuration(now);
    hide Timer.WaitDuration;
    wake := timers.ScheduleTimer(late, now);
    SameTimers([late], timers.queue);
    wake := timers.ScheduleTimer(early, now);
  }
}
