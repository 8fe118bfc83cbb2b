/**
  Circular doubly linked lists threaded through memory: `fd` and `bk` are the forward and backward
  links by address, and a ring is the sequence of addresses from a chosen first one.
  */
module Rings {
  type Links = map<int, int>

  ghost predicate Distinct(r: seq<int>) {
    forall i, j :: 0 <= i < j < |r| ==> r[i] != r[j]
  }

  function Following(k: nat, n: nat): nat {
    if k + 1 < n then k + 1 else 0
  }

  function Preceding(k: nat, n: nat): nat
    requires n > 0
  {
    if k > 0 then k - 1 else n - 1
  }

  ghost predicate LinkedAt(r: seq<int>, fd: Links, bk: Links, k: nat)
    requires k < |r|
  {
    && r[k] in fd && r[k] in bk
    && fd[r[k]] == r[Following(k, |r|)]
    && bk[r[k]] == r[Preceding(k, |r|)]
  }

  ghost predicate RingOk(r: seq<int>, fd: Links, bk: Links) {
    && |r| > 0 && Distinct(r)
    && forall k {:trigger LinkedAt(r, fd, bk, k)} :: 0 <= k < |r| ==> LinkedAt(r, fd, bk, k)
  }

  /** A ring only depends on the links of its own members. */
  lemma RingFrame(r: seq<int>, fd: Links, bk: Links, fd': Links, bk': Links)
    requires RingOk(r, fd, bk)
    requires forall x :: x in r && x in fd && x in bk ==>
      x in fd' && x in bk' && fd'[x] == fd[x] && bk'[x] == bk[x]
    ensures RingOk(r, fd', bk')
  {
    forall k {:trigger LinkedAt(r, fd', bk', k)} | 0 <= k < |r|
      ensures LinkedAt(r, fd', bk', k)
    {
      assert LinkedAt(r, fd, bk, k);
    }
  }

  lemma Singleton(x: int, fd: Links, bk: Links)
    requires x in fd && x in bk && fd[x] == x && bk[x] == x
    ensures RingOk([x], fd, bk)
  {
  }

  /** The neighbours of a member are members, and linked back to it. */
  lemma Neighbours(r: seq<int>, k: nat, fd: Links, bk: Links)
    requires RingOk(r, fd, bk) && k < |r|
    ensures r[k] in fd && fd[r[k]] in r && fd[r[k]] in bk && bk[fd[r[k]]] == r[k]
    ensures r[k] in bk && bk[r[k]] in r && bk[r[k]] in fd && fd[bk[r[k]]] == r[k]
    ensures bk[r[k]] == r[k] <==> |r| == 1
    ensures fd[r[k]] == bk[r[k]] <==> |r| <= 2
  {
    assert LinkedAt(r, fd, bk, k);
    assert LinkedAt(r, fd, bk, Following(k, |r|));
    assert LinkedAt(r, fd, bk, Preceding(k, |r|));
  }

  /** Linking x in after the first member. */
  lemma InsertSecond(r: seq<int>, x: int, fd: Links, bk: Links, fd': Links, bk': Links)
    requires RingOk(r, fd, bk) && x !in r
    requires r[0] in fd && fd' == fd[r[0] := x][x := fd[r[0]]]
    requires bk' == bk[fd[r[0]] := x][x := r[0]]
    ensures RingOk([r[0], x] + r[1..], fd', bk')
  {
    var s := [r[0], x] + r[1..];
    var n := |r|;
    assert forall k :: 2 <= k < |s| ==> s[k] == r[k - 1];
    assert LinkedAt(r, fd, bk, 0);
    forall k {:trigger LinkedAt(s, fd', bk', k)} | 0 <= k < |s|
      ensures LinkedAt(s, fd', bk', k)
    {
      if k >= 2 {
        assert LinkedAt(r, fd, bk, k - 1);
        assert s[k] == r[k - 1] != r[0];
        assert fd[r[0]] == r[1];
      }
    }
  }

  /** The ring without its k-th member. */
  function Without(r: seq<int>, k: nat): (s: seq<int>)
    requires k < |r|
    ensures |s| == |r| - 1
    ensures forall i :: 0 <= i < |s| ==> s[i] == if i < k then r[i] else r[i + 1]
  {
    r[..k] + r[k + 1..]
  }

  /** s is r with x taken out at one place. */
  ghost predicate LessOne(r: seq<int>, x: int, s: seq<int>) {
    exists k :: 0 <= k < |r| && r[k] == x && s == Without(r, k)
  }

  /** The members by age, when new ones come behind the first, the oldest: from the first one on, backwards. */
  function ByAge(r: seq<int>): (s: seq<int>)
    ensures |s| == |r|
  {
    seq(|r|, i requires 0 <= i < |r| => if i == 0 then r[0] else r[|r| - i])
  }

  lemma NewestLast(r: seq<int>, x: int)
    requires r != []
    ensures ByAge([r[0], x] + r[1..]) == ByAge(r) + [x]
  {
  }

  /** A member leaves; if it is the oldest, the next takes its place. */
  lemma OneLeaves(r: seq<int>, k: nat, s: seq<int>)
    requires k < |r| && |r| > 1
    requires s == if k == 0 then [r[|r| - 1]] + r[1..|r| - 1] else Without(r, k)
    ensures LessOne(ByAge(r), r[k], ByAge(s))
  {
    var j := if k == 0 then 0 else |r| - k;
    assert ByAge(s) == Without(ByAge(r), j);
  }

  /** The member x at position k, its neighbours linked past it. */
  lemma RemoveAt(r: seq<int>, k: nat, fd: Links, bk: Links, fd': Links, bk': Links)
    requires RingOk(r, fd, bk) && k < |r| && |r| > 1
    requires r[k] in bk && r[k] in fd
    requires fd' == fd[bk[r[k]] := fd[r[k]]]
    requires bk' == bk[fd[r[k]] := bk[r[k]]]
    ensures RingOk(Without(r, k), fd', bk')
  {
    var s, n := Without(r, k), |r|;
    assert LinkedAt(r, fd, bk, k);
    var before, after := Preceding(k, n), Following(k, n);
    forall i {:trigger LinkedAt(s, fd', bk', i)} | 0 <= i < |s|
      ensures LinkedAt(s, fd', bk', i)
    {
      var j := if i < k then i else i + 1;
      assert LinkedAt(r, fd, bk, j);
      assert r[j] == r[before] <==> j == before;
      assert r[j] == r[after] <==> j == after;
    }
  }

  /** The same ring, listed from its last member. */
  lemma RotateLast(r: seq<int>, fd: Links, bk: Links)
    requires RingOk(r, fd, bk)
    ensures RingOk([r[|r| - 1]] + r[..|r| - 1], fd, bk)
  {
    var n := |r| - 1;
    var s := [r[n]] + r[..n];
    assert forall i :: 1 <= i < |s| ==> s[i] == r[i - 1];
    forall i {:trigger LinkedAt(s, fd, bk, i)} | 0 <= i < |s|
      ensures LinkedAt(s, fd, bk, i)
    {
      assert LinkedAt(r, fd, bk, if i == 0 then n else i - 1);
    }
  }
}
