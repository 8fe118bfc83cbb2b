/** A singly linked list kept sorted by a strict weak order; equivalent values may occur repeatedly. */
module SortedMultilist {

  ghost predicate StrictWeakOrder<T(!new)>(less: (T, T) -> bool) {
    && (forall x :: !less(x, x))
    && (forall x, y, z :: less(x, y) && less(y, z) ==> less(x, z))
    && (forall x, y, z :: !less(x, y) && !less(y, z) ==> !less(x, z))
  }

  ghost predicate Sorted<T(!new)>(less: (T, T) -> bool, s: seq<T>) {
    forall i, j :: 0 <= i < j < |s| ==> !less(s[j], s[i])
  }

  /** The values that do not meet the condition, in their order. */
  function Without<T>(s: seq<T>, cond: T -> bool): (r: seq<T>)
    ensures |r| <= |s|
  {
    if s == [] then [] else Without(s[..|s| - 1], cond) + if cond(s[|s| - 1]) then [] else [s[|s| - 1]]
  }

  /** Part by part, the values kept are those not meeting the condition, each as often as before. */
  lemma {:induction false} WithoutIs<T>(a: seq<T>, b: seq<T>, cond: T -> bool, x: T)
    ensures Without(a + b, cond) == Without(a, cond) + Without(b, cond)
    ensures multiset(Without(b, cond))[x] == if cond(x) then 0 else multiset(b)[x]
    decreases |b|
  {
    if b == [] {
      assert a + b == a;
    } else {
      var k := |b| - 1;
      assert (a + b)[..|a + b| - 1] == a + b[..k];
      assert b == b[..k] + [b[k]];
      WithoutIs(a, b[..k], cond, x);
    }
  }

  /** Position k is where a value goes: none in front of it is greater, and none from there on is less. */
  ghost predicate GoesTo<T(!new)>(less: (T, T) -> bool, s: seq<T>, value: T, k: nat) {
    k <= |s| && (forall i :: 0 <= i < k ==> !less(value, s[i])) && (forall i :: k <= i < |s| ==> !less(s[i], value))
  }

  lemma InsertedSorted<T(!new)>(less: (T, T) -> bool, s: seq<T>, value: T, k: nat)
    requires Sorted(less, s) && GoesTo(less, s, value, k)
    ensures Sorted(less, s[..k] + [value] + s[k..])
    ensures multiset(s[..k] + [value] + s[k..]) == multiset(s) + multiset{value}
  {
    assert s == s[..k] + s[k..];
  }

  lemma ErasedSorted<T(!new)>(less: (T, T) -> bool, s: seq<T>, k: nat)
    requires Sorted(less, s) && k < |s|
    ensures Sorted(less, s[..k] + s[k + 1..])
  {
    var r := s[..k] + s[k + 1..];
    assert forall i :: 0 <= i < |r| ==> r[i] == s[if i < k then i else i + 1];
  }

  lemma ErasedCounts<T>(s: seq<T>, k: nat)
    requires k < |s|
    ensures multiset(s[..k] + s[k + 1..]) == multiset(s) - multiset{s[k]}
  {
    assert s == s[..k] + [s[k]] + s[k + 1..];
  }

  predicate FirstErased<T(==)>(s: seq<T>, s': seq<T>, value: T, k: nat) {
    k < |s| && s[k] == value && value !in s[..k] && s' == s[..k] + s[k + 1..]
  }

  lemma SweepStarts<T>(v: seq<T>, cond: T -> bool)
    ensures Swept(v, cond, 0, 0, v)
  {
  }

  ghost predicate Among<T>(s: seq<Node<T>>, all: seq<Node<T>>) {
    forall n :: n in s ==> n in all
  }

  lemma AllAmong<T>(s: seq<Node<T>>)
    ensures Among(s, s)
  {
  }

  lemma AmongErased<T>(s: seq<Node<T>>, all: seq<Node<T>>, k: nat)
    requires Among(s, all) && k < |s|
    ensures Among(s[..k] + s[k + 1..], all) && (k > 0 ==> s[k - 1] in all)
  {
  }

  /** How far remove_if has come: the first k values are kept, those from `done` on have not been looked at. */
  ghost predicate Swept<T>(v: seq<T>, cond: T -> bool, done: nat, k: nat, now: seq<T>) {
    done <= |v| && k == |Without(v[..done], cond)| && now == Without(v[..done], cond) + v[done..]
  }

  lemma SweepOn<T>(v: seq<T>, cond: T -> bool, done: nat, k: nat, now: seq<T>)
    requires Swept(v, cond, done, k, now) && k < |now|
    ensures done < |v|
    ensures cond(now[k]) ==> Swept(v, cond, done + 1, k, now[..k] + now[k + 1..])
    ensures !cond(now[k]) ==> Swept(v, cond, done + 1, k + 1, now)
  {
    assert v[..done + 1][..done] == v[..done];
    assert now[..k] == Without(v[..done], cond) && now[k..] == v[done..];
    assert v[done..] == [v[done]] + v[done + 1..];
  }

  lemma SweepEnds<T>(v: seq<T>, cond: T -> bool, done: nat, k: nat, now: seq<T>)
    requires Swept(v, cond, done, k, now) && k >= |now|
    ensures now == Without(v, cond)
  {
    assert v[..|v|] == v;
  }

  /** The values walked past are less. */
  ghost predicate Passed<T(!new)>(less: (T, T) -> bool, s: seq<T>, value: T, k: nat) {
    k <= |s| && forall i :: 0 <= i < k ==> less(s[i], value)
  }

  lemma NonePassed<T(!new)>(less: (T, T) -> bool, s: seq<T>, value: T)
    ensures Passed(less, s, value, 0)
  {
  }

  lemma OnePassed<T(!new)>(less: (T, T) -> bool, s: seq<T>, value: T, k: nat)
    requires Passed(less, s, value, k) && k < |s| && less(s[k], value)
    ensures Passed(less, s, value, k + 1)
  {
  }

  /** Where the walk of insert ends, the value goes in front or behind. */
  lemma PlaceFound<T(!new)>(less: (T, T) -> bool, s: seq<T>, value: T, k: nat)
    requires StrictWeakOrder(less) && Sorted(less, s) && k < |s|
    requires Passed(less, s, value, k) && (less(s[k], value) ==> k + 1 == |s|)
    ensures GoesTo(less, s, value, if less(value, s[k]) then k else k + 1)
  {
    forall i | k < i < |s|
      ensures !less(s[i], value)
    {
      assert !less(s[i], s[k]);
    }
  }

  lemma PlaceInEmpty<T(!new)>(less: (T, T) -> bool, value: T)
    ensures GoesTo(less, [], value, 0)
  {
  }

  lemma AtErased<T>(s: seq<Node<T>>, k: nat)
    requires k < |s|
    ensures NodeAt(s[..k] + s[k + 1..], k) == NodeAt(s, k + 1)
    ensures k > 0 ==> (s[..k] + s[k + 1..])[k - 1] == s[k - 1]
  {
  }

  class Node<T> {
    var value: T
    var next: Node?<T>

    /** _Buynode */
    constructor (value: T)
      ensures this.value == value && next == null
    {
      this.value, next := value, null;
    }
  }

  ghost predicate Distinct<T>(s: seq<Node<T>>) {
    forall i, j :: 0 <= i < j < |s| ==> s[i] != s[j]
  }

  ghost predicate LinkedAt<T>(s: seq<Node<T>>, i: nat)
    reads s
  {
    i < |s| && s[i].next == if i + 1 < |s| then s[i + 1] else null
  }

  /** The nodes follow one another, and the last has no successor. */
  ghost predicate Linked<T>(s: seq<Node<T>>)
    reads s
  {
    forall i: nat {:trigger LinkedAt(s, i)} :: i < |s| ==> LinkedAt(s, i)
  }

  /** Where a walk along the list stands. */
  function NodeAt<T>(s: seq<Node<T>>, i: nat): Node?<T> {
    if i < |s| then s[i] else null
  }

  ghost function ValuesOf<T>(s: seq<Node<T>>): (v: seq<T>)
    reads s
    ensures |v| == |s| && forall i :: 0 <= i < |s| ==> v[i] == s[i].value
  {
    if s == [] then [] else ValuesOf(s[..|s| - 1]) + [s[|s| - 1].value]
  }

  /** Of two readings of the same nodes, at most the one at position i has another value. */
  ghost predicate OneDiffers<T>(v: seq<T>, v': seq<T>, i: nat) {
    |v| == |v'| && forall j :: 0 <= j < |v| && j != i ==> v[j] == v'[j]
  }

  lemma NoneDiffers<T>(v: seq<T>)
    ensures OneDiffers(v, v, 0)
  {
  }

  class List<T(==, !new)> {
    const less: (T, T) -> bool
    var head: Node?<T>
    var size: nat
    ghost var spine: seq<Node<T>>

    ghost predicate Shape()
      reads this`head, this`spine, spine
    {
      Distinct(spine) && Linked(spine) && head == NodeAt(spine, 0)
    }

    ghost predicate Valid()
      reads this, spine
    {
      Shape() && size == |spine| && StrictWeakOrder(less) && Sorted(less, Values())
    }

    ghost function Values(): seq<T>
      reads this`spine, spine
    {
      ValuesOf(spine)
    }

    constructor (less: (T, T) -> bool)
      requires StrictWeakOrder(less)
      ensures Valid() && Values() == [] && spine == [] && this.less == less
    {
      this.less := less;
      head, size, spine := null, 0, [];
    }

    lemma AtHead()
      requires Shape()
      ensures head == NodeAt(spine, 0)
    {
    }

    lemma DistinctFrom(k: nat)
      requires Shape() && k < |spine|
      ensures forall j :: 0 <= j < |spine| && j != k ==> spine[j] != spine[k]
    {
    }

    lemma At(k: nat)
      requires Shape() && k < |spine|
      ensures spine[k].next == NodeAt(spine, k + 1) && spine[k].value == Values()[k] && |Values()| == |spine|
    {
      assert LinkedAt(spine, k);
    }

    /** A new node with the given value behind node k. */
    method LinkBehind(ptr: Node<T>, value: T, ghost k: nat) returns (node: Node<T>)
      requires Shape() && k < |spine| && ptr == spine[k]
      modifies this`spine, ptr
      ensures Shape() && fresh(node) && node.value == value
      ensures spine == old(spine)[..k + 1] + [node] + old(spine)[k + 1..]
      ensures Values() == old(Values())[..k + 1] + [value] + old(Values())[k + 1..]
    {
      hide ValuesOf;
      assert LinkedAt(spine, k);
      node := new Node(value);
      if ptr.next != null {
        node.next := ptr.next;
        ptr.next := node;
      } else {
        ptr.next := node;
      }
      spine := spine[..k + 1] + [node] + spine[k + 1..];
      forall j: nat {:trigger LinkedAt(spine, j)} | j < |spine|
        ensures LinkedAt(spine, j)
      {
        if j != k + 1 {
          var j0 := if j <= k then j else j - 1;
          assert spine[j] == old(spine)[j0];
          assert old(LinkedAt(spine, j0));
        }
      }
      forall j | 0 <= j < |old(spine)|
        ensures old(spine)[j].value == old(spine[j].value)
      {
      }
    }

    /** std::swap of the values of neighbours. */
    method Swap(ptr: Node<T>, node: Node<T>, ghost k: nat)
      requires Shape() && k + 1 < |spine| && ptr == spine[k] && node == spine[k + 1]
      modifies ptr, node
      ensures Shape() && Values() == old(Values())[k := old(Values())[k + 1]][k + 1 := old(Values())[k]]
    {
      ptr.value, node.value := node.value, ptr.value;
      forall j: nat {:trigger LinkedAt(spine, j)} | j < |spine|
        ensures LinkedAt(spine, j)
      {
        assert old(LinkedAt(spine, j));
      }
    }

    /** insert */
    method Insert(value: T)
      requires Valid()
      modifies this, spine
      ensures Valid() && multiset(Values()) == multiset(old(Values())) + multiset{value}
      ensures exists k: nat :: GoesTo(less, old(Values()), value, k)
                               && Values() == old(Values())[..k] + [value] + old(Values())[k..]
      ensures |spine| == |old(spine)| + 1 && fresh(set n | n in spine && n !in old(spine))
      ensures exists i: nat :: OneDiffers(old(Values()), ValuesOf(old(spine)), i)
    {
      hide Sorted, StrictWeakOrder, OneDiffers, Linked, Distinct, ValuesOf, LinkedAt, GoesTo, Passed;
      ghost var v := Values();
      ghost var k, i: nat := 0, 0;
      if head != null {
        var ptr;
        ptr, i := Walk(value);
        k := InsertBehind(ptr, value, i);
      } else {
        head := new Node(value);
        spine := [head];
        Single(head);
        PlaceInEmpty(less, value);
        NoneDiffers(v);
        assert v == [];
      }
      size := size + 1;
      assert OneDiffers(old(Values()), ValuesOf(old(spine)), i);
      InsertedSorted(less, v, value, k);
      assert Values() == v[..k] + [value] + v[k..];
    }

    /** The loop of insert: on to the first node that is not less, or the last. */
    method Walk(value: T) returns (ptr: Node<T>, ghost k: nat)
      requires Valid() && head != null
      ensures k < |spine| && ptr == spine[k]
      ensures GoesTo(less, Values(), value, if less(value, Values()[k]) then k else k + 1)
    {
      hide Sorted, StrictWeakOrder, List.Shape, ValuesOf, GoesTo, Passed;
      AtHead();
      ptr, k := head, 0;
      NonePassed(less, Values(), value);
      At(0);
      while less(ptr.value, value) && ptr.next != null
        invariant Valid() && k < |spine| && ptr == spine[k] && Passed(less, Values(), value, k)
        decreases |spine| - k
      {
        At(k);
        OnePassed(less, Values(), value, k);
        ptr := ptr.next;
        k := k + 1;
      }
      At(k);
      PlaceFound(less, Values(), value, k);
    }

    /** The end of insert: a new node behind ptr, and the values swapped if they are out of order. */
    method InsertBehind(ptr: Node<T>, value: T, ghost k: nat) returns (ghost place: nat)
      requires Shape() && k < |spine| && ptr == spine[k]
      modifies this`spine, ptr
      ensures Shape() && place == (if less(value, old(Values())[k]) then k else k + 1)
      ensures Values() == old(Values())[..place] + [value] + old(Values())[place..]
      ensures |spine| == |old(spine)| + 1 && fresh(set n | n in spine && n !in old(spine))
      ensures OneDiffers(old(Values()), ValuesOf(old(spine)), k)
    {
      hide List.Shape, ValuesOf;
      At(k);
      DistinctFrom(k);
      ghost var v := Values();
      var node := LinkBehind(ptr, value, k);
      At(k);
      place := k + 1;
      if less(value, ptr.value) {
        Swap(ptr, node, k);
        assert Values() == v[..k] + [value] + v[k..];
        place := k;
      }
      assert forall j :: 0 <= j < |v| && j != k ==> old(spine)[j].value == v[j];
    }

    lemma Single(n: Node<T>)
      requires n.next == null
      ensures Distinct([n]) && Linked([n]) && ValuesOf([n]) == [n.value]
    {
    }

    /** Node i of the list, whose predecessor is `prev` (none for the first), is unlinked and deleted. */
    method Unlink(prev: Node?<T>, entry: Node<T>, ghost i: nat)
      requires Shape() && i < |spine| && entry == spine[i] && prev == if i == 0 then null else spine[i - 1]
      modifies this`head, this`spine, if prev == null then {} else {prev}
      ensures Shape() && spine == old(spine)[..i] + old(spine)[i + 1..]
      ensures Values() == old(Values())[..i] + old(Values())[i + 1..]
    {
      assert LinkedAt(spine, i);
      if prev == null {
        head := entry.next;
      } else {
        prev.next := entry.next;
      }
      spine := spine[..i] + spine[i + 1..];
      forall j: nat {:trigger LinkedAt(spine, j)} | j < |spine|
        ensures LinkedAt(spine, j)
      {
        var j0 := if j < i then j else j + 1;
        assert spine[j] == old(spine)[j0];
        assert old(LinkedAt(spine, j0));
      }
    }

    /** pop_front */
    method PopFront()
      requires Valid() && Values() != []
      modifies this, spine
      ensures Valid() && Values() == old(Values())[1..]
    {
      hide Sorted, StrictWeakOrder, Linked, Distinct, ValuesOf, LinkedAt;
      var deleting := head;
      ErasedSorted(less, Values(), 0);
      Unlink(null, deleting, 0);
      size := size - 1;
    }

    /** remove: the first value equal to the given one goes. */
    method Remove(value: T) returns (found: bool)
      requires Valid()
      modifies this, spine
      ensures Valid() && (found <==> value in old(Values()))
      ensures !found ==> Values() == old(Values())
      ensures found ==> multiset(Values()) == multiset(old(Values())) - multiset{value}
      ensures found ==> exists k: nat :: k < |old(Values())| && FirstErased(old(Values()), Values(), value, k)
    {
      hide Sorted, StrictWeakOrder, List.Shape, ValuesOf;
      AtHead();
      ghost var v := Values();
      ghost var k := 0;
      var prev: Node?<T> := null;
      var entry := head;
      found := false;
      while entry != null
        invariant Valid() && Values() == v && spine == old(spine) && k <= |spine| && entry == NodeAt(spine, k)
        invariant prev == (if k == 0 then null else spine[k - 1])
        invariant value !in v[..k]
        decreases |spine| - k
      {
        At(k);
        if value == entry.value {
          assert FirstErased(v, v[..k] + v[k + 1..], value, k);
          ErasedSorted(less, v, k);
          ErasedCounts(v, k);
          Unlink(prev, entry, k);
          size := size - 1;
          return true;
        }
        prev := entry;
        entry := entry.next;
        k := k + 1;
      }
      assert v[..k] == v;
    }

    /** How far remove_if has come: k values kept, `done` of the original ones looked at. */
    ghost predicate Sweeping(all: seq<Node<T>>, v: seq<T>, cond: T -> bool, done: nat, k: nat,
                             prev: Node?<T>, entry: Node?<T>, count: nat)
      reads this`head, this`spine, this`size, spine
    {
      && Shape() && k <= |spine| && entry == NodeAt(spine, k) && prev == (if k == 0 then null else spine[k - 1])
      && Among(spine, all) && Swept(v, cond, done, k, Values()) && Sorted(less, Values())
      && size == |v| && count == |v| - |spine|
    }

    /** remove_if */
    method RemoveIf(cond: T -> bool) returns (count: nat)
      requires Valid()
      modifies this, spine
      ensures Valid() && Values() == Without(old(Values()), cond) && count == |old(Values())| - |Values()|
    {
      hide Sorted, StrictWeakOrder, List.Shape, List.Sweeping, ValuesOf, Without;
      ghost var v, all := Values(), spine;
      ghost var k, done := 0, 0;
      var prev: Node?<T> := null;
      var entry := head;
      count := 0;
      SweepBegins(cond);
      while entry != null
        invariant Sweeping(all, v, cond, done, k, prev, entry, count)
        decreases |v| - done
      {
        SweepGoesOn(all, v, cond, done, k, prev, entry, count);
        if cond(entry.value) {
          entry := EraseSwept(prev, entry, count, all, v, cond, done, k);
          count := count + 1;
        } else {
          prev := entry;
          entry := entry.next;
          k := k + 1;
        }
        done := done + 1;
      }
      SweepIsOver(all, v, cond, done, k, prev, count);
      size := size - count;
    }

    lemma SweepBegins(cond: T -> bool)
      requires Valid()
      ensures Sweeping(spine, Values(), cond, 0, 0, null, head, 0)
    {
      SweepStarts(Values(), cond);
      AllAmong(spine);
    }

    /** The value looked at, and what keeping it means. */
    lemma SweepGoesOn(all: seq<Node<T>>, v: seq<T>, cond: T -> bool, done: nat, k: nat,
                      prev: Node?<T>, entry: Node<T>, count: nat)
      requires Sweeping(all, v, cond, done, k, prev, entry, count)
      ensures done < |v| && entry in all && (prev != null ==> prev in all)
      ensures !cond(entry.value) ==> Sweeping(all, v, cond, done + 1, k + 1, entry, entry.next, count)
    {
      hide List.Shape, Sorted, ValuesOf, Without;
      At(k);
      SweepOn(v, cond, done, k, Values());
      AmongErased(spine, all, k);
    }

    lemma SweepIsOver(all: seq<Node<T>>, v: seq<T>, cond: T -> bool, done: nat, k: nat, prev: Node?<T>, count: nat)
      requires Sweeping(all, v, cond, done, k, prev, null, count)
      ensures Shape() && Values() == Without(v, cond) && Sorted(less, Values())
      ensures size == |v| && count == |v| - |spine|
    {
      hide List.Shape, Sorted, ValuesOf, Without;
      SweepEnds(v, cond, done, k, Values());
    }

    /** remove_if deletes a value that meets the condition. */
    method EraseSwept(prev: Node?<T>, entry: Node<T>, ghost count: nat,
                      ghost all: seq<Node<T>>, ghost v: seq<T>, cond: T -> bool, ghost done: nat, ghost k: nat)
      returns (next: Node?<T>)
      requires Sweeping(all, v, cond, done, k, prev, entry, count) && cond(entry.value)
      modifies this`head, this`spine, if prev == null then {} else {prev}
      ensures Sweeping(all, v, cond, done + 1, k, prev, next, count + 1)
    {
      hide Sorted, List.Shape, ValuesOf, Without, Swept, Among;
      At(k);
      SweepOn(v, cond, done, k, Values());
      AtErased(spine, k);
      AmongErased(spine, all, k);
      ErasedSorted(less, Values(), k);
      next := entry.next;
      Unlink(prev, entry, k);
    }

    /** clear */
    method Clear()
      requires Valid()
      modifies this, spine
      ensures Valid() && Values() == []
    {
      hide Sorted, StrictWeakOrder, Linked, Distinct, ValuesOf, LinkedAt;
      while head != null
        invariant Shape() && Sorted(less, Values()) && forall n :: n in spine ==> n in old(spine)
        decreases |spine|
      {
        ErasedSorted(less, Values(), 0);
        Unlink(null, head, 0);
      }
      head, size := null, 0;
    }
  }
}
