/** A pool of equal-sized slots: a free list threaded through the slots of chunks that are never given back. */
module ObjectPool {

  /** A slot; its link counts only while the slot is free, a user overwrites it. */
  class Slot {
    var next: Slot?

    constructor ()
    {
      next := null;
    }
  }

  class Chunk {
    const data: seq<Slot>
    const next: Chunk?
    ghost const behind: nat // how many chunks follow

    constructor (data: seq<Slot>, next: Chunk?)
      ensures this.data == data && this.next == next && behind == ChunkCount(next)
    {
      this.data, this.next := data, next;
      behind := ChunkCount(next);
    }
  }

  ghost function SetOf(s: seq<Slot>): set<Slot> {
    set x | x in s
  }

  lemma SetOfLonger(s: seq<Slot>, x: Slot)
    ensures SetOf([x] + s) == {x} + SetOf(s)
  {
  }

  ghost function ChunkCount(c: Chunk?): nat {
    if c == null then 0 else c.behind + 1
  }

  /** How many slots the chunks have. */
  ghost function Capacity(c: Chunk?, elemCount: nat): nat {
    ChunkCount(c) * elemCount
  }

  lemma OneMoreChunk(c: Chunk, elemCount: nat)
    requires ChunkCount(c.next) == c.behind
    ensures Capacity(c, elemCount) == Capacity(c.next, elemCount) + elemCount
  {
    assert ChunkCount(c) * elemCount == ChunkCount(c.next) * elemCount + elemCount;
  }

  /** The slots of all chunks of a chain. */
  ghost function SlotsOf(c: Chunk?): set<Slot>
    decreases ChunkCount(c)
  {
    if c == null then {} else
      SetOf(c.data) + if ChunkCount(c.next) == c.behind then SlotsOf(c.next) else {}
  }

  ghost predicate Distinct(s: seq<Slot>) {
    forall i, j :: 0 <= i < j < |s| ==> s[i] != s[j]
  }

  ghost predicate LinkedAt(s: seq<Slot>, i: nat)
    reads s
  {
    i < |s| && s[i].next == if i + 1 < |s| then s[i + 1] else null
  }

  ghost predicate Linked(s: seq<Slot>)
    reads s
  {
    forall i: nat {:trigger LinkedAt(s, i)} :: i < |s| ==> LinkedAt(s, i)
  }

  function First(s: seq<Slot>): Slot? {
    if s == [] then null else s[0]
  }

  class Pool {
    const elemCount: nat
    var head: Slot?
    var chunk: Chunk?
    var count: nat
    ghost var free: seq<Slot> // the free list
    ghost var used: set<Slot> // the slots handed out

    ghost predicate FreeList()
      reads this`head, this`free, free
    {
      Distinct(free) && Linked(free) && head == First(free)
    }

    /** Every slot of the chunks is free or in use, not both; the counter tells how many are in use. */
    ghost predicate Valid()
      reads this, free
    {
      && FreeList() && elemCount > 0
      && (forall s :: s in free ==> s !in used)
      && SlotsOf(chunk) == SetOf(free) + used
      && count == |used| && |free| + count == Capacity(chunk, elemCount)
    }

    constructor (elemCount: nat)
      requires elemCount > 0
      ensures Valid() && used == {} && ChunkCount(chunk) == 1 && this.elemCount == elemCount
      ensures fresh(set s | s in free)
    {
      this.elemCount := elemCount;
      head, chunk, count := null, null, 0;
      free, used := [], {};
      new;
      Enlarge();
    }

    /** _Enlarge, which is called when no slot is free. */
    method Enlarge()
      requires Valid() && free == []
      modifies this
      ensures Valid() && used == old(used) && count == old(count) && ChunkCount(chunk) == old(ChunkCount(chunk)) + 1
      ensures |free| == elemCount && fresh(set s | s in free)
    {
      var slots := NewSlots(elemCount);
      assert forall s :: s in slots ==> s !in used;
      chunk := new Chunk(slots, chunk);
      LinkUp(slots);
      head := slots[0];
      free := slots;
      OneMoreChunk(chunk, elemCount);
    }

    /** The loop of _Enlarge: every slot links to the one behind it, the last to none. */
    static method LinkUp(slots: seq<Slot>)
      requires Distinct(slots) && slots != []
      modifies slots
      ensures Linked(slots)
    {
      var i := 0;
      while i < |slots| - 1
        invariant 0 <= i < |slots|
        invariant forall j: nat {:trigger LinkedAt(slots, j)} :: j < i ==> LinkedAt(slots, j)
      {
        LinkSlot(slots, i, slots[i + 1]);
        i := i + 1;
      }
      LinkSlot(slots, |slots| - 1, null);
    }

    static method LinkSlot(slots: seq<Slot>, i: nat, next: Slot?)
      requires Distinct(slots) && i < |slots| && next == if i + 1 < |slots| then slots[i + 1] else null
      requires forall j: nat {:trigger LinkedAt(slots, j)} :: j < i ==> LinkedAt(slots, j)
      modifies slots[i]
      ensures forall j: nat {:trigger LinkedAt(slots, j)} :: j <= i ==> LinkedAt(slots, j)
    {
      slots[i].next := next;
      forall j: nat {:trigger LinkedAt(slots, j)} | j <= i
        ensures LinkedAt(slots, j)
      {
        assert j < i ==> old(LinkedAt(slots, j)) && slots[j] != slots[i];
      }
    }

    /** get: a slot that is not in use. */
    method Get() returns (slot: Slot)
      requires Valid()
      modifies this
      ensures Valid() && slot !in old(used) && used == old(used) + {slot} && count == old(count) + 1
      ensures if old(free) == [] then fresh(slot) && ChunkCount(chunk) == old(ChunkCount(chunk)) + 1
              else slot == old(free)[0] && free == old(free)[1..] && chunk == old(chunk)
    {
      hide Distinct, Linked, SetOf, SlotsOf, Capacity;
      if head == null {
        Enlarge();
      }
      slot := PopFree();
    }

    /** The end of get: the first free slot leaves the list. */
    method PopFree() returns (slot: Slot)
      requires Valid() && free != []
      modifies this`head, this`count, this`free, this`used
      ensures Valid() && slot == old(free)[0] && slot !in old(used) && used == old(used) + {slot}
      ensures count == old(count) + 1 && free == old(free)[1..]
    {
      hide Distinct, Linked, SetOf, SlotsOf, Capacity;
      Shorter(free);
      slot := head;
      head := slot.next;
      count := count + 1;
      free := free[1..];
      used := used + {slot};
    }

    /** release: the slot is the next to be handed out. */
    method Release(slot: Slot)
      requires Valid() && slot in used
      modifies this, slot
      ensures Valid() && used == old(used) - {slot} && count == old(count) - 1
      ensures free == [slot] + old(free) && chunk == old(chunk)
    {
      hide SetOf, SlotsOf, Capacity;
      slot.next := head;
      head := slot;
      count := count - 1;
      ghost var rest := free;
      SetOfLonger(free, slot);
      free := [slot] + free;
      used := used - {slot};
      forall j: nat {:trigger LinkedAt(free, j)} | j < |free|
        ensures LinkedAt(free, j)
      {
        if j > 0 {
          assert old(LinkedAt(free, j - 1));
          assert rest[j - 1] in rest && free[j] == rest[j - 1];
        }
      }
    }
  }

  lemma Shorter(s: seq<Slot>)
    requires s != [] && Distinct(s) && Linked(s)
    ensures Distinct(s[1..]) && Linked(s[1..]) && s[0].next == First(s[1..]) && s[0] !in s[1..]
    ensures SetOf(s) == {s[0]} + SetOf(s[1..])
  {
    assert s == [s[0]] + s[1..];
    SetOfLonger(s[1..], s[0]);
    assert LinkedAt(s, 0);
    forall j: nat {:trigger LinkedAt(s[1..], j)} | j < |s[1..]|
      ensures LinkedAt(s[1..], j)
    {
      assert LinkedAt(s, j + 1);
    }
  }

  method NewSlots(n: nat) returns (slots: seq<Slot>)
    ensures |slots| == n && Distinct(slots) && fresh(set s | s in slots)
  {
    slots := [];
    while |slots| < n
      invariant |slots| <= n && Distinct(slots) && fresh(set s | s in slots)
    {
      var s := new Slot();
      slots := slots + [s];
    }
  }
}
