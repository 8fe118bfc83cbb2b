/**
  The shape of the tree bins, without addresses: a bitwise trie over chunk sizes. A place in the trie
  is named by its bin, the number of low bits not yet looked at there, and the bits above them;
  the trie maps the occupied places to sizes.
  */
module SizeTrie {
  import opened SizeClasses

  datatype Key = Key(bin: int, lev: int, pre: int)

  function Root(i: nat): Key
    requires i < NTREEBINS
  {
    Key(i, Resolved(i), RootPrefix(i))
  }

  function Child(k: Key, b: int): Key {
    Key(k.bin, k.lev - 1, 2 * k.pre + b)
  }

  function Parent(k: Key): Key {
    Key(k.bin, k.lev + 1, k.pre / 2)
  }

  /** The place that a size passes at level j of its bin. */
  function On(s: nat, j: nat): Key {
    Key(TreeIndex(s), j, Shr(s, j))
  }

  predicate Large(s: nat) {
    0x100 <= s < WORD
  }

  /**
    Every descent follows the size's bits, all places above an occupied one are occupied,
    and each size has one place.
    */
  ghost predicate TrieOk(t: map<Key, nat>, lev: map<nat, nat>) {
    && (forall k :: k in t ==>
      && 0 <= k.bin < NTREEBINS && 0 <= k.lev <= Resolved(k.bin)
      && Large(t[k]) && k == On(t[k], k.lev)
      && t[k] in lev && lev[t[k]] == k.lev)
    && (forall k, j :: k in t && k.lev <= j <= Resolved(k.bin) ==> On(t[k], j) in t)
    && (forall s :: s in lev ==> On(s, lev[s]) in t && t[On(s, lev[s])] == s)
  }

  lemma RootIsOn(s: nat)
    requires Large(s)
    ensures 0 <= TreeIndex(s) < NTREEBINS
    ensures On(s, Resolved(TreeIndex(s))) == Root(TreeIndex(s))
  {
    RootPrefixOf(s);
  }

  lemma OnNext(s: nat, j: nat)
    ensures Shr(s, j + 1) == Shr(s, j) / 2
    ensures Parent(On(s, j)) == On(s, j + 1)
    ensures Child(On(s, j + 1), Shr(s, j) % 2) == On(s, j)
  {
  }

  /** A bin with an occupied place has an occupied root. */
  lemma RootOccupied(t: map<Key, nat>, lev: map<nat, nat>, k: Key)
    requires TrieOk(t, lev) && k in t
    ensures Root(k.bin) in t
  {
    hide TreeIndex, Resolved, RootPrefix, Shr;
    RootIsOn(t[k]);
    assert On(t[k], Resolved(k.bin)) in t;
  }

  lemma ParentOccupied(t: map<Key, nat>, lev: map<nat, nat>, k: Key)
    requires TrieOk(t, lev) && k in t && k.lev < Resolved(k.bin)
    ensures Parent(k) in t && Parent(k) == On(t[k], k.lev + 1)
    ensures exists b :: 0 <= b <= 1 && Child(Parent(k), b) == k
  {
    hide TreeIndex, Resolved, RootPrefix, Shr;
    assert On(t[k], k.lev + 1) in t;
    OnNext(t[k], k.lev);
  }

  /** Sizes below a place, wherever they sit, agree with it on the bits looked at. */
  lemma BelowChild(t: map<Key, nat>, lev: map<nat, nat>, k: Key, b: int)
    requires TrieOk(t, lev) && k in t && Child(k, b) in t && 0 <= b <= 1
    ensures On(t[Child(k, b)], k.lev) == k
  {
    hide TreeIndex, Resolved, RootPrefix, Shr;
    var c := Child(k, b);
    OnNext(t[c], c.lev);
  }

  lemma AgreeAbove(a: nat, b: nat, j: nat, j': nat)
    requires On(a, j) == On(b, j) && j <= j'
    ensures On(a, j') == On(b, j')
  {
    ShrAgree(a, b, j, j');
  }

  // ---------------------------------------------------------------- changes

  lemma AddRoot(t: map<Key, nat>, lev: map<nat, nat>, s: nat)
    requires TrieOk(t, lev) && Large(s) && 0 <= TreeIndex(s) < NTREEBINS
    requires Root(TreeIndex(s)) !in t
    ensures s !in lev
    ensures TrieOk(t[Root(TreeIndex(s)) := s], lev[s := Resolved(TreeIndex(s))])
  {
    hide TreeIndex, Resolved, RootPrefix, Shr;
    var i := TreeIndex(s);
    var r := Root(i);
    RootIsOn(s);
    forall k | k in t
      ensures k.bin != i
    {
      if k.bin == i { RootOccupied(t, lev, k); }
    }
    assert s in lev ==> On(s, lev[s]) in t;
  }

  lemma AddLeaf(t: map<Key, nat>, lev: map<nat, nat>, k: Key, s: nat)
    requires TrieOk(t, lev) && Large(s) && s !in lev
    requires k in t && k.lev > 0 && On(s, k.lev) == k && On(s, k.lev - 1) !in t
    ensures TrieOk(t[On(s, k.lev - 1) := s], lev[s := k.lev - 1])
  {
    hide TreeIndex, Resolved, RootPrefix, Shr;
    var c := On(s, k.lev - 1);
    var t' := t[c := s];
    forall j | c.lev <= j <= Resolved(c.bin)
      ensures On(s, j) in t'
    {
      if j > c.lev {
        AgreeAbove(s, t[k], k.lev, j);
        assert On(t[k], j) in t;
      }
    }
  }

  predicate IsLeaf(t: map<Key, nat>, k: Key) {
    k in t && Child(k, 0) !in t && Child(k, 1) !in t
  }

  lemma DropLeaf(t: map<Key, nat>, lev: map<nat, nat>, k: Key)
    requires TrieOk(t, lev) && IsLeaf(t, k)
    ensures TrieOk(t - {k}, lev - {t[k]})
  {
    hide TreeIndex, Resolved, RootPrefix, Shr;
    var t' := t - {k};
    forall m: Key, j | m in t' && m.lev <= j <= Resolved(m.bin)
      ensures On(t'[m], j) in t'
    {
      assert On(t[m], j) in t;
      if m.lev < j {
        OnNext(t[m], j - 1);
        assert On(t[m], j - 1) in t;
      }
    }
  }

  /** A place may be taken over by any leaf below it: they share the bits looked at so far. */
  lemma TakeOver(t: map<Key, nat>, lev: map<nat, nat>, k: Key, leaf: Key)
    requires TrieOk(t, lev) && k in t && IsLeaf(t, leaf) && k != leaf
    requires leaf.lev <= k.lev && On(t[leaf], k.lev) == k
    ensures TrieOk((t - {leaf})[k := t[leaf]], (lev - {t[k]})[t[leaf] := k.lev])
  {
    hide TreeIndex, Resolved, RootPrefix, Shr;
    var r := t[leaf];
    DropLeaf(t, lev, leaf);
    var t1, lev1 := t - {leaf}, lev - {r};
    var t', lev' := t1[k := r], (lev - {t[k]})[r := k.lev];
    forall m: Key, j | m in t' && m.lev <= j <= Resolved(m.bin)
      ensures On(t'[m], j) in t'
    {
      if m == k {
        AgreeAbove(r, t[k], k.lev, j);
        assert On(t1[k], j) in t1;
      } else {
        assert On(t1[m], j) in t1;
      }
    }
    assert forall s :: s in lev' ==> s == r || (s in lev1 && s != t[k]);
  }
}
