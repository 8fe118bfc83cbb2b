/**
  Best fit in the tree bins, on the trie of sizes: why one descent along the bits of the request and
  one leftmost descent see the least size that fits.
  */
module TreeSearch {
  import opened SizeClasses
  import opened SizeTrie

  /** l is at or below the place k. */
  ghost predicate InSub(t: map<Key, nat>, l: Key, k: Key) {
    l in t && l.bin == k.bin && l.lev <= k.lev && 0 <= k.lev && Shr(t[l], k.lev) == k.pre
  }

  /** l is at or below the place k, or holds a larger size than anything there. */
  ghost predicate NotLeftOf(t: map<Key, nat>, l: Key, k: Key)
    requires k.lev >= 0
  {
    InSub(t, l, k) || (l in t && l.bin == k.bin && Shr(t[l], k.lev) > k.pre)
  }

  ghost predicate Fits(t: map<Key, nat>, l: Key, bin: int, nb: nat) {
    l in t && l.bin == bin && t[l] >= nb
  }

  /** A size at least as small as that of l was already found (best is negative before the first). */
  ghost predicate Beaten(t: map<Key, nat>, l: Key, best: int) {
    l in t && 0 <= best <= t[l]
  }

  // ---------------------------------------------------------------- leftmost descent

  /** All fitting sizes of the bin are beaten, or still to be met from k on. */
  ghost predicate LeftmostCover(t: map<Key, nat>, bin: int, nb: nat, best: int, k: Key)
    requires k.lev >= 0
  {
    forall l {:trigger Fits(t, l, bin, nb)} :: Fits(t, l, bin, nb) ==>
      Beaten(t, l, best) || NotLeftOf(t, l, k)
  }

  ghost predicate Exhausted(t: map<Key, nat>, bin: int, nb: nat, best: int) {
    forall l {:trigger Fits(t, l, bin, nb)} :: Fits(t, l, bin, nb) ==> Beaten(t, l, best)
  }

  function LeftmostChild(t: map<Key, nat>, k: Key): Key {
    if Child(k, 0) in t then Child(k, 0) else Child(k, 1)
  }

  function Least(best: int, s: nat): int {
    if 0 <= best <= s then best else s
  }

  /** Below a place, everything else is below one of its two children. */
  lemma SubSplits(t: map<Key, nat>, lev: map<nat, nat>, k: Key, l: Key)
    requires TrieOk(t, lev) && k in t && InSub(t, l, k) && l != k
    ensures k.lev > 0 && l.lev < k.lev
    ensures (InSub(t, l, Child(k, 0)) && Child(k, 0) in t) || (InSub(t, l, Child(k, 1)) && Child(k, 1) in t)
  {
    hide TreeIndex, Resolved, RootPrefix, Shr;
    assert k == On(t[k], k.lev) && l == On(t[l], l.lev);
    assert l.lev == k.lev ==> l == k;
    OnNext(t[l], k.lev - 1);
    assert On(t[l], k.lev - 1) in t;
    assert Child(k, Shr(t[l], k.lev - 1) % 2) == On(t[l], k.lev - 1);
  }

  lemma LargerPrefix(a: nat, b: nat, j: nat, j': nat)
    requires Shr(a, j) < Shr(b, j) && j' <= j
    ensures Shr(a, j') < Shr(b, j') && a < b
  {
    if Shr(b, j') <= Shr(a, j') { ShrMonotoneFrom(b, a, j', j); }
    if b <= a { ShrMonotone(b, a, j); }
  }

  lemma {:induction false} ShrMonotoneFrom(b: nat, a: nat, j': nat, j: nat)
    requires j' <= j && Shr(b, j') <= Shr(a, j')
    ensures Shr(b, j) <= Shr(a, j)
    decreases j - j'
  {
    if j' < j { ShrMonotoneFrom(b, a, j' + 1, j); }
  }

  /** After the size at k is taken into account, the rest is ahead of the leftmost child. */
  lemma LeftmostStep(t: map<Key, nat>, lev: map<nat, nat>, bin: int, nb: nat, best: int, k: Key)
    requires TrieOk(t, lev) && k in t && k.bin == bin && t[k] >= nb
    requires LeftmostCover(t, bin, nb, best, k)
    ensures var best', n := Least(best, t[k]), LeftmostChild(t, k);
      if n in t then n.lev >= 0 && LeftmostCover(t, bin, nb, best', n)
      else Exhausted(t, bin, nb, best')
  {
    hide TreeIndex, Resolved, RootPrefix, Shr;
    var best', n := Least(best, t[k]), LeftmostChild(t, k);
    assert k == On(t[k], k.lev);
    assert n in t ==> n == On(t[n], n.lev) && n.lev >= 0;
    forall l {:trigger Fits(t, l, bin, nb)} | Fits(t, l, bin, nb)
      ensures Beaten(t, l, best') || (n in t && NotLeftOf(t, l, n))
    {
      if Beaten(t, l, best) || l == k {
      } else if InSub(t, l, k) {
        SubSplits(t, lev, k, l);
      } else {
        LargerPrefix(t[k], t[l], k.lev, k.lev);
      }
    }
  }

  lemma SubOfChildFits(t: map<Key, nat>, lev: map<nat, nat>, k: Key, n: Key, nb: nat)
    requires TrieOk(t, lev) && k in t && n in t && (n == Child(k, 0) || n == Child(k, 1))
    requires forall l {:trigger InSub(t, l, k)} :: InSub(t, l, k) ==> t[l] >= nb
    ensures forall l {:trigger InSub(t, l, n)} :: InSub(t, l, n) ==> t[l] >= nb
    ensures InSub(t, n, n) && n.lev < k.lev
  {
    hide TreeIndex, Resolved, RootPrefix, Shr;
    forall l {:trigger InSub(t, l, n)} | InSub(t, l, n)
      ensures t[l] >= nb
    {
      assert n == On(t[n], n.lev);
      OnNext(t[l], n.lev);
      assert InSub(t, l, k);
    }
    assert n == On(t[n], n.lev);
  }

  // ---------------------------------------------------------------- descent along the request

  /**
    While descending along the bits of nb: a fitting size is beaten, or at or below the current place,
    or it is at or to the right of the deepest right subtree not taken.
    */
  ghost predicate DescentCover(t: map<Key, nat>, nb: nat, best: int, k: Key, hasRight: bool, right: Key)
    requires hasRight ==> right.lev >= 0
  {
    forall l {:trigger Fits(t, l, k.bin, nb)} :: Fits(t, l, k.bin, nb) ==>
      Beaten(t, l, best) || InSub(t, l, k) || (hasRight && NotLeftOf(t, l, right))
  }

  /** The subtree not taken holds larger sizes than the request. */
  ghost predicate RightOk(t: map<Key, nat>, nb: nat, k: Key, right: Key) {
    && right in t && right.bin == k.bin && k.lev <= right.lev && 0 <= right.lev && Shr(nb, right.lev) < right.pre
  }

  lemma DescentStart(t: map<Key, nat>, lev: map<nat, nat>, nb: nat)
    requires TrieOk(t, lev) && Large(nb)
    ensures 0 <= TreeIndex(nb) < NTREEBINS
    ensures var r := Root(TreeIndex(nb)); r == On(nb, r.lev) && DescentCover(t, nb, -1, r, false, r)
  {
    hide TreeIndex, Resolved, RootPrefix, Shr;
    RootIsOn(nb);
    var r := Root(TreeIndex(nb));
    forall l {:trigger Fits(t, l, r.bin, nb)} | Fits(t, l, r.bin, nb)
      ensures InSub(t, l, r)
    {
      assert l == On(t[l], l.lev);
      RootIsOn(t[l]);
    }
  }

  /** At the last level only the requested size itself can be. */
  lemma LastLevel(t: map<Key, nat>, lev: map<nat, nat>, nb: nat, k: Key)
    requires TrieOk(t, lev) && k in t && k == On(nb, k.lev) && t[k] != nb
    ensures k.lev > 0
  {
    hide TreeIndex, Resolved, RootPrefix;
    assert k == On(t[k], k.lev);
  }

  /** The deepest right subtree after a step down. */
  function RightAfter(t: map<Key, nat>, k: Key, b: int, hasRight: bool, right: Key): (bool, Key) {
    if b == 0 && Child(k, 1) in t then (true, Child(k, 1)) else (hasRight, right)
  }

  lemma DescentStep(t: map<Key, nat>, lev: map<nat, nat>, nb: nat, best: int, k: Key,
                    hasRight: bool, right: Key)
    requires TrieOk(t, lev) && k in t && k == On(nb, k.lev) && k.lev > 0
    requires hasRight ==> RightOk(t, nb, k, right)
    requires DescentCover(t, nb, best, k, hasRight, right)
    ensures var b := Shr(nb, k.lev - 1) % 2;
      var n := Child(k, b);
      var (hasRight', right') := RightAfter(t, k, b, hasRight, right);
      var best' := if t[k] >= nb then Least(best, t[k]) else best;
      && n == On(nb, n.lev) && n.lev == k.lev - 1
      && (hasRight' ==> RightOk(t, nb, n, right'))
      && (if n in t then DescentCover(t, nb, best', n, hasRight', right')
          else if hasRight' then LeftmostCover(t, k.bin, nb, best', right')
          else Exhausted(t, k.bin, nb, best'))
  {
    hide TreeIndex, Resolved, RootPrefix, Shr;
    var b := Shr(nb, k.lev - 1) % 2;
    var n := Child(k, b);
    var (hasRight', right') := RightAfter(t, k, b, hasRight, right);
    var best' := if t[k] >= nb then Least(best, t[k]) else best;
    OnNext(nb, k.lev - 1);
    assert n == On(nb, k.lev - 1);
    assert hasRight' ==> RightOk(t, nb, n, right');
    forall l {:trigger Fits(t, l, k.bin, nb)} | Fits(t, l, k.bin, nb)
      ensures Beaten(t, l, best') || (InSub(t, l, n) && n in t) || (hasRight' && NotLeftOf(t, l, right'))
    {
      if Beaten(t, l, best) || l == k {
      } else if InSub(t, l, k) {
        SubSplits(t, lev, k, l);
        if !InSub(t, l, n) {
          OtherSide(t, lev, nb, k, b, l);
        }
      } else {
        StillRight(t, lev, nb, k, b, right, l);
      }
    }
  }

  /** What is below the child not taken is too small, or in the right subtree. */
  lemma OtherSide(t: map<Key, nat>, lev: map<nat, nat>, nb: nat, k: Key, b: int, l: Key)
    requires TrieOk(t, lev) && k in t && k == On(nb, k.lev) && k.lev > 0 && b == Shr(nb, k.lev - 1) % 2
    requires l in t && t[l] >= nb && InSub(t, l, Child(k, 1 - b)) && Child(k, 1 - b) in t
    ensures b == 0
  {
    hide TreeIndex, Resolved, RootPrefix, Shr;
    OnNext(nb, k.lev - 1);
    if b == 1 {
      LargerPrefix(t[l], nb, k.lev - 1, k.lev - 1);
    }
  }

  /** What was right of an earlier untaken subtree is right of a deeper one. */
  lemma StillRight(t: map<Key, nat>, lev: map<nat, nat>, nb: nat, k: Key, b: int, right: Key, l: Key)
    requires TrieOk(t, lev) && k in t && k == On(nb, k.lev) && k.lev > 0 && b == Shr(nb, k.lev - 1) % 2
    requires RightOk(t, nb, k, right) && NotLeftOf(t, l, right)
    ensures b == 0 && Child(k, 1) in t ==> NotLeftOf(t, l, Child(k, 1))
  {
    hide TreeIndex, Resolved, RootPrefix, Shr;
    var n := Child(k, 1);
    if b == 0 && n in t {
      var a := t[n];
      BelowChild(t, lev, k, 1);
      ShrAgree(a, nb, k.lev, right.lev);
      LargerPrefix(a, t[l], right.lev, n.lev);
      assert n == On(a, n.lev);
    }
  }

  /** The right subtree is all larger than the request. */
  lemma RightFits(t: map<Key, nat>, lev: map<nat, nat>, nb: nat, k: Key, right: Key)
    requires TrieOk(t, lev) && RightOk(t, nb, k, right) && right.lev >= 0
    ensures forall l {:trigger InSub(t, l, right)} :: InSub(t, l, right) ==> t[l] >= nb
    ensures InSub(t, right, right)
  {
    hide TreeIndex, Resolved, RootPrefix, Shr;
    assert right == On(t[right], right.lev);
    forall l {:trigger InSub(t, l, right)} | InSub(t, l, right)
      ensures t[l] >= nb
    {
      LargerPrefix(nb, t[l], right.lev, right.lev);
    }
  }

  // ---------------------------------------------------------------- from one bin to all

  /** A size of a later bin is larger than a size of an earlier one. */
  lemma LaterBinLarger(a: nat, b: nat)
    requires 0x100 <= a && 0x100 <= b && TreeIndex(a) < TreeIndex(b)
    ensures a < b
  {
    hide TreeIndex;
    if b <= a { TreeIndexMonotone(b, a); }
  }
}
