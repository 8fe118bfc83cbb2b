/**
  The tree bins of malloc_state as mutable memory: insertion, removal and best-fit search of large
  free chunks. Every runtime check of the source is kept; `ok` says that none of them failed.
  */
module TreeBins {
  import opened Words
  import opened SizeClasses
  import opened Chunks
  import opened BinMaps
  import opened Rings
  import opened SizeTrie
  import opened TreeLinks
  import opened TreeContents
  import opened TreeRemoval
  import opened TreeSearch

  class TreeBins {
    const leastAddr: nat
    var child0: Links
    var child1: Links
    var parent: Links
    var fd: Links
    var bk: Links
    var index: Links
    var treebins: seq<int>
    var treemap: BinMap
    ghost var contents: Contents

    ghost function Mem(): TreeMem
      reads this
    {
      TreeMem(child0, child1, parent, fd, bk, index, treebins, treemap)
    }

    ghost predicate Valid()
      reads this
    {
      Ok(contents, Mem()) && leastAddr > 0 && AllFrom(contents.sizes, leastAddr)
    }

    /** The binned chunks with their sizes. */
    ghost function Sizes(): map<int, nat>
      reads this
    {
      contents.sizes
    }

    /** The chunk headers in memory agree with the binned sizes. */
    ghost predicate Agrees(head: map<int, Head>)
      reads this
    {
      forall x :: x in contents.sizes ==> x in head && head[x].size == contents.sizes[x]
    }

    constructor (leastAddr: nat)
      requires leastAddr > 0
      ensures Valid() && Sizes() == map[] && this.leastAddr == leastAddr
    {
      this.leastAddr := leastAddr;
      child0, child1, parent, fd, bk, index := map[], map[], map[], map[], map[], map[];
      treebins := seq(32, i => 0);
      treemap := Zeros(32);
      contents := Contents(map[], map[], map[], map[], map[]);
    }

    /** x is about to be inserted: its own index and child fields are set, nothing else is changed. */
    ghost predicate Prepared(c: Contents, m: TreeMem, x: int, s: nat)
      reads this
    {
      && ToInsert(c, m, x, s, leastAddr) && contents == c
      && Mem() == m.(child0 := m.child0[x := 0], child1 := m.child1[x := 0], index := m.index[x := TreeIndex(s)])
    }

    /** The first chunk of a bin becomes its root. */
    method StartBin(x: int, s: nat, i: nat, ghost c: Contents, ghost m: TreeMem)
      requires Prepared(c, m, x, s) && i < NTREEBINS && i == TreeIndex(s) && !treemap[i]
      modifies this
      ensures Valid() && Sizes() == c.sizes[x := s]
      ensures forall z :: Queue(contents, z) == if z == s then [x] else Queue(c, z)
    {
      hide TreeIndex, Root, Ok, ToInsert;
      BinStarted(c, m, x, s, leastAddr);
      treemap := Or(treemap, BitOf(i));
      treebins := treebins[i := x];
      parent := parent[x := TreeBinAt(i)];
      fd, bk := fd[x := x], bk[x := x];
      contents := WithNode(c, Root(i), x, s);
    }

    /** A new size gets a leaf below the node t. */
    method HangLeaf(x: int, s: nat, t: int, right: bool, ghost key: Key, ghost c: Contents, ghost m: TreeMem)
      requires Prepared(c, m, x, s) && key in c.trie && key in c.place && t == c.place[key]
      requires key.lev > 0 && key == On(s, key.lev) && s !in c.lev
      requires var l := Child(key, if right then 1 else 0); l == On(s, key.lev - 1) && l !in c.trie
      modifies this
      ensures Valid() && Sizes() == c.sizes[x := s]
      ensures forall z :: Queue(contents, z) == if z == s then [x] else Queue(c, z)
    {
      hide TreeIndex, Child, Ok, ToInsert;
      LeafHung(c, m, x, s, leastAddr, key, if right then 1 else 0);
      if right { child1 := child1[t := x]; } else { child0 := child0[t := x]; }
      parent := parent[x := t];
      fd, bk := fd[x := x], bk[x := x];
      contents := WithNode(c, Child(key, if right then 1 else 0), x, s);
    }

    /** A further chunk of the size of the node t joins its ring. */
    method JoinRing(x: int, s: nat, t: int, f: int, ghost c: Contents, ghost m: TreeMem)
      requires Prepared(c, m, x, s) && s in c.rings && c.rings[s] != [] && t == c.rings[s][0]
      requires t in fd && f == fd[t]
      modifies this
      ensures Valid() && Sizes() == c.sizes[x := s]
      ensures forall z :: Queue(contents, z) == if z == s then Queue(c, z) + [x] else Queue(c, z)
    {
      hide TreeIndex, Ok, ToInsert, ByAge;
      RingJoined(c, m, x, s, leastAddr);
      NewestLast(c.rings[s], x);
      fd := fd[t := x];
      bk := bk[f := x];
      fd := fd[x := f];
      bk := bk[x := t];
      parent := parent[x := 0];
      contents := WithMate(c, x, s);
    }

    /** `insert_large_chunk`. */
    method InsertLarge(x: int, s: nat, head: map<int, Head>) returns (ok: bool)
      requires Valid() && Agrees(head) && x !in Sizes() && x >= leastAddr && Large(s)
      modifies this
      ensures ok && Valid() && Sizes() == old(Sizes())[x := s]
      ensures forall z :: Queue(contents, z) == old(Queue(contents, z)) + if z == s then [x] else []
    {
      hide TreeIndex, Resolved, RootPrefix, Shr, Ok, Sound, Queue;
      RootIsOn(s);
      ghost var m, c := Mem(), contents;
      PlacesSound(c, m);
      ok := true;
      var i := TreeIndex(s);
      BinMarked(c, m, i);
      index := index[x := i];
      child0, child1 := child0[x := 0], child1[x := 0];
      if !treemap[i] {
        NoneInBin(c, m, s);
        StartBin(x, s, i, c, m);
        return;
      }
      var t := treebins[i];
      var k := Shl(s, LeftShiftForTreeIndex(i));
      ghost var key := Root(i);
      AtNode(c, m, key);
      NotAboveRoot(c, m, s);
      while true
        invariant ok && Prepared(c, m, x, s) && Agrees(head)
        invariant 0 <= key.lev <= 64 && k == Shl(s, 64 - key.lev)
        invariant key in c.trie && key in c.place && t == c.place[key] && key == On(s, key.lev)
        invariant forall l :: l in c.trie && c.trie[l] == s ==> l.lev <= key.lev
        decreases key.lev
      {
        AtNode(c, m, key);
        if head[t].size != s {
          ghost var b := Descent(c, m, key, s, k);
          var right := SignBit(k) == 1;
          var child := if right then child1[t] else child0[t];
          k := (2 * k) % WORD;
          if child != 0 {
            t := child;
            key := Child(key, b);
          } else if t >= leastAddr {
            NotDeeper(c, m, key, b, s);
            QueueEmpty(c, m, s);
            HangLeaf(x, s, t, right, key, c, m);
            return;
          } else {
            ok := false;
            return;
          }
        } else {
          var f := fd[t];
          if t >= leastAddr && f >= leastAddr {
            JoinRing(x, s, t, f, c, m);
            return;
          } else {
            ok := false;
            return;
          }
        }
      }
    }

    /** Step 2 of unlinking: a leaf below the node x, if there is one, is cut off to replace x. */
    method CutLeaf(x: int, ghost k: Key, ghost c: Contents, ghost m: TreeMem)
      returns (ok: bool, r: int, ghost l: Key)
      requires Ok(c, m) && Sound(c.place) && contents == c && Mem() == m
      requires leastAddr > 0 && AllFrom(c.sizes, leastAddr)
      requires k in c.trie && k in c.place && x == c.place[k]
      modifies this`child0, this`child1
      ensures ok && contents == c
      ensures r == 0 ==> LeafIn(c.place, k) && Mem() == m
      ensures r != 0 ==>
        && l in c.trie && LeafIn(c.place, l) && l != k && r == c.place[l]
        && 0 <= l.lev <= k.lev && On(c.trie[l], k.lev) == k
        && Linked(c.place - {l}, Mem()) && LeafCleared(m, Mem())
        && Mem() == m.(child0 := child0, child1 := child1)
    {
      hide Ok, Sound, Linked, LeafIn, LeafCleared, Cutting, Resolved;
      ok, l := true, k;
      CutStarts(c, m, k);
      var owner, side := x, 1;
      r := child1[x];
      if r == 0 {
        side := 0;
        r := child0[x];
      }
      if r == 0 {
        return;
      }
      ghost var up := k;
      l := Child(k, side);
      CutAt(c, m, k, up, side, l, owner, r);
      while child1[r] != 0 || child0[r] != 0
        invariant Mem() == m && contents == c && r in child0 && r in child1 && r != 0
        invariant Cutting(c, m, k, up, side, l, owner, r) && l.lev >= 0
        decreases l.lev
      {
        CutGoesOn(c, m, k, up, side, l, owner, r);
        owner := r;
        up := l;
        if child1[r] != 0 {
          side := 1;
          r := child1[r];
        } else {
          side := 0;
          r := child0[r];
        }
        l := Child(up, side);
        CutAt(c, m, k, up, side, l, owner, r);
      }
      CutEnds(c, m, k, up, side, l, owner, r);
      if owner >= leastAddr {
        if side == 0 { child0 := child0[owner := 0]; } else { child1 := child1[owner := 0]; }
      } else {
        ok := false;
      }
    }

    /** Step 3 of unlinking, for the base of a chain: r (or nothing) is linked in its stead. */
    method Replace(x: int, xp: int, r: int) returns (ok: bool)
      requires x in index && 0 <= index[x] < NTREEBINS && |treebins| == NTREEBINS
      requires x in child0 && x in child1 && x in parent && xp == parent[x]
      requires x != treebins[index[x]] ==> xp >= leastAddr && xp in child0
      requires r == 0 || r >= leastAddr
      requires r != 0 ==> (child0[x] == 0 || child0[x] >= leastAddr) && (child1[x] == 0 || child1[x] >= leastAddr)
      requires r != x && xp != x
      modifies this`treebins, this`treemap, this`child0, this`child1, this`parent
      ensures ok
      ensures r != 0 ==> Mem() == old(Relinked(Mem(), x, xp, index[x], r))
      ensures r == 0 ==> Mem() == old(Unlinked(Mem(), x, xp, index[x]))
    {
      ok := true;
      var i := index[x];
      if x == treebins[i] {
        treebins := treebins[i := r];
        if r == 0 {
          treemap := And(treemap, Not(BitOf(i)));
        }
      } else if xp >= leastAddr {
        if child0[xp] == x {
          child0 := child0[xp := r];
        } else {
          child1 := child1[xp := r];
        }
      } else {
        ok := false;
      }
      if r != 0 {
        if r >= leastAddr {
          parent := parent[r := xp];
          var c0 := child0[x];
          if c0 != 0 {
            if c0 >= leastAddr {
              child0 := child0[r := c0];
              parent := parent[c0 := r];
            } else {
              ok := false;
            }
          }
          var c1 := child1[x];
          if c1 != 0 {
            if c1 >= leastAddr {
              child1 := child1[r := c1];
              parent := parent[c1 := r];
            } else {
              ok := false;
            }
          }
        } else {
          ok := false;
        }
      }
    }

    /** Steps 1 and 2 of unlinking: x leaves its ring, or a leaf is cut off to replace it. */
    method Detach(x: int, ghost k: Key, ghost j: nat, ghost c: Contents, ghost m: TreeMem)
      returns (ok: bool, r: int, ghost l: Key)
      requires Ok(c, m) && contents == c && Mem() == m
      requires leastAddr > 0 && AllFrom(c.sizes, leastAddr)
      requires k in c.trie && Placed(c, k) && j < |c.rings[c.trie[k]]| && x == c.rings[c.trie[k]][j]
      modifies this`fd, this`bk, this`child0, this`child1
      ensures ok && contents == c && Detaching(c, m, k, j, l, r, Mem())
    {
      hide Ok, Sound, Linked, LeafIn, LeafCleared, Resolved;
      RingAround(c, m, k, j);
      ok, l := true, k;
      if bk[x] != x {
        var f := fd[x];
        r := bk[x];
        if f >= leastAddr && bk[f] == x && fd[r] == x {
          bk := bk[f := r];
          fd := fd[r := f];
        } else {
          ok := false;
        }
      } else {
        PlacesSound(c, m);
        ok, r, l := CutLeaf(x, k, c, m);
      }
    }

    /** `unlink_large_chunk`. */
    method UnlinkLarge(x: int) returns (ok: bool)
      requires Valid() && x in Sizes()
      modifies this
      ensures ok && Valid() && Sizes() == old(Sizes()) - {x}
      ensures forall z :: if z == old(Sizes()[x]) then LessOne(old(Queue(contents, z)), x, Queue(contents, z))
                          else Queue(contents, z) == old(Queue(contents, z))
    {
      hide Ok, RingOf, Detaching, Relinked, Unlinked, Resolved, Queue, LessOne;
      ghost var m, c := Mem(), contents;
      ghost var k, j := Located(c, m, x);
      var xp := parent[x];
      var r;
      ghost var l;
      ok, r, l := Detach(x, k, j, c, m);
      ghost var m1 := Mem();
      if xp != 0 {
        MayReplace(c, m, k, j, l, r, m1, leastAddr);
        var ok' := Replace(x, xp, r);
        ok := ok && ok';
      }
      contents := TakenOut(c, m, k, j, l, r, m1, Mem());
    }

    // -------------------------------------------------------------- search

    /** v is a binned chunk that fits nb with rsize to spare, or null with the wrapped start value. */
    ghost predicate Candidate(v: int, rsize: nat, nb: nat)
      reads this
    {
      && rsize <= WORD - nb
      && if v == 0 then rsize == WORD - nb
         else v in contents.sizes && contents.sizes[v] == nb + rsize && Oldest(contents, v)
    }

    ghost predicate FromBin(v: int, bin: int)
      reads this
    {
      v != 0 ==> v in contents.sizes && TreeIndex(contents.sizes[v]) == bin
    }

    ghost function Best(v: int): int
      reads this
    {
      if v in contents.sizes then contents.sizes[v] else -1
    }

    /** The subtree at the node t may still hold a better fit than v in the bin. */
    ghost predicate Ahead(bin: int, nb: nat, v: int, t: int, k: Key)
      reads this
    {
      && k in contents.trie && k in contents.place && t == contents.place[k] && k.bin == bin && k.lev >= 0
      && LeftmostCover(contents.trie, bin, nb, Best(v), k)
      && forall l {:trigger InSub(contents.trie, l, k)} :: InSub(contents.trie, l, k) ==> contents.trie[l] >= nb
    }

    /**
      Descending along the bits of nb: t is the node at the place k, v the best fit so far, and rst the
      root of the deepest right subtree not taken, if there is one.
      */
    ghost predicate Descending(nb: nat, idx: nat, v: int, rsize: nat, t: int, k: Key, rst: int,
                               hasRight: bool, right: Key, sizebits: nat)
      reads this
    {
      var c := contents;
      && Candidate(v, rsize, nb) && FromBin(v, idx) && (v != 0 ==> rsize > 0)
      && k in c.trie && k in c.place && t == c.place[k] && 0 <= k.lev <= 64 && k.bin == idx
      && k == On(nb, k.lev) && sizebits == Shl(nb, 64 - k.lev)
      && rst == (if hasRight then NodeAt(c.place, right) else 0)
      && (hasRight ==> RightOk(c.trie, nb, k, right) && rst != 0)
      && DescentCover(c.trie, nb, Best(v), k, hasRight, right)
    }

    lemma DescentBegins(nb: nat, idx: nat)
      requires Valid() && Large(nb) && idx == TreeIndex(nb) && idx < NTREEBINS && treebins[idx] != 0
      ensures |treebins| == NTREEBINS && 0 <= Root(idx).lev
      ensures var r := Root(idx);
        Descending(nb, idx, 0, WORD - nb, treebins[idx], r, 0, false, r, Shl(nb, LeftShiftForTreeIndex(idx)))
    {
      hide TreeIndex, Resolved, RootPrefix, Shr, Ok, DescentCover, TrieOk;
      var m, c := Mem(), contents;
      BinMarked(c, m, idx);
      SameKeys(c, m);
      DescentStart(c.trie, c.lev, nb);
      AtNode(c, m, Root(idx));
      NullIsNotHeld(c, m);
    }

    /** What comparing the wrapped remainder of a node on the way does to the best fit. */
    lemma NodeVisited(nb: nat, idx: nat, v: int, rsize: nat, t: int, k: Key, rst: int,
                      hasRight: bool, right: Key, sizebits: nat, head: map<int, Head>)
      requires Valid() && Agrees(head) && Large(nb)
      requires Descending(nb, idx, v, rsize, t, k, rst, hasRight, right, sizebits)
      ensures t in head && t in child0 && t in child1 && t != 0
      ensures var s := contents.trie[k]; var trem := (head[t].size - nb) % WORD;
        if trem < rsize then
          && Candidate(t, trem, nb) && FromBin(t, idx)
          && (trem == 0 ==> Exhausted(contents.trie, idx, nb, Best(t)))
          && (trem != 0 ==> s != nb && Best(t) == if s >= nb then Least(Best(v), s) else Best(v))
        else s != nb && Best(v) == if s >= nb then Least(Best(v), s) else Best(v)
    {
      hide TreeIndex, Resolved, RootPrefix, Shr, Ok, DescentCover, TrieOk, RightOk;
      var m, c := Mem(), contents;
      AtNode(c, m, k);
      SizesAreWords(c, m, t);
      NullIsNotHeld(c, m);
      AllBeatenByExact(c.trie, idx, nb);
    }

    /** One step down: either the descent goes on, or the deepest right subtree not taken is next. */
    lemma DescentGoesOn(nb: nat, idx: nat, v0: int, rsize0: nat, v: int, rsize: nat, t: int, k: Key, rst: int,
                        hasRight: bool, right: Key, sizebits: nat)
      returns (b: int, hasRight': bool, right': Key)
      requires Valid() && Large(nb) && idx < NTREEBINS
      requires Descending(nb, idx, v0, rsize0, t, k, rst, hasRight, right, sizebits)
      requires Candidate(v, rsize, nb) && FromBin(v, idx) && (v != 0 ==> rsize > 0) && contents.trie[k] != nb
      requires Best(v) == if contents.trie[k] >= nb then Least(Best(v0), contents.trie[k]) else Best(v0)
      ensures t in child0 && t in child1
      ensures var t1 := if SignBit(sizebits) == 1 then child1[t] else child0[t];
        var rst1 := if child1[t] != 0 && child1[t] != t1 then child1[t] else rst;
        if t1 != 0 then
          && Descending(nb, idx, v, rsize, t1, Child(k, b), rst1, hasRight', right', (2 * sizebits) % WORD)
          && Child(k, b).lev < k.lev
        else if hasRight' then
          rst1 != 0 && right' in contents.place && rst1 == contents.place[right'] && Ahead(idx, nb, v, rst1, right')
        else rst1 == 0 && Exhausted(contents.trie, idx, nb, Best(v))
    {
      hide TreeIndex, Resolved, RootPrefix, Shr, Ok, DescentCover, TrieOk, InSub;
      var m, c := Mem(), contents;
      AtNode(c, m, k);
      NullIsNotHeld(c, m);
      SameKeys(c, m);
      b, hasRight', right' := StepDown(c, m, nb, Best(v0), Best(v), k, hasRight, right, sizebits);
      if hasRight' { RightFits(c.trie, c.lev, nb, Child(k, b), right'); }
    }

    /** The first loop of tmalloc_large: along the bits of nb, keeping the deepest untaken right subtree. */
    method DescendRequest(nb: nat, idx: nat, head: map<int, Head>) returns (v: int, rsize: nat, t: int, ghost k: Key)
      requires Valid() && Agrees(head) && Large(nb) && idx == TreeIndex(nb) && idx < NTREEBINS
      requires treebins[idx] != 0
      ensures Candidate(v, rsize, nb) && FromBin(v, idx)
      ensures t != 0 ==> k in contents.place && t == contents.place[k] && k.bin == idx
      ensures Exhausted(contents.trie, idx, nb, Best(v)) || (t != 0 && Ahead(idx, nb, v, t, k))
      ensures t != 0 && v == 0 ==> Ahead(idx, nb, v, t, k)
    {
      hide TreeIndex, Resolved, RootPrefix, Shr, Ok, TreeBins.Descending, LeftmostCover, InSub, Exhausted;
      DescentBegins(nb, idx);
      v, rsize := 0, WORD - nb;
      t := treebins[idx];
      var sizebits: nat := Shl(nb, LeftShiftForTreeIndex(idx));
      var rst := 0;
      ghost var hasRight, right := false, Root(idx);
      k := Root(idx);
      while true
        invariant Descending(nb, idx, v, rsize, t, k, rst, hasRight, right, sizebits)
        invariant 0 <= k.lev
        decreases k.lev
      {
        NodeVisited(nb, idx, v, rsize, t, k, rst, hasRight, right, sizebits, head);
        OnTheWay(nb, idx, v, rsize, t, k, rst, hasRight, right, sizebits);
        ghost var v0, rsize0 := v, rsize;
        var trem := (head[t].size - nb) % WORD;
        if trem < rsize {
          v := t;
          rsize := trem;
          if rsize == 0 {
            break;
          }
        }
        ghost var b, hasRight', right' :=
          DescentGoesOn(nb, idx, v0, rsize0, v, rsize, t, k, rst, hasRight, right, sizebits);
        var rt := child1[t];
        t := if SignBit(sizebits) == 1 then child1[t] else child0[t];
        if rt != 0 && rt != t {
          rst := rt;
        }
        hasRight, right, k := hasRight', right', Child(k, b);
        if t == 0 {
          t := rst;
          k := right;
          break;
        }
        sizebits := (2 * sizebits) % WORD;
        OnTheWay(nb, idx, v, rsize, t, k, rst, hasRight, right, sizebits);
      }
    }

    lemma OnTheWay(nb: nat, idx: nat, v: int, rsize: nat, t: int, k: Key, rst: int,
                   hasRight: bool, right: Key, sizebits: nat)
      requires Descending(nb, idx, v, rsize, t, k, rst, hasRight, right, sizebits)
      ensures Candidate(v, rsize, nb) && FromBin(v, idx) && (v != 0 ==> rsize > 0) && k.lev >= 0
      ensures k in contents.trie && k in contents.place && t == contents.place[k] && k.bin == idx
    {
    }

    /** On the leftmost path: v is the best of the bin already, or the subtree at the node t holds a better fit. */
    ghost predicate Leftmost(bin: int, nb: nat, v: int, rsize: nat, t: int, k: Key)
      reads this
    {
      && Candidate(v, rsize, nb) && FromBin(v, bin)
      && (t != 0 ==> k in contents.trie && k in contents.place && t == contents.place[k] && k.lev >= 0 && k.bin == bin)
      && (Exhausted(contents.trie, bin, nb, Best(v)) || (t != 0 && Ahead(bin, nb, v, t, k)))
    }

    lemma LeftmostAt(bin: int, nb: nat, v: int, rsize: nat, t: int, k: Key)
      requires Leftmost(bin, nb, v, rsize, t, k)
      ensures Candidate(v, rsize, nb) && FromBin(v, bin) && (t != 0 ==> k.lev >= 0)
      ensures t == 0 ==> Exhausted(contents.trie, bin, nb, Best(v))
    {
    }

    /** Comparing the wrapped remainder of the node t counts it, if it fits. */
    lemma BetterFit(bin: int, nb: nat, v: int, rsize: nat, t: int, k: Key, head: map<int, Head>)
      requires Valid() && Agrees(head) && nb < WORD && Leftmost(bin, nb, v, rsize, t, k) && t != 0
      ensures t in head && t in child0 && t in child1
      ensures var trem, s := (head[t].size - nb) % WORD, contents.trie[k];
        var v', rsize' := if trem < rsize then t else v, if trem < rsize then trem else rsize;
        && Candidate(v', rsize', nb) && FromBin(v', bin) && (v != 0 || s >= nb ==> v' != 0)
        && Best(v') == if s >= nb then Least(Best(v), s) else Best(v)
    {
      hide Ok, TreeIndex, Resolved, RootPrefix, Shr, Exhausted, TreeBins.Ahead;
      var m, c := Mem(), contents;
      AtNode(c, m, k);
      SizesAreWords(c, m, t);
      NullIsNotHeld(c, m);
    }

    /** The step to the leftmost child. */
    lemma LeftmostGoesOn(bin: int, nb: nat, v: int, rsize: nat, t: int, k: Key, v': int, rsize': nat)
      requires Valid() && Leftmost(bin, nb, v, rsize, t, k) && t != 0
      requires Candidate(v', rsize', nb) && FromBin(v', bin)
      requires Best(v') == if contents.trie[k] >= nb then Least(Best(v), contents.trie[k]) else Best(v)
      ensures t in child0 && t in child1
      ensures var n := LeftmostChild(contents.trie, k);
        var t' := if child0[t] != 0 then child0[t] else child1[t];
        Leftmost(bin, nb, v', rsize', t', n) && (t' != 0 ==> n.lev < k.lev)
    {
      hide Ok, TreeIndex, Resolved, RootPrefix, Shr, TrieOk;
      var m, c, n := Mem(), contents, LeftmostChild(contents.trie, k);
      SameKeys(c, m);
      LeftmostLink(c, m, k);
      if Ahead(bin, nb, v, t, k) {
        OwnSub(c, m, k);
        LeftmostStep(c.trie, c.lev, bin, nb, Best(v), k);
        if n in c.trie { SubOfChildFits(c.trie, c.lev, k, n, nb); }
      }
    }

    /** The second loop: down the leftmost path from t, keeping the best fit seen. */
    method LeftmostFrom(nb: nat, t0: int, v0: int, rsize0: nat, head: map<int, Head>,
                        ghost bin: int, ghost k0: Key) returns (v: int, rsize: nat)
      requires Valid() && Agrees(head) && nb < WORD && Leftmost(bin, nb, v0, rsize0, t0, k0)
      ensures Candidate(v, rsize, nb) && FromBin(v, bin)
      ensures Exhausted(contents.trie, bin, nb, Best(v))
      ensures v == 0 ==> v0 == 0 && !(t0 != 0 && Ahead(bin, nb, v0, t0, k0))
    {
      hide Ok, Exhausted, Resolved, TreeBins.Leftmost, TreeBins.Candidate, TreeBins.FromBin;
      v, rsize := v0, rsize0;
      var t := t0;
      ghost var k := k0;
      ghost var found := v0 != 0 || (t0 != 0 && Ahead(bin, nb, v0, t0, k0));
      LeftmostAt(bin, nb, v, rsize, t, k);
      while t != 0
        invariant Leftmost(bin, nb, v, rsize, t, k) && (t != 0 ==> k.lev >= 0)
        invariant found ==> v != 0 || (t != 0 && Ahead(bin, nb, v, t, k))
        decreases if t == 0 then 0 else k.lev + 1
      {
        BetterFit(bin, nb, v, rsize, t, k, head);
        ghost var v1, rsize1 := v, rsize;
        if Ahead(bin, nb, v, t, k) { AheadFits(bin, nb, v, t, k); }
        var trem := (head[t].size - nb) % WORD;
        if trem < rsize {
          rsize := trem;
          v := t;
        }
        LeftmostGoesOn(bin, nb, v1, rsize1, t, k, v, rsize);
        k := LeftmostChild(contents.trie, k);
        t := if child0[t] != 0 then child0[t] else child1[t];
        LeftmostAt(bin, nb, v, rsize, t, k);
      }
      LeftmostAt(bin, nb, v, rsize, t, k);
    }

    lemma AheadFits(bin: int, nb: nat, v: int, t: int, k: Key)
      requires Valid() && Ahead(bin, nb, v, t, k)
      ensures k in contents.trie && contents.trie[k] >= nb
    {
      hide Ok, TreeIndex, Resolved, RootPrefix, Shr, LeftmostCover;
      OwnSub(contents, Mem(), k);
    }

    /** The search of tmalloc_large: the best fit over all tree bins. */
    method FindLarge(nb: nat, head: map<int, Head>) returns (v: int, rsize: nat)
      requires Valid() && Agrees(head) && Large(nb)
      ensures Candidate(v, rsize, nb)
      ensures forall x :: x in Sizes() && Sizes()[x] >= nb ==> v != 0 && Sizes()[v] <= Sizes()[x]
    {
      hide TreeIndex, Resolved, RootPrefix, Shr;
      ghost var m, c := Mem(), contents;
      RootIsOn(nb);
      NullIsNotHeld(c, m);
      v, rsize := 0, WORD - nb;
      var idx := TreeIndex(nb);
      BinMarked(c, m, idx);
      var t := treebins[idx];
      ghost var bin, k: Key := idx, Root(idx);
      if t != 0 {
        v, rsize, t, k := DescendRequest(nb, idx, head);
      } else {
        EmptyBin(c, m, idx, nb);
      }
      if t == 0 && v == 0 {
        t, bin := NextBin(nb, idx);
        k := Root(bin);
      }
      v, rsize := LeftmostFrom(nb, t, v, rsize, head, bin, k);
      BestOverall(c, m, idx, bin, nb, v);
    }

    /** The search of tmalloc_small: the least chunk of all tree bins, which are not empty. */
    method FindSmallest(nb: nat, head: map<int, Head>) returns (v: int, rsize: nat)
      requires Valid() && Agrees(head) && nb < 0x100 && !IsClear(treemap)
      ensures v in Sizes() && rsize == Sizes()[v] - nb && Oldest(contents, v)
      ensures forall x :: x in Sizes() ==> Sizes()[v] <= Sizes()[x]
    {
      hide Ok, Exhausted, TreeBins.Leftmost;
      ghost var m, c := Mem(), contents;
      LeastBitIsolates(treemap);
      var i := TrailingZeros(LeastBit(treemap));
      SmallestStarts(i, nb, head);
      var t := treebins[i];
      v := t;
      ghost var k := Root(i);
      rsize := (head[t].size - nb) % WORD;
      LeftmostGoesOn(i, nb, 0, WORD - nb, t, k, v, rsize);
      k := LeftmostChild(c.trie, k);
      t := if child0[t] != 0 then child0[t] else child1[t];
      LeftmostAt(i, nb, v, rsize, t, k);
      while t != 0
        invariant Leftmost(i, nb, v, rsize, t, k) && (t != 0 ==> k.lev >= 0) && v != 0
        decreases if t == 0 then 0 else k.lev + 1
      {
        BetterFit(i, nb, v, rsize, t, k, head);
        ghost var v1, rsize1 := v, rsize;
        var trem := (head[t].size - nb) % WORD;
        if trem < rsize {
          rsize := trem;
          v := t;
        }
        LeftmostGoesOn(i, nb, v1, rsize1, t, k, v, rsize);
        k := LeftmostChild(c.trie, k);
        t := if child0[t] != 0 then child0[t] else child1[t];
        LeftmostAt(i, nb, v, rsize, t, k);
      }
      LeftmostAt(i, nb, v, rsize, t, k);
      LeastOverall(c, m, i, nb, v);
    }

    /** The root of the first occupied bin is the first candidate. */
    lemma SmallestStarts(i: nat, nb: nat, head: map<int, Head>)
      requires Valid() && Agrees(head) && nb < 0x100 && i < NTREEBINS && treemap[i]
      ensures |treebins| == NTREEBINS && Leftmost(i, nb, 0, WORD - nb, treebins[i], Root(i))
      ensures treebins[i] != 0 && treebins[i] in head && Root(i) in contents.trie && contents.trie[Root(i)] >= nb
      ensures var t := treebins[i]; Candidate(t, (head[t].size - nb) % WORD, nb) && FromBin(t, i)
      ensures Best(treebins[i]) == contents.trie[Root(i)] && Best(0) == -1
    {
      hide Ok, TreeIndex, Resolved, RootPrefix, Shr;
      var m, c := Mem(), contents;
      NullIsNotHeld(c, m);
      BinMarked(c, m, i);
      AtNode(c, m, Root(i));
      NodeIsMember(c, m, Root(i));
      SizesAreWords(c, m, treebins[i]);
      RootAhead(c, m, i, nb);
    }

    /** The map is clear exactly when nothing is binned. */
    lemma ClearIsEmpty()
      requires Valid()
      ensures IsClear(treemap) <==> Sizes() == map[]
    {
      hide TreeIndex, Resolved, RootPrefix, Shr;
      var m, c := Mem(), contents;
      if !(forall y :: y !in c.sizes) {
        var x :| x in c.sizes;
        var k, j := Located(c, m, x);
        NodeIsMember(c, m, k);
        RootOccupied(c.trie, c.lev, k);
        BinMarked(c, m, k.bin);
        assert treemap[k.bin];
      } else {
        assert c.sizes == map[];
      }
      if !IsClear(treemap) {
        var i :| 0 <= i < 32 && treemap[i];
        BinMarked(c, m, i);
        AtNode(c, m, Root(i));
      }
    }

    /** The map says which bins hold a chunk whose size selects them. */
    lemma MapIsOccupancy(i: nat)
      requires Valid() && i < NTREEBINS
      ensures treemap[i] <==> exists x :: x in Sizes() && TreeIndex(Sizes()[x]) == i
    {
      hide TreeIndex, Resolved, RootPrefix, Shr;
      var m, c := Mem(), contents;
      BinMarked(c, m, i);
      if treemap[i] {
        AtNode(c, m, Root(i));
        NodeIsMember(c, m, Root(i));
        assert TreeIndex(Sizes()[c.place[Root(i)]]) == i;
      }
      forall x | x in Sizes() && TreeIndex(Sizes()[x]) == i
        ensures treemap[i]
      {
        var k, j := Located(c, m, x);
        NodeIsMember(c, m, k);
        RootOccupied(c.trie, c.lev, k);
      }
    }

    /** The root of the next occupied bin, found on the map. */
    method NextBin(nb: nat, idx: nat) returns (t: int, ghost bin: nat)
      requires Valid() && Large(nb) && idx == TreeIndex(nb) && idx < NTREEBINS
      requires Exhausted(contents.trie, idx, nb, -1)
      ensures idx <= bin < NTREEBINS
      ensures t == 0 ==> bin == idx && forall l :: l in contents.trie ==> l.bin <= idx
      ensures t != 0 ==> idx < bin && Ahead(bin, nb, 0, t, Root(bin))
      ensures forall l :: l in contents.trie && l.bin > idx ==> l.bin >= bin
    {
      hide TreeIndex, Resolved, RootPrefix, Shr;
      ghost var m, c := Mem(), contents;
      t, bin := 0, idx;
      var leftbits := And(LeftBits(BitOf(idx)), treemap);
      NextBins(c, m, idx, leftbits);
      if !IsClear(leftbits) {
        LeastBitIsolates(leftbits);
        var i := TrailingZeros(LeastBit(leftbits));
        t := treebins[i];
        bin := i;
        LaterBinAhead(c, m, idx, i, nb);
        NullIsNotHeld(c, m);
      }
    }
  }

  // ---------------------------------------------------------------- the cases of insertion

  ghost predicate AllFrom(sizes: map<int, nat>, least: nat) {
    forall y :: y in sizes ==> y >= least
  }

  ghost predicate ToInsert(c: Contents, m: TreeMem, x: int, s: nat, least: nat) {
    && Ok(c, m) && least > 0 && AllFrom(c.sizes, least)
    && x !in c.sizes && x >= least && Large(s)
  }

  lemma BinStarted(c: Contents, m: TreeMem, x: int, s: nat, least: nat)
    requires ToInsert(c, m, x, s, least)
    ensures var i := TreeIndex(s);
      && i < NTREEBINS && |m.bins| == NTREEBINS
      && (!m.treemap[i] ==>
            Ok(WithNode(c, Root(i), x, s),
               m.(child0 := m.child0[x := 0], child1 := m.child1[x := 0], index := m.index[x := i],
                  treemap := Or(m.treemap, BitOf(i)), bins := m.bins[i := x],
                  parent := m.parent[x := TreeBinAt(i)], fd := m.fd[x := x], bk := m.bk[x := x])))
    ensures 0 <= Root(TreeIndex(s)).lev && least > 0 && AllFrom(c.sizes[x := s], least)
  {
    hide TreeIndex, RootPrefix, Ok;
    var i := TreeIndex(s);
    RootIsOn(s);
    BinMarked(c, m, i);
    if !m.treemap[i] {
      InsertRoot(c, m, i, x, s, m.(
        child0 := m.child0[x := 0], child1 := m.child1[x := 0], index := m.index[x := i],
        treemap := Or(m.treemap, BitOf(i)), bins := m.bins[i := x],
        parent := m.parent[x := TreeBinAt(i)], fd := m.fd[x := x], bk := m.bk[x := x]));
    }
  }

  lemma LeafHung(c: Contents, m: TreeMem, x: int, s: nat, least: nat, key: Key, b: int)
    requires ToInsert(c, m, x, s, least) && key in c.trie && key in c.place && 0 <= b <= 1
    requires key.lev > 0 && key == On(s, key.lev) && s !in c.lev
    requires Child(key, b) == On(s, key.lev - 1) && Child(key, b) !in c.trie
    ensures var t := c.place[key];
      var child0, child1 := m.child0[x := 0], m.child1[x := 0];
      Ok(WithNode(c, Child(key, b), x, s),
         m.(child0 := if b == 0 then child0[t := x] else child0, child1 := if b == 1 then child1[t := x] else child1,
            index := m.index[x := TreeIndex(s)], parent := m.parent[x := t], fd := m.fd[x := x], bk := m.bk[x := x]))
    ensures least > 0 && AllFrom(c.sizes[x := s], least)
  {
    hide TreeIndex, Ok;
    var t := c.place[key];
    var child0, child1 := m.child0[x := 0], m.child1[x := 0];
    InsertLeaf(c, m, key, b, x, s, m.(
      child0 := if b == 0 then child0[t := x] else child0, child1 := if b == 1 then child1[t := x] else child1,
      index := m.index[x := TreeIndex(s)], parent := m.parent[x := t], fd := m.fd[x := x], bk := m.bk[x := x]));
  }

  lemma RingJoined(c: Contents, m: TreeMem, x: int, s: nat, least: nat)
    requires ToInsert(c, m, x, s, least) && s in c.rings && c.rings[s] != [] && c.rings[s][0] in m.fd
    ensures var t := c.rings[s][0]; var f := m.fd[t];
      Ok(WithMate(c, x, s),
         m.(child0 := m.child0[x := 0], child1 := m.child1[x := 0], index := m.index[x := TreeIndex(s)],
            fd := m.fd[t := x][x := f], bk := m.bk[f := x][x := t], parent := m.parent[x := 0]))
    ensures least > 0 && AllFrom(c.sizes[x := s], least)
  {
    hide TreeIndex, Ok;
    var t := c.rings[s][0];
    var f := m.fd[t];
    InsertMate(c, m, x, s, m.(
      child0 := m.child0[x := 0], child1 := m.child1[x := 0], index := m.index[x := TreeIndex(s)],
      fd := m.fd[t := x][x := f], bk := m.bk[f := x][x := t], parent := m.parent[x := 0]));
  }

  // ---------------------------------------------------------------- the cases of removal

  /** Going down from k to a leaf to be cut off: r at the place l is the child on the given side of its owner. */
  ghost predicate Cutting(c: Contents, m: TreeMem, k: Key, up: Key, side: int, l: Key, owner: int, r: int) {
    && up in c.trie && up in c.place && 0 <= side <= 1 && l == Child(up, side) && l in c.trie && l in c.place
    && owner == c.place[up] && r == c.place[l] && r != 0
    && 0 <= l.lev < k.lev && On(c.trie[l], k.lev) == k && NodeLinked(c.place, m, l)
  }

  lemma CutAt(c: Contents, m: TreeMem, k: Key, up: Key, side: int, l: Key, owner: int, r: int)
    requires Cutting(c, m, k, up, side, l, owner, r)
    ensures 0 <= l.lev < k.lev && r in m.child0 && r in m.child1 && l.lev < up.lev && r != 0
  {
  }

  /** The children of the node at a place at or below k. */
  lemma CutBelow(c: Contents, m: TreeMem, k: Key, up: Key, side: int)
    requires Ok(c, m) && k in c.trie && up in c.trie && 0 <= side <= 1
    requires up.lev <= k.lev && On(c.trie[up], k.lev) == k
    ensures up in c.place && NodeLinked(c.place, m, up)
    ensures var r := NodeAt(c.place, Child(up, side));
      && (r != 0 ==> Cutting(c, m, k, up, side, Child(up, side), c.place[up], r))
      && (r == 0 ==> Child(up, side) !in c.place)
  {
    hide Ok, Child, On, Resolved;
    AtNode(c, m, up);
    NodesAreNotNull(c, m);
    if NodeAt(c.place, Child(up, side)) != 0 {
      BelowIsAbove(c, m, k, up, side);
      AtNode(c, m, Child(up, side));
    }
  }

  lemma CutStarts(c: Contents, m: TreeMem, k: Key)
    requires Ok(c, m) && k in c.trie
    ensures k in c.place && c.place[k] in m.child0 && c.place[k] in m.child1
    ensures var x := c.place[k];
      && (m.child0[x] != 0 ==> Cutting(c, m, k, k, 0, Child(k, 0), x, m.child0[x]))
      && (m.child1[x] != 0 ==> Cutting(c, m, k, k, 1, Child(k, 1), x, m.child1[x]))
      && (m.child0[x] == 0 && m.child1[x] == 0 ==> LeafIn(c.place, k))
  {
    hide Ok, Cutting, Child, On, Resolved;
    NodeIsMember(c, m, k);
    CutBelow(c, m, k, k, 0);
    CutBelow(c, m, k, k, 1);
  }

  lemma CutGoesOn(c: Contents, m: TreeMem, k: Key, up: Key, side: int, l: Key, owner: int, r: int)
    requires Ok(c, m) && k in c.trie && Cutting(c, m, k, up, side, l, owner, r)
    ensures r in m.child0 && r in m.child1 && l.lev >= 0
    ensures m.child0[r] != 0 ==> Cutting(c, m, k, l, 0, Child(l, 0), r, m.child0[r])
    ensures m.child1[r] != 0 ==> Cutting(c, m, k, l, 1, Child(l, 1), r, m.child1[r])
    ensures m.child0[r] == 0 && m.child1[r] == 0 ==> LeafIn(c.place, l)
  {
    hide Ok, Child, On, Resolved;
    CutBelow(c, m, k, l, 0);
    CutBelow(c, m, k, l, 1);
  }

  /** The leaf found is cut off. */
  lemma CutEnds(c: Contents, m: TreeMem, k: Key, up: Key, side: int, l: Key, owner: int, r: int)
    requires Ok(c, m) && k in c.trie && Cutting(c, m, k, up, side, l, owner, r)
    requires r in m.child0 && r in m.child1 && m.child0[r] == 0 && m.child1[r] == 0
    ensures owner in c.sizes && r == c.place[l] && LeafIn(c.place, l) && l in c.trie && l != k
    ensures 0 <= l.lev <= k.lev && On(c.trie[l], k.lev) == k
    ensures owner in m.child0 && owner in m.child1
    ensures var m' := if side == 0 then m.(child0 := m.child0[owner := 0]) else m.(child1 := m.child1[owner := 0]);
      Linked(c.place - {l}, m') && LeafCleared(m, m')
  {
    hide Ok, On, Resolved, LeafIn;
    CutGoesOn(c, m, k, up, side, l, owner, r);
    AtNode(c, m, up);
    PlacesSound(c, m);
    Parts(c, m);
    DropLeafNode(c.place, m, up, side,
      if side == 0 then m.(child0 := m.child0[owner := 0]) else m.(child1 := m.child1[owner := 0]));
  }

  /** x, member j of the ring at k, has left its ring, or the leaf l below it has been cut off. */
  ghost predicate Detaching(c: Contents, m: TreeMem, k: Key, j: nat, l: Key, r: int, m1: TreeMem)
    requires k in c.trie && Placed(c, k) && j < |c.rings[c.trie[k]]|
  {
    var x := c.rings[c.trie[k]][j];
    if |c.rings[c.trie[k]]| > 1 then x in m.fd && x in m.bk && m1 == RingUnlinked(m, x) && r == m.bk[x]
    else
      && m1 == m.(child0 := m1.child0, child1 := m1.child1)
      && (r == 0 ==> LeafIn(c.place, k) && m1 == m)
      && (r != 0 ==>
            && l in c.trie && LeafIn(c.place, l) && l != k && r == c.place[l]
            && 0 <= l.lev <= k.lev && On(c.trie[l], k.lev) == k
            && Linked(c.place - {l}, m1) && LeafCleared(m, m1))
  }

  lemma RingAround(c: Contents, m: TreeMem, k: Key, j: nat)
    requires Ok(c, m) && k in c.trie && Placed(c, k) && j < |c.rings[c.trie[k]]|
    ensures var r, x := c.rings[c.trie[k]], c.rings[c.trie[k]][j];
      && x in m.fd && x in m.bk && m.fd[x] in m.bk && m.bk[x] in m.fd && m.fd[x] in c.sizes && m.bk[x] in c.sizes
      && m.bk[m.fd[x]] == x && m.fd[m.bk[x]] == x
      && (m.bk[x] == x <==> |r| == 1)
  {
    hide Ok, LinkedAt;
    RingAt(c, m, c.trie[k]);
    Neighbours(c.rings[c.trie[k]], j, m.fd, m.bk);
  }

  lemma ClearedAtAll(c: Contents, m: TreeMem, k: Key, j: nat, l: Key, r: int, m1: TreeMem)
    requires Ok(c, m) && k in c.trie && Placed(c, k) && j < |c.rings[c.trie[k]]| && Detaching(c, m, k, j, l, r, m1)
    ensures LeafCleared(m, m1) && m1.bins == m.bins && m1.index == m.index && m1.parent == m.parent
    ensures r != 0 ==> r in c.sizes
  {
    hide Ok, Linked, LeafIn;
    RingAround(c, m, k, j);
    if |c.rings[c.trie[k]]| == 1 && r != 0 { AtNode(c, m, l); }
  }

  /** What `Replace` asks for. */
  lemma MayReplace(c: Contents, m: TreeMem, k: Key, j: nat, l: Key, r: int, m1: TreeMem, least: nat)
    requires Ok(c, m) && k in c.trie && Placed(c, k) && j < |c.rings[c.trie[k]]| && Detaching(c, m, k, j, l, r, m1)
    requires AllFrom(c.sizes, least) && c.rings[c.trie[k]][j] == c.place[k]
    ensures var x := c.place[k];
      && x in m1.index && m1.index[x] == k.bin && 0 <= k.bin < NTREEBINS && |m1.bins| == NTREEBINS
      && x in m1.child0 && x in m1.child1 && x in m1.parent && x in m.parent && m1.parent[x] == m.parent[x]
      && m1.parent[x] != x
      && (x != m1.bins[k.bin] ==> m1.parent[x] >= least && m1.parent[x] in m1.child0)
      && (m1.child0[x] == 0 || m1.child0[x] >= least) && (m1.child1[x] == 0 || m1.child1[x] >= least)
      && (r == 0 || r >= least) && r != x
  {
    hide Ok, Sound, LeafCleared, Linked;
    ClearedAtAll(c, m, k, j, l, r, m1);
    NodesAreNotNull(c, m);
    PlacesSound(c, m);
    ReadyToReplace(c, m, k, m1, least);
    RingAround(c, m, k, j);
    if |c.rings[c.trie[k]]| == 1 && r != 0 { OtherNode(c, m, k, l); }
  }

  lemma OtherNode(c: Contents, m: TreeMem, k: Key, l: Key)
    requires Ok(c, m) && k in c.trie && l in c.trie && k != l
    ensures k in c.place && l in c.place && c.place[l] != c.place[k]
  {
    hide Ok;
    SameKeys(c, m);
    PlacesSound(c, m);
  }

  /** After the removal, with the node replaced if x was one, the structure holds all others. */
  lemma TakenOut(c: Contents, m: TreeMem, k: Key, j: nat, l: Key, r: int, m1: TreeMem, m': TreeMem)
    returns (c': Contents)
    requires Ok(c, m) && k in c.trie && Placed(c, k) && j < |c.rings[c.trie[k]]| && Detaching(c, m, k, j, l, r, m1)
    requires var x := c.rings[c.trie[k]][j];
      && x in m.parent && (j == 0 <==> m.parent[x] != 0)
      && if m.parent[x] == 0 then m' == m1
         else
           && 0 <= k.bin < NTREEBINS && |m1.bins| == NTREEBINS && x in m1.child0 && x in m1.child1
           && (x != m1.bins[k.bin] ==> m.parent[x] in m1.child0)
           && m' == if r != 0 then Relinked(m1, x, m.parent[x], k.bin, r) else Unlinked(m1, x, m.parent[x], k.bin)
    ensures Ok(c', m') && c'.sizes == c.sizes - {c.rings[c.trie[k]][j]}
    ensures LessOne(Queue(c, c.trie[k]), c.rings[c.trie[k]][j], Queue(c', c.trie[k]))
    ensures forall z :: z != c.trie[k] ==> Queue(c', z) == Queue(c, z)
  {
    hide Ok, Sound, Linked, LeafIn, Relinked, Unlinked, ByAge, LessOne;
    PlacesSound(c, m);
    ClearedAtAll(c, m, k, j, l, r, m1);
    if |c.rings[c.trie[k]]| > 1 {
      RingAround(c, m, k, j);
      RingPointsBack(c, m, k, j);
      c' := RingShrunk(c, m, k, j, m1, m');
      OneLeaves(c.rings[c.trie[k]], j, c'.rings[c.trie[k]]);
    } else {
      c' := SizeGone(c, m, k, l, r, m1, m');
      OnlyOneLeaves(c.rings[c.trie[k]]);
    }
  }

  lemma RingPointsBack(c: Contents, m: TreeMem, k: Key, j: nat)
    requires Ok(c, m) && k in c.trie && Placed(c, k) && j < |c.rings[c.trie[k]]|
    ensures c.rings[c.trie[k]][j] in m.bk && m.bk[c.rings[c.trie[k]][j]] != 0
  {
    hide Ok;
    RingAround(c, m, k, j);
    HeldIsNotNull(c, m, m.bk[c.rings[c.trie[k]][j]]);
  }

  lemma OnlyOneLeaves(r: seq<int>)
    requires |r| == 1
    ensures LessOne(ByAge(r), r[0], [])
  {
    assert ByAge(r)[0] == r[0] && Without(ByAge(r), 0) == [];
  }

  lemma QueueEmpty(c: Contents, m: TreeMem, s: nat)
    requires Ok(c, m) && s !in c.lev
    ensures Queue(c, s) == []
  {
  }

  /** An empty bin has no chunks of the sizes that select it. */
  lemma NoneInBin(c: Contents, m: TreeMem, s: nat)
    requires Ok(c, m) && Large(s) && |m.treemap| == 32
    requires 0 <= TreeIndex(s) < NTREEBINS && !m.treemap[TreeIndex(s)]
    ensures Queue(c, s) == []
  {
    hide TreeIndex, Resolved, RootPrefix, Shr, Ok;
    if s in c.rings {
      RingAt(c, m, s);
      var x := c.rings[s][0];
      assert x in c.rings[s];
      var k, j := Located(c, m, x);
      NodeIsMember(c, m, k);
      Parts(c, m);
      RootOccupied(c.trie, c.lev, k);
      BinMarked(c, m, k.bin);
    }
  }

  /** One step along the request: the next place, and the deepest right subtree from there. */
  lemma StepDown(c: Contents, m: TreeMem, nb: nat, best: int, best': int, k: Key,
                 hasRight: bool, right: Key, sizebits: nat)
    returns (b: int, hasRight': bool, right': Key)
    requires Ok(c, m) && k in c.trie && k in c.place && k == On(nb, k.lev) && 0 <= k.lev <= 64
    requires sizebits == Shl(nb, 64 - k.lev) && c.trie[k] != nb
    requires hasRight ==> RightOk(c.trie, nb, k, right)
    requires DescentCover(c.trie, nb, best, k, hasRight, right)
    requires best' == if c.trie[k] >= nb then Least(best, c.trie[k]) else best
    ensures NodeLinked(c.place, m, k) && b == SignBit(sizebits) && 0 <= b <= 1
    ensures (2 * sizebits) % WORD == Shl(nb, 64 - (k.lev - 1))
    ensures var n := Child(k, b);
      && n == On(nb, n.lev) && 0 <= n.lev == k.lev - 1
      && (n in c.trie <==> NodeAt(c.place, n) != 0) && (n in c.trie <==> n in c.place)
      && (hasRight' ==> RightOk(c.trie, nb, n, right') && NodeAt(c.place, right') != 0 && right' in c.place)
      && (if n in c.trie then DescentCover(c.trie, nb, best', n, hasRight', right')
          else if hasRight' then LeftmostCover(c.trie, k.bin, nb, best', right')
          else Exhausted(c.trie, k.bin, nb, best'))
      && var rt := m.child1[c.place[k]];
         if rt != 0 && rt != NodeAt(c.place, n) then hasRight' && NodeAt(c.place, right') == rt
         else hasRight' == hasRight && right' == right
  {
    hide TreeIndex, Resolved, RootPrefix, Shr;
    b := Descent(c, m, k, nb, sizebits);
    DescentStep(c.trie, c.lev, nb, best, k, hasRight, right);
    RightSibling(c, m, k, b);
    var after := RightAfter(c.trie, k, b, hasRight, right);
    hasRight', right' := after.0, after.1;
    if hasRight' { AtNode(c, m, right'); }
  }

  /** x left a ring of at least two, and its last mate replaced it if it was the node. */
  lemma RingShrunk(c: Contents, m: TreeMem, k: Key, j: nat, m1: TreeMem, m': TreeMem) returns (c': Contents)
    requires Ok(c, m) && Sound(c.place) && k in c.trie && k in c.place && c.trie[k] in c.rings
    requires 1 < |c.rings[c.trie[k]]| && j < |c.rings[c.trie[k]]| && c.rings[c.trie[k]][0] == c.place[k]
    requires var x := c.rings[c.trie[k]][j];
      && x in m.fd && x in m.bk && m1 == RingUnlinked(m, x) && x in m.parent
      && (j == 0 <==> m.parent[x] != 0)
      && (j > 0 ==> m' == m1)
      && (j == 0 ==> (
        && 0 <= k.bin < NTREEBINS && |m1.bins| == NTREEBINS
        && x in m.child0 && x in m.child1 && (x != m.bins[k.bin] ==> m.parent[x] in m.child0)
        && m' == Relinked(m1, x, m.parent[x], k.bin, m.bk[x])))
    ensures Ok(c', m') && c'.sizes == c.sizes - {c.rings[c.trie[k]][j]}
    ensures var r := c.rings[c.trie[k]];
      c'.rings == c.rings[c.trie[k] := if j == 0 then [r[|r| - 1]] + r[1..|r| - 1] else Without(r, j)]
  {
    hide TreeIndex, Resolved, RootPrefix, Shr, Relinked;
    var s := c.trie[k];
    if j > 0 {
      UnlinkMate(c, m, s, j, m');
      c' := WithoutMate(c, s, j);
    } else {
      LinksUntouched(c.place, m, m1);
      LastBehindFirst(c, m, s);
      MateDetached(c, m, s, m1);
      RelinkWrites(c.place, m1, k, m.bk[c.place[k]], m');
      RelinkedKeepsRings(m1, c.place[k], m.parent[c.place[k]], k.bin, m.bk[c.place[k]]);
      UnlinkHead(c, m, k, m1, m');
      c' := WithMateUp(c, k, s);
    }
  }

  lemma RelinkedKeepsRings(m: TreeMem, x: int, xp: int, i: int, r: int)
    requires 0 <= i < |m.bins| && x in m.child0 && x in m.child1
    requires x != m.bins[i] ==> xp in m.child0
    ensures var m' := Relinked(m, x, xp, i, r); m'.fd == m.fd && m'.bk == m.bk && m'.index == m.index
  {
    var m1 := LinkMoved(m, x, xp, i, r);
    assert m1.fd == m.fd && m1.bk == m.bk && m1.index == m.index;
    var m' := KinTaken(m1, x, xp, r);
    assert m'.fd == m1.fd && m'.bk == m1.bk && m'.index == m1.index;
  }

  /** x was the only chunk of its size: its place goes, or a leaf takes it over. */
  lemma SizeGone(c: Contents, m: TreeMem, k: Key, l: Key, r: int, m1: TreeMem, m': TreeMem) returns (c': Contents)
    requires Ok(c, m) && Sound(c.place) && k in c.trie && k in c.place && c.trie[k] in c.rings
    requires |c.rings[c.trie[k]]| == 1 && 0 <= k.bin < NTREEBINS && |m.bins| == NTREEBINS
    requires m1 == m.(child0 := m1.child0, child1 := m1.child1) && LeafCleared(m, m1)
    requires var x := c.place[k];
      && x in m1.child0 && x in m1.child1 && x in m.parent
      && (x != m.bins[k.bin] ==> m.parent[x] in m1.child0)
      && (r == 0 ==> LeafIn(c.place, k) && m1 == m && m' == Unlinked(m, x, m.parent[x], k.bin))
      && (r != 0 ==> (
        && l in c.trie && LeafIn(c.place, l) && l != k && r == c.place[l]
        && 0 <= l.lev <= k.lev && On(c.trie[l], k.lev) == k && Linked(c.place - {l}, m1)
        && m' == Relinked(m1, x, m.parent[x], k.bin, r)))
    ensures Ok(c', m') && c'.sizes == c.sizes - {c.place[k]} && c'.rings == c.rings - {c.trie[k]}
  {
    hide TreeIndex, Resolved, RootPrefix, Shr, Relinked;
    if r == 0 {
      LeafDropped(c, m, k, m');
      UnlinkLeaf(c, m, k, m');
      c' := WithoutLeaf(c, k);
    } else {
      LeafPlaces(c, m, l);
      LeafDetached(c, m, l, m1);
      RelinkWrites(c.place - {l}, m1, k, r, m');
      RelinkedKeepsRings(m1, c.place[k], m.parent[c.place[k]], k.bin, r);
      UnlinkInner(c, m, k, l, m1, m');
      c' := WithLeafUp(c, k, l);
    }
  }

  lemma LeafDropped(c: Contents, m: TreeMem, k: Key, m': TreeMem)
    requires Ok(c, m) && Sound(c.place) && LeafIn(c.place, k)
    requires 0 <= k.bin < NTREEBINS && |m.bins| == NTREEBINS
    requires var x := c.place[k];
      x in m.parent && (x != m.bins[k.bin] ==> m.parent[x] in m.child0)
      && m' == Unlinked(m, x, m.parent[x], k.bin)
    ensures Linked(c.place - {k}, m') && LeafCleared(m, m')
    ensures m'.fd == m.fd && m'.bk == m.bk && m'.index == m.index
  {
    hide Ok, Sound, Linked, Unlinked, Resolved;
    Parts(c, m);
    if k.lev == Resolved(k.bin) {
      RootLeafDropped(c.place, m, k, m');
    } else {
      LowerLeafDropped(c.place, m, k, m');
    }
  }

  lemma RootLeafDropped(place: Places, m: TreeMem, k: Key, m': TreeMem)
    requires Sound(place) && Linked(place, m) && LeafIn(place, k) && place[k] in m.parent
    requires 0 <= k.bin < NTREEBINS && |m.bins| == NTREEBINS && k.lev == Resolved(k.bin)
    requires place[k] != m.bins[k.bin] ==> m.parent[place[k]] in m.child0
    requires m' == Unlinked(m, place[k], m.parent[place[k]], k.bin)
    ensures Linked(place - {k}, m') && LeafCleared(m, m')
    ensures m'.fd == m.fd && m'.bk == m.bk && m'.index == m.index
  {
    hide Resolved, RootPrefix, Linked, Child;
    Around(place, m, k);
    assert SoundAt(place, k);
    DropRootNode(place, m, k.bin, m');
  }

  lemma LowerLeafDropped(place: Places, m: TreeMem, k: Key, m': TreeMem)
    requires Sound(place) && Linked(place, m) && LeafIn(place, k) && place[k] in m.parent
    requires 0 <= k.bin < NTREEBINS && |m.bins| == NTREEBINS && k.lev != Resolved(k.bin)
    requires place[k] != m.bins[k.bin] ==> m.parent[place[k]] in m.child0
    requires m' == Unlinked(m, place[k], m.parent[place[k]], k.bin)
    ensures Linked(place - {k}, m') && LeafCleared(m, m')
    ensures m'.fd == m.fd && m'.bk == m.bk && m'.index == m.index
  {
    hide Resolved, RootPrefix, BinsLinked;
    Around(place, m, k);
    assert NodeLinked(place, m, k);
    hide Sound, Linked;
    var b := k.pre % 2;
    assert Child(Parent(k), b) == k;
    DropLeafNode(place, m, Parent(k), b, m');
  }

  /** Everything that replacing the node at k reads is there. */
  lemma ReadyToReplace(c: Contents, m: TreeMem, k: Key, m1: TreeMem, least: nat)
    requires Ok(c, m) && Sound(c.place) && k in c.trie && k in c.place
    requires AllFrom(c.sizes, least) && LeafCleared(m, m1) && m1.bins == m.bins && m1.index == m.index
    ensures var x := c.place[k];
      && x in m1.index && m1.index[x] == k.bin && 0 <= k.bin < NTREEBINS && |m1.bins| == NTREEBINS
      && x in m1.child0 && x in m1.child1 && x in m1.parent && m1.parent[x] != x
      && (x != m1.bins[k.bin] ==> m1.parent[x] >= least && m1.parent[x] in m1.child0)
      && (m1.child0[x] == 0 || m1.child0[x] >= least) && (m1.child1[x] == 0 || m1.child1[x] >= least)
  {
    hide TreeIndex, Resolved, RootPrefix, Shr;
    NodeIsMember(c, m, k);
    Around(c.place, m, k);
    assert NodeLinked(c.place, m, k);
    if k.lev != Resolved(k.bin) {
      NodeIsMember(c, m, Parent(k));
      assert Parent(k) != k;
    }
    if Child(k, 0) in c.trie { NodeIsMember(c, m, Child(k, 0)); }
    if Child(k, 1) in c.trie { NodeIsMember(c, m, Child(k, 1)); }
  }

  /** What can be read at the node of an occupied place. */
  lemma AtNode(c: Contents, m: TreeMem, key: Key)
    requires Ok(c, m) && key in c.trie
    ensures Placed(c, key) && c.place[key] in c.sizes && c.sizes[c.place[key]] == c.trie[key]
    ensures NodeLinked(c.place, m, key) && c.place[key] > 0 && key.bin == TreeIndex(c.trie[key])
    ensures var t := c.place[key]; t in m.fd && m.fd[t] in c.sizes
  {
    hide TreeIndex, Resolved, RootPrefix, Shr;
    NodeIsMember(c, m, key);
    Neighbours(c.rings[c.trie[key]], 0, m.fd, m.bk);
    assert NodeLinked(c.place, m, key);
  }

  /** One step down along the bits of s. */
  lemma Descent(c: Contents, m: TreeMem, key: Key, s: nat, k: nat) returns (b: int)
    requires Ok(c, m) && key in c.trie && key == On(s, key.lev) && 0 <= key.lev <= 64
    requires k == Shl(s, 64 - key.lev) && c.trie[key] != s
    ensures key.lev > 0 && b == SignBit(k) == Shr(s, key.lev - 1) % 2 && 0 <= b <= 1
    ensures (2 * k) % WORD == Shl(s, 64 - (key.lev - 1))
    ensures Child(key, b) == On(s, key.lev - 1) && Child(key, b).lev == key.lev - 1
    ensures Child(key, b) in c.trie <==> NodeAt(c.place, Child(key, b)) != 0
    ensures Child(key, b) in c.trie <==> Child(key, b) in c.place
    ensures forall l :: l in c.trie && c.trie[l] == s && l.lev <= key.lev ==> l.lev <= key.lev - 1
  {
    hide TreeIndex, Resolved, RootPrefix, Shr;
    LastLevel(c.trie, c.lev, s, key);
    SignBitReads(s, key.lev);
    OnNext(s, key.lev - 1);
    ShlAgain(s, 64 - key.lev);
    b := SignBit(k);
    DeeperOnly(c, m, key, s);
    if Child(key, b) in c.trie {
      NodeIsMember(c, m, Child(key, b));
    }
  }

  lemma NotAboveRoot(c: Contents, m: TreeMem, s: nat)
    requires Ok(c, m) && Large(s)
    ensures 0 <= TreeIndex(s) < NTREEBINS
    ensures forall l :: l in c.trie && c.trie[l] == s ==> l.lev <= Root(TreeIndex(s)).lev
  {
    hide TreeIndex, Resolved, RootPrefix, Shr;
    RootIsOn(s);
    forall l | l in c.trie && c.trie[l] == s
      ensures l.lev <= Root(TreeIndex(s)).lev
    {
      NodeIsMember(c, m, l);
    }
  }

  lemma DeeperOnly(c: Contents, m: TreeMem, key: Key, s: nat)
    requires Ok(c, m) && key in c.trie && key == On(s, key.lev) && key.lev >= 0 && c.trie[key] != s
    ensures forall l :: l in c.trie && c.trie[l] == s && l.lev <= key.lev ==> l.lev <= key.lev - 1
  {
    hide TreeIndex, Resolved, RootPrefix, Shr;
    forall l | l in c.trie && c.trie[l] == s && l.lev <= key.lev
      ensures l.lev <= key.lev - 1
    {
      NodeIsMember(c, m, l);
      assert l.lev == key.lev ==> l == key;
    }
  }

  /** Where the descent falls off the trie, the size is not in it. */
  lemma NotDeeper(c: Contents, m: TreeMem, key: Key, b: int, s: nat)
    requires Ok(c, m) && key in c.trie && key == On(s, key.lev) && key.lev > 0 && c.trie[key] != s
    requires Child(key, b) == On(s, key.lev - 1) && Child(key, b) !in c.trie
    requires forall l :: l in c.trie && c.trie[l] == s ==> l.lev <= key.lev
    ensures s !in c.lev
  {
    hide TreeIndex, Resolved, RootPrefix, Shr;
    if s in c.lev {
      var l := On(s, c.lev[s]);
      assert l in c.trie && c.trie[l] == s;
      NodeIsMember(c, m, l);
      DeeperOnly(c, m, key, s);
    }
  }

  /** A child of a place at or below k is below k. */
  lemma BelowIsAbove(c: Contents, m: TreeMem, k: Key, up: Key, side: int)
    requires Ok(c, m) && k in c.trie && up in c.trie && 0 <= side <= 1
    requires up.lev <= k.lev && On(c.trie[up], k.lev) == k
    requires NodeAt(c.place, Child(up, side)) != 0
    ensures var l := Child(up, side);
      l in c.trie && 0 <= l.lev < k.lev && l.lev < up.lev && On(c.trie[l], k.lev) == k
      && c.place[l] == NodeAt(c.place, l)
  {
    hide TreeIndex, Resolved, RootPrefix, Shr;
    var l := Child(up, side);
    NodeIsMember(c, m, up);
    NodeIsMember(c, m, l);
    BelowChild(c.trie, c.lev, up, side);
    AgreeAbove(c.trie[l], c.trie[up], up.lev, k.lev);
  }

  lemma NodesAreNotNull(c: Contents, m: TreeMem)
    requires Ok(c, m)
    ensures forall k :: k in c.place ==> c.place[k] != 0
  {
    forall k | k in c.place
      ensures c.place[k] != 0
    {
      NodeIsMember(c, m, k);
    }
  }

  // ---------------------------------------------------------------- facts for the search

  lemma NullIsNotHeld(c: Contents, m: TreeMem)
    requires Ok(c, m)
    ensures 0 !in c.sizes
    ensures forall k :: k in c.place ==> c.place[k] != 0
  {
    hide TreeIndex, Resolved, RootPrefix, Shr;
    NodesAreNotNull(c, m);
    if 0 in c.sizes {
      HeldIsNotNull(c, m, 0);
    }
  }

  lemma SizesAreWords(c: Contents, m: TreeMem, x: int)
    requires Ok(c, m) && x in c.sizes
    ensures Large(c.sizes[x])
  {
    hide TreeIndex, Resolved, RootPrefix, Shr;
    var k, j := Located(c, m, x);
    NodeIsMember(c, m, k);
  }

  lemma AllBeatenByExact(t: map<Key, nat>, bin: int, nb: nat)
    ensures Exhausted(t, bin, nb, nb)
  {
  }

  lemma RightSibling(c: Contents, m: TreeMem, k: Key, b: int)
    requires Ok(c, m) && k in c.trie && 0 <= b <= 1
    ensures var t := c.place[k];
      && NodeLinked(c.place, m, k)
      && var rt, n := m.child1[t], NodeAt(c.place, Child(k, b));
         (rt != 0 && rt != n <==> b == 0 && Child(k, 1) in c.trie) && rt == NodeAt(c.place, Child(k, 1))
  {
    hide TreeIndex, Resolved, RootPrefix, Shr;
    AtNode(c, m, k);
    NullIsNotHeld(c, m);
    PlacesSound(c, m);
    assert Child(k, 0) != Child(k, 1);
  }

  lemma LeftmostLink(c: Contents, m: TreeMem, k: Key)
    requires Ok(c, m) && k in c.trie
    ensures NodeLinked(c.place, m, k)
    ensures var t, n := c.place[k], LeftmostChild(c.trie, k);
      && NodeAt(c.place, n) == (if m.child0[t] != 0 then m.child0[t] else m.child1[t])
      && n.lev == k.lev - 1 && (n in c.trie ==> n.lev >= 0)
      && (n in c.trie <==> NodeAt(c.place, n) != 0)
  {
    hide TreeIndex, Resolved, RootPrefix, Shr;
    AtNode(c, m, k);
    NullIsNotHeld(c, m);
    var n := LeftmostChild(c.trie, k);
    if n in c.trie { NodeIsMember(c, m, n); }
  }

  lemma OwnSub(c: Contents, m: TreeMem, k: Key)
    requires Ok(c, m) && k in c.trie
    ensures InSub(c.trie, k, k)
  {
    hide TreeIndex, Resolved, RootPrefix, Shr;
    NodeIsMember(c, m, k);
  }

  lemma EmptyBin(c: Contents, m: TreeMem, i: nat, nb: nat)
    requires Ok(c, m) && i < NTREEBINS && m.bins[i] == 0
    ensures Exhausted(c.trie, i, nb, -1)
    ensures forall l :: l in c.trie ==> l.bin != i
  {
    hide TreeIndex, Resolved, RootPrefix, Shr;
    NullIsNotHeld(c, m);
    forall l | l in c.trie
      ensures l.bin != i
    {
      if l.bin == i { RootOccupied(c.trie, c.lev, l); }
    }
  }

  /** The map's bits above idx are the occupied later bins. */
  lemma NextBins(c: Contents, m: TreeMem, idx: nat, leftbits: BinMap)
    requires Ok(c, m) && idx < NTREEBINS && leftbits == And(LeftBits(BitOf(idx)), m.treemap)
    ensures forall i :: 0 <= i < NTREEBINS ==> (leftbits[i] <==> i > idx && Root(i) in c.trie)
    ensures forall l :: l in c.trie && l.bin > idx ==> 0 <= l.bin < NTREEBINS && leftbits[l.bin]
  {
    hide TreeIndex, Resolved, RootPrefix, Shr;
    forall i | 0 <= i < NTREEBINS
      ensures leftbits[i] <==> i > idx && Root(i) in c.trie
    {
      LeftBitsAbove(idx, i);
    }
    forall l | l in c.trie && l.bin > idx
      ensures 0 <= l.bin < NTREEBINS && leftbits[l.bin]
    {
      NodeIsMember(c, m, l);
      RootOccupied(c.trie, c.lev, l);
    }
  }

  lemma RootAhead(c: Contents, m: TreeMem, i: nat, nb: nat)
    requires Ok(c, m) && nb < 0x100 && i < NTREEBINS && Root(i) in c.trie
    ensures LeftmostCover(c.trie, i, nb, -1, Root(i))
    ensures forall l {:trigger InSub(c.trie, l, Root(i))} :: InSub(c.trie, l, Root(i)) ==> c.trie[l] >= nb
  {
    hide TreeIndex, Resolved, RootPrefix, Shr;
    forall l | l in c.trie && l.bin == i
      ensures c.trie[l] >= nb && InSub(c.trie, l, Root(i))
    {
      NodeIsMember(c, m, l);
      RootIsOn(c.trie[l]);
    }
  }

  /** The least size of the first occupied bin is the least of all. */
  lemma LeastOverall(c: Contents, m: TreeMem, i: nat, nb: nat, v: int)
    requires Ok(c, m) && nb < 0x100 && i < NTREEBINS
    requires v in c.sizes && TreeIndex(c.sizes[v]) == i && Exhausted(c.trie, i, nb, c.sizes[v])
    requires forall j :: 0 <= j < i ==> !m.treemap[j]
    ensures forall x :: x in c.sizes ==> c.sizes[v] <= c.sizes[x]
  {
    hide TreeIndex, Resolved, RootPrefix, Shr;
    forall x | x in c.sizes
      ensures c.sizes[v] <= c.sizes[x]
    {
      var l, j := Located(c, m, x);
      NodeIsMember(c, m, l);
      RootOccupied(c.trie, c.lev, l);
      SizesAreWords(c, m, v);
      if l.bin == i {
        assert Fits(c.trie, l, i, nb);
      } else {
        LaterBinLarger(c.sizes[v], c.trie[l]);
      }
    }
  }

  /** All sizes of a later bin fit and are ahead of its root. */
  lemma LaterBinAhead(c: Contents, m: TreeMem, idx: nat, i: nat, nb: nat)
    requires Ok(c, m) && Large(nb) && idx == TreeIndex(nb) && idx < i < NTREEBINS && Root(i) in c.trie
    ensures Root(i) in c.place && m.bins[i] == c.place[Root(i)] && m.bins[i] != 0
    ensures LeftmostCover(c.trie, i, nb, -1, Root(i))
    ensures forall l {:trigger InSub(c.trie, l, Root(i))} :: InSub(c.trie, l, Root(i)) ==> c.trie[l] >= nb
  {
    hide TreeIndex, Resolved, RootPrefix, Shr;
    NullIsNotHeld(c, m);
    AtNode(c, m, Root(i));
    forall l | l in c.trie && l.bin == i
      ensures c.trie[l] >= nb && InSub(c.trie, l, Root(i))
    {
      NodeIsMember(c, m, l);
      LaterBinLarger(nb, c.trie[l]);
      RootIsOn(c.trie[l]);
    }
  }

  /** Best in the searched bin, with nothing fitting in between, is best of all. */
  lemma BestOverall(c: Contents, m: TreeMem, idx: nat, bin: int, nb: nat, v: int)
    requires Ok(c, m) && Large(nb) && idx == TreeIndex(nb) && idx <= bin < NTREEBINS
    requires v == 0 || (v in c.sizes && c.sizes[v] >= nb)
    requires 0 !in c.sizes
    requires Exhausted(c.trie, bin, nb, if v in c.sizes then c.sizes[v] else -1)
    requires v == 0 ==> forall l :: l in c.trie && l.bin > idx ==> l.bin == bin
    requires bin > idx ==> Exhausted(c.trie, idx, nb, -1)
    requires bin > idx ==> forall l :: l in c.trie && l.bin > idx ==> l.bin >= bin
    requires v != 0 ==> TreeIndex(c.sizes[v]) == bin
    ensures forall x :: x in c.sizes && c.sizes[x] >= nb ==> v != 0 && c.sizes[v] <= c.sizes[x]
  {
    hide TreeIndex, Resolved, RootPrefix, Shr;
    forall x | x in c.sizes && c.sizes[x] >= nb
      ensures v != 0 && c.sizes[v] <= c.sizes[x]
    {
      var l, j := Located(c, m, x);
      NodeIsMember(c, m, l);
      TreeIndexMonotone(nb, c.trie[l]);
      assert l.bin == bin ==> Fits(c.trie, l, bin, nb);
      assert l.bin == idx ==> Fits(c.trie, l, idx, nb);
      if l.bin > bin && v != 0 {
        SizesAreWords(c, m, v);
        LaterBinLarger(c.sizes[v], c.trie[l]);
      }
    }
  }
}
