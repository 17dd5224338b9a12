/** The buddy system of modified_poptrie/buddy.c. */
module Buddies {
  import opened Bits
  import opened Seqs
  import opened Tiling
  import opened FreeLists
  import opened BuddyState

  /** blocks[i] is the first word of block i, heads the array of list heads, and b the bitmap, one
      entry for each of its bits. */
  class Buddy {
    const sz: nat
    const level: nat
    const heads: array<nat>
    const blocks: array<nat>
    const b: array<bool>

    ghost var abs: Abstract

    ghost function Repr(): set<object> {
      {this, heads, blocks, b}
    }

    ghost function View(): State
      reads Repr()
    {
      State(sz, level, heads[..], blocks[..], b[..], abs.lists, abs.free, abs.alloc)
    }

    ghost predicate Fixed()
    {
      heads != blocks && heads.Length == level && blocks.Length == b.Length == Pow2(sz) <= EOL
    }

    ghost function Allocated(): Ranges
      reads this
    {
      abs.alloc
    }

    ghost predicate Valid()
      reads Repr()
    {
      Fixed() && |abs.lists| == level && Proper(View())
    }

    constructor New(sz: nat, level: nat)
      requires 0 < level <= sz && Pow2(sz) <= EOL
      ensures Valid() && fresh(Repr()) && abs.alloc == map[]
      ensures this.sz == sz && this.level == level && abs.lists == InitialLists(sz, level)
    {
      this.sz, this.level := sz, level;
      heads := new nat[level];
      blocks := new nat[Pow2(sz)];
      b := new bool[Pow2(sz)](_ => false);
      abs := Abstract(InitialLists(sz, level), InitialFree(sz, level), map[]);
      new;
      for i := 0 to level
        modifies heads
        invariant forall j :: 0 <= j < i ==> heads[j] == EOL
      {
        heads[i] := EOL;
      }
      heads[level - 1] := 0;
      ThreadTops();
      assert heads[..] == InitialHeads(level);
      assert b[..] == InitialBits(sz);
      InitialProper(View(), level - 1);
    }

    /** Thread the top-level ranges through the blocks, in order. */
    method ThreadTops()
      requires 0 < level <= sz && blocks.Length == Pow2(sz)
      modifies blocks
      ensures TopsThreaded(blocks[..], sz, level - 1)
    {
      var n := Pow2(sz - (level - 1));
      ghost var tops := Tops(n, Pow2(level - 1));
      for i := 0 to n
        invariant forall j :: 0 <= j < i ==> tops[j] < blocks.Length && blocks[tops[j]] == Link(tops, j + 1)
      {
        TopsAt(sz, level - 1, i);
        var off := i * Pow2(level - 1);
        assert off == tops[i];
        blocks[off] := if i == n - 1 then EOL else (i + 1) * Pow2(level - 1);
      }
    }

    /** _split_buddy: make list lv non-empty by splitting the head of the next list that is not empty. */
    method SplitBuddy(lv: nat) returns (ret: int, ghost k: nat)
      requires Valid() && lv < level
      modifies Repr()
      ensures Sound(View()) && ret in {0, -1}
      ensures abs.alloc == old(abs.alloc) && |abs.lists| == level
      ensures forall k :: 0 <= k < lv ==> abs.lists[k] == old(abs.lists[k])
      ensures ret == 0 ==> abs.lists[lv] != [] && OnlyAt(abs.free, level, heads[lv])
      ensures ret == 0 ==>
                && lv <= k < level == |old(abs.lists)| && old(abs.lists)[k] != [] && heads[lv] == old(abs.lists)[k][0]
                && forall j :: lv <= j < k ==> old(abs.lists)[j] == []
      ensures ret == 0 ==> abs.lists[lv := abs.lists[lv][1..]] == Remaining(old(abs.lists), lv, k)
      ensures ret == -1 ==> View() == old(View()) && forall k :: lv <= k < level ==> abs.lists[k] == []
      decreases level - lv
    {
      Sizes(View());
      Head(View(), lv);
      if heads[lv] != EOL {
        AnyOnly(View(), heads[lv]);
        return 0, lv;
      }
      if lv + 1 >= level {
        return -1, lv;
      }
      Head(View(), lv + 1);
      ghost var lists0 := abs.lists;
      k := lv + 1;
      if heads[lv + 1] == EOL {
        ret, k := SplitBuddy(lv + 1);
        if ret < 0 {
          return;
        }
      } else {
        AnyOnly(View(), heads[lv + 1]);
      }
      PushHalves(lv);
      RemainingStep(lists0, lv, k);
      ret := 0;
    }

    /** The first range of list lv + 1 is cut in two. */
    method PushHalves(lv: nat)
      requires Fixed() && Sound(View()) && lv + 1 < level && |abs.lists| == level
      requires abs.lists[lv] == [] && abs.lists[lv + 1] != [] && OnlyAt(abs.free, level, heads[lv + 1])
      modifies Repr()
      ensures Sound(View()) && abs.alloc == old(abs.alloc) && |abs.lists| == level
      ensures OnlyAt(abs.free, level, heads[lv]) && heads[lv] == old(heads[lv + 1]) == old(abs.lists[lv + 1])[0]
      ensures abs.lists ==
              old(abs.lists)[lv := [heads[lv], heads[lv] + Pow2(lv)]][lv + 1 := old(abs.lists[lv + 1])[1..]]
    {
      ghost var s := View();
      Push(s, lv);
      Head(s, lv + 1);
      ghost var h := heads[lv + 1];
      CutHead(lv);
      abs := abs.(lists := abs.lists[lv := [h, h + Pow2(lv)]][lv + 1 := abs.lists[lv + 1][1..]],
                  free := abs.free[h := lv][h + Pow2(lv) := lv]);
      assert View() == Pushed(s, lv);
    }

    method CutHead(lv: nat)
      requires heads != blocks && lv + 1 < heads.Length && heads[lv + 1] + Pow2(lv) < blocks.Length
      modifies heads, blocks
      ensures var h := old(heads[lv + 1]);
              && heads[..] == old(heads[..])[lv := h][lv + 1 := old(blocks[..])[h]]
              && blocks[..] == old(blocks[..])[h + Pow2(lv) := EOL][h := h + Pow2(lv)]
    {
      heads[lv] := heads[lv + 1];
      heads[lv + 1] := blocks[heads[lv]];
      var next := heads[lv] + Pow2(lv);
      blocks[next] := EOL;
      blocks[heads[lv]] := next;
    }

    /** buddy_alloc2: allocate 2^n blocks, at the start of the head of the first list from n on that is not empty.  So a
        free range is cut only if no smaller one will do. */
    method Alloc(n: int) returns (ret: int)
      requires Valid()
      modifies Repr()
      ensures Valid()
      ensures ret == -1 || ret >= 0
      ensures ret == -1 <==> n < 0 || n >= level || forall a: nat :: !Available(old(abs.alloc), sz, a, n)
      ensures ret == -1 ==> abs == old(abs)
      ensures ret >= 0 ==> Available(old(abs.alloc), sz, ret, n) && abs.alloc == old(abs.alloc)[ret := n]
      ensures ret >= 0 ==> exists k ::
                && n <= k < level == |old(abs.lists)| && old(abs.lists)[k] != [] && ret == old(abs.lists)[k][0]
                && BestFit(old(abs.alloc), sz, level, n, ret, k) && abs.lists == Remaining(old(abs.lists), n, k)
    {
      if n < 0 {
        return -1;
      }
      if n >= level {
        return -1;
      }
      Sizes(View());
      ghost var s, k := View(), 0;
      ret, k := SplitBuddy(n);
      if ret < 0 {
        forall a: nat ensures !Available(abs.alloc, sz, a, n) {
          Nothing(View(), n, a);
        }
        return -1;
      }
      ret := TakeHead(n);
      HeadFitsBest(s, n, k);
    }

    /** Remove the head of a list and flag its last block. */
    method TakeHead(n: nat) returns (a: nat)
      requires Fixed() && Sound(View()) && n < level && |abs.lists| == level && abs.lists[n] != []
      requires OnlyAt(abs.free, level, heads[n])
      modifies Repr()
      ensures Valid() && a == old(heads[n])
      ensures Available(old(abs.alloc), sz, a, n) && abs.alloc == old(abs.alloc)[a := n]
      ensures abs.lists == old(abs.lists)[n := old(abs.lists[n])[1..]]
    {
      ghost var s := View();
      Take(s, n);
      assert RemoveAt(abs.lists[n], 0) == abs.lists[n][1..];
      a := heads[n];
      heads[n] := blocks[a];
      b[a + Pow2(n) - 1] := true;
      abs := Abstract(abs.lists[n := RemoveAt(abs.lists[n], 0)], abs.free - {a}, abs.alloc[a := n]);
      assert View() == Taken(s, n);
    }

    /** Store v in the word n points to: head k for n < 0, otherwise the first word of block n. */
    method Store(k: nat, n: int, v: nat)
      requires k < heads.Length && n < blocks.Length && heads != blocks
      modifies heads, blocks
      ensures heads[..] == if n < 0 then old(heads[..])[k := v] else old(heads[..])
      ensures blocks[..] == if n < 0 then old(blocks[..]) else old(blocks[..])[n := v]
    {
      if n < 0 {
        heads[k] := v;
      } else {
        blocks[n] := v;
      }
    }

    /** The place of range a in list k, before the first larger number: n points to the word that leads to it, and cur
        is the number in that word. */
    method FindPlace(k: nat, a: nat) returns (n: int, cur: nat, ghost i: nat)
      requires Fixed() && Threaded(View()) && k < level && |abs.lists| == level
      ensures i <= |abs.lists[k]| && cur == Link(abs.lists[k], i)
      ensures n == if i == 0 then -1 else abs.lists[k][i - 1]
      ensures InsertAt(abs.lists[k], i, a) == Inserted(abs.lists[k], a)
    {
      ghost var s, xs := View(), abs.lists[k];
      Next(s, k, 0);
      i, n, cur := 0, -1, heads[k];
      while cur != EOL && a >= cur
        invariant 0 <= i <= |xs| && cur == Link(xs, i)
        invariant n == if i == 0 then -1 else xs[i - 1]
        invariant forall j :: 0 <= j < i ==> xs[j] <= a
        decreases |xs| - i
      {
        Next(s, k, i);
        n := cur;
        cur := blocks[n];
        i := i + 1;
      }
      Next(s, k, i);
      InsertedHere(xs, i, a);
    }

    /** Link range a in on list k before the first larger number. */
    method LinkSorted(k: nat, a: nat)
      requires Fixed() && Threaded(View()) && k < level && a < blocks.Length && a !in abs.free && |abs.lists| == level
      modifies heads, blocks, this
      ensures Threaded(View()) && abs.alloc == old(abs.alloc) && abs.free == old(abs.free)[a := k]
      ensures abs.lists == old(abs.lists)[k := Inserted(old(abs.lists)[k], a)]
    {
      ghost var s := View();
      var n, cur;
      ghost var i;
      n, cur, i := FindPlace(k, a);
      Next(s, k, i);
      Insert(s, a, k, i);
      Store(k, n, a);
      blocks[a] := cur;
      abs := abs.(lists := abs.lists[k := InsertAt(abs.lists[k], i, a)], free := abs.free[a := k]);
      assert View() == Returned(s, a, k, i);
    }

    /** buddy_free2: give back the range that starts at a, recovering its size from the bitmap. */
    method Free(a: nat)
      requires Valid() && a in abs.alloc
      modifies Repr()
      ensures Valid() && abs.alloc == old(abs.alloc) - {a}
      ensures var k := old(abs.alloc)[a];
              && k < level == |old(abs.lists)|
              && JoinedTo(old(abs.lists)[k := Inserted(old(abs.lists)[k], a)], abs.lists, abs.alloc, sz, level, a, k)
    {
      var k := FindOrder(a);
      Return(View(), a);
      ClearFlag(a + Pow2(k) - 1);
      LinkSorted(k, a);
      abs := abs.(alloc := abs.alloc - {a});
      Assemble(View());
      Merge(a, k);
    }

    method ClearFlag(c: nat)
      requires Fixed() && Threaded(View()) && c < b.Length
      modifies b
      ensures Threaded(View()) && b[..] == old(b[..])[c := false]
    {
      Unfold(View());
      b[c] := false;
      Unfold(View());
    }

    /** Only the last block of the range is flagged, so its order is the first one at which a flag is seen. */
    method FindOrder(a: nat) returns (k: nat)
      requires Valid() && a in abs.alloc
      ensures k == abs.alloc[a]
    {
      k := 0;
      Flags(View(), a, 0);
      while !b[a + Pow2(k) - 1]
        invariant k <= abs.alloc[a] < level && a + Pow2(k) - 1 < b.Length
        invariant b[a + Pow2(k) - 1] <==> k == abs.alloc[a]
        decreases level - k
      {
        k := k + 1;
        Flags(View(), a, k);
      }
    }

    /** _merge: join the range of order k at a with its buddy if that is abs.free, and so on upwards. */
    method Merge(a: nat, k: nat)
      requires Fixed() && Sound(View())
      requires a in abs.free && abs.free[a] == k && OnlyAt(abs.free, level, a) && |abs.lists| == level
      modifies heads, blocks, this
      ensures Valid() && abs.alloc == old(abs.alloc)
      ensures JoinedTo(old(abs.lists), abs.lists, abs.alloc, sz, level, a, k)
      decreases level - k, 1
    {
      ghost var lists, alloc := abs.lists, abs.alloc;
      Sizes(View());
      if k + 1 >= level {
        AtTop(View(), a);
        JoinedNone(lists, alloc, sz, level, a, k, 0);
        return;
      }
      var s, ok := CanMerge(a, k);
      if !ok {
        JoinedNone(lists, alloc, sz, level, a, k, s);
        return;
      }
      MergeUp(a, k, s);
    }

    /** The pair at s around range a is merged, and so on upwards. */
    method MergeUp(ghost a: nat, k: nat, s: nat)
      requires Fixed() && Sound(View()) && k + 1 < level && Mergeable(View(), s, k) && |abs.lists| == level
      requires PairFound(abs.alloc, sz, a, k, s, true)
      modifies heads, blocks, this
      ensures Valid() && abs.alloc == old(abs.alloc)
      ensures JoinedTo(old(abs.lists), abs.lists, abs.alloc, sz, level, a, k)
      decreases level - k, 0
    {
      JoinPair(k, s);
      ghost var lists1 := abs.lists;
      Merge(s, k + 1);
      JoinedNext(old(abs.lists), lists1, abs.lists, abs.alloc, sz, level, a, k, s);
    }

    /** The two halves of the pair at s leave list k, and the pair becomes the head of the list above. */
    method JoinPair(k: nat, s: nat)
      requires Fixed() && Sound(View()) && k + 1 < level && Mergeable(View(), s, k) && |abs.lists| == level
      modifies heads, blocks, this
      ensures Sound(View()) && abs.alloc == old(abs.alloc) && |abs.lists| == level
      ensures s in abs.free && abs.free[s] == k + 1 && OnlyAt(abs.free, level, s)
      ensures var less := old(abs.lists)[k := Without(old(abs.lists)[k], s, s + Pow2(k))];
              abs.lists == less[k + 1 := [s] + less[k + 1]]
    {
      Sizes(View());
      RemovePair(k, s);
      PushMerged(k + 1, s);
    }

    /** Find the pair of ranges that contains a, and whether both are free. */
    method CanMerge(a: nat, k: nat) returns (s: nat, ok: bool)
      requires Fixed() && Sound(View()) && k + 1 < level
      requires a in abs.free && abs.free[a] == k && OnlyAt(abs.free, level, a)
      ensures PairFound(abs.alloc, sz, a, k, s, ok)
      ensures !ok ==> Valid()
      ensures ok ==> Mergeable(View(), s, k)
    {
      RoundDownDiv(a, k + 1);
      s := a / Pow2(k + 1) * Pow2(k + 1);
      Sizes(View());
      Pair(View(), a, k, s);
      PairAvailable(View(), a, k, s);
      var found := AnyFlag(s, k + 1);
      ok := !found;
      if ok {
        MergedPair(View(), a, k, s);
      }
    }

    /** Is a flag set in the range of order k at s? */
    method AnyFlag(s: nat, k: nat) returns (found: bool)
      requires Sound(View()) && s + Pow2(k) <= Pow2(sz)
      ensures found <==> !NoTail(abs.alloc, s, k)
    {
      Sizes(View());
      for i := 0 to Pow2(k)
        invariant forall c :: s <= c < s + i ==> !b[c]
      {
        if b[s + i] {
          Flagged(View(), s, k, s + i);
          return true;
        }
      }
      Unflagged(View(), s, k);
      return false;
    }

    /** Take the two halves of the pair at s off list k. */
    method RemovePair(k: nat, s: nat)
      requires Fixed() && Threaded(View()) && k < level && Mergeable(View(), s, k) && |abs.lists| == level
      modifies heads, blocks, this
      ensures Threaded(View()) && abs.alloc == old(abs.alloc)
      ensures abs.lists == old(abs.lists)[k := Without(old(abs.lists)[k], s, s + Pow2(k))]
      ensures s !in abs.free && s < blocks.Length && FlagsOK(b[..], abs.alloc)
      ensures Tiled(sz, level, abs.free[s := k + 1], abs.alloc) && OnlyAt(abs.free[s := k + 1], level, s)
    {
      ghost var v := View();
      MergeableFree(v, s, k);
      DropHalves(k, s);
      WithoutNone(v.lists[k], s, s + Pow2(k));
      Gone(View(), k, v.free, {s, s + Pow2(k)});
      HalvesGone(v, View(), s, k);
    }

    method DropHalves(k: nat, s: nat)
      requires Fixed() && Threaded(View()) && k < level && |abs.lists| == level
      modifies heads, blocks, this
      ensures Threaded(View()) && abs.alloc == old(abs.alloc)
      ensures abs.lists == old(abs.lists)[k := Without(old(abs.lists)[k], s, s + Pow2(k))]
      ensures Minus(old(abs.free), abs.free, {s, s + Pow2(k)})
    {
      ghost var v, i, j := View(), 0, 0;
      Next(v, k, 0);
      var n := -1;
      var cur := heads[k];
      WithoutStart(v.lists, k, s, s + Pow2(k));
      while cur != EOL
        invariant 0 <= i && 0 <= j && Walked(v, abs, k, s, i, j)
        invariant Threaded(View()) && abs.alloc == v.alloc && |abs.lists| == level
        invariant i <= |abs.lists[k]| && cur == Link(abs.lists[k], i)
        invariant n == if i == 0 then -1 else abs.lists[k][i - 1]
        decreases |v.lists[k]| - j
      {
        n, cur, i := DropNext(k, s, n, cur, v, i, j);
        j := j + 1;
      }
      Next(View(), k, i);
      WalkedAll(v, abs, k, s, i, j);
    }

    /** One step along list k. */
    method DropNext(k: nat, s: nat, n: int, cur: nat, ghost v: State, ghost i: nat, ghost j: nat)
      returns (n': int, cur': nat, ghost i': nat)
      requires Fixed() && Threaded(View()) && k < level && |abs.lists| == level && Walked(v, abs, k, s, i, j)
      requires i <= |abs.lists[k]| && cur == Link(abs.lists[k], i) && cur != EOL
      requires n == if i == 0 then -1 else abs.lists[k][i - 1]
      modifies heads, blocks, this
      ensures Threaded(View()) && abs.alloc == old(abs.alloc) && |abs.lists| == level && Walked(v, abs, k, s, i', j + 1)
      ensures i' <= |abs.lists[k]| && cur' == Link(abs.lists[k], i')
      ensures n' == if i' == 0 then -1 else abs.lists[k][i' - 1]
      ensures j < |v.lists[k]|
    {
      Next(View(), k, i);
      WalkedStep(v, abs, k, s, i, j);
      if s == cur || s + Pow2(k) == cur {
        n', i' := n, i;
        cur' := UnlinkAt(k, n, i);
      } else {
        n', i' := cur, i + 1;
        cur' := blocks[cur];
      }
    }

    /** Drop the range at position i of list k, n pointing to the word that leads to it. */
    method UnlinkAt(k: nat, n: int, ghost i: nat) returns (next: nat)
      requires Fixed() && Threaded(View()) && k < level && |abs.lists| == level && i < |abs.lists[k]|
      requires n == (if i == 0 then -1 else abs.lists[k][i - 1])
      modifies heads, blocks, this
      ensures Threaded(View()) && abs.alloc == old(abs.alloc) && abs.free == old(abs.free) - {old(abs.lists[k][i])}
      ensures abs.lists == old(abs.lists)[k := RemoveAt(old(abs.lists[k]), i)] && next == Link(abs.lists[k], i)
    {
      ghost var v := View();
      Remove(v, k, i);
      next := blocks[if n < 0 then heads[k] else blocks[n]];
      Store(k, n, next);
      abs := abs.(lists := abs.lists[k := RemoveAt(abs.lists[k], i)], free := abs.free - {v.lists[k][i]});
      assert View() == Unlinked(v, k, i);
    }

    /** Put range s at the head of list k. */
    method PushMerged(k: nat, s: nat)
      requires Fixed() && 0 < level <= sz && Threaded(View()) && k < level && s < blocks.Length && s !in abs.free
          && |abs.lists| == level
      requires FlagsOK(b[..], abs.alloc) && Tiled(sz, level, abs.free[s := k], abs.alloc)
      modifies heads, blocks, this
      ensures Sound(View()) && abs.alloc == old(abs.alloc) && abs.free == old(abs.free)[s := k]
      ensures abs.lists == old(abs.lists)[k := [s] + old(abs.lists)[k]]
    {
      ghost var v := View();
      Next(v, k, 0);
      assert InsertAt(abs.lists[k], 0, s) == [s] + abs.lists[k];
      Insert(v, s, k, 0);
      blocks[s] := heads[k];
      heads[k] := s;
      abs := abs.(lists := abs.lists[k := InsertAt(abs.lists[k], 0, s)], free := abs.free[s := k]);
      assert View() == Returned(v, s, k, 0);
      Assemble(View());
    }
  }

  /** buddy_init: bsz is the block size in bytes. */
  method Init(sz: nat, level: nat, bsz: int) returns (ret: int, bs: Buddy?)
    requires 0 < level <= sz && Pow2(sz) <= EOL
    ensures ret == (if bsz < 4 then -1 else 0) && (bs == null <==> bsz < 4)
    ensures bs != null ==>
              && bs.Valid() && fresh(bs.Repr()) && bs.sz == sz && bs.level == level
              && bs.Allocated() == map[] && bs.abs.lists == InitialLists(sz, level)
  {
    if bsz < 4 {
      return -1, null;
    }
    ret := 0;
    bs := new Buddy.New(sz, level);
  }
}
