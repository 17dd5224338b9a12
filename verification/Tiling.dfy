/** The abstract state of a buddy system. */
module Tiling {
  // The 2^sz blocks are tiled by aligned ranges of 2^k blocks, each of them either free or allocated.

  import opened Bits

  /** A set of ranges: start |-> k, for the range [start, start + 2^k). */
  type Ranges = map<nat, nat>

  /** x is a multiple of 2^k. */
  predicate Aligned(x: nat, k: nat) {
    k == 0 || (x % 2 == 0 && Aligned(x / 2, k - 1))
  }

  predicate Covers(t: Ranges, x: nat, c: nat) {
    x in t && x <= c < x + Pow2(t[x])
  }

  /** x and x + 2^k are the two halves of an aligned range, and both are in t as ranges of order k. */
  predicate BuddyPair(t: Ranges, x: nat, k: nat) {
    && Aligned(x, k + 1)
    && x in t && t[x] == k
    && x + Pow2(k) in t && t[x + Pow2(k)] == k
  }

  /** No two free ranges below the top level could be merged. */
  ghost predicate NoBuddies(free: Ranges, level: nat) {
    forall x: nat, k: nat :: BuddyPair(free, x, k) ==> level <= k + 1
  }

  ghost predicate InRange(t: Ranges, sz: nat, level: nat) {
    forall x :: x in t ==> t[x] < level && Aligned(x, t[x]) && x + Pow2(t[x]) <= Pow2(sz)
  }

  ghost predicate Disjoint(t: Ranges) {
    forall x, y :: x in t && y in t && x < y ==> x + Pow2(t[x]) <= y
  }

  ghost predicate IsCovered(t: Ranges, c: nat) {
    exists x :: Covers(t, x, c)
  }

  ghost predicate Covered(t: Ranges, sz: nat) {
    forall c: nat :: c < Pow2(sz) ==> IsCovered(t, c)
  }

  ghost predicate Partition(sz: nat, level: nat, t: Ranges) {
    InRange(t, sz, level) && Disjoint(t) && Covered(t, sz)
  }

  /** free and alloc together tile [0, 2^sz) with aligned ranges of order below level. */
  ghost predicate Tiles(sz: nat, level: nat, free: Ranges, alloc: Ranges) {
    free.Keys !! alloc.Keys && Partition(sz, level, free + alloc)
  }

  /** The aligned range of order k at a meets no range of alloc. */
  ghost predicate Available(alloc: Ranges, sz: nat, a: nat, k: nat) {
    && Aligned(a, k)
    && a + Pow2(k) <= Pow2(sz)
    && forall x :: x in alloc ==> x + Pow2(alloc[x]) <= a || a + Pow2(k) <= x
  }

  /** Being aligned to a larger power of two means being aligned to a smaller one. */
  lemma {:induction false} AlignedDown(x: nat, k: nat, l: nat)
    requires k <= l && Aligned(x, l)
    ensures Aligned(x, k)
  {
    if k > 0 {
      AlignedDown(x / 2, k - 1, l - 1);
    }
  }

  lemma {:induction false} UpperHalfAligned(x: nat, k: nat)
    requires Aligned(x, k + 1)
    ensures Aligned(x + Pow2(k), k)
  {
    if k > 0 {
      UpperHalfAligned(x / 2, k - 1);
      assert (x + Pow2(k)) / 2 == x / 2 + Pow2(k - 1);
    }
  }

  /** The two halves of an aligned range are aligned. */
  lemma {:induction false} HalvesAligned(x: nat, k: nat)
    requires Aligned(x, k + 1)
    ensures Aligned(x, k) && Aligned(x + Pow2(k), k)
  {
    AlignedDown(x, k, k + 1);
    UpperHalfAligned(x, k);
  }

  /** Of two aligned ranges that meet, the smaller one lies inside the larger one. */
  lemma {:induction false} Nested(x: nat, k: nat, y: nat, l: nat)
    requires Aligned(x, k) && Aligned(y, l) && k <= l
    requires x < y + Pow2(l) && y < x + Pow2(k)
    ensures y <= x && x + Pow2(k) <= y + Pow2(l)
  {
    if k > 0 {
      Nested(x / 2, k - 1, y / 2, l - 1);
    }
  }

  /** The largest multiple of 2^k that is at most x. */
  function RoundDown(x: nat, k: nat): (r: nat)
    ensures Aligned(r, k) && r <= x < r + Pow2(k)
  {
    if k == 0 then x else 2 * RoundDown(x / 2, k - 1)
  }

  /** A range the allocated ranges do not meet is inside one free range, provided no two buddies
      inside it are both free. */
  lemma {:induction false} FreeRegion(sz: nat, level: nat, free: Ranges, alloc: Ranges, y: nat, m: nat) returns (x: nat)
    requires Tiles(sz, level, free, alloc) && m < level
    requires Available(alloc, sz, y, m)
    requires forall z: nat, k: nat :: BuddyPair(free, z, k) && y <= z < y + Pow2(m) ==> level <= k + 1
    ensures x in free && m <= free[x] && x <= y && y + Pow2(m) <= x + Pow2(free[x])
    decreases m
  {
    if m == 0 {
      x := FreeRangeAt(sz, level, free, alloc, y);
    } else {
      AvailableHalves(alloc, sz, y, m);
      x := FreeRegion(sz, level, free, alloc, y, m - 1);
      var x1 := FreeRegion(sz, level, free, alloc, y + Pow2(m - 1), m - 1);
      if free[x] < m && m <= free[x1] {
        x := x1;
      }
      AlignedFree(sz, level, free, alloc, x);
      if m <= free[x] {
        Nested(y, m, x, free[x]);
      } else {
        HalvesAligned(y, m - 1);
        AlignedFree(sz, level, free, alloc, x1);
        Nested(x, m - 1, y, m - 1);
        Nested(x1, m - 1, y + Pow2(m - 1), m - 1);
        assert BuddyPair(free, y, m - 1);
        assert false;
      }
    }
  }

  lemma {:induction false} FreeRangeAt(sz: nat, level: nat, free: Ranges, alloc: Ranges, y: nat) returns (x: nat)
    requires Tiles(sz, level, free, alloc)
    requires Available(alloc, sz, y, 0)
    ensures x in free && x <= y && y + 1 <= x + Pow2(free[x])
  {
    var t := free + alloc;
    assert IsCovered(t, y);
    x :| Covers(t, x, y);
  }

  lemma {:induction false} AvailableHalves(alloc: Ranges, sz: nat, y: nat, m: nat)
    requires m > 0 && Available(alloc, sz, y, m)
    ensures Available(alloc, sz, y, m - 1) && Available(alloc, sz, y + Pow2(m - 1), m - 1)
  {
    HalvesAligned(y, m - 1);
  }

  lemma {:induction false} AlignedFree(sz: nat, level: nat, free: Ranges, alloc: Ranges, x: nat)
    requires Tiles(sz, level, free, alloc)
    requires x in free
    ensures free[x] < level && Aligned(x, free[x]) && x + Pow2(free[x]) <= Pow2(sz)
  {
    assert (free + alloc)[x] == free[x];
  }

  /** Allocated ranges are apart from free ones and from each other. */
  lemma {:induction false} Apart(sz: nat, level: nat, free: Ranges, alloc: Ranges, x: nat, a: nat)
    requires Tiles(sz, level, free, alloc)
    requires x in alloc && (a in free || (a in alloc && a != x))
    ensures Aligned(x, alloc[x]) && alloc[x] < level
    ensures var k := if a in free then free[a] else alloc[a];
            x + Pow2(alloc[x]) <= a || a + Pow2(k) <= x
  {
    var t := free + alloc;
    assert x in t && a in t && t[x] == alloc[x] && t[a] == if a in free then free[a] else alloc[a];
  }

  /** With nothing allocated, the free ranges are exactly the top-level ones. */
  lemma {:induction false} AllFree(sz: nat, level: nat, free: Ranges, x: nat)
    requires 0 < level <= sz
    requires Tiles(sz, level, free, map[]) && NoBuddies(free, level)
    ensures x in free <==> x < Pow2(sz) && Aligned(x, level - 1)
    ensures x in free ==> free[x] == level - 1
  {
    var top := level - 1;
    assert free + map[] == free;
    if x in free {
      var y := RoundDown(x, top);
      FitsIn(y, top, sz);
      var z := FreeRegion(sz, level, free, map[], y, top);
      assert Aligned(x, free[x]);
      assert z == x;
    }
    if x < Pow2(sz) && Aligned(x, top) {
      FitsIn(x, top, sz);
      var z := FreeRegion(sz, level, free, map[], x, top);
      Nested(z, top, x, top);
    }
  }

  lemma {:induction false} ZeroAligned(k: nat)
    ensures Aligned(0, k)
  {
    if k > 0 {
      ZeroAligned(k - 1);
    }
  }

  /** An aligned range that starts below 2^sz also ends there. */
  lemma {:induction false} FitsIn(y: nat, k: nat, sz: nat)
    requires k <= sz && Aligned(y, k) && y < Pow2(sz)
    ensures y + Pow2(k) <= Pow2(sz)
  {
    ZeroAligned(sz);
    Nested(y, k, 0, sz);
  }

  // ---------- the steps of the allocator on the abstract state ----------

  lemma {:induction false} NoBuddiesSubset(free: Ranges, small: Ranges, level: nat)
    requires NoBuddies(free, level)
    requires forall x :: x in small ==> x in free && free[x] == small[x]
    ensures NoBuddies(small, level)
  {
    forall x: nat, k: nat | BuddyPair(small, x, k) ensures level <= k + 1 {
      assert BuddyPair(free, x, k);
    }
  }

  lemma {:induction false} SplitPartition(sz: nat, level: nat, t: Ranges, h: nat, k: nat)
    requires Partition(sz, level, t)
    requires h in t && t[h] == k + 1
    ensures h + Pow2(k) !in t
    ensures Partition(sz, level, t[h := k][h + Pow2(k) := k])
  {
    HalvesAligned(h, k);
    assert h + Pow2(k + 1) <= Pow2(sz) && Pow2(k + 1) == 2 * Pow2(k);
    SplitDisjoint(t, h, k);
    SplitCovered(sz, t, h, k);
  }

  lemma {:induction false} SplitDisjoint(t: Ranges, h: nat, k: nat)
    requires Disjoint(t) && h in t && t[h] == k + 1
    ensures h + Pow2(k) !in t
    ensures Disjoint(t[h := k][h + Pow2(k) := k])
  {
    var h' := h + Pow2(k);
    var t' := t[h := k][h' := k];
    assert h + Pow2(k + 1) == h' + Pow2(k);
    forall x, y | x in t' && y in t' && x < y ensures x + Pow2(t'[x]) <= y {
      if x != h' && y != h' {
        assert x in t && y in t;
      } else if x == h' {
        assert y in t && h < y;
      } else if x != h {
        assert x in t;
      }
    }
  }

  lemma {:induction false} SplitCovered(sz: nat, t: Ranges, h: nat, k: nat)
    requires Covered(t, sz) && h in t && t[h] == k + 1 && h + Pow2(k) !in t
    ensures Covered(t[h := k][h + Pow2(k) := k], sz)
  {
    var h' := h + Pow2(k);
    var t' := t[h := k][h' := k];
    assert Pow2(k + 1) == 2 * Pow2(k);
    forall c: nat | c < Pow2(sz) ensures IsCovered(t', c) {
      assert IsCovered(t, c);
      var x: nat :| Covers(t, x, c);
      assert Covers(t', if x != h then x else if c < h' then h else h', c);
    }
  }

  /** Splitting the free range h of order k + 1 keeps the tiling. */
  lemma {:induction false} SplitTiles(sz: nat, level: nat, free: Ranges, alloc: Ranges, h: nat, k: nat)
    requires Tiles(sz, level, free, alloc)
    requires h in free && free[h] == k + 1
    ensures h + Pow2(k) !in free && h + Pow2(k) !in alloc
    ensures Tiles(sz, level, free[h := k][h + Pow2(k) := k], alloc)
  {
    SplitPartition(sz, level, free + alloc, h, k);
    assert free[h := k][h + Pow2(k) := k] + alloc == (free + alloc)[h := k][h + Pow2(k) := k];
  }

  lemma {:induction false} SplitNoBuddies(level: nat, free: Ranges, h: nat, k: nat)
    requires NoBuddies(free - {h}, level)
    requires h in free && h + Pow2(k) !in free && Aligned(h, k + 1)
    ensures NoBuddies(free[h := k][h + Pow2(k) := k] - {h}, level)
  {
    var free' := free[h := k][h + Pow2(k) := k] - {h};
    forall x: nat, l: nat | BuddyPair(free', x, l) ensures level <= l + 1 {
      if x != h + Pow2(k) && x + Pow2(l) != h + Pow2(k) {
        assert BuddyPair(free - {h}, x, l);
      } else {
        assert l == k;
        Nested(x, k + 1, h, k + 1);
        assert false;
      }
    }
  }

  /** Handing out the free range a of order k. */
  lemma {:induction false} TakeTiles(sz: nat, level: nat, free: Ranges, alloc: Ranges, a: nat, k: nat)
    requires Tiles(sz, level, free, alloc)
    requires a in free && free[a] == k
    ensures Tiles(sz, level, free - {a}, alloc[a := k])
    ensures Available(alloc, sz, a, k)
  {
    assert free - {a} + alloc[a := k] == free + alloc;
    var t := free + alloc;
    assert a in t && t[a] == k;
    forall x | x in alloc ensures x + Pow2(alloc[x]) <= a || a + Pow2(k) <= x {
      assert x in t && t[x] == alloc[x];
    }
  }

  /** Taking back the allocated range a. */
  lemma {:induction false} ReturnTiles(sz: nat, level: nat, free: Ranges, alloc: Ranges, a: nat)
    requires Tiles(sz, level, free, alloc)
    requires a in alloc
    ensures Tiles(sz, level, free[a := alloc[a]], alloc - {a})
  {
    assert free[a := alloc[a]] + (alloc - {a}) == free + alloc;
  }

  lemma {:induction false} MergePartition(sz: nat, level: nat, t: Ranges, s: nat, k: nat)
    requires Partition(sz, level, t) && k + 1 < level
    requires BuddyPair(t, s, k)
    ensures Partition(sz, level, (t - {s + Pow2(k)})[s := k + 1])
  {
    var t' := (t - {s + Pow2(k)})[s := k + 1];
    MergeDisjoint(t, s, k);
    MergeCovered(sz, t, s, k);
    assert InRange(t', sz, level);
  }

  lemma {:induction false} MergeDisjoint(t: Ranges, s: nat, k: nat)
    requires Disjoint(t) && BuddyPair(t, s, k)
    ensures Disjoint((t - {s + Pow2(k)})[s := k + 1])
  {
    var s' := s + Pow2(k);
    var t' := (t - {s'})[s := k + 1];
    forall x, y | x in t' && y in t' && x < y ensures x + Pow2(t'[x]) <= y {
      assert x in t && y in t && y != s';
    }
  }

  lemma {:induction false} MergeCovered(sz: nat, t: Ranges, s: nat, k: nat)
    requires Covered(t, sz) && BuddyPair(t, s, k)
    ensures Covered((t - {s + Pow2(k)})[s := k + 1], sz)
  {
    var s' := s + Pow2(k);
    var t' := (t - {s'})[s := k + 1];
    forall c: nat | c < Pow2(sz) ensures IsCovered(t', c) {
      assert IsCovered(t, c);
      var x: nat :| Covers(t, x, c);
      assert Covers(t', if x == s' then s else x, c);
    }
  }

  /** Merging two free buddies keeps the tiling. */
  lemma {:induction false} MergeTiles(sz: nat, level: nat, free: Ranges, alloc: Ranges, s: nat, k: nat)
    requires Tiles(sz, level, free, alloc) && k + 1 < level
    requires BuddyPair(free, s, k)
    ensures Tiles(sz, level, (free - {s + Pow2(k)})[s := k + 1], alloc)
  {
    var t, s' := free + alloc, s + Pow2(k);
    assert s !in alloc && s' !in alloc;
    assert BuddyPair(t, s, k);
    MergePartition(sz, level, t, s, k);
    MergeUnion(free, alloc, s, s', k + 1);
  }

  lemma {:induction false} MergeUnion(free: Ranges, alloc: Ranges, s: nat, s': nat, k: nat)
    requires s !in alloc && s' !in alloc && free.Keys !! alloc.Keys
    ensures (free - {s'})[s := k] + alloc == (free + alloc - {s'})[s := k]
    ensures (free - {s'})[s := k].Keys !! alloc.Keys
  {
  }

  /** No allocated range ends inside the range of order k at s. */
  ghost predicate NoTail(alloc: Ranges, s: nat, k: nat) {
    forall x :: x in alloc ==> !(s <= x + Pow2(alloc[x]) - 1 < s + Pow2(k))
  }

  function BuddyOf(a: nat, s: nat, k: nat): nat
  {
    if a == s then s + Pow2(k) else s
  }

  /** After the range a of order k has come back, its buddy is free exactly when no allocated range
      ends inside the pair. */
  lemma {:induction false} BuddyFree(sz: nat, level: nat, free: Ranges, alloc: Ranges, a: nat, k: nat, s: nat)
    requires Tiles(sz, level, free, alloc) && k + 1 < level
    requires a in free && free[a] == k && NoBuddies(free - {a}, level)
    requires Aligned(s, k + 1) && (a == s || a == s + Pow2(k)) && s + Pow2(k + 1) <= Pow2(sz)
    ensures BuddyPair(free, s, k) <==> NoTail(alloc, s, k + 1)
  {
    if BuddyPair(free, s, k) {
      forall x | x in alloc ensures !(s <= x + Pow2(alloc[x]) - 1 < s + Pow2(k + 1)) {
        Apart(sz, level, free, alloc, x, s);
        Apart(sz, level, free, alloc, x, s + Pow2(k));
      }
    }
    if NoTail(alloc, s, k + 1) && !BuddyPair(free, s, k) {
      BuddyAvailable(sz, level, free, alloc, a, k, s);
      NoPairInBuddy(level, free, a, k, s);
      var y := BuddyOf(a, s, k);
      var x := FreeRegion(sz, level, free, alloc, y, k);
      AlignedFree(sz, level, free, alloc, x);
      FoundBuddy(sz, level, free, alloc, a, k, s, x);
    }
  }

  lemma {:induction false} FoundBuddy(sz: nat, level: nat, free: Ranges, alloc: Ranges, a: nat, k: nat, s: nat, x: nat)
    requires Tiles(sz, level, free, alloc) && k + 1 < level
    requires a in free && free[a] == k
    requires Aligned(s, k + 1) && (a == s || a == s + Pow2(k))
    requires x in free && k <= free[x] && Aligned(x, free[x])
    requires x <= BuddyOf(a, s, k) && BuddyOf(a, s, k) + Pow2(k) <= x + Pow2(free[x])
    ensures BuddyPair(free, s, k)
  {
    HalvesAligned(s, k);
    var t := free + alloc;
    assert t[x] == free[x] && t[a] == k;
    if free[x] > k {
      Nested(s, k + 1, x, free[x]);
      assert false;
    }
    Nested(x, k, BuddyOf(a, s, k), k);
  }

  lemma {:induction false} BuddyAvailable(sz: nat, level: nat, free: Ranges, alloc: Ranges, a: nat, k: nat, s: nat)
    requires Tiles(sz, level, free, alloc) && k + 1 < level
    requires a in free && free[a] == k
    requires Aligned(s, k + 1) && (a == s || a == s + Pow2(k)) && s + Pow2(k + 1) <= Pow2(sz)
    requires NoTail(alloc, s, k + 1)
    ensures Available(alloc, sz, BuddyOf(a, s, k), k)
  {
    HalvesAligned(s, k);
    var y := BuddyOf(a, s, k);
    forall x | x in alloc ensures x + Pow2(alloc[x]) <= y || y + Pow2(k) <= x {
      Apart(sz, level, free, alloc, x, a);
      if !(x + Pow2(alloc[x]) <= y || y + Pow2(k) <= x) {
        MeetsBuddy(x, alloc[x], s, k, a);
      }
    }
  }

  lemma {:induction false} NoPairInBuddy(level: nat, free: Ranges, a: nat, k: nat, s: nat)
    requires a in free && free[a] == k && NoBuddies(free - {a}, level)
    requires Aligned(s, k + 1) && (a == s || a == s + Pow2(k))
    ensures var y := BuddyOf(a, s, k);
            forall z: nat, l: nat :: BuddyPair(free, z, l) && y <= z < y + Pow2(k) ==>
                level <= l + 1 || BuddyPair(free, s, k)
  {
    var y := BuddyOf(a, s, k);
    forall z: nat, l: nat | BuddyPair(free, z, l) && y <= z < y + Pow2(k)
      ensures level <= l + 1 || BuddyPair(free, s, k)
    {
      if a == z || a == z + Pow2(l) {
        assert l == k;
        BuddyOutside(z, k, y, k, a, s);
      } else {
        assert BuddyPair(free - {a}, z, l);
      }
    }
  }

  /** An aligned range apart from a that meets a's buddy ends inside the pair. */
  lemma {:induction false} MeetsBuddy(x: nat, l: nat, s: nat, k: nat, a: nat)
    requires Aligned(x, l) && Aligned(s, k + 1)
    requires a == s || a == s + Pow2(k)
    requires x + Pow2(l) <= a || a + Pow2(k) <= x
    requires !(x + Pow2(l) <= BuddyOf(a, s, k) || BuddyOf(a, s, k) + Pow2(k) <= x)
    ensures s <= x + Pow2(l) - 1 < s + Pow2(k + 1)
  {
    if l <= k + 1 {
      Nested(x, l, s, k + 1);
    } else {
      Nested(s, k + 1, x, l);
    }
  }

  /** A buddy pair that has a as one half, a being outside the range at y, does not start in it. */
  lemma {:induction false} BuddyOutside(z: nat, l: nat, y: nat, k: nat, a: nat, s: nat)
    requires Aligned(s, k + 1) && Aligned(z, l + 1)
    requires (a == s && y == s + Pow2(k)) || (a == s + Pow2(k) && y == s)
    requires a == z || a == z + Pow2(l)
    requires l == k
    requires y <= z < y + Pow2(k)
    ensures y == z && a == z + Pow2(l)
  {
    HalvesAligned(s, k);
    HalvesAligned(z, l);
    Nested(z, l, y, k);
  }

  lemma {:induction false} MergeNoBuddies(level: nat, free: Ranges, a: nat, s: nat, k: nat)
    requires NoBuddies(free - {a}, level)
    requires BuddyPair(free, s, k) && (a == s || a == s + Pow2(k))
    ensures NoBuddies((free - {s + Pow2(k)})[s := k + 1] - {s}, level)
  {
    NoBuddiesSubset(free - {a}, (free - {s + Pow2(k)})[s := k + 1] - {s}, level);
  }

  // ---------- best fit ----------

  /** A range of order k at a that meets no range of alloc and does not lie in a larger one of that kind. */
  ghost predicate Maximal(alloc: Ranges, sz: nat, level: nat, a: nat, k: nat) {
    && k < level && Available(alloc, sz, a, k)
    && (k + 1 < level ==> !Available(alloc, sz, RoundDown(a, k + 1), k + 1))
  }

  /** a is the start of such a range of order k, and none of a smaller order would do for order n. */
  ghost predicate BestFit(alloc: Ranges, sz: nat, level: nat, n: nat, a: nat, k: nat) {
    && n <= k && Maximal(alloc, sz, level, a, k)
    && forall x: nat, j: nat :: n <= j < k ==> !Maximal(alloc, sz, level, x, j)
  }

  /** The record of what is allocated tells which ranges are free. */
  lemma {:induction false} FreeIsMaximal(sz: nat, level: nat, free: Ranges, alloc: Ranges, x: nat, k: nat)
    requires Tiles(sz, level, free, alloc) && NoBuddies(free, level)
    ensures x in free && free[x] == k <==> Maximal(alloc, sz, level, x, k)
  {
    if x in free && free[x] == k { FreeMaximal(sz, level, free, alloc, x); }
    if Maximal(alloc, sz, level, x, k) { MaximalFree(sz, level, free, alloc, x, k); }
  }

  lemma {:induction false} FreeMaximal(sz: nat, level: nat, free: Ranges, alloc: Ranges, x: nat)
    requires Tiles(sz, level, free, alloc) && NoBuddies(free, level) && x in free
    ensures Maximal(alloc, sz, level, x, free[x])
  {
    var k := free[x];
    TakeTiles(sz, level, free, alloc, x, k);
    AlignedFree(sz, level, free, alloc, x);
    var p := RoundDown(x, k + 1);
    if k + 1 < level && Available(alloc, sz, p, k + 1) {
      var y := FreeRegion(sz, level, free, alloc, p, k + 1);
      OneFree(sz, level, free, alloc, x, y, x);
      assert false;
    }
  }

  /** Two free ranges that meet are one. */
  lemma {:induction false} OneFree(sz: nat, level: nat, free: Ranges, alloc: Ranges, x: nat, y: nat, c: nat)
    requires Tiles(sz, level, free, alloc) && x in free && y in free
    requires Covers(free, x, c) && Covers(free, y, c)
    ensures x == y
  {
    var t := free + alloc;
    assert x in t && t[x] == free[x] && y in t && t[y] == free[y];
  }

  lemma {:induction false} MaximalFree(sz: nat, level: nat, free: Ranges, alloc: Ranges, x: nat, k: nat)
    requires Tiles(sz, level, free, alloc) && NoBuddies(free, level) && Maximal(alloc, sz, level, x, k)
    ensures x in free && free[x] == k
  {
    var y := FreeRegion(sz, level, free, alloc, x, k);
    AlignedFree(sz, level, free, alloc, y);
    if free[y] > k {
      var p := RoundDown(x, k + 1);
      Nested(p, k + 1, y, free[y]);
      InsideFree(sz, level, free, alloc, y, p, k + 1);
      assert false;
    }
  }

  /** What lies in a free range is available. */
  lemma {:induction false} InsideFree(sz: nat, level: nat, free: Ranges, alloc: Ranges, y: nat, p: nat, j: nat)
    requires Tiles(sz, level, free, alloc) && y in free && Aligned(p, j)
    requires y <= p && p + Pow2(j) <= y + Pow2(free[y])
    ensures Available(alloc, sz, p, j)
  {
    AlignedFree(sz, level, free, alloc, y);
    TakeTiles(sz, level, free, alloc, y, free[y]);
  }
}
