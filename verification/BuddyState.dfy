/** The state of the buddy system of modified_poptrie/buddy.c. */
module BuddyState {
  // Free lists are threaded through the blocks, and a bitmap marks only the last block of every allocated range.

  import opened Bits
  import opened Seqs
  import opened Tiling
  import opened Folding
  import opened FreeLists

  /** c is the last block of an allocated range. */
  ghost predicate IsTail(alloc: Ranges, c: int) {
    exists x :: x in alloc && c == x + Pow2(alloc[x]) - 1
  }

  ghost predicate Marked(bits: seq<bool>, alloc: Ranges) {
    forall c :: 0 <= c < |bits| ==> (bits[c] <==> IsTail(alloc, c))
  }

  /** What the memory of a buddy system stands for: its lists, free ranges and allocated ranges. */
  datatype Abstract = Abstract(lists: Lists, free: Ranges, alloc: Ranges)

  /** The contents of the memory of a buddy system and what they stand for. */
  datatype State = State(sz: nat, level: nat, heads: seq<nat>, blocks: seq<nat>, bits: seq<bool>,
                         lists: Lists, free: Ranges, alloc: Ranges)

  ghost predicate ListsOK(s: State) {
    && |s.heads| == s.level && |s.blocks| == Pow2(s.sz)
    && Linked(s.heads, s.blocks, s.lists) && Listed(s.lists, s.free)
  }

  /** Everything but the absence of free buddies. */
  ghost predicate Consistent(s: State) {
    && 0 < s.level <= s.sz
    && ListsOK(s)
    && |s.bits| == Pow2(s.sz) && Marked(s.bits, s.alloc)
    && Tiles(s.sz, s.level, s.free, s.alloc)
  }

  ghost predicate Valid(s: State) {
    Consistent(s) && NoBuddies(s.free, s.level)
  }

  /** The head of a list. */
  lemma {:induction false} HeadOf(s: State, k: nat)
    requires Consistent(s) && k < s.level
    ensures |s.lists| == s.level
    ensures s.heads[k] == EOL <==> s.lists[k] == []
    ensures s.lists[k] != [] ==>
              var h := s.heads[k];
              h == s.lists[k][0] && h + Pow2(k) <= |s.blocks| && h in s.free && s.free[h] == k
  {
    if s.lists[k] != [] {
      assert s.lists[k][0] in s.free;
      AlignedFree(s.sz, s.level, s.free, s.alloc, s.lists[k][0]);
    }
  }

  /** No block is free at order n or above. */
  lemma {:induction false} NoneLarge(s: State, n: nat)
    requires Consistent(s) && n < s.level
    requires forall k :: n <= k < s.level ==> s.lists[k] == []
    ensures forall x :: x in s.free ==> s.free[x] < n
  {
  }

  // ---------- cutting the first range of list k + 1 in two ----------

  function Pushed(s: State, k: nat): State
    requires k + 1 < |s.heads| && k + 1 < |s.lists| && s.lists[k + 1] != []
    requires var h := s.heads[k + 1]; h + Pow2(k) < |s.blocks|
  {
    var h := s.heads[k + 1];
    var h' := h + Pow2(k);
    s.(heads := s.heads[k := h][k + 1 := s.blocks[h]],
       blocks := s.blocks[h' := EOL][h := h'],
       lists := s.lists[k := [h, h']][k + 1 := s.lists[k + 1][1..]],
       free := s.free[h := k][h' := k])
  }

  /** Cutting is unlinking the range and linking its halves in on the list below. */
  lemma {:induction false} PushedLists(s: State, k: nat)
    requires ListsOK(s) && k + 1 < s.level && s.lists[k] == [] && s.lists[k + 1] != []
    requires var h := s.lists[k + 1][0]; h + Pow2(k) < |s.blocks| && h + Pow2(k) !in s.free
    ensures s.heads[k + 1] == s.lists[k + 1][0]
    ensures ListsOK(Pushed(s, k))
  {
    var h := s.lists[k + 1][0];
    UnlinkedLists(s, k + 1, 0);
    var s1 := Unlinked(s, k + 1, 0);
    assert s1.lists[k] == [] && s1.free == s.free - {h} && |s1.blocks| == |s.blocks| && s1.level == s.level;
    LinkTwo(s1, h, h + Pow2(k), k);
    PushedIs(s, k);
  }

  lemma {:induction false} LinkTwo(s: State, h: nat, h': nat, k: nat)
    requires ListsOK(s) && k < s.level && s.lists[k] == [] && h !in s.free && h' !in s.free && h != h'
    requires h < |s.blocks| && h' < |s.blocks|
    ensures ListsOK(Returned(Returned(s, h', k, 0), h, k, 0))
  {
    ReturnedLists(s, h', k, 0);
    ReturnedLists(Returned(s, h', k, 0), h, k, 0);
  }

  lemma {:induction false} PushedIs(s: State, k: nat)
    requires |s.heads| == |s.lists| && k + 1 < |s.lists| && s.lists[k] == [] && s.lists[k + 1] != []
    requires var h := s.lists[k + 1][0]; h == s.heads[k + 1] && h + Pow2(k) < |s.blocks|
    ensures var h := s.lists[k + 1][0];
            Pushed(s, k) == Returned(Returned(Unlinked(s, k + 1, 0), h + Pow2(k), k, 0), h, k, 0)
  {
    var h := s.lists[k + 1][0];
    var h' := h + Pow2(k);
    var s1 := Unlinked(s, k + 1, 0);
    var s2 := Returned(s1, h', k, 0);
    var s3 := Returned(s2, h, k, 0);
    assert RemoveAt(s.lists[k + 1], 0) == s.lists[k + 1][1..];
    assert InsertAt([], 0, h') == [h'];
    assert InsertAt([h'], 0, h) == [h, h'];
    assert s3.lists == Pushed(s, k).lists;
    assert s3.heads == Pushed(s, k).heads;
    assert s3.blocks == Pushed(s, k).blocks;
    assert s3.free == Pushed(s, k).free;
  }

  lemma {:induction false} UpperHalfInside(sz: nat, level: nat, free: Ranges, alloc: Ranges, h: nat, k: nat)
    requires Tiles(sz, level, free, alloc) && h in free && free[h] == k + 1
    ensures h + Pow2(k) < Pow2(sz) && Aligned(h, k + 1)
  {
    AlignedFree(sz, level, free, alloc, h);
    assert Pow2(k + 1) == 2 * Pow2(k);
  }

  lemma {:induction false} PushedTiles(sz: nat, level: nat, free: Ranges, alloc: Ranges, h: nat, k: nat)
    requires Tiles(sz, level, free, alloc) && k + 1 < level && h in free && free[h] == k + 1
    requires NoBuddies(free - {h}, level)
    ensures h + Pow2(k) !in free && h + Pow2(k) < Pow2(sz)
    ensures Tiles(sz, level, free[h := k][h + Pow2(k) := k], alloc)
    ensures NoBuddies(free[h := k][h + Pow2(k) := k] - {h}, level)
  {
    UpperHalfInside(sz, level, free, alloc, h, k);
    SplitTiles(sz, level, free, alloc, h, k);
    SplitNoBuddies(level, free, h, k);
  }

  lemma {:induction false} PushedConsistent(s: State, k: nat)
    requires Consistent(s) && k + 1 < s.level && s.lists[k] == [] && s.lists[k + 1] != []
    requires NoBuddies(s.free - {s.lists[k + 1][0]}, s.level)
    ensures s.heads[k + 1] == s.lists[k + 1][0] && s.heads[k + 1] + Pow2(k) < |s.blocks|
    ensures Consistent(Pushed(s, k)) && NoBuddies(Pushed(s, k).free - {s.heads[k + 1]}, s.level)
  {
    HeadOf(s, k + 1);
    var h := s.lists[k + 1][0];
    PushedTiles(s.sz, s.level, s.free, s.alloc, h, k);
    PushedLists(s, k);
    var s' := Pushed(s, k);
    assert s'.free == s.free[h := k][h + Pow2(k) := k] && s'.alloc == s.alloc && s'.bits == s.bits;
  }

  // ---------- handing out the head of list n ----------

  function Taken(s: State, n: nat): State
    requires n < |s.heads| && n < |s.lists| && s.lists[n] != []
    requires var a := s.heads[n]; a + Pow2(n) <= |s.blocks| && |s.bits| == |s.blocks|
  {
    var a := s.heads[n];
    s.(heads := s.heads[n := s.blocks[a]],
       bits := s.bits[a + Pow2(n) - 1 := true],
       lists := s.lists[n := RemoveAt(s.lists[n], 0)],
       free := s.free - {a},
       alloc := s.alloc[a := n])
  }

  lemma {:induction false} TakenValid(s: State, n: nat)
    requires Consistent(s) && n < s.level && s.lists[n] != []
    requires NoBuddies(s.free - {s.lists[n][0]}, s.level)
    ensures s.heads[n] + Pow2(n) <= |s.blocks|
    ensures Valid(Taken(s, n)) && Available(s.alloc, s.sz, s.heads[n], n)
  {
    HeadOf(s, n);
    var a := s.heads[n];
    TakeTiles(s.sz, s.level, s.free, s.alloc, a, n);
    MarkedAlloc(s.sz, s.level, s.free, s.alloc, s.bits, a, n);
    UnlinkedLists(s, n, 0);
  }

  // ---------- taking a range back ----------

  /** The state after clearing the tail bit of a and linking it in at position i of list k. */
  function Returned(s: State, a: nat, k: nat, i: nat): State
    requires k < |s.heads| && k < |s.lists| && i <= |s.lists[k]| && a < |s.blocks|
    requires i > 0 ==> s.lists[k][i - 1] < |s.blocks|
  {
    s.(heads := StoreHead(s.heads, k, i, a),
       blocks := StoreCell(s.blocks, s.lists[k], i, a)[a := Link(s.lists[k], i)],
       lists := s.lists[k := InsertAt(s.lists[k], i, a)],
       free := s.free[a := k])
  }

  lemma {:induction false} ReturnedLists(s: State, a: nat, k: nat, i: nat)
    requires ListsOK(s) && k < |s.lists| && i <= |s.lists[k]| && a < |s.blocks| && a !in s.free
    ensures i > 0 ==> s.lists[k][i - 1] < |s.blocks|
    ensures ListsOK(Returned(s, a, k, i))
  {
    LinkIn(s.heads, s.blocks, s.lists, s.free, k, i, a);
    ListedInserted(s.lists, s.free, k, i, a);
  }

  /** What is known once a's bit is cleared and a is free again, before merging. */
  lemma {:induction false} ReturnedTiles(s: State, a: nat)
    requires Valid(s) && a in s.alloc
    ensures a !in s.free && s.alloc[a] < s.level && a + Pow2(s.alloc[a]) <= |s.bits| && a < |s.blocks|
    ensures Marked(s.bits[a + Pow2(s.alloc[a]) - 1 := false], s.alloc - {a})
    ensures Tiles(s.sz, s.level, s.free[a := s.alloc[a]], s.alloc - {a})
    ensures NoBuddies(s.free[a := s.alloc[a]] - {a}, s.level)
  {
    OnlyTailMarked(s.sz, s.level, s.free, s.alloc, s.bits, a, s.alloc[a]);
    MarkedReturn(s.sz, s.level, s.free, s.alloc, s.bits, a);
    ReturnTiles(s.sz, s.level, s.free, s.alloc, a);
    assert s.free[a := s.alloc[a]] - {a} == s.free;
  }

  // ---------- merging ----------

  /** The state after unlinking position i of list k. */
  function Unlinked(s: State, k: nat, i: nat): State
    requires k < |s.heads| && k < |s.lists| && i < |s.lists[k]|
    requires s.lists[k][i] < |s.blocks| && (i > 0 ==> s.lists[k][i - 1] < |s.blocks|)
  {
    var next := s.blocks[s.lists[k][i]];
    s.(heads := StoreHead(s.heads, k, i, next),
       blocks := StoreCell(s.blocks, s.lists[k], i, next),
       lists := s.lists[k := RemoveAt(s.lists[k], i)],
       free := s.free - {s.lists[k][i]})
  }

  lemma {:induction false} UnlinkedLists(s: State, k: nat, i: nat)
    requires ListsOK(s) && k < |s.lists| && i < |s.lists[k]|
    ensures s.lists[k][i] < |s.blocks| && (i > 0 ==> s.lists[k][i - 1] < |s.blocks|)
    ensures ListsOK(Unlinked(s, k, i))
    ensures s.blocks[s.lists[k][i]] == Link(s.lists[k], i + 1)
    ensures Link(RemoveAt(s.lists[k], i), i) == Link(s.lists[k], i + 1)
  {
    Unlink(s.heads, s.blocks, s.lists, s.free, k, i);
    ListedWithout(s.lists, s.free, k, i);
  }

  lemma {:induction false} MergeStart(sz: nat, level: nat, free: Ranges, alloc: Ranges, a: nat, k: nat, p: nat)
    requires Tiles(sz, level, free, alloc) && k + 1 < level <= sz
    requires a in free && free[a] == k && NoBuddies(free - {a}, level)
    requires p == RoundDown(a, k + 1)
    ensures Aligned(p, k + 1) && (a == p || a == p + Pow2(k)) && p + Pow2(k + 1) <= Pow2(sz)
    ensures BuddyPair(free, p, k) <==> NoTail(alloc, p, k + 1)
  {
    AlignedFree(sz, level, free, alloc, a);
    assert Aligned(a, k) && a + Pow2(k) <= Pow2(sz);
    PairStart(a, k, sz);
    BuddyFree(sz, level, free, alloc, a, k, p);
  }

  /** The merged range p, put on list k + 1, is the only one that may have a free buddy. */
  lemma {:induction false} MergedTiles(sz: nat, level: nat, free: Ranges, alloc: Ranges, a: nat, p: nat, k: nat)
    requires Tiles(sz, level, free, alloc) && k + 1 < level
    requires NoBuddies(free - {a}, level) && (a == p || a == p + Pow2(k))
    requires BuddyPair(free, p, k)
    ensures var free' := (free - {p, p + Pow2(k)})[p := k + 1];
            Tiles(sz, level, free', alloc) && NoBuddies(free' - {p}, level)
  {
    assert (free - {p, p + Pow2(k)})[p := k + 1] == (free - {p + Pow2(k)})[p := k + 1];
    MergeTiles(sz, level, free, alloc, p, k);
    MergeNoBuddies(level, free, a, p, k);
  }

  /** Setting the bit of the last block of a range that has just been allocated. */
  lemma {:induction false} MarkedAlloc(sz: nat, level: nat, free: Ranges, alloc: Ranges, bits: seq<bool>, a: nat,
                                       k: nat)
    requires Tiles(sz, level, free, alloc) && Marked(bits, alloc) && |bits| == Pow2(sz)
    requires a in free && free[a] == k
    ensures a + Pow2(k) - 1 < |bits|
    ensures Marked(bits[a + Pow2(k) - 1 := true], alloc[a := k])
  {
    AlignedFree(sz, level, free, alloc, a);
    var alloc' := alloc[a := k];
    var bits' := bits[a + Pow2(k) - 1 := true];
    forall c | 0 <= c < |bits| ensures bits'[c] <==> IsTail(alloc', c) {
      if c == a + Pow2(k) - 1 {
        assert a in alloc' && c == a + Pow2(alloc'[a]) - 1;
      } else if IsTail(alloc, c) {
        var x: nat :| x in alloc && c == x + Pow2(alloc[x]) - 1;
        assert x in alloc' && c == x + Pow2(alloc'[x]) - 1;
      }
    }
  }

  /** Two allocated ranges have different last blocks. */
  lemma {:induction false} TailsDiffer(sz: nat, level: nat, free: Ranges, alloc: Ranges, x: nat, y: nat)
    requires Tiles(sz, level, free, alloc)
    requires x in alloc && y in alloc && x + Pow2(alloc[x]) == y + Pow2(alloc[y])
    ensures x == y
  {
    if x != y {
      Apart(sz, level, free, alloc, x, y);
    }
  }

  lemma {:induction false} OtherTail(sz: nat, level: nat, free: Ranges, alloc: Ranges, a: nat, c: nat)
    requires Tiles(sz, level, free, alloc)
    requires a in alloc && IsTail(alloc - {a}, c)
    ensures IsTail(alloc, c) && c != a + Pow2(alloc[a]) - 1
  {
    var x: nat :| x in alloc - {a} && c == x + Pow2((alloc - {a})[x]) - 1;
    assert x in alloc && c == x + Pow2(alloc[x]) - 1;
    if c == a + Pow2(alloc[a]) - 1 {
      TailsDiffer(sz, level, free, alloc, x, a);
    }
  }

  /** Clearing the bit of the last block of a range that is given back. */
  lemma {:induction false} MarkedReturn(sz: nat, level: nat, free: Ranges, alloc: Ranges, bits: seq<bool>, a: nat)
    requires Tiles(sz, level, free, alloc) && Marked(bits, alloc) && |bits| == Pow2(sz)
    requires a in alloc
    ensures a + Pow2(alloc[a]) - 1 < |bits|
    ensures Marked(bits[a + Pow2(alloc[a]) - 1 := false], alloc - {a})
  {
    assert (free + alloc)[a] == alloc[a];
    var t := a + Pow2(alloc[a]) - 1;
    var alloc' := alloc - {a};
    forall c | 0 <= c < |bits| ensures bits[t := false][c] <==> IsTail(alloc', c) {
      if IsTail(alloc, c) {
        var x: nat :| x in alloc && c == x + Pow2(alloc[x]) - 1;
        if c == t {
          TailsDiffer(sz, level, free, alloc, x, a);
        } else {
          assert x in alloc' && c == x + Pow2(alloc'[x]) - 1;
        }
      }
      if IsTail(alloc', c) {
        OtherTail(sz, level, free, alloc, a, c);
      }
    }
  }

  /** Inside an allocated range only the last block is marked. */
  lemma {:induction false} OnlyTailMarked(sz: nat, level: nat, free: Ranges, alloc: Ranges, bits: seq<bool>, a: nat,
                                          k: nat)
    requires Tiles(sz, level, free, alloc) && Marked(bits, alloc) && |bits| == Pow2(sz)
    requires a in alloc && k <= alloc[a]
    ensures alloc[a] < level && a + Pow2(k) - 1 < |bits|
    ensures bits[a + Pow2(k) - 1] <==> k == alloc[a]
  {
    assert (free + alloc)[a] == alloc[a];
    Pow2Strict(k, alloc[a]);
    var c := a + Pow2(k) - 1;
    if k == alloc[a] {
      assert a in alloc && c == a + Pow2(alloc[a]) - 1;
    } else if bits[c] {
      assert IsTail(alloc, c);
      var x: nat :| x in alloc && c == x + Pow2(alloc[x]) - 1;
      if x != a { Apart(sz, level, free, alloc, x, a); }
    }
  }

  lemma {:induction false} Pow2Strict(m: nat, n: nat)
    requires m <= n
    ensures m < n ==> Pow2(m) < Pow2(n)
    ensures Pow2(m) <= Pow2(n)
  {
    if m < n {
      Pow2Monotone(m, n - 1);
    }
  }

  /** No order-n range is free when no free range has order n or more. */
  lemma {:induction false} NothingLarge(sz: nat, level: nat, free: Ranges, alloc: Ranges, n: nat, a: nat)
    requires Tiles(sz, level, free, alloc) && NoBuddies(free, level) && n < level
    requires forall x :: x in free ==> free[x] < n
    ensures !Available(alloc, sz, a, n)
  {
    if Available(alloc, sz, a, n) {
      var x := FreeRegion(sz, level, free, alloc, a, n);
    }
  }

  /** The initial free list of the top level. */
  function Tops(n: nat, step: nat): (r: seq<nat>)
    ensures |r| == n && forall i :: 0 <= i < n ==> r[i] == i * step
  {
    seq(n, i requires 0 <= i < n => i * step)
  }

  lemma {:induction false} Twice(i: nat, p: nat)
    ensures i * (2 * p) == 2 * (i * p)
  {
  }

  lemma {:induction false} MultipleAligned(i: nat, k: nat)
    ensures Aligned(i * Pow2(k), k)
  {
    if k > 0 {
      MultipleAligned(i, k - 1);
      Twice(i, Pow2(k - 1));
      assert i * Pow2(k) == 2 * (i * Pow2(k - 1));
    }
  }

  lemma {:induction false} AlignedMultiple(x: nat, k: nat) returns (i: nat)
    requires Aligned(x, k)
    ensures x == i * Pow2(k)
  {
    if k == 0 {
      i := x;
    } else {
      i := AlignedMultiple(x / 2, k - 1);
      Twice(i, Pow2(k - 1));
    }
  }

  lemma {:induction false} Pow2Product(m: nat, n: nat)
    ensures Pow2(m) * Pow2(n) == Pow2(m + n)
  {
    if m > 0 {
      Pow2Product(m - 1, n);
      assert Pow2(m) * Pow2(n) == 2 * (Pow2(m - 1) * Pow2(n));
    }
  }

  lemma {:induction false} MultiplicationOrder(i: nat, j: nat, d: nat)
    requires d > 0
    ensures i * d < j * d <==> i < j
  {
    if i < j {
      assert j * d == i * d + (j - i) * d;
    } else {
      assert i * d == j * d + (i - j) * d;
    }
  }

  predicate IsTop(x: nat, sz: nat, level: nat)
    requires 0 < level
  {
    x < Pow2(sz) && Aligned(x, level - 1)
  }

  /** Every range of the top order is free. */
  ghost function InitialFree(sz: nat, level: nat): Ranges
    requires 0 < level <= sz
  {
    map x: nat | x < Pow2(sz) && IsTop(x, sz, level) :: level - 1
  }

  lemma {:induction false} InitialTiles(sz: nat, level: nat)
    requires 0 < level <= sz
    ensures Tiles(sz, level, InitialFree(sz, level), map[])
    ensures NoBuddies(InitialFree(sz, level), level)
  {
    var free, top := InitialFree(sz, level), level - 1;
    assert free + map[] == free;
    forall x | x in free ensures x + Pow2(top) <= Pow2(sz) {
      FitsIn(x, top, sz);
    }
    forall x, y | x in free && y in free && x < y ensures x + Pow2(top) <= y {
      if y < x + Pow2(top) { Nested(y, top, x, top); }
    }
    forall c: nat | c < Pow2(sz) ensures IsCovered(free, c) {
      FitsIn(RoundDown(c, top), top, sz);
      assert IsTop(RoundDown(c, top), sz, level);
      assert Covers(free, RoundDown(c, top), c);
    }
  }

  lemma {:induction false} TopsFree(sz: nat, top: nat, x: nat)
    requires top < sz
    ensures var tops := Tops(Pow2(sz - top), Pow2(top));
            x in tops <==> x < Pow2(sz) && IsTop(x, sz, top + 1)
  {
    var cnt, step := Pow2(sz - top), Pow2(top);
    var tops := Tops(cnt, step);
    Pow2Product(sz - top, top);
    if x in tops {
      var i :| 0 <= i < cnt && tops[i] == x;
      MultipleAligned(i, top);
      MultiplicationOrder(i, cnt, step);
    }
    if x < Pow2(sz) && IsTop(x, sz, top + 1) {
      var i := AlignedMultiple(x, top);
      MultiplicationOrder(i, cnt, step);
      assert tops[i] == x;
    }
  }

  lemma {:induction false} TopsAt(sz: nat, top: nat, i: nat)
    requires top < sz && i < Pow2(sz - top)
    ensures var tops := Tops(Pow2(sz - top), Pow2(top));
            tops[i] < Pow2(sz) && forall j :: 0 <= j < i ==> tops[j] < tops[i]
  {
    var tops := Tops(Pow2(sz - top), Pow2(top));
    assert tops[i] in tops;
    TopsFree(sz, top, tops[i]);
    forall j | 0 <= j < i ensures tops[j] < tops[i] {
      MultiplicationOrder(j, i, Pow2(top));
    }
  }

  lemma {:induction false} TopsNoDuplicates(n: nat, step: nat)
    requires step > 0
    ensures NoDuplicates(Tops(n, step))
  {
    var tops := Tops(n, step);
    forall i | 0 <= i < |tops| ensures IndexOf(tops, tops[i]) == i {
      forall j | 0 <= j < i ensures tops[j] != tops[i] {
        MultiplicationOrder(j, i, step);
      }
      IndexOfFirst(tops, i);
    }
  }

  lemma {:induction false} InitialListed(sz: nat, top: nat, lists: Lists)
    requires top < sz && |lists| == top + 1
    requires forall k :: 0 <= k < top ==> lists[k] == []
    requires lists[top] == Tops(Pow2(sz - top), Pow2(top))
    ensures Listed(lists, InitialFree(sz, top + 1))
    ensures forall x: nat :: x in lists[top] ==> x < Pow2(sz)
  {
    TopsNoDuplicates(Pow2(sz - top), Pow2(top));
    forall x: nat ensures x in lists[top] <==> x < Pow2(sz) && IsTop(x, sz, top + 1) {
      TopsFree(sz, top, x);
    }
    forall k, i | 0 <= k < |lists| && 0 <= i < |lists[k]| ensures k == top && lists[k][i] in lists[top] {
    }
  }

  function InitialHeads(level: nat): seq<nat>
    requires 0 < level
  {
    seq(level - 1, _ => EOL) + [0]
  }

  function InitialLists(sz: nat, level: nat): Lists
    requires 0 < level <= sz
  {
    seq(level - 1, _ => []) + [Tops(Pow2(sz - (level - 1)), Pow2(level - 1))]
  }

  function InitialBits(sz: nat): seq<bool> {
    seq(Pow2(sz), _ => false)
  }

  /** The top-level ranges lead to each other in order. */
  ghost predicate TopsThreaded(cells: seq<nat>, sz: nat, top: nat)
    requires top < sz
  {
    Chain(cells, Tops(Pow2(sz - top), Pow2(top)))
  }

  lemma {:induction false} InitialValid(s: State, top: nat)
    requires s.level == top + 1 <= s.sz && Pow2(s.sz) <= EOL
    requires s.heads == InitialHeads(s.level) && s.lists == InitialLists(s.sz, s.level)
    requires |s.blocks| == Pow2(s.sz) && s.bits == InitialBits(s.sz)
    requires TopsThreaded(s.blocks, s.sz, top)
    requires s.free == InitialFree(s.sz, s.level) && s.alloc == map[]
    ensures Valid(s)
  {
    InitialListed(s.sz, top, s.lists);
    InitialTiles(s.sz, s.level);
    InitialLinked(s.heads, s.blocks, s.sz, top);
  }

  lemma {:induction false} InitialLinked(heads: seq<nat>, cells: seq<nat>, sz: nat, top: nat)
    requires top < sz && Pow2(sz) <= EOL && |cells| == Pow2(sz)
    requires heads == InitialHeads(top + 1) && TopsThreaded(cells, sz, top)
    ensures Linked(heads, cells, InitialLists(sz, top + 1))
  {
    var lists := InitialLists(sz, top + 1);
    assert |lists| == top + 1;
    assert forall k :: 0 <= k < top ==> lists[k] == [] && heads[k] == EOL;
    assert lists[top] == Tops(Pow2(sz - top), Pow2(top)) && lists[top][0] == 0;
  }

  lemma {:induction false} TopNoBuddies(free: Ranges, level: nat, a: nat)
    requires a in free && level <= free[a] + 1 && NoBuddies(free - {a}, level)
    ensures NoBuddies(free, level)
  {
    forall x: nat, k: nat | BuddyPair(free, x, k) ensures level <= k + 1 {
      if x != a && x + Pow2(k) != a {
        assert BuddyPair(free - {a}, x, k);
      }
    }
  }

  lemma {:induction false} NoPairNoBuddies(free: Ranges, level: nat, a: nat, k: nat, s: nat)
    requires a in free && free[a] == k && NoBuddies(free - {a}, level)
    requires Aligned(s, k + 1) && (a == s || a == s + Pow2(k))
    requires !BuddyPair(free, s, k)
    ensures NoBuddies(free, level)
  {
    forall x: nat, l: nat | BuddyPair(free, x, l) ensures level <= l + 1 {
      if x != a && x + Pow2(l) != a {
        assert BuddyPair(free - {a}, x, l);
      } else {
        Nested(x, k + 1, s, k + 1);
      }
    }
  }

  /** The pair that the range of order k at a belongs to starts at a or one range before it. */
  lemma {:induction false} PairStart(a: nat, k: nat, sz: nat)
    requires k < sz && Aligned(a, k) && a + Pow2(k) <= Pow2(sz)
    ensures var s := RoundDown(a, k + 1);
            (a == s || a == s + Pow2(k)) && s + Pow2(k + 1) <= Pow2(sz)
  {
    var s := RoundDown(a, k + 1);
    HalvesAligned(s, k);
    if a < s + Pow2(k) { Nested(a, k, s, k); } else { Nested(a, k, s + Pow2(k), k); }
    FitsIn(s, k + 1, sz);
  }

  lemma {:induction false} RoundDownDiv(x: nat, k: nat)
    ensures x / Pow2(k) * Pow2(k) == RoundDown(x, k)
  {
    var q := AlignedMultiple(RoundDown(x, k), k);
    DivBetween(x, Pow2(k), q);
  }

  lemma {:induction false} DivBetween(x: nat, d: nat, q: nat)
    requires d > 0 && q * d <= x < q * d + d
    ensures x / d == q
  {
    DivBounds(x, d);
    var q' := x / d;
    MultiplicationOrder(q, q' + 1, d);
    MultiplicationOrder(q', q + 1, d);
  }

  lemma {:induction false} DivBounds(x: nat, d: nat)
    requires d > 0
    ensures x / d * d <= x < x / d * d + d
  {
  }

  lemma {:induction false} TailInside(alloc: Ranges, bits: seq<bool>, s: nat, k: nat, c: nat)
    requires Marked(bits, alloc) && c < |bits| && bits[c] && s <= c < s + Pow2(k)
    ensures !NoTail(alloc, s, k)
  {
    assert IsTail(alloc, c);
  }

  lemma {:induction false} NoTailInside(sz: nat, level: nat, free: Ranges, alloc: Ranges, bits: seq<bool>, s: nat,
                                        k: nat)
    requires Tiles(sz, level, free, alloc) && Marked(bits, alloc) && |bits| == Pow2(sz)
    requires forall c :: s <= c < s + Pow2(k) && c < |bits| ==> !bits[c]
    ensures NoTail(alloc, s, k)
  {
    forall x | x in alloc ensures !(s <= x + Pow2(alloc[x]) - 1 < s + Pow2(k)) {
      assert (free + alloc)[x] == alloc[x];
      assert IsTail(alloc, x + Pow2(alloc[x]) - 1);
    }
  }

  lemma {:induction false} NoMembers(xs: seq<nat>)
    ensures xs == [] || xs[0] in xs
  {
  }

  /** Once everything has been given back, the allocator is in its initial state again, up to the order
      of the top-level list. */
  lemma {:induction false} AllGivenBack(s: State)
    requires Valid(s) && s.alloc == map[]
    ensures s.free == InitialFree(s.sz, s.level) && |s.lists| == s.level
    ensures forall k :: 0 <= k < s.level - 1 ==> s.lists[k] == []
    ensures forall x: nat :: x in s.lists[s.level - 1] <==> x < Pow2(s.sz) && IsTop(x, s.sz, s.level)
  {
    var top := s.level - 1;
    forall x: nat ensures x in s.free <==> x < Pow2(s.sz) && IsTop(x, s.sz, s.level) {
      AllFree(s.sz, s.level, s.free, x);
    }
    forall x | x in s.free ensures s.free[x] == top {
      AllFree(s.sz, s.level, s.free, x);
    }
    forall k | 0 <= k < top ensures s.lists[k] == [] {
      forall x | x in s.lists[k] ensures x in s.free && s.free[x] == k {
      }
      NoMembers(s.lists[k]);
    }
    forall x: nat ensures x in s.lists[top] <==> x in s.free {
    }
  }

  // ---------- folded forms ----------

  // The allocator's methods pass the invariant along without looking inside it.  The folded forms say the
  // same as the predicates above, but the verifier unfolds them only where Unfold names the key.

  ghost predicate Threaded(s: State) {
    forall k: Key :: Open(k) && k.BuddyKey? ==> ListsOK(s)
  }

  ghost predicate Sound(s: State) {
    forall k: Key :: Open(k) && k.BuddyKey? ==> Consistent(s)
  }

  ghost predicate Proper(s: State) {
    forall k: Key :: Open(k) && k.BuddyKey? ==> Valid(s)
  }

  ghost predicate Tiled(sz: nat, level: nat, free: Ranges, alloc: Ranges) {
    forall k: Key :: Open(k) && k.BuddyKey? ==> Tiles(sz, level, free, alloc)
  }

  /** a is the only free range whose buddy may be free as well. */
  ghost predicate OnlyAt(free: Ranges, level: nat, a: nat) {
    forall k: Key :: Open(k) && k.BuddyKey? ==> NoBuddies(free - {a}, level)
  }

  lemma {:induction false} UnfoldOnly(free: Ranges, level: nat, a: nat)
    ensures OnlyAt(free, level, a) <==> NoBuddies(free - {a}, level)
  {
    assert Open(BuddyKey);
  }

  ghost predicate FlagsOK(bits: seq<bool>, alloc: Ranges) {
    forall k: Key :: Open(k) && k.BuddyKey? ==> Marked(bits, alloc)
  }

  lemma {:induction false} Unfold(s: State)
    ensures FlagsOK(s.bits, s.alloc) <==> Marked(s.bits, s.alloc)
    ensures Tiled(s.sz, s.level, s.free, s.alloc) <==> Tiles(s.sz, s.level, s.free, s.alloc)
    ensures Threaded(s) <==> ListsOK(s)
    ensures Sound(s) <==> Consistent(s)
    ensures Proper(s) <==> Valid(s)
  {
    assert Open(BuddyKey);
  }

  lemma {:induction false} Sizes(s: State)
    requires Threaded(s) || Sound(s) || Proper(s)
    ensures |s.heads| == s.level == |s.lists| && |s.blocks| == Pow2(s.sz) <= EOL
    ensures Sound(s) ==>
        Threaded(s) && 0 < s.level <= s.sz && |s.bits| == |s.blocks| && Tiled(s.sz, s.level, s.free, s.alloc)
    ensures Proper(s) ==> Sound(s)
  {
    assert Open(BuddyKey);
  }

  lemma {:induction false} AnyOnly(s: State, a: nat)
    requires Proper(s)
    ensures OnlyAt(s.free, s.level, a)
  {
    Unfold(s);
    NoBuddiesSubset(s.free, s.free - {a}, s.level);
  }

  lemma {:induction false} AtTop(s: State, a: nat)
    requires Sound(s) && a in s.free && s.level <= s.free[a] + 1 && OnlyAt(s.free, s.level, a)
    ensures Proper(s)
  {
    Unfold(s);
    UnfoldOnly(s.free, s.level, a);
    TopNoBuddies(s.free, s.level, a);
  }

  /** The head of list k. */
  lemma {:induction false} Head(s: State, k: nat)
    requires Sound(s) && k < s.level
    ensures |s.lists| == s.level == |s.heads|
    ensures s.heads[k] == EOL <==> s.lists[k] == []
    ensures s.lists[k] != [] ==>
              var h := s.heads[k];
              h == s.lists[k][0] && h + Pow2(k) <= |s.blocks| && h in s.free && s.free[h] == k
  {
    Unfold(s);
    HeadOf(s, k);
  }

  lemma {:induction false} Push(s: State, k: nat)
    requires Sound(s) && k + 1 < s.level == |s.lists| && s.lists[k] == [] && s.lists[k + 1] != []
    requires |s.heads| == s.level && OnlyAt(s.free, s.level, s.heads[k + 1])
    ensures s.heads[k + 1] + Pow2(k) < |s.blocks|
    ensures Sound(Pushed(s, k)) && OnlyAt(Pushed(s, k).free, s.level, s.heads[k + 1])
  {
    Unfold(s);
    UnfoldOnly(s.free, s.level, s.heads[k + 1]);
    HeadOf(s, k + 1);
    PushedConsistent(s, k);
    Unfold(Pushed(s, k));
    UnfoldOnly(Pushed(s, k).free, s.level, s.heads[k + 1]);
  }

  lemma {:induction false} Take(s: State, n: nat)
    requires Sound(s) && n < s.level == |s.lists| && s.lists[n] != []
    requires |s.heads| == s.level && OnlyAt(s.free, s.level, s.heads[n])
    ensures s.heads[n] + Pow2(n) <= |s.blocks| == |s.bits|
    ensures Proper(Taken(s, n)) && Available(s.alloc, s.sz, s.heads[n], n)
  {
    Unfold(s);
    UnfoldOnly(s.free, s.level, s.heads[n]);
    HeadOf(s, n);
    TakenValid(s, n);
    Unfold(Taken(s, n));
  }

  /** The lists below k from n on are empty: the head of list k fits best. */
  lemma {:induction false} HeadFitsBest(s: State, n: nat, k: nat)
    requires Proper(s) && n <= k < s.level == |s.lists| && s.lists[k] != []
    requires forall j :: n <= j < k ==> s.lists[j] == []
    ensures BestFit(s.alloc, s.sz, s.level, n, s.lists[k][0], k)
  {
    Unfold(s);
    HeadOf(s, k);
    FreeIsMaximal(s.sz, s.level, s.free, s.alloc, s.lists[k][0], k);
    forall x: nat, j: nat | n <= j < k ensures !Maximal(s.alloc, s.sz, s.level, x, j) {
      FreeIsMaximal(s.sz, s.level, s.free, s.alloc, x, j);
    }
  }

  /** Nothing of order n is free when the lists from n upwards are empty. */
  lemma {:induction false} Nothing(s: State, n: nat, a: nat)
    requires Proper(s) && n < s.level == |s.lists|
    requires forall k :: n <= k < s.level ==> s.lists[k] == []
    ensures !Available(s.alloc, s.sz, a, n)
  {
    Unfold(s);
    NoneLarge(s, n);
    NothingLarge(s.sz, s.level, s.free, s.alloc, n, a);
  }

  /** Following list k from position i. */
  lemma {:induction false} Next(s: State, k: nat, i: nat)
    requires Threaded(s) && k < s.level
    ensures |s.lists| == s.level == |s.heads| && |s.blocks| <= EOL && s.heads[k] == Link(s.lists[k], 0)
    ensures i < |s.lists[k]| ==> s.lists[k][i] < |s.blocks| && s.blocks[s.lists[k][i]] == Link(s.lists[k], i + 1)
    ensures 0 < i <= |s.lists[k]| ==> s.lists[k][i - 1] < |s.blocks|
  {
    Unfold(s);
    if 0 < i <= |s.lists[k]| { assert s.lists[k][i - 1] < |s.blocks|; }
    if i < |s.lists[k]| { assert s.blocks[s.lists[k][i]] == Link(s.lists[k], i + 1); }
  }

  lemma {:induction false} Insert(s: State, a: nat, k: nat, i: nat)
    requires Threaded(s) && k < s.level == |s.lists| && i <= |s.lists[k]| && a < |s.blocks| && a !in s.free
    ensures |s.heads| == s.level && (i > 0 ==> s.lists[k][i - 1] < |s.blocks|)
    ensures Threaded(Returned(s, a, k, i))
  {
    Unfold(s);
    ReturnedLists(s, a, k, i);
    Unfold(Returned(s, a, k, i));
  }

  lemma {:induction false} Remove(s: State, k: nat, i: nat)
    requires Threaded(s) && k < s.level == |s.lists| && i < |s.lists[k]|
    ensures |s.heads| == s.level && s.lists[k][i] < |s.blocks| && (i > 0 ==> s.lists[k][i - 1] < |s.blocks|)
    ensures Threaded(Unlinked(s, k, i))
    ensures s.blocks[s.lists[k][i]] == Link(RemoveAt(s.lists[k], i), i)
    ensures s.heads[k] == Link(s.lists[k], 0)
    ensures i > 0 ==> s.blocks[s.lists[k][i - 1]] == s.lists[k][i]
  {
    Unfold(s);
    UnlinkedLists(s, k, i);
    Unfold(Unlinked(s, k, i));
    if i > 0 { assert s.blocks[s.lists[k][i - 1]] == Link(s.lists[k], i); }
  }

  /** The state once a's flag is cleared and a is on its list again. */
  lemma {:induction false} Return(s: State, a: nat)
    requires Proper(s) && a in s.alloc
    ensures a !in s.free && s.alloc[a] < s.level == |s.lists| && a < |s.blocks|
    ensures Threaded(s) && a + Pow2(s.alloc[a]) <= |s.bits|
    ensures Tiled(s.sz, s.level, s.free[a := s.alloc[a]], s.alloc - {a})
    ensures OnlyAt(s.free[a := s.alloc[a]], s.level, a)
    ensures FlagsOK(s.bits[a + Pow2(s.alloc[a]) - 1 := false], s.alloc - {a})
    ensures 0 < s.level <= s.sz && |s.bits| == |s.blocks|
  {
    Unfold(s);
    ReturnedTiles(s, a);
    Unfold(s.(bits := s.bits[a + Pow2(s.alloc[a]) - 1 := false], free := s.free[a := s.alloc[a]],
        alloc := s.alloc - {a}));
    UnfoldOnly(s.free[a := s.alloc[a]], s.level, a);
  }

  lemma {:induction false} Assemble(s: State)
    requires Threaded(s) && 0 < s.level <= s.sz && |s.bits| == |s.blocks|
    requires FlagsOK(s.bits, s.alloc) && Tiled(s.sz, s.level, s.free, s.alloc)
    ensures Sound(s)
  {
    Unfold(s);
  }

  lemma {:induction false} Flags(s: State, a: nat, k: nat)
    requires Proper(s) && a in s.alloc && k <= s.alloc[a]
    ensures s.alloc[a] < s.level && a + Pow2(k) - 1 < |s.bits|
    ensures s.bits[a + Pow2(k) - 1] <==> k == s.alloc[a]
  {
    Unfold(s);
    OnlyTailMarked(s.sz, s.level, s.free, s.alloc, s.bits, a, k);
  }

  lemma {:induction false} Flagged(s: State, x: nat, k: nat, c: nat)
    requires Sound(s) && c < |s.bits| && s.bits[c] && x <= c < x + Pow2(k)
    ensures !NoTail(s.alloc, x, k)
  {
    Unfold(s);
    TailInside(s.alloc, s.bits, x, k, c);
  }

  lemma {:induction false} Unflagged(s: State, x: nat, k: nat)
    requires Sound(s) && forall c :: x <= c < x + Pow2(k) && c < |s.bits| ==> !s.bits[c]
    ensures NoTail(s.alloc, x, k)
  {
    Unfold(s);
    NoTailInside(s.sz, s.level, s.free, s.alloc, s.bits, x, k);
  }

  /** free is free0 without some of the ranges in gone. */
  ghost predicate Minus(free0: Ranges, free: Ranges, gone: set<nat>) {
    && (forall x :: x in free ==> x in free0 && free[x] == free0[x])
    && (forall x :: x in free0 && x !in gone ==> x in free)
  }

  /** Ranges of order k that are not on list k are not free. */
  lemma {:induction false} Gone(s: State, k: nat, free0: Ranges, gone: set<nat>)
    requires Threaded(s) && k < s.level == |s.lists| && Minus(free0, s.free, gone)
    requires forall x :: x in gone ==> x in free0 && free0[x] == k && x !in s.lists[k]
    ensures s.free == free0 - gone
  {
    Unfold(s);
  }

  lemma {:induction false} InitialProper(s: State, top: nat)
    requires s.level == top + 1 <= s.sz && Pow2(s.sz) <= EOL
    requires s.heads == InitialHeads(s.level) && s.lists == InitialLists(s.sz, s.level)
    requires |s.blocks| == Pow2(s.sz) && s.bits == InitialBits(s.sz)
    requires TopsThreaded(s.blocks, s.sz, top)
    requires s.free == InitialFree(s.sz, s.level) && s.alloc == map[]
    ensures Proper(s)
  {
    InitialValid(s, top);
    Unfold(s);
  }

  predicate BothFree(free: Ranges, p: nat, k: nat) {
    p in free && free[p] == k && p + Pow2(k) in free && free[p + Pow2(k)] == k
  }

  function Merged(free: Ranges, p: nat, k: nat): Ranges {
    (free - {p, p + Pow2(k)})[p := k + 1]
  }

  /** The pair of ranges that contains a can be merged exactly when no flag is set inside it. */
  lemma {:induction false} Pair(s: State, a: nat, k: nat, p: nat)
    requires Sound(s) && k + 1 < s.level
    requires a in s.free && s.free[a] == k && OnlyAt(s.free, s.level, a)
    requires p == RoundDown(a, k + 1)
    ensures p + Pow2(k + 1) <= Pow2(s.sz) && (a == p || a == p + Pow2(k))
    ensures NoTail(s.alloc, p, k + 1) ==> BuddyPair(s.free, p, k)
    ensures !NoTail(s.alloc, p, k + 1) ==> Proper(s)
  {
    Unfold(s);
    UnfoldOnly(s.free, s.level, a);
    MergeStart(s.sz, s.level, s.free, s.alloc, a, k, p);
    if !NoTail(s.alloc, p, k + 1) {
      NoPairNoBuddies(s.free, s.level, a, k, p);
    }
  }

  /** The pair at p can be merged: both halves are free, and putting the merged range on the list above
      leaves a sound state in which only the merged range may have a free buddy. */
  ghost predicate Mergeable(s: State, p: nat, k: nat) {
    forall key: Key :: Open(key) && key.BuddyKey? ==>
      && BothFree(s.free, p, k) && p < |s.blocks|
      && Tiles(s.sz, s.level, Merged(s.free, p, k), s.alloc) && NoBuddies(Merged(s.free, p, k) - {p}, s.level)
      && Marked(s.bits, s.alloc)
  }

  lemma {:induction false} MergedPair(s: State, a: nat, k: nat, p: nat)
    requires Sound(s) && k + 1 < s.level && OnlyAt(s.free, s.level, a) && (a == p || a == p + Pow2(k))
    requires BuddyPair(s.free, p, k)
    ensures Mergeable(s, p, k)
  {
    Unfold(s);
    UnfoldOnly(s.free, s.level, a);
    MergedPieces(s, a, k, p);
  }

  lemma {:induction false} MergedPieces(s: State, a: nat, k: nat, p: nat)
    requires Tiles(s.sz, s.level, s.free, s.alloc) && NoBuddies(s.free - {a}, s.level) && Marked(s.bits, s.alloc)
    requires |s.blocks| == Pow2(s.sz) && k + 1 < s.level && (a == p || a == p + Pow2(k)) && BuddyPair(s.free, p, k)
    ensures Mergeable(s, p, k)
  {
    AlignedFree(s.sz, s.level, s.free, s.alloc, p);
    MergedTiles(s.sz, s.level, s.free, s.alloc, a, p, k);
  }

  lemma {:induction false} MergeableFree(s: State, p: nat, k: nat)
    requires Mergeable(s, p, k)
    ensures BothFree(s.free, p, k)
  {
    assert Open(BuddyKey);
  }

  /** After the two halves have left their list. */
  lemma {:induction false} HalvesGone(s0: State, s: State, p: nat, k: nat)
    requires Mergeable(s0, p, k) && s.free == s0.free - {p, p + Pow2(k)}
    requires s.sz == s0.sz && s.level == s0.level && |s.blocks| == |s0.blocks| && s.bits == s0.bits
        && s.alloc == s0.alloc
    ensures p !in s.free && p < |s.blocks| && FlagsOK(s.bits, s.alloc)
    ensures Tiled(s.sz, s.level, s.free[p := k + 1], s.alloc) && OnlyAt(s.free[p := k + 1], s.level, p)
  {
    assert Open(BuddyKey);
  }

  // ---------- what becomes of the lists ----------

  /** The lists after a range of order n has been cut off the head of list k, those from n on below it being empty. */
  function Remaining(lists: Lists, n: nat, k: nat): (r: Lists)
    requires n <= k < |lists| && lists[k] != []
    ensures |r| == |lists|
  {
    seq(|lists|, j requires 0 <= j < |lists| =>
      if n <= j < k then [lists[k][0] + Pow2(j)] else if j == k then lists[k][1..] else lists[j])
  }

  lemma {:induction false} RemainingStep(lists: Lists, n: nat, k: nat)
    requires n < k < |lists| && lists[k] != []
    ensures Remaining(lists, n, k) == Remaining(lists, n + 1, k)[n := [lists[k][0] + Pow2(n)]]
  {
  }

  /** The list with range a before the first larger number. */
  function Inserted(xs: seq<nat>, a: nat): seq<nat> {
    if xs == [] || a < xs[0] then [a] + xs else [xs[0]] + Inserted(xs[1..], a)
  }

  /** The list without the two halves of a pair. */
  function Without(xs: seq<nat>, x: nat, y: nat): seq<nat> {
    if xs == [] then []
    else
      var l := xs[|xs| - 1];
      Without(xs[..|xs| - 1], x, y) + if l == x || l == y then [] else [l]
  }

  /** The range of order k at p is wholly available. */
  ghost predicate Joins(alloc: Ranges, sz: nat, p: nat, k: nat) {
    forall key: Key :: Open(key) && key.WorkKey? ==> Available(alloc, sz, p, k)
  }

  /** The lists after range a of list k has been merged upwards: as long as the pair around it is wholly available, the
      pair takes the place of its halves, at the head of the list above. */
  ghost function Joined(lists: Lists, alloc: Ranges, sz: nat, level: nat, a: nat, k: nat): (r: Lists)
    requires |lists| == level
    ensures |r| == level
    decreases level - k
  {
    var p := RoundDown(a, k + 1);
    if k + 1 < level && Joins(alloc, sz, p, k + 1) then
      Joined(lists[k := Without(lists[k], p, p + Pow2(k))][k + 1 := [p] + lists[k + 1]], alloc, sz, level, p, k + 1)
    else lists
  }

  /** Merging range a of list k upwards makes the lists lists'. */
  ghost predicate JoinedTo(lists: Lists, lists': Lists, alloc: Ranges, sz: nat, level: nat, a: nat, k: nat) {
    |lists| == level && forall key: Key :: Open(key) && key.WorkKey? ==>
      lists' == Joined(lists, alloc, sz, level, a, k)
  }

  /** p is the pair around range a, and ok says whether it is wholly available. */
  ghost predicate PairFound(alloc: Ranges, sz: nat, a: nat, k: nat, p: nat, ok: bool) {
    forall key: Key :: Open(key) && key.WorkKey? ==>
      p == RoundDown(a, k + 1) && (ok <==> Joins(alloc, sz, p, k + 1))
  }

  lemma {:induction false} JoinedNone(lists: Lists, alloc: Ranges, sz: nat, level: nat, a: nat, k: nat, p: nat)
    requires |lists| == level && (k + 1 >= level || PairFound(alloc, sz, a, k, p, false))
    ensures JoinedTo(lists, lists, alloc, sz, level, a, k)
  {
    assert Open(WorkKey);
  }

  lemma {:induction false} JoinedNext(lists: Lists, lists1: Lists, lists2: Lists, alloc: Ranges, sz: nat, level: nat,
                                      a: nat, k: nat, p: nat)
    requires |lists| == level && k + 1 < level && PairFound(alloc, sz, a, k, p, true)
    requires var less := lists[k := Without(lists[k], p, p + Pow2(k))]; lists1 == less[k + 1 := [p] + less[k + 1]]
    requires JoinedTo(lists1, lists2, alloc, sz, level, p, k + 1)
    ensures JoinedTo(lists, lists2, alloc, sz, level, a, k)
  {
    assert Open(WorkKey);
    assert lists[k := Without(lists[k], p, p + Pow2(k))][k + 1] == lists[k + 1];
  }

  lemma {:induction false} InsertedHere(xs: seq<nat>, i: nat, a: nat)
    requires i <= |xs| && (forall j :: 0 <= j < i ==> xs[j] <= a) && (i < |xs| ==> a < xs[i])
    ensures InsertAt(xs, i, a) == Inserted(xs, a)
  {
    if i > 0 {
      InsertedHere(xs[1..], i - 1, a);
      assert InsertAt(xs, i, a) == [xs[0]] + InsertAt(xs[1..], i - 1, a);
    } else {
      assert InsertAt(xs, 0, a) == [a] + xs;
    }
  }

  lemma {:induction false} WithoutStart(lists: Lists, k: nat, x: nat, y: nat)
    requires k < |lists|
    ensures lists[k][..0] == [] && lists == lists[k := Without(lists[k][..0], x, y) + lists[k][0..]]
  {
    assert Without(lists[k][..0], x, y) + lists[k][0..] == lists[k];
  }

  lemma {:induction false} WithoutNone(xs: seq<nat>, x: nat, y: nat)
    ensures x !in Without(xs, x, y) && y !in Without(xs, x, y)
  {
    if xs != [] { WithoutNone(xs[..|xs| - 1], x, y); }
  }

  /** The walk along list k, from the state v on, has come to position j, which is i now. */
  ghost predicate Walked(v: State, abs: Abstract, k: nat, p: nat, i: nat, j: nat) {
    && k < |v.lists| && j <= |v.lists[k]| && |Without(v.lists[k][..j], p, p + Pow2(k))| == i
    && abs.lists == v.lists[k := Without(v.lists[k][..j], p, p + Pow2(k)) + v.lists[k][j..]]
    && Minus(v.free, abs.free, {p, p + Pow2(k)})
  }

  lemma {:induction false} WalkedStep(v: State, abs: Abstract, k: nat, p: nat, i: nat, j: nat)
    requires Walked(v, abs, k, p, i, j) && i < |abs.lists[k]|
    ensures j < |v.lists[k]|
    ensures var c, now := abs.lists[k][i], abs.lists[k];
            if c == p || c == p + Pow2(k) then
              Walked(v, abs.(lists := abs.lists[k := RemoveAt(now, i)], free := abs.free - {c}), k, p, i, j + 1)
            else Walked(v, abs, k, p, i + 1, j + 1)
  {
    WithoutStep(v.lists[k], j, p, p + Pow2(k), i);
  }

  lemma {:induction false} WalkedAll(v: State, abs: Abstract, k: nat, p: nat, i: nat, j: nat)
    requires Walked(v, abs, k, p, i, j) && i >= |abs.lists[k]|
    ensures abs.lists == v.lists[k := Without(v.lists[k], p, p + Pow2(k))]
    ensures Minus(v.free, abs.free, {p, p + Pow2(k)})
  {
    assert abs.lists[k] == Without(v.lists[k][..j], p, p + Pow2(k)) + v.lists[k][j..];
    assert v.lists[k][..j] == v.lists[k];
    assert Without(v.lists[k], p, p + Pow2(k)) + v.lists[k][j..] == Without(v.lists[k], p, p + Pow2(k));
  }

  /** The walk along a list has kept the ranges before position j that are no half of the pair. */
  lemma {:induction false} WithoutStep(xs: seq<nat>, j: nat, x: nat, y: nat, i: nat)
    requires j < |xs| && |Without(xs[..j], x, y)| == i
    ensures var now := Without(xs[..j], x, y) + xs[j..];
            && i < |now| && now[i] == xs[j]
            && (xs[j] == x || xs[j] == y ==>
                && Without(xs[..j + 1], x, y) == Without(xs[..j], x, y)
                && RemoveAt(now, i) == Without(xs[..j + 1], x, y) + xs[j + 1..])
            && (xs[j] != x && xs[j] != y ==>
                && Without(xs[..j + 1], x, y) == Without(xs[..j], x, y) + [xs[j]]
                && now == Without(xs[..j + 1], x, y) + xs[j + 1..])
  {
    assert xs[..j + 1][..j] == xs[..j] && xs[j..] == [xs[j]] + xs[j + 1..];
  }

  /** No taken range ends inside the pair around a free range exactly when the pair is wholly available. */
  lemma {:induction false} PairAvailable(s: State, a: nat, k: nat, p: nat)
    requires Sound(s) && k + 1 < s.level && a in s.free && s.free[a] == k
    requires p == RoundDown(a, k + 1) && p + Pow2(k + 1) <= Pow2(s.sz) && (a == p || a == p + Pow2(k))
    ensures NoTail(s.alloc, p, k + 1) <==> Joins(s.alloc, s.sz, p, k + 1)
  {
    Unfold(s);
    assert Open(WorkKey);
    if NoTail(s.alloc, p, k + 1) {
      BuddyAvailable(s.sz, s.level, s.free, s.alloc, a, k, p);
      forall x | x in s.alloc ensures x + Pow2(s.alloc[x]) <= p || p + Pow2(k + 1) <= x {
        Apart(s.sz, s.level, s.free, s.alloc, x, a);
      }
    }
  }
}
