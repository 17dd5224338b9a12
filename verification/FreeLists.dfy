/** The free lists of the buddy system, threaded through the blocks. */
module FreeLists {
  // heads[k] and the first word of a free block hold the number of the next free block of order k, or EOL.

  import opened Seqs
  import opened Tiling

  const EOL: nat := 0xffff_ffff

  type Lists = seq<seq<nat>>

  function Link(xs: seq<nat>, i: nat): nat {
    if i < |xs| then xs[i] else EOL
  }

  /** Every block of xs leads to the next one. */
  ghost predicate Chain(cells: seq<nat>, xs: seq<nat>) {
    && (forall i :: 0 <= i < |xs| ==> xs[i] < |cells|)
    && (forall i {:trigger cells[xs[i]]} :: 0 <= i < |xs| ==> cells[xs[i]] == Link(xs, i + 1))
  }

  /** The words of memory in heads and cells represent the lists. */
  ghost predicate Linked(heads: seq<nat>, cells: seq<nat>, lists: Lists) {
    && |heads| == |lists|
    && |cells| <= EOL
    && forall k :: 0 <= k < |lists| ==> heads[k] == Link(lists[k], 0) && Chain(cells, lists[k])
  }

  function IndexOf(xs: seq<nat>, x: nat): (i: nat)
    ensures i <= |xs|
  {
    if xs == [] || xs[0] == x then 0 else 1 + IndexOf(xs[1..], x)
  }

  /** Every element of xs is found where it stands. */
  ghost predicate NoDuplicates(xs: seq<nat>) {
    forall i {:trigger IndexOf(xs, xs[i])} :: 0 <= i < |xs| ==> IndexOf(xs, xs[i]) == i
  }

  /** The lists hold exactly the free ranges, each once and on the list of its order. */
  ghost predicate Listed(lists: Lists, free: Ranges) {
    && (forall x :: x in free ==> free[x] < |lists| && x in lists[free[x]])
    && (forall k, i :: 0 <= k < |lists| && 0 <= i < |lists[k]| ==> lists[k][i] in free && free[lists[k][i]] == k)
    && (forall k :: 0 <= k < |lists| ==> NoDuplicates(lists[k]))
  }

  lemma {:induction false} IndexOfFirst(xs: seq<nat>, i: nat)
    requires i < |xs| && forall j :: 0 <= j < i ==> xs[j] != xs[i]
    ensures IndexOf(xs, xs[i]) == i
  {
    if i > 0 {
      IndexOfFirst(xs[1..], i - 1);
    }
  }

  lemma {:induction false} WithoutNoDuplicates(xs: seq<nat>, i: nat)
    requires NoDuplicates(xs) && i < |xs|
    ensures NoDuplicates(RemoveAt(xs, i))
    ensures xs[i] !in RemoveAt(xs, i)
  {
    var ys := RemoveAt(xs, i);
    forall j | 0 <= j < |ys| ensures IndexOf(ys, ys[j]) == j && ys[j] != xs[i] {
      assert IndexOf(xs, xs[i]) == i && IndexOf(xs, ys[j]) == if j < i then j else j + 1;
      forall l | 0 <= l < j ensures ys[l] != ys[j] {
        assert IndexOf(xs, ys[l]) != IndexOf(xs, ys[j]);
      }
      IndexOfFirst(ys, j);
    }
  }

  lemma {:induction false} InsertedNoDuplicates(xs: seq<nat>, i: nat, x: nat)
    requires NoDuplicates(xs) && i <= |xs| && x !in xs
    ensures NoDuplicates(InsertAt(xs, i, x))
  {
    var ys := InsertAt(xs, i, x);
    forall j | 0 <= j < |ys| ensures IndexOf(ys, ys[j]) == j {
      forall l | 0 <= l < j ensures ys[l] != ys[j] {
        if l != i && j != i {
          assert IndexOf(xs, ys[l]) != IndexOf(xs, ys[j]);
        }
      }
      IndexOfFirst(ys, j);
    }
  }

  /** Storing v in the word that leads to position i of list k: the head, or the block before it. */
  function StoreHead(heads: seq<nat>, k: nat, i: nat, v: nat): seq<nat>
    requires k < |heads|
  {
    if i == 0 then heads[k := v] else heads
  }

  function StoreCell(cells: seq<nat>, xs: seq<nat>, i: nat, v: nat): seq<nat>
    requires i <= |xs|
    requires i > 0 ==> xs[i - 1] < |cells|
  {
    if i == 0 then cells else cells[xs[i - 1] := v]
  }

  lemma {:induction false} ChainFrame(cells: seq<nat>, cells': seq<nat>, xs: seq<nat>)
    requires Chain(cells, xs) && |cells'| == |cells|
    requires forall i :: 0 <= i < |xs| && xs[i] < |cells| ==> cells'[xs[i]] == cells[xs[i]]
    ensures Chain(cells', xs)
  {
  }

  lemma {:induction false} ChainWithout(cells: seq<nat>, xs: seq<nat>, i: nat)
    requires Chain(cells, xs) && NoDuplicates(xs) && i < |xs|
    ensures Chain(StoreCell(cells, xs, i, cells[xs[i]]), RemoveAt(xs, i))
  {
    var ys := RemoveAt(xs, i);
    var cells' := StoreCell(cells, xs, i, cells[xs[i]]);
    forall j | 0 <= j < |ys| ensures ys[j] < |cells'| && cells'[ys[j]] == Link(ys, j + 1) {
      var j' := if j < i then j else j + 1;
      assert ys[j] == xs[j'] && IndexOf(xs, xs[j']) == j';
      if i > 0 { assert IndexOf(xs, xs[i - 1]) == i - 1; }
    }
  }

  lemma {:induction false} InsertedAt(cells: seq<nat>, xs: seq<nat>, i: nat, x: nat, j: nat)
    requires Chain(cells, xs) && NoDuplicates(xs) && i <= |xs| && x < |cells| && x !in xs && j <= |xs|
    ensures var ys, cells' := InsertAt(xs, i, x), StoreCell(cells, xs, i, x)[x := Link(xs, i)];
            ys[j] < |cells'| && cells'[ys[j]] == Link(ys, j + 1)
  {
    if j != i {
      var j' := if j < i then j else j - 1;
      var y := xs[j'];
      assert IndexOf(xs, y) == j' && y != x;
      if i > 0 { assert IndexOf(xs, xs[i - 1]) == i - 1; }
      assert cells[y] == Link(xs, j' + 1);
    }
  }

  lemma {:induction false} ChainInserted(cells: seq<nat>, xs: seq<nat>, i: nat, x: nat)
    requires Chain(cells, xs) && NoDuplicates(xs) && i <= |xs| && x < |cells| && x !in xs
    ensures Chain(StoreCell(cells, xs, i, x)[x := Link(xs, i)], InsertAt(xs, i, x))
  {
    var ys := InsertAt(xs, i, x);
    var cells' := StoreCell(cells, xs, i, x)[x := Link(xs, i)];
    forall j | 0 <= j < |ys| ensures ys[j] < |cells'| && cells'[ys[j]] == Link(ys, j + 1) {
      InsertedAt(cells, xs, i, x, j);
    }
  }

  lemma {:induction false} OtherList(lists: Lists, free: Ranges, k: nat, l: nat, x: nat)
    requires Listed(lists, free) && k < |lists| && l < |lists| && k != l && x in lists[k]
    ensures x !in lists[l]
  {
  }

  /** Unlinking position i of list k by storing its successor in the word before it. */
  lemma {:induction false} Unlink(heads: seq<nat>, cells: seq<nat>, lists: Lists, free: Ranges, k: nat, i: nat)
    requires Linked(heads, cells, lists) && Listed(lists, free)
    requires k < |lists| && i < |lists[k]|
    ensures lists[k][i] < |cells| && (i > 0 ==> lists[k][i - 1] < |cells|)
    ensures cells[lists[k][i]] == Link(lists[k], i + 1)
    ensures var next := cells[lists[k][i]];
            Linked(StoreHead(heads, k, i, next), StoreCell(cells, lists[k], i, next), lists[k := RemoveAt(lists[k], i)])
  {
    var xs := lists[k];
    var next := cells[xs[i]];
    var lists' := lists[k := RemoveAt(xs, i)];
    var cells' := StoreCell(cells, xs, i, next);
    ChainWithout(cells, xs, i);
    forall l | 0 <= l < |lists| && l != k ensures Chain(cells', lists'[l]) {
      if i > 0 { OtherList(lists, free, k, l, xs[i - 1]); }
      ChainFrame(cells, cells', lists[l]);
    }
  }

  lemma {:induction false} ListedWithout(lists: Lists, free: Ranges, k: nat, i: nat)
    requires Listed(lists, free) && k < |lists| && i < |lists[k]|
    ensures Listed(lists[k := RemoveAt(lists[k], i)], free - {lists[k][i]})
  {
    var xs, x0 := lists[k], lists[k][i];
    var ys := RemoveAt(xs, i);
    var lists' := lists[k := ys];
    WithoutNoDuplicates(xs, i);
    forall x | x in free - {x0} ensures free[x] < |lists'| && x in lists'[free[x]] {
      var j :| 0 <= j < |lists[free[x]]| && lists[free[x]][j] == x;
      if free[x] == k {
        assert ys[if j < i then j else j - 1] == x;
      }
    }
    forall l, j | 0 <= l < |lists'| && 0 <= j < |lists'[l]|
      ensures lists'[l][j] in free - {x0} && free[lists'[l][j]] == l
    {
      if l == k {
        assert lists[k][if j < i then j else j + 1] == ys[j];
      } else {
        assert lists'[l][j] == lists[l][j];
      }
    }
  }

  /** Linking in a block x that is on no list at position i of list k. */
  lemma {:induction false} LinkIn(heads: seq<nat>, cells: seq<nat>, lists: Lists, free: Ranges, k: nat, i: nat, x: nat)
    requires Linked(heads, cells, lists) && Listed(lists, free) && x !in free
    requires k < |lists| && i <= |lists[k]| && x < |cells|
    ensures i > 0 ==> lists[k][i - 1] < |cells|
    ensures Linked(StoreHead(heads, k, i, x), StoreCell(cells, lists[k], i, x)[x := Link(lists[k], i)],
                   lists[k := InsertAt(lists[k], i, x)])
  {
    var xs := lists[k];
    var lists' := lists[k := InsertAt(xs, i, x)];
    var cells' := StoreCell(cells, xs, i, x)[x := Link(xs, i)];
    NotListed(lists, free, k, x);
    ChainInserted(cells, xs, i, x);
    forall l | 0 <= l < |lists| && l != k ensures Chain(cells', lists'[l]) {
      NotListed(lists, free, l, x);
      if i > 0 { OtherList(lists, free, k, l, xs[i - 1]); }
      ChainFrame(cells, cells', lists[l]);
    }
  }

  lemma {:induction false} NotListed(lists: Lists, free: Ranges, k: nat, x: nat)
    requires Listed(lists, free) && k < |lists| && x !in free
    ensures x !in lists[k]
  {
  }

  lemma {:induction false} ListedInserted(lists: Lists, free: Ranges, k: nat, i: nat, x0: nat)
    requires Listed(lists, free) && k < |lists| && i <= |lists[k]| && x0 !in free
    ensures Listed(lists[k := InsertAt(lists[k], i, x0)], free[x0 := k])
  {
    var xs := lists[k];
    var ys := InsertAt(xs, i, x0);
    var lists' := lists[k := ys];
    var free' := free[x0 := k];
    InsertedNoDuplicates(xs, i, x0);
    assert ys[i] == x0;
    forall x | x in free' ensures free'[x] < |lists'| && x in lists'[free'[x]] {
      if x != x0 {
        var j :| 0 <= j < |lists[free[x]]| && lists[free[x]][j] == x;
        if free[x] == k {
          assert ys[if j < i then j else j + 1] == x;
        }
      }
    }
    forall l, j | 0 <= l < |lists'| && 0 <= j < |lists'[l]|
      ensures lists'[l][j] in free' && free'[lists'[l][j]] == l
    {
      if l == k {
        if j != i { assert lists[k][if j < i then j else j - 1] == ys[j]; }
      } else {
        assert lists'[l][j] == lists[l][j];
      }
    }
  }
}
