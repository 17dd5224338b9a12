/** The 64-way nodes of the poptrie. */
module Nodes {
  // One bitmap has the slots with a child, another marks where in the remaining slots a new run of equal leaves begins.

  import opened Bits

  type Vec = seq<bool>

  datatype NodeWith<V> = Node(leafvec: V, vector: V, base0: int, base1: int)

  /** Internal node.  base0 and base1 are -1 when there are no leaves or no children. */
  type Node = NodeWith<Vec>

  /** POPCNT_LS(v, i): the number of set bits among bits 0 to i. */
  function Rank(v: Vec, i: nat): nat
    requires i < |v|
  {
    Count(v[..i + 1])
  }

  // ---------- run-compressed leaves ----------

  /** The value of the last leaf slot, or -1. */
  function LastValue(vec: Vec, vals: seq<nat>): int
    requires |vec| == |vals|
  {
    if vec == [] then -1
    else if vec[|vec| - 1] then LastValue(vec[..|vec| - 1], vals[..|vals| - 1])
    else vals[|vals| - 1]
  }

  /** Does a run begin at the last slot? */
  predicate RunStarts(vec: Vec, vals: seq<nat>)
    requires |vec| == |vals| > 0
  {
    !vec[|vec| - 1] && LastValue(vec[..|vec| - 1], vals[..|vals| - 1]) != vals[|vals| - 1]
  }

  /** The bitmap of the slots at which a run of equal leaves begins. */
  function RunVec(vec: Vec, vals: seq<nat>): (r: Vec)
    requires |vec| == |vals|
    ensures |r| == |vec|
  {
    if vec == [] then []
    else RunVec(vec[..|vec| - 1], vals[..|vals| - 1]) + [RunStarts(vec, vals)]
  }

  /** The values of the runs. */
  function RunLeaves(vec: Vec, vals: seq<nat>): seq<nat>
    requires |vec| == |vals|
  {
    if vec == [] then []
    else RunLeaves(vec[..|vec| - 1], vals[..|vals| - 1]) + if RunStarts(vec, vals) then [vals[|vals| - 1]] else []
  }

  lemma {:induction false} RunCount(vec: Vec, vals: seq<nat>)
    requires |vec| == |vals|
    ensures |RunLeaves(vec, vals)| == Count(RunVec(vec, vals))
    ensures LastValue(vec, vals) == if RunLeaves(vec, vals) == [] then -1
        else RunLeaves(vec, vals)[|RunLeaves(vec, vals)| - 1]
  {
    if vec != [] {
      RunCount(vec[..|vec| - 1], vals[..|vals| - 1]);
      assert RunVec(vec, vals)[..|vec| - 1] == RunVec(vec[..|vec| - 1], vals[..|vals| - 1]);
    }
  }

  /** Neighbouring runs have different values. */
  lemma {:induction false} RunsDiffer(vec: Vec, vals: seq<nat>, i: nat)
    requires |vec| == |vals| && 0 < i < |RunLeaves(vec, vals)|
    ensures RunLeaves(vec, vals)[i - 1] != RunLeaves(vec, vals)[i]
  {
    var u, v := vec[..|vec| - 1], vals[..|vals| - 1];
    if i < |RunLeaves(u, v)| {
      RunsDiffer(u, v, i);
    } else {
      RunCount(u, v);
    }
  }

  lemma {:induction false} RunPrefix(vec: Vec, vals: seq<nat>, i: nat)
    requires |vec| == |vals| && i <= |vec|
    ensures RunVec(vec, vals)[..i] == RunVec(vec[..i], vals[..i])
    ensures RunLeaves(vec[..i], vals[..i]) <= RunLeaves(vec, vals)
  {
    if i < |vec| {
      RunPrefix(vec[..|vec| - 1], vals[..|vals| - 1], i);
      assert vec[..|vec| - 1][..i] == vec[..i] && vals[..|vals| - 1][..i] == vals[..i];
    } else {
      assert vec[..i] == vec && vals[..i] == vals;
    }
  }

  /** The leaf that lookup finds for slot i is the slot's value. */
  lemma {:induction false} RunDecode(vec: Vec, vals: seq<nat>, i: nat)
    requires |vec| == |vals| && i < |vec| && !vec[i]
    ensures var k := Rank(RunVec(vec, vals), i);
            1 <= k <= |RunLeaves(vec, vals)| && RunLeaves(vec, vals)[k - 1] == vals[i]
  {
    RunPrefix(vec, vals, i + 1);
    RunCount(vec[..i + 1], vals[..i + 1]);
    assert vec[..i + 1][i] == vec[i] && vals[..i + 1][i] == vals[i];
  }

  /** The runs do not depend on the values of slots that have a child. */
  lemma {:induction false} RunIrrelevant(vec: Vec, vals: seq<nat>, vals': seq<nat>)
    requires |vec| == |vals| == |vals'|
    requires forall i :: 0 <= i < |vec| && !vec[i] ==> vals[i] == vals'[i]
    ensures RunVec(vec, vals) == RunVec(vec, vals') && RunLeaves(vec, vals) == RunLeaves(vec, vals')
    ensures LastValue(vec, vals) == LastValue(vec, vals')
  {
    if vec != [] {
      RunIrrelevant(vec[..|vec| - 1], vals[..|vals| - 1], vals'[..|vals'| - 1]);
    }
  }

  /** There is a single run exactly when all leaf slots have one value. */
  lemma {:induction false} SingleRun(vec: Vec, vals: seq<nat>)
    requires |vec| == |vals| && forall i :: 0 <= i < |vec| ==> !vec[i]
    ensures |RunLeaves(vec, vals)| <= 1 <==> forall i :: 0 <= i < |vals| ==> vals[i] == vals[0]
    ensures vec != [] ==> |RunLeaves(vec, vals)| >= 1 && RunLeaves(vec, vals)[0] == vals[0]
  {
    var n := |vec|;
    if n > 0 {
      SingleRun(vec[..n - 1], vals[..n - 1]);
      if n > 1 {
        assert LastValue(vec[..n - 1], vals[..n - 1]) == vals[n - 2];
        assert forall i :: 0 <= i < n - 1 ==> vals[..n - 1][i] == vals[i];
      }
    }
  }

  // ---------- packed children ----------

  /** The children of the slots whose bit is set, in slot order. */
  function Pick(vec: Vec, kids: seq<Node>): (r: seq<Node>)
    requires |vec| == |kids|
    ensures |r| == Count(vec)
  {
    if vec == [] then []
    else Pick(vec[..|vec| - 1], kids[..|kids| - 1]) + if vec[|vec| - 1] then [kids[|kids| - 1]] else []
  }

  lemma {:induction false} PickAt(vec: Vec, kids: seq<Node>, i: nat)
    requires |vec| == |kids| && i < |vec| && vec[i]
    ensures 1 <= Rank(vec, i) <= Count(vec) && Pick(vec, kids)[Rank(vec, i) - 1] == kids[i]
  {
    if i == |vec| - 1 {
      assert vec[..i + 1] == vec;
    } else {
      PickAt(vec[..|vec| - 1], kids[..|kids| - 1], i);
      assert vec[..|vec| - 1][..i + 1] == vec[..i + 1];
    }
  }

  /** Different slots with a child have different ranks. */
  lemma {:induction false} RankOrder(vec: Vec, i: nat, j: nat)
    requires i < j < |vec| && vec[j]
    ensures Rank(vec, i) < Rank(vec, j)
  {
    CountMonotone(vec, i + 1, j);
    CountPrefix(vec, j);
  }

  lemma {:induction false} RankBounds(vec: Vec, i: nat)
    requires i < |vec|
    ensures Rank(vec, i) <= Count(vec)
    ensures vec[i] ==> 1 <= Rank(vec, i)
  {
    CountMonotone(vec, i + 1, |vec|);
    assert vec[..|vec|] == vec;
    CountPrefix(vec, i);
  }

  // ---------- block sizes ----------

  /** bsr: the position of the most significant set bit, 0 for 0. */
  function Bsr(x: nat): nat {
    if x < 2 then 0 else 1 + Bsr(x / 2)
  }

  lemma {:induction false} BsrBounds(x: nat)
    ensures x < Pow2(Bsr(x) + 1)
    ensures x > 0 ==> Pow2(Bsr(x)) <= x
  {
    if x >= 2 {
      BsrBounds(x / 2);
    } else {
      assert Pow2(1) == 2;
    }
  }

  /** k is the least order from 1 on of a block that has room for n > 0 entries. */
  predicate LeastOrder(n: nat, k: nat) {
    n > 0 && k > 0 && n <= Pow2(k) && (k == 1 || Pow2(k - 1) < n)
  }

  /** The order of the buddy block that is requested for n > 0 entries. */
  function OrderFor(n: nat): (k: nat)
    requires n > 0
    ensures LeastOrder(n, k)
  {
    BsrBounds(n - 1);
    Bsr(n - 1) + 1
  }

  /** No smaller block would do. */
  lemma {:induction false} LeastOrderIs(n: nat, k: nat, j: nat)
    requires LeastOrder(n, k) && j > 0 && n <= Pow2(j)
    ensures k <= j
  {
    if j < k { Pow2Monotone(j, k - 1); }
  }

  /** What belongs to one node fits into a block of order 6. */
  lemma {:induction false} OrderAtMost(n: nat, k: nat)
    requires LeastOrder(n, k) && n <= 64
    ensures k <= 6
  {
    assert Pow2(6) == 64;
    LeastOrderIs(n, k, 6);
  }
}
