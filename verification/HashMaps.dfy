/** The chained hash map. */
module HashMaps {
  import opened Bits
  import opened Folding
  import opened HashMasks
  import opened Seqs

  class HNode {
    var hash: Path
    var next: HNode?

    constructor ()
      ensures hash == Zeros(SIZE) && next == null
    {
      hash, next := Zeros(SIZE), null;
    }
  }

  /** The fields of a node. */
  datatype CellOf<P, N> = Cell(hash: P, next: N)
  type Cell = CellOf<Path, HNode?>

  ghost function Look(nodes: set<HNode>): (m: map<HNode, Cell>)
    reads nodes
    ensures m.Keys == nodes && forall x :: x in nodes ==> m[x] == Cell(x.hash, x.next)
  {
    map x | x in nodes :: Cell(x.hash, x.next)
  }

  // ---------- chains ----------

  type Chain = seq<HNode>

  function First(xs: Chain): HNode? {
    if xs == [] then null else xs[0]
  }

  predicate NoDup(xs: Chain) {
    forall i, j :: 0 <= i < j < |xs| ==> xs[i] != xs[j]
  }

  /** Node j of the chain xs of bucket b. */
  ghost predicate Linked(xs: Chain, cells: map<HNode, Cell>, mask: nat, b: nat, j: nat)
    requires j < |xs| && mask < Pow2(SIZE)
  {
    xs[j] in cells && cells[xs[j]].next == First(xs[j + 1..]) && |cells[xs[j]].hash| == SIZE
        && Bucket(cells[xs[j]].hash, mask) == b
  }

  /** xs is the chain of bucket b. */
  ghost predicate IsChain(xs: Chain, head: HNode?, cells: map<HNode, Cell>, mask: nat, b: nat) {
    && mask < Pow2(SIZE) && head == First(xs)
    && forall k: Key :: Open(k) && k.HashKey? ==>
        NoDup(xs) && forall j: nat :: j < |xs| ==> Linked(xs, cells, mask, b, j)
  }

  /** Every node is in the chain of its bucket. */
  ghost predicate Placed(cells: map<HNode, Cell>, mask: nat, chains: seq<Chain>)
    requires mask < Pow2(SIZE)
  {
    forall k: Key :: Open(k) && k.HashAllKey? ==>
      forall x :: x in cells ==>
          |cells[x].hash| == SIZE && Bucket(cells[x].hash, mask) < |chains| && x in chains[Bucket(cells[x].hash, mask)]
  }

  /** The buckets hold the nodes. */
  ghost predicate TableOK(heads: seq<HNode?>, cells: map<HNode, Cell>, mask: nat, chains: seq<Chain>) {
    && mask < Pow2(SIZE) && |heads| == |chains| == mask + 1 && Placed(cells, mask, chains)
    && forall k: Key :: Open(k) && k.HashAllKey? ==> forall b: nat :: b < |chains| ==>
        IsChain(chains[b], heads[b], cells, mask, b)
  }

  lemma {:induction false} ChainAt(heads: seq<HNode?>, cells: map<HNode, Cell>, mask: nat, chains: seq<Chain>, b: nat)
    requires TableOK(heads, cells, mask, chains) && b < |chains|
    ensures IsChain(chains[b], heads[b], cells, mask, b)
  {
    assert Open(HashAllKey);
  }

  lemma {:induction false} LinkAt(xs: Chain, head: HNode?, cells: map<HNode, Cell>, mask: nat, b: nat, j: nat)
    requires IsChain(xs, head, cells, mask, b) && j < |xs|
    ensures Linked(xs, cells, mask, b, j) && NoDup(xs)
  {
    assert Open(HashKey);
  }

  lemma {:induction false} PlaceOf(heads: seq<HNode?>, cells: map<HNode, Cell>, mask: nat, chains: seq<Chain>, x: HNode)
    requires TableOK(heads, cells, mask, chains)
    ensures x in cells ==>
        |cells[x].hash| == SIZE && Bucket(cells[x].hash, mask) < |chains| && x in chains[Bucket(cells[x].hash, mask)]
    ensures forall b: nat :: b < |chains| && x in chains[b] ==>
        x in cells && |cells[x].hash| == SIZE && Bucket(cells[x].hash, mask) == b
  {
    assert Open(HashAllKey);
    forall b: nat | b < |chains| && x in chains[b]
      ensures x in cells && |cells[x].hash| == SIZE && Bucket(cells[x].hash, mask) == b
    {
      var j :| 0 <= j < |chains[b]| && chains[b][j] == x;
      LinkAt(chains[b], heads[b], cells, mask, b, j);
    }
  }

  /** A chain whose nodes have not changed. */
  lemma {:induction false} SameChain(xs: Chain, head: HNode?, cells: map<HNode, Cell>, cells': map<HNode, Cell>,
                                     mask: nat, b: nat)
    requires IsChain(xs, head, cells, mask, b)
    requires forall x :: x in xs ==> x in cells && x in cells' && cells'[x] == cells[x]
    ensures IsChain(xs, head, cells', mask, b)
  {
    assert Open(HashKey);
    forall j: nat | j < |xs| ensures Linked(xs, cells', mask, b, j) {
      assert Linked(xs, cells, mask, b, j);
    }
  }

  // ---------- pushing ----------

  lemma {:induction false} PushChain(xs: Chain, head: HNode?, cells: map<HNode, Cell>, mask: nat, b: nat, node: HNode,
                                     hash: Path)
    requires IsChain(xs, head, cells, mask, b) && node !in cells && |hash| == SIZE && Bucket(hash, mask) == b
    ensures IsChain([node] + xs, node, cells[node := Cell(hash, head)], mask, b)
  {
    assert Open(HashKey);
    var ys, cells' := [node] + xs, cells[node := Cell(hash, head)];
    forall j: nat | j < |ys| ensures Linked(ys, cells', mask, b, j) {
      if j > 0 {
        assert Linked(xs, cells, mask, b, j - 1);
        assert ys[j + 1..] == xs[j..];
      } else {
        assert ys[1..] == xs;
      }
    }
    forall j: nat | j < |xs| ensures xs[j] != node {
      assert Linked(xs, cells, mask, b, j);
    }
  }

  /** hmap_insert_fast, on values. */
  lemma {:induction false} Push(heads: seq<HNode?>, cells: map<HNode, Cell>, mask: nat, chains: seq<Chain>, node: HNode,
                                hash: Path)
    requires TableOK(heads, cells, mask, chains) && node !in cells && |hash| == SIZE
    ensures var b := Bucket(hash, mask);
            b < |chains| && TableOK(heads[b := node], cells[node := Cell(hash, heads[b])], mask,
                chains[b := [node] + chains[b]])
  {
    var b := Bucket(hash, mask);
    var heads', cells', chains' := heads[b := node], cells[node := Cell(hash, heads[b])],
        chains[b := [node] + chains[b]];
    forall c: nat | c < |chains| ensures IsChain(chains'[c], heads'[c], cells', mask, c) {
      ChainAt(heads, cells, mask, chains, c);
      if c == b {
        PushChain(chains[b], heads[b], cells, mask, b, node, hash);
      } else {
        InCells(heads, cells, mask, chains, c);
        SameChain(chains[c], heads[c], cells, cells', mask, c);
      }
    }
    assert Placed(cells', mask, chains') by { assert Open(HashAllKey); }
    assert Open(HashAllKey);
  }

  lemma {:induction false} InCells(heads: seq<HNode?>, cells: map<HNode, Cell>, mask: nat, chains: seq<Chain>, b: nat)
    requires TableOK(heads, cells, mask, chains) && b < |chains|
    ensures forall x :: x in chains[b] ==> x in cells && |cells[x].hash| == SIZE && Bucket(cells[x].hash, mask) == b
  {
    forall x | x in chains[b] ensures x in cells && |cells[x].hash| == SIZE && Bucket(cells[x].hash, mask) == b {
      PlaceOf(heads, cells, mask, chains, x);
    }
  }

  // ---------- removing ----------

  /** The cells after node k of the chain was unlinked. */
  ghost function Unlinked(cells: map<HNode, Cell>, xs: Chain, k: nat): map<HNode, Cell>
    requires k < |xs| && (k > 0 ==> xs[k - 1] in cells)
  {
    (if k == 0 then cells else cells[xs[k - 1] := cells[xs[k - 1]].(next := First(xs[k + 1..]))]) - {xs[k]}
  }

  lemma {:induction false} CutLink(xs: Chain, cells: map<HNode, Cell>, mask: nat, b: nat, k: nat, j: nat)
    requires k < |xs| && j < |xs| && j != k && mask < Pow2(SIZE) && NoDup(xs) && Linked(xs, cells, mask, b, j)
        && (k > 0 ==> xs[k - 1] in cells)
    ensures Linked(RemoveAt(xs, k), Unlinked(cells, xs, k), mask, b, if j < k then j else j - 1)
  {
    CutRest(xs, k, j);
    assert xs[j] != xs[k] && (k > 0 && xs[j] == xs[k - 1] ==> j == k - 1);
  }

  /** What follows node j when node k has left the chain. */
  lemma {:induction false} CutRest(xs: Chain, k: nat, j: nat)
    requires k < |xs| && j < |xs| && j != k
    ensures var ys, n := RemoveAt(xs, k), if j < k then j else j - 1;
            n < |ys| && ys[n] == xs[j] && First(ys[n + 1..]) == First(xs[if j == k - 1 then k + 1 else j + 1..])
  {
    var ys, n := RemoveAt(xs, k), if j < k then j else j - 1;
    if j > k {
      assert ys[n + 1..] == xs[j + 1..];
    } else if j == k - 1 {
      assert ys[n + 1..] == xs[k + 1..];
    } else {
      assert ys[j + 1] == xs[j + 1];
    }
  }

  lemma {:induction false} CutChain(xs: Chain, head: HNode?, cells: map<HNode, Cell>, mask: nat, b: nat, k: nat)
    requires IsChain(xs, head, cells, mask, b) && k < |xs|
    ensures k > 0 ==> xs[k - 1] in cells
    ensures IsChain(RemoveAt(xs, k), if k == 0 then First(xs[1..]) else head, Unlinked(cells, xs, k), mask, b)
  {
    if k > 0 { LinkAt(xs, head, cells, mask, b, k - 1); }
    var ys, cells' := RemoveAt(xs, k), Unlinked(cells, xs, k);
    forall j: nat | j < |ys| ensures Linked(ys, cells', mask, b, j) {
      var i := if j < k then j else j + 1;
      LinkAt(xs, head, cells, mask, b, i);
      CutLink(xs, cells, mask, b, k, i);
    }
    LinkAt(xs, head, cells, mask, b, k);
    assert NoDup(ys);
    if k > 0 { assert ys[0] == xs[0]; } else { assert ys == xs[1..]; }
    assert Open(HashKey);
  }

  /** hmap_remove, on values. */
  lemma {:induction false} Cut(heads: seq<HNode?>, cells: map<HNode, Cell>, mask: nat, chains: seq<Chain>, b: nat,
                               k: nat)
    requires TableOK(heads, cells, mask, chains) && b < |chains| && k < |chains[b]|
    ensures k > 0 ==> chains[b][k - 1] in cells
    ensures var xs := chains[b];
            TableOK(if k == 0 then heads[b := First(xs[1..])] else heads, Unlinked(cells, xs, k), mask,
                chains[b := RemoveAt(xs, k)])
  {
    var xs := chains[b];
    ChainAt(heads, cells, mask, chains, b);
    CutChain(xs, heads[b], cells, mask, b, k);
    InCells(heads, cells, mask, chains, b);
    var heads' := if k == 0 then heads[b := First(xs[1..])] else heads;
    var cells', chains' := Unlinked(cells, xs, k), chains[b := RemoveAt(xs, k)];
    forall c: nat | c < |chains| ensures IsChain(chains'[c], heads'[c], cells', mask, c) {
      if c != b {
        ChainAt(heads, cells, mask, chains, c);
        InCells(heads, cells, mask, chains, c);
        SameChain(chains[c], heads[c], cells, cells', mask, c);
      }
    }
    forall x | x in cells' ensures |cells'[x].hash| == SIZE && Bucket(cells'[x].hash, mask) < |chains'|
        && x in chains'[Bucket(cells'[x].hash, mask)] {
      PlaceOf(heads, cells, mask, chains, x);
      if Bucket(cells[x].hash, mask) == b {
        var j :| 0 <= j < |xs| && xs[j] == x;
        assert RemoveAt(xs, k)[if j < k then j else j - 1] == x;
      }
    }
    assert Placed(cells', mask, chains') by { assert Open(HashAllKey); }
    assert Open(HashAllKey);
  }

  // ---------- the order of iteration ----------

  /** The nodes from bucket b on. */
  function FlatFrom(chains: seq<Chain>, b: nat): Chain
    requires b <= |chains|
    decreases |chains| - b
  {
    if b == |chains| then [] else chains[b] + FlatFrom(chains, b + 1)
  }

  /** The bucket of node x. */
  ghost function Home(cells: map<HNode, Cell>, mask: nat, x: HNode): int {
    if x in cells && |cells[x].hash| == SIZE && mask < Pow2(SIZE) then Bucket(cells[x].hash, mask) else -1
  }

  lemma {:induction false} HomeIs(heads: seq<HNode?>, cells: map<HNode, Cell>, mask: nat, chains: seq<Chain>, b: nat)
    requires TableOK(heads, cells, mask, chains) && b < |chains|
    ensures NoDup(chains[b]) && forall x :: x in chains[b] <==> Home(cells, mask, x) == b
  {
    ChainAt(heads, cells, mask, chains, b);
    assert NoDup(chains[b]) by { assert Open(HashKey); }
    forall x ensures x in chains[b] <==> Home(cells, mask, x) == b {
      PlaceOf(heads, cells, mask, chains, x);
    }
  }

  lemma {:induction false} JoinNoDup(xs: Chain, ys: Chain)
    requires NoDup(xs) && NoDup(ys) && forall x :: x in xs ==> x !in ys
    ensures NoDup(xs + ys)
  {
    var zs := xs + ys;
    forall i, j | 0 <= i < j < |zs| ensures zs[i] != zs[j] {
      if i < |xs| && j >= |xs| {
        assert zs[i] in xs && ys[j - |xs|] in ys;
      }
    }
  }

  /** Every node comes once. */
  lemma {:induction false} FlatNodes(heads: seq<HNode?>, cells: map<HNode, Cell>, mask: nat, chains: seq<Chain>, b: nat)
    requires TableOK(heads, cells, mask, chains) && b <= |chains|
    ensures NoDup(FlatFrom(chains, b))
    ensures forall x :: x in FlatFrom(chains, b) <==> Home(cells, mask, x) >= b
    decreases |chains| - b
  {
    if b < |chains| {
      FlatNodes(heads, cells, mask, chains, b + 1);
      HomeIs(heads, cells, mask, chains, b);
      JoinNoDup(chains[b], FlatFrom(chains, b + 1));
    }
  }

  /** Chain b of the map, from node j on, and the buckets after it. */
  lemma {:induction false} FlatTail(chains: seq<Chain>, b: nat, j: nat) returns (pre: Chain)
    requires b < |chains| && j <= |chains[b]|
    ensures FlatFrom(chains, 0) == pre + (chains[b][j..] + FlatFrom(chains, b + 1))
  {
    var front := FlatPrefix(chains, 0, b);
    var xs, rest := chains[b], FlatFrom(chains, b + 1);
    pre := front + xs[..j];
    assert front + (xs + rest) == pre + (xs[j..] + rest) by { assert xs == xs[..j] + xs[j..]; }
  }

  lemma {:induction false} FlatPrefix(chains: seq<Chain>, a: nat, b: nat) returns (pre: Chain)
    requires a <= b <= |chains|
    ensures FlatFrom(chains, a) == pre + FlatFrom(chains, b)
    decreases b - a
  {
    if a == b {
      pre := [];
    } else {
      var p := FlatPrefix(chains, a + 1, b);
      pre := chains[a] + p;
      assert chains[a] + (p + FlatFrom(chains, b)) == pre + FlatFrom(chains, b);
    }
  }

  /** Where a node that comes once stands. */
  lemma {:induction false} PlaceInOrder(xs: Chain, i: nat, pre: Chain, ys: Chain)
    requires NoDup(xs) && xs == pre + ys && ys != [] && i < |xs| && xs[i] == ys[0]
    ensures xs[i + 1..] == ys[1..]
  {
    assert xs[|pre|] == ys[0];
    assert i == |pre|;
    assert xs[|pre| + 1..] == ys[1..];
  }

  /** What follows node i of the order: the rest of its chain, and the buckets after it. */
  lemma {:induction false} NextInOrder(heads: seq<HNode?>, cells: map<HNode, Cell>, mask: nat, chains: seq<Chain>,
                                       i: nat)
    returns (b: nat, j: nat)
    requires TableOK(heads, cells, mask, chains) && i < |FlatFrom(chains, 0)|
    ensures var x := FlatFrom(chains, 0)[i];
            && x in cells && |cells[x].hash| == SIZE && b == Bucket(cells[x].hash, mask)
            && b < |chains| && j < |chains[b]|
            && chains[b][j] == x && cells[x].next == First(chains[b][j + 1..])
            && FlatFrom(chains, 0)[i + 1..] == chains[b][j + 1..] + FlatFrom(chains, b + 1)
  {
    var x := FlatFrom(chains, 0)[i];
    FlatNodes(heads, cells, mask, chains, 0);
    assert x in FlatFrom(chains, 0);
    assert Home(cells, mask, x) >= 0;
    b, j := SpotOf(heads, cells, mask, chains, x);
    var pre := FlatTail(chains, b, j);
    var ys := chains[b][j..] + FlatFrom(chains, b + 1);
    PlaceInOrder(FlatFrom(chains, 0), i, pre, ys);
    assert ys[1..] == chains[b][j + 1..] + FlatFrom(chains, b + 1);
  }

  lemma {:induction false} SpotOf(heads: seq<HNode?>, cells: map<HNode, Cell>, mask: nat, chains: seq<Chain>, x: HNode)
    returns (b: nat, j: nat)
    requires TableOK(heads, cells, mask, chains) && Home(cells, mask, x) >= 0
    ensures x in cells && |cells[x].hash| == SIZE && b == Bucket(cells[x].hash, mask)
    ensures b < |chains| && j < |chains[b]| && chains[b][j] == x && cells[x].next == First(chains[b][j + 1..])
  {
    PlaceOf(heads, cells, mask, chains, x);
    b := Bucket(cells[x].hash, mask);
    j :| j < |chains[b]| && chains[b][j] == x;
    ChainAt(heads, cells, mask, chains, b);
    LinkAt(chains[b], heads[b], cells, mask, b, j);
  }

  lemma {:induction false} NoDupSize(xs: Chain, nodes: set<HNode>)
    requires NoDup(xs) && forall x :: x in nodes <==> x in xs
    ensures |nodes| == |xs|
  {
    if xs == [] {
      assert nodes == {};
    } else {
      var y, ys := xs[|xs| - 1], xs[..|xs| - 1];
      assert xs == ys + [y];
      NoDupSize(ys, nodes - {y});
    }
  }

  /** What is left of the order from node off of bucket b on. */
  function Rest(chains: seq<Chain>, b: nat, off: nat): Chain {
    if b >= |chains| then [] else (if off <= |chains[b]| then chains[b][off..] else []) + FlatFrom(chains, b + 1)
  }

  // ---------- moving to other buckets ----------

  /** The nodes of the buckets before i and the first j of bucket i have been moved; the others are as they were,
      and no hash has changed. */
  ghost predicate Moving(cells: map<HNode, Cell>, now: map<HNode, Cell>, done: set<HNode>, chains: seq<Chain>,
                         mask: nat, i: nat, j: nat) {
    && now.Keys == cells.Keys && done <= cells.Keys && i <= |chains| && (i < |chains| ==> j <= |chains[i]|)
    && forall k: Key :: Open(k) && k.HashKey? ==> forall x :: x in cells ==>
        && (x in done <==> Home(cells, mask, x) < i || (i < |chains| && x in chains[i][..j]))
        && now[x].hash == cells[x].hash
        && (x !in done ==> now[x] == cells[x])
  }

  lemma {:induction false} MoveNext(heads: seq<HNode?>, cells: map<HNode, Cell>, now: map<HNode, Cell>,
                                    done: set<HNode>, chains: seq<Chain>,
                                    mask: nat, i: nat, j: nat)
    requires TableOK(heads, cells, mask, chains) && Moving(cells, now, done, chains, mask, i, j) && i < |chains|
        && j < |chains[i]|
    ensures var x := chains[i][j];
            x in cells && x !in done && |now[x].hash| == SIZE && now[x].next == First(chains[i][j + 1..])
  {
    var x := chains[i][j];
    ChainAt(heads, cells, mask, chains, i);
    LinkAt(chains[i], heads[i], cells, mask, i, j);
    assert Open(HashKey);
  }

  lemma {:induction false} Moved(heads: seq<HNode?>, cells: map<HNode, Cell>, now: map<HNode, Cell>,
                                 now': map<HNode, Cell>, done: set<HNode>,
                                 chains: seq<Chain>, mask: nat, i: nat, j: nat)
    requires TableOK(heads, cells, mask, chains) && Moving(cells, now, done, chains, mask, i, j) && i < |chains|
        && j < |chains[i]|
    requires now'.Keys == now.Keys && forall x :: x in now ==>
        now'[x].hash == now[x].hash && (x != chains[i][j] ==> now'[x] == now[x])
    ensures Moving(cells, now', done + {chains[i][j]}, chains, mask, i, j + 1)
  {
    MoveNext(heads, cells, now, done, chains, mask, i, j);
    assert chains[i][..j + 1] == chains[i][..j] + [chains[i][j]];
    assert Open(HashKey);
  }

  lemma {:induction false} MovedAll(heads: seq<HNode?>, cells: map<HNode, Cell>, now: map<HNode, Cell>,
                                    done: set<HNode>, chains: seq<Chain>,
                                    mask: nat, i: nat)
    requires TableOK(heads, cells, mask, chains) && i < |chains|
        && Moving(cells, now, done, chains, mask, i, |chains[i]|)
    ensures Moving(cells, now, done, chains, mask, i + 1, 0)
  {
    HomeIs(heads, cells, mask, chains, i);
    assert chains[i][..|chains[i]|] == chains[i];
    assert Open(HashKey);
  }

  lemma {:induction false} MoveStart(heads: seq<HNode?>, cells: map<HNode, Cell>, mask: nat, chains: seq<Chain>)
    requires TableOK(heads, cells, mask, chains)
    ensures Moving(cells, cells, {}, chains, mask, 0, 0)
  {
    forall x | x in cells ensures Home(cells, mask, x) >= 0 { PlaceOf(heads, cells, mask, chains, x); }
  }

  lemma {:induction false} MoveEnd(heads: seq<HNode?>, cells: map<HNode, Cell>, now: map<HNode, Cell>, done: set<HNode>,
                                   chains: seq<Chain>, mask: nat)
    requires TableOK(heads, cells, mask, chains) && Moving(cells, now, done, chains, mask, |chains|, 0)
    ensures done == cells.Keys && forall x :: x in cells ==> now[x].hash == cells[x].hash
  {
    assert Open(HashKey);
    forall x | x in cells ensures x in done { PlaceOf(heads, cells, mask, chains, x); }
  }

  function Max(a: nat, b: nat): nat {
    if a < b then b else a
  }

  function Min(a: nat, b: nat): nat {
    if a < b then a else b
  }

  /** node is the one to visit after these. */
  ghost predicate Upcoming(node: HNode?, visited: Chain, order: Chain) {
    visited <= order && node == if |visited| < |order| then order[|visited|] else null
  }

  // ---------- the map ----------

  class HMap {
    var buckets: array<HNode?>
    var mask: nat
    var n: nat
    ghost var nodes: set<HNode>
    ghost var chains: seq<Chain>

    ghost predicate Valid()
      reads this, buckets, nodes
    {
      IsMask(mask) && TableOK(buckets[..], Look(nodes), mask, chains) && n == |nodes|
    }

    /** The nodes in the order of iteration. */
    ghost function Order(): Chain
      reads this
    {
      FlatFrom(chains, 0)
    }

    /** hmap_init, and the buckets for a mask. */
    constructor (new_mask: nat)
      requires IsMask(new_mask)
      ensures Valid() && nodes == {} && mask == new_mask && fresh(buckets)
    {
      MaskFits(new_mask);
      buckets := new HNode?[new_mask + 1](_ => null);
      mask, n := new_mask, 0;
      nodes, chains := {}, seq(new_mask + 1, _ => []);
      new;
      Blank(buckets[..], mask, chains);
      assert Look({}) == map[];
    }

    ghost method Become(nodes': set<HNode>, chains': seq<Chain>, cells: map<HNode, Cell>, heads: seq<HNode?>)
      requires cells == Look(nodes') && heads == buckets[..] && TableOK(heads, cells, mask, chains') && IsMask(mask)
          && n == |nodes'|
      modifies this`nodes, this`chains
      ensures Valid() && nodes == nodes' && chains == chains'
    {
      nodes, chains := nodes', chains';
      assert Look(nodes) == cells;
    }

    /** node becomes the head of bucket b. */
    method Link(node: HNode, hash: Path, b: nat)
      requires b < buckets.Length
      modifies buckets, node
      ensures buckets[..] == old(buckets[..])[b := node] && node.hash == hash && node.next == old(buckets[b])
    {
      node.hash := hash;
      node.next := buckets[b];
      buckets[b] := node;
    }

    /** hmap_insert_fast. */
    method InsertFast(node: HNode, hash: Path)
      requires Valid() && node !in nodes && |hash| == SIZE
      modifies this, buckets, node
      ensures Valid() && nodes == old(nodes) + {node} && node.hash == hash
      ensures mask == old(mask) && buckets == old(buckets) && n == old(n) + 1
      ensures forall x :: x in old(nodes) ==> x.hash == old(x.hash)
    {
      ghost var cells, heads := Look(nodes), buckets[..];
      var b := Bucket(hash, mask);
      Push(heads, cells, mask, chains, node, hash);
      ghost var heads', cells', chains' := heads[b := node], cells[node := Cell(hash, heads[b])],
          chains[b := [node] + chains[b]];
      n := n + 1;
      Link(node, hash, b);
      LookGrown(nodes, cells, node);
      Become(nodes + {node}, chains', cells', heads');
    }

    /** hmap_swap, as far as this map goes. */
    method Take(tmp: HMap)
      requires tmp.Valid() && tmp != this
      modifies this
      ensures Valid() && nodes == tmp.nodes && mask == tmp.mask && n == tmp.n && buckets == tmp.buckets
    {
      ghost var cells := Look(tmp.nodes);
      buckets, mask, n := tmp.buckets, tmp.mask, tmp.n;
      Become(tmp.nodes, tmp.chains, cells, buckets[..]);
    }

    /** resize: every node goes to its bucket for the new mask. */
    method Resize(new_mask: nat)
      requires Valid() && IsMask(new_mask)
      modifies this, nodes
      ensures Valid() && nodes == old(nodes) && mask == new_mask && n == old(n) && fresh(buckets)
      ensures forall x :: x in nodes ==> x.hash == old(x.hash)
    {
      ghost var cells, heads := Look(nodes), buckets[..];
      var tmp := new HMap(new_mask);
      MoveStart(heads, cells, mask, chains);
      MoveChains(buckets, mask, tmp, nodes, cells, chains);
      MoveEnd(heads, cells, Look(nodes), tmp.nodes, chains, mask);
      Take(tmp);
    }

    /** hmap_expand. */
    method Expand()
      requires Valid() && n < Pow2(SIZE)
      modifies this, nodes
      ensures Valid() && nodes == old(nodes) && n == old(n)
      ensures n / 2 < Pow2(SIZE - 1) && mask == Max(old(mask), LeastMask(n / 2))
      ensures buckets == old(buckets) || fresh(buckets)
      ensures forall x :: x in nodes ==> x.hash == old(x.hash)
    {
      var new_mask := CalcMask(n);
      if new_mask > mask {
        Resize(new_mask);
      }
    }

    /** hmap_shrink. */
    method Shrink()
      requires Valid() && n < Pow2(SIZE)
      modifies this, nodes
      ensures Valid() && nodes == old(nodes) && n == old(n)
      ensures n / 2 < Pow2(SIZE - 1) && mask == Min(old(mask), LeastMask(n / 2))
      ensures forall x :: x in nodes ==> x.hash == old(x.hash)
    {
      var new_mask := CalcMask(n);
      if new_mask < mask {
        Resize(new_mask);
      }
    }

    /** hmap_reserve. */
    method Reserve(capacity: nat)
      requires Valid() && capacity < Pow2(SIZE)
      modifies this, nodes
      ensures Valid() && nodes == old(nodes) && n == old(n)
      ensures capacity / 2 < Pow2(SIZE - 1) && mask == Max(old(mask), LeastMask(capacity / 2))
      ensures forall x :: x in nodes ==> x.hash == old(x.hash)
    {
      var new_mask := CalcMask(capacity);
      if new_mask > mask {
        Resize(new_mask);
      }
    }

    /** hmap_insert: afterwards there are no more nodes than hmap_capacity, and only if there were the mask has grown,
        to the least one that will do. */
    method Insert(node: HNode, hash: Path)
      requires Valid() && node !in nodes && |hash| == SIZE && n + 1 < Pow2(SIZE)
      modifies this, buckets, nodes, node
      ensures Valid() && nodes == old(nodes) + {node} && node.hash == hash && n == old(n) + 1 && n <= 2 * mask + 1
      ensures n / 2 < Pow2(SIZE - 1)
      ensures mask == if n / 2 <= old(mask) then old(mask) else Max(old(mask), LeastMask(n / 2))
      ensures forall x :: x in old(nodes) ==> x.hash == old(x.hash)
    {
      InsertFast(node, hash);
      if n / 2 > mask {
        Expand();
      }
    }

    /** A node is in the chain of the bucket whose number is the remainder of its hash. */
    lemma {:induction false} NodeBucket(x: HNode)
      requires Valid() && x in nodes
      ensures |x.hash| == SIZE && Value(x.hash) % (mask + 1) < |chains| && x in chains[Value(x.hash) % (mask + 1)]
      ensures forall b: nat :: b < |chains| && x in chains[b] ==> b == Value(x.hash) % (mask + 1)
    {
      PlaceOf(buckets[..], Look(nodes), mask, chains, x);
      BucketIs(x.hash, mask);
    }

    // ---------- iteration ----------

    /** Every node comes exactly once in the order of iteration. */
    lemma {:induction false} EachOnce()
      requires Valid()
      ensures NoDup(Order()) && (forall x :: x in nodes <==> x in Order()) && |Order()| == n
    {
      var cells := Look(nodes);
      FlatNodes(buckets[..], cells, mask, chains, 0);
      forall x ensures x in nodes <==> x in Order() {
        PlaceOf(buckets[..], cells, mask, chains, x);
      }
      NoDupSize(Order(), nodes);
    }

    /** hmap_next__: the head of the first bucket from start on that is not empty. */
    method NextFrom(start: nat) returns (r: HNode?)
      requires Valid() && start <= mask + 1
      ensures start <= |chains| && r == First(FlatFrom(chains, start))
    {
      ghost var cells := Look(nodes);
      var i := start;
      while i <= mask
        invariant start <= i <= mask + 1 == |chains| && FlatFrom(chains, start) == FlatFrom(chains, i)
      {
        ChainAt(buckets[..], cells, mask, chains, i);
        if buckets[i] != null {
          return buckets[i];
        }
        assert chains[i] + FlatFrom(chains, i + 1) == FlatFrom(chains, i + 1);
        i := i + 1;
      }
      return null;
    }

    /** hmap_first. */
    method FirstNode() returns (r: HNode?)
      requires Valid()
      ensures r == First(Order())
    {
      r := NextFrom(0);
    }

    /** hmap_next, after node i of the order. */
    method NextNode(node: HNode, ghost i: nat) returns (r: HNode?)
      requires Valid() && i < |Order()| && Order()[i] == node
      ensures r == if i + 1 < |Order()| then Order()[i + 1] else null
    {
      ghost var b, j := NextInOrder(buckets[..], Look(nodes), mask, chains, i);
      if node.next != null {
        r := node.next;
      } else {
        assert chains[b][j + 1..] + FlatFrom(chains, b + 1) == FlatFrom(chains, b + 1);
        r := NextFrom(Bucket(node.hash, mask) + 1);
      }
    }

    /** HMAP_FOR_EACH: visit all nodes. */
    method ForEach() returns (visited: Chain)
      requires Valid()
      ensures visited == Order()
    {
      visited := [];
      ghost var order, cells, heads := Order(), Look(nodes), buckets[..];
      var node := FirstNode();
      while node != null
        invariant Look(nodes) == cells && buckets[..] == heads
        invariant Upcoming(node, visited, order)
        decreases |order| - |visited|
      {
        visited, node := Visit(node, visited, order);
      }
    }

    /** One turn of the loop. */
    method Visit(node: HNode, visited: Chain, ghost order: Chain) returns (visited': Chain, next: HNode?)
      requires Valid() && order == Order() && Upcoming(node, visited, order)
      ensures visited' == visited + [node] && Upcoming(next, visited', order)
    {
      next := NextNode(node, |visited|);
      visited' := visited + [node];
    }

    /** Node number off of bucket b, if its chain is that long. */
    method NodeAt(b: nat, off: nat) returns (r: HNode?)
      requires Valid() && b <= mask
      ensures b < |chains| && r == if off < |chains[b]| then chains[b][off] else null
    {
      ghost var xs := chains[b];
      ChainAt(buckets[..], Look(nodes), mask, chains, b);
      var n_idx := 0;
      r := buckets[b];
      while r != null
        invariant n_idx <= off && n_idx <= |xs| && r == First(xs[n_idx..])
        decreases |xs| - n_idx
      {
        if n_idx == off {
          return;
        }
        LinkAt(xs, buckets[b], Look(nodes), mask, b, n_idx);
        r := r.next;
        n_idx := n_idx + 1;
      }
    }

    /** hmap_at_position: the next node from a position on, and the position after it. */
    method AtPosition(bucket: nat, offset: nat) returns (r: HNode?, bucket': nat, offset': nat)
      requires Valid()
      ensures r == First(Rest(chains, bucket, offset))
      ensures r != null ==> Rest(chains, bucket', offset') == Rest(chains, bucket, offset)[1..]
      ensures r == null ==> bucket' == offset' == 0
    {
      ghost var rest := Rest(chains, bucket, offset);
      var off, b := offset, bucket;
      while b <= mask
        invariant Rest(chains, b, off) == rest
      {
        r, bucket', offset' := InBucket(b, off);
        if r != null {
          return;
        }
        off := 0;
        b := b + 1;
      }
      return null, 0, 0;
    }

    /** One turn of the loop: the node at the position in bucket b, if it is there. */
    method InBucket(b: nat, off: nat) returns (r: HNode?, bucket': nat, offset': nat)
      requires Valid() && b <= mask
      ensures r != null ==>
          r == First(Rest(chains, b, off)) && Rest(chains, bucket', offset') == Rest(chains, b, off)[1..]
      ensures r == null ==> Rest(chains, b, off) == Rest(chains, b + 1, 0)
    {
      r := NodeAt(b, off);
      RestAt(chains, b, off);
      bucket', offset' := 0, 0;
      if r != null {
        bucket', offset' := After(r, b, off);
      }
    }

    /** The position after node off of bucket b. */
    method After(node: HNode, ghost b: nat, off: nat) returns (bucket': nat, offset': nat)
      requires Valid() && b < |chains| && off < |chains[b]| && chains[b][off] == node
      ensures Rest(chains, bucket', offset') == Rest(chains, b, off)[1..]
    {
      ghost var xs := chains[b];
      ChainAt(buckets[..], Look(nodes), mask, chains, b);
      LinkAt(xs, buckets[b], Look(nodes), mask, b, off);
      assert Rest(chains, b, off)[1..] == xs[off + 1..] + FlatFrom(chains, b + 1);
      if node.next != null {
        return Bucket(node.hash, mask), off + 1;
      } else {
        NextBucket(chains, b);
        assert xs[off + 1..] + FlatFrom(chains, b + 1) == FlatFrom(chains, b + 1);
        return Bucket(node.hash, mask) + 1, 0;
      }
    }

    // ---------- searching ----------

    /** hmap_next_with_hash__: the first node with the hash from node j of its bucket on. */
    method NextWithHash(node: HNode?, hash: Path, ghost b: nat, ghost j: nat) returns (r: HNode?, ghost k: nat)
      requires Valid() && b < |chains| && j <= |chains[b]| && node == First(chains[b][j..])
      ensures j <= k <= |chains[b]| && r == First(chains[b][k..]) && (r != null ==> r.hash == hash)
      ensures forall l :: j <= l < k ==> chains[b][l].hash != hash
    {
      ghost var xs := chains[b];
      ChainAt(buckets[..], Look(nodes), mask, chains, b);
      r, k := node, j;
      while r != null && r.hash != hash
        invariant j <= k <= |xs| && r == First(xs[k..])
        invariant forall l :: j <= l < k ==> xs[l].hash != hash
        decreases |xs| - k
      {
        LinkAt(xs, buckets[b], Look(nodes), mask, b, k);
        r := r.next;
        k := k + 1;
      }
    }

    /** hmap_first_with_hash: a node with the hash, if there is one. */
    method FirstWithHash(hash: Path) returns (r: HNode?)
      requires Valid() && |hash| == SIZE
      ensures r != null ==> r in nodes && r.hash == hash
      ensures r == null ==> forall x :: x in nodes ==> x.hash != hash
    {
      ghost var cells := Look(nodes);
      var b := Bucket(hash, mask);
      ChainAt(buckets[..], cells, mask, chains, b);
      ghost var k;
      r, k := NextWithHash(buckets[b], hash, b, 0);
      if r != null {
        PlaceOf(buckets[..], cells, mask, chains, r);
        assert r in chains[b];
      } else {
        forall x | x in nodes ensures x.hash != hash { PlaceOf(buckets[..], cells, mask, chains, x); }
      }
    }

    // ---------- removing ----------

    /** The link to node k of the chain of bucket b is passed on. */
    method Unlink(node: HNode, prev: HNode?, b: nat)
      requires b < buckets.Length && (prev == null ==> buckets[b] == node)
      modifies buckets, prev
      ensures prev == null ==> buckets[..] == old(buckets[..])[b := node.next]
      ensures prev != null ==>
          buckets[..] == old(buckets[..]) && prev.next == old(node.next) && prev.hash == old(prev.hash)
    {
      if prev == null {
        buckets[b] := node.next;
      } else {
        prev.next := node.next;
      }
    }

    /** hmap_remove. */
    method Remove(node: HNode)
      requires Valid() && node in nodes
      modifies this, buckets, nodes
      ensures Valid() && nodes == old(nodes) - {node} && n == old(n) - 1 && mask == old(mask) && buckets == old(buckets)
      ensures forall x :: x in nodes ==> x.hash == old(x.hash)
    {
      PlaceOf(buckets[..], Look(nodes), mask, chains, node);
      var b := Bucket(node.hash, mask);
      var prev: HNode?;
      ghost var k;
      prev, k := Before(node, b);
      TakeOut(node, prev, b, k);
    }

    /** Node k of bucket b leaves the map. */
    method TakeOut(node: HNode, prev: HNode?, b: nat, ghost k: nat)
      requires Valid() && b < |chains| && k < |chains[b]| && chains[b][k] == node
      requires prev == if k == 0 then null else chains[b][k - 1]
      modifies this, buckets, nodes
      ensures Valid() && nodes == old(nodes) - {node} && n == old(n) - 1 && mask == old(mask) && buckets == old(buckets)
      ensures forall x :: x in nodes ==> x.hash == old(x.hash)
    {
      ghost var cells, heads, xs := Look(nodes), buckets[..], chains[b];
      Cut(heads, cells, mask, chains, b, k);
      ChainAt(heads, cells, mask, chains, b);
      LinkAt(xs, heads[b], cells, mask, b, k);
      ghost var heads' := if k == 0 then heads[b := First(xs[1..])] else heads;
      ghost var cells', chains' := Unlinked(cells, xs, k), chains[b := RemoveAt(xs, k)];
      n := n - 1;
      Unlink(node, prev, b);
      LookCut(nodes, cells, xs, k);
      Become(nodes - {node}, chains', cells', heads');
    }

    /** The search of hmap_remove: the node before the given one in its chain, or NULL. */
    method Before(node: HNode, b: nat) returns (prev: HNode?, ghost k: nat)
      requires Valid() && b < |chains| && node in chains[b]
      ensures k < |chains[b]| && chains[b][k] == node && prev == if k == 0 then null else chains[b][k - 1]
    {
      ghost var cells, heads := Look(nodes), buckets[..];
      ghost var xs := chains[b];
      ghost var m: nat :| m < |xs| && xs[m] == node;
      ChainAt(heads, cells, mask, chains, b);
      prev, k := null, 0;
      var cur := buckets[b];
      while cur != node
        invariant k <= m && cur == xs[k] && prev == if k == 0 then null else xs[k - 1]
        decreases m - k
      {
        LinkAt(xs, heads[b], cells, mask, b, k);
        prev, cur := cur, cur.next;
        k := k + 1;
      }
    }
  }

  /** The loops of resize: the nodes of all buckets are inserted into tmp. */
  method MoveChains(buckets: array<HNode?>, mask: nat, tmp: HMap, ghost nodes: set<HNode>,
                    ghost cells: map<HNode, Cell>, ghost chains: seq<Chain>)
    requires TableOK(buckets[..], cells, mask, chains) && tmp.Valid() && buckets != tmp.buckets
    requires Moving(cells, Look(nodes), tmp.nodes, chains, mask, 0, 0)
    modifies tmp, tmp.buckets, nodes
    ensures tmp.Valid() && tmp.mask == old(tmp.mask) && tmp.buckets == old(tmp.buckets)
    ensures Moving(cells, Look(nodes), tmp.nodes, chains, mask, mask + 1, 0)
  {
    ghost var heads := buckets[..];
    var i := 0;
    while i <= mask
      invariant i <= mask + 1 && tmp.Valid() && tmp.mask == old(tmp.mask) && tmp.buckets == old(tmp.buckets)
          && buckets[..] == heads
      invariant Moving(cells, Look(nodes), tmp.nodes, chains, mask, i, 0)
    {
      MoveChain(buckets[i], tmp, nodes, cells, heads, chains, mask, i);
      i := i + 1;
    }
  }

  method MoveChain(head: HNode?, tmp: HMap, ghost nodes: set<HNode>, ghost cells: map<HNode, Cell>,
                   ghost heads: seq<HNode?>, ghost chains: seq<Chain>,
                   ghost mask: nat, ghost i: nat)
    requires TableOK(heads, cells, mask, chains) && tmp.Valid() && i < |chains| && head == heads[i]
    requires Moving(cells, Look(nodes), tmp.nodes, chains, mask, i, 0)
    modifies tmp, tmp.buckets, nodes
    ensures tmp.Valid() && tmp.mask == old(tmp.mask) && tmp.buckets == old(tmp.buckets)
    ensures Moving(cells, Look(nodes), tmp.nodes, chains, mask, i + 1, 0)
  {
    ghost var xs := chains[i];
    ghost var j: nat := 0;
    ChainAt(heads, cells, mask, chains, i);
    assert xs[0..] == xs;
    var node := head;
    while node != null
      invariant j <= |xs| && node == First(xs[j..]) && tmp.Valid() && tmp.mask == old(tmp.mask)
          && tmp.buckets == old(tmp.buckets)
      invariant Moving(cells, Look(nodes), tmp.nodes, chains, mask, i, j)
      decreases |xs| - j
    {
      assert node == xs[j];
      node := MoveNode(node, tmp, nodes, cells, heads, chains, mask, i, j);
      j := j + 1;
    }
    MovedAll(heads, cells, Look(nodes), tmp.nodes, chains, mask, i);
  }

  method MoveNode(node: HNode, tmp: HMap, ghost nodes: set<HNode>, ghost cells: map<HNode, Cell>,
                  ghost heads: seq<HNode?>, ghost chains: seq<Chain>,
                  ghost mask: nat, ghost i: nat, ghost j: nat)
    returns (next: HNode?)
    requires TableOK(heads, cells, mask, chains) && tmp.Valid() && i < |chains| && j < |chains[i]|
    requires Moving(cells, Look(nodes), tmp.nodes, chains, mask, i, j) && node == chains[i][j]
    modifies tmp, tmp.buckets, nodes
    ensures tmp.Valid() && tmp.mask == old(tmp.mask) && tmp.buckets == old(tmp.buckets) && node in nodes
    ensures next == First(chains[i][j + 1..])
    ensures Moving(cells, Look(nodes), tmp.nodes, chains, mask, i, j + 1)
  {
    ghost var now, done := Look(nodes), tmp.nodes;
    MoveNext(heads, cells, now, done, chains, mask, i, j);
    next := node.next;
    tmp.InsertFast(node, node.hash);
    Moved(heads, cells, now, Look(nodes), done, chains, mask, i, j);
  }

  lemma {:induction false} LookCut(nodes: set<HNode>, cells: map<HNode, Cell>, xs: Chain, k: nat)
    requires cells.Keys == nodes && k < |xs| && xs[k] in nodes && (k > 0 ==> xs[k - 1] in nodes && xs[k - 1] != xs[k])
    requires forall x :: x in nodes && !(k > 0 && x == xs[k - 1]) ==> cells[x] == Cell(x.hash, x.next)
    requires k > 0 ==> cells[xs[k - 1]].hash == xs[k - 1].hash && xs[k - 1].next == First(xs[k + 1..])
    ensures Look(nodes - {xs[k]}) == Unlinked(cells, xs, k)
  {
  }

  lemma {:induction false} LookGrown(nodes: set<HNode>, cells: map<HNode, Cell>, node: HNode)
    requires cells.Keys == nodes && node !in nodes && forall x :: x in nodes ==> cells[x] == Cell(x.hash, x.next)
    ensures Look(nodes + {node}) == cells[node := Cell(node.hash, node.next)]
  {
  }

  lemma {:induction false} RestAt(chains: seq<Chain>, b: nat, off: nat)
    requires b < |chains|
    ensures if off < |chains[b]| then First(Rest(chains, b, off)) == chains[b][off]
            else Rest(chains, b, off) == Rest(chains, b + 1, 0)
  {
    NextBucket(chains, b);
    if off >= |chains[b]| {
      assert Rest(chains, b, off) == FlatFrom(chains, b + 1);
    }
  }

  lemma {:induction false} NextBucket(chains: seq<Chain>, b: nat)
    requires b < |chains|
    ensures Rest(chains, b + 1, 0) == FlatFrom(chains, b + 1)
  {
    if b + 1 < |chains| {
      assert chains[b + 1][0..] == chains[b + 1];
    }
  }

  lemma {:induction false} MaskFits(mask: nat)
    requires IsMask(mask)
    ensures mask < Pow2(SIZE)
  {
    if mask > 0 {
      var k: nat :| 2 <= k < SIZE && mask == Pow2(k) - 1;
      Pow2Monotone(k, SIZE);
    }
  }

  lemma {:induction false} Blank(heads: seq<HNode?>, mask: nat, chains: seq<Chain>)
    requires mask < Pow2(SIZE) && |heads| == |chains| == mask + 1
    requires forall b :: 0 <= b < |heads| ==> heads[b] == null && chains[b] == []
    ensures TableOK(heads, map[], mask, chains)
  {
  }
}
