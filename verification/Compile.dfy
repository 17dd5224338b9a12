/** Building one node from its slots: what the steps of _update_inode keep. */
module Compile {
  import opened Bits
  import opened Tiling
  import opened Forwarding
  import opened Nodes
  import opened Memory
  import opened Folding

  /** Everything in val lies below the first i slots of q. */
  ghost predicate BelowSlots(val: NodeMap, q: Path, i: nat) {
    forall p :: p in val ==> Extends(p, q) && |q| + STRIDE <= |p| && SlotOf(p, |q|) < i
  }

  /** The first i slots of q have been decided: slot j has a child, pending in kids[j], exactly when
      forwarding is not constant below it. */
  ghost predicate SlotsDone(rib: Routes, q: Path, i: nat, vec: Vec, kids: seq<Node>, val: NodeMap, ix: Cells)
    requires |q| + STRIDE <= KEYLENGTH
  {
    && |vec| == |kids| == SLOTS
    && forall j :: 0 <= j < i && j < SLOTS ==>
        && (vec[j] <==> !Constant(rib, Slot(q, j)))
        && (vec[j] ==> Slot(q, j) in val && Slot(q, j) !in ix && val[Slot(q, j)] == kids[j])
  }

  ghost predicate Building(m0: Mem, m: Mem, rib: Routes, q: Path, i: nat, vec: Vec, kids: seq<Node>, val: NodeMap,
                           ix: Cells) {
    && AtNode(q) && i <= SLOTS && |vec| == |kids| == SLOTS
    && forall k: Key :: Open(k) && k.BuildingKey? ==>
        && Forest(m0, m, rib, val, ix) && BelowSlots(val, q, i) && SlotsDone(rib, q, i, vec, kids, val, ix)
        && Parented(val, |q| + STRIDE)
  }

  /** A forest whose only pending root is the node n at p. */
  ghost predicate Piece(m0: Mem, m: Mem, rib: Routes, p: Path, n: Node, val: NodeMap, ix: Cells) {
    forall k: Key :: Open(k) && k.PieceKey? ==>
      && Forest(m0, m, rib, val, ix)
      && (forall q :: q in val ==> Extends(q, p))
      && p in val && val[p] == n && p !in ix && Parented(val, |p|)
  }

  lemma {:induction false} StartBuilding(m: Mem, rib: Routes, q: Path, vec: Vec, kids: seq<Node>)
    requires MemOK(m) && AtNode(q) && |vec| == |kids| == SLOTS
    ensures Building(m, m, rib, q, 0, vec, kids, map[], map[])
  {
    assert Open(BuildingKey);
    EmptyForest(m, rib);
  }

  lemma {:induction false} ApartSlots(q: Path, i: nat, val: NodeMap, val': NodeMap)
    requires BelowSlots(val, q, i) && i < SLOTS && forall p :: p in val' ==> Extends(p, Slot(q, i))
    ensures val.Keys !! val'.Keys && BelowSlots(val + val', q, i + 1)
  {
    forall p | p in val' ensures Extends(p, q) && |q| + STRIDE <= |p| && SlotOf(p, |q|) == i {
      SlotExtends(q, i);
      ExtendsTrans(p, Slot(q, i), q);
      SlotUnder(p, q, i);
    }
  }

  lemma {:induction false} ChildSlotDone(rib: Routes, q: Path, i: nat, vec: Vec, kids: seq<Node>,
                                         val: NodeMap, ix: Cells, n: Node, val': NodeMap, ix': Cells)
    requires |q| + STRIDE <= KEYLENGTH && i < SLOTS
    requires SlotsDone(rib, q, i, vec, kids, val, ix) && vec[i] && !Constant(rib, Slot(q, i))
    requires val.Keys !! val'.Keys && ix.Keys <= val.Keys && ix'.Keys <= val'.Keys
    requires Slot(q, i) in val' && val'[Slot(q, i)] == n && Slot(q, i) !in ix'
    ensures SlotsDone(rib, q, i + 1, vec, kids[i := n], val + val', ix + ix')
  {
    forall j | 0 <= j < i + 1 && vec[j]
      ensures Slot(q, j) in val + val' && Slot(q, j) !in ix + ix' && (val + val')[Slot(q, j)] == kids[i := n][j]
    {
    }
  }

  lemma {:induction false} PieceRoot(m0: Mem, m: Mem, rib: Routes, p: Path, n: Node, val: NodeMap, ix: Cells)
    requires Piece(m0, m, rib, p, n, val, ix)
    ensures NodeOK(m, rib, ix, p, n)
    ensures |p| > TOP ==> !Constant(rib, p)
  {
    assert Open(PieceKey) && Open(ForestKey) && Open(TreesKey);
  }

  lemma {:induction false} ParentedUnion(val: NodeMap, val': NodeMap, d: nat)
    requires Parented(val, d) && Parented(val', d)
    ensures Parented(val + val', d)
  {
    assert Open(ParentKey);
  }

  /** Slot i gets a child. */
  lemma {:induction false} ChildSlot(m0: Mem, m: Mem, m': Mem, rib: Routes, q: Path, i: nat, vec: Vec, kids: seq<Node>,
                                     val: NodeMap, ix: Cells, n: Node, val': NodeMap, ix': Cells)
    requires Building(m0, m, rib, q, i, vec, kids, val, ix) && i < SLOTS && vec[i]
    requires Piece(m, m', rib, Slot(q, i), n, val', ix')
    ensures Building(m0, m', rib, q, i + 1, vec, kids[i := n], val + val', ix + ix')
  {
    assert Open(BuildingKey) && Open(PieceKey) && Open(ForestKey);
    ApartSlots(q, i, val, val');
    ForestUnion(m0, m, m', rib, val, ix, val', ix');
    PieceRoot(m, m', rib, Slot(q, i), n, val', ix');
    ChildSlotDone(rib, q, i, vec, kids, val, ix, n, val', ix');
    ParentedUnion(val, val', |q| + STRIDE);
  }

  lemma {:induction false} NoNewNodes(m0: Mem, m: Mem, m': Mem, rib: Routes, val: NodeMap, ix: Cells)
    requires Forest(m0, m, rib, val, ix) && Forest(m, m', rib, map[], map[])
    ensures Forest(m0, m', rib, val, ix)
  {
    assert Open(ForestKey);
    PlusEmpty(val);
    PlusEmpty(ix);
    ForestUnion(m0, m, m', rib, val, ix, map[], map[]);
  }

  lemma {:induction false} PlusEmpty<V>(a: map<Path, V>)
    ensures a + map[] == a
  {
  }

  lemma {:induction false} LeafSlotDone(rib: Routes, q: Path, i: nat, vec: Vec, kids: seq<Node>, val: NodeMap,
                                        ix: Cells)
    requires |q| + STRIDE <= KEYLENGTH && i < SLOTS
    requires SlotsDone(rib, q, i, vec, kids, val, ix) && Constant(rib, Slot(q, i))
    ensures SlotsDone(rib, q, i + 1, vec[i := false], kids, val, ix)
  {
  }

  /** Slot i is a leaf. */
  lemma {:induction false} LeafSlot(m0: Mem, m: Mem, m': Mem, rib: Routes, q: Path, i: nat, vec: Vec, kids: seq<Node>,
                                    val: NodeMap, ix: Cells)
    requires Building(m0, m, rib, q, i, vec, kids, val, ix) && i < SLOTS
    requires Forest(m, m', rib, map[], map[]) && Constant(rib, Slot(q, i))
    ensures Building(m0, m', rib, q, i + 1, vec[i := false], kids, val, ix)
  {
    assert Open(BuildingKey);
    NoNewNodes(m0, m, m', rib, val, ix);
    LeafSlotDone(rib, q, i, vec, kids, val, ix);
  }

  // ---------- the finished node ----------

  /** The memory after the children and leaves of the node have been stored. */
  ghost function WithNode(m: Mem, q: Path, b1: int, k1: nat, kids: seq<Node>, b0: int, k0: nat, leaves: seq<nat>): Mem
    requires kids != [] ==> b1 >= 0 && b1 + |kids| <= |m.N|
    requires leaves != [] ==> b0 >= 0 && b0 + |leaves| <= |m.L|
  {
    var m1 := if kids == [] then m else WithKids(m, b1, k1, Kids(q), kids);
    if leaves == [] then m1 else WithLeaves(m1, b0, k0, Kids(q), leaves)
  }

  /** The blocks that were requested for n entries. */
  ghost predicate Got(a: Ranges, size: nat, b: int, k: nat, n: nat) {
    if n == 0 then b == -1 else b >= 0 && LeastOrder(n, k) && FreeBlock(a, size, b, k)
  }

  lemma {:induction false} WithNodeGrown(m: Mem, q: Path, b1: int, k1: nat, kids: seq<Node>, b0: int, k0: nat,
                                         leaves: seq<nat>)
    requires MemOK(m) && Got(m.AN, |m.N|, b1, k1, |kids|) && Got(m.AL, |m.L|, b0, k0, |leaves|)
    ensures var m' := WithNode(m, q, b1, k1, kids, b0, k0, leaves);
            && Grown(m, m') && MemOK(m')
            && Block(m'.AN, b1, |kids|) && Block(m'.AL, b0, |leaves|) && LeavesAt(m'.L, b0, leaves)
            && (kids != [] ==> m'.N[b1..b1 + |kids|] == kids)
            && Labelled(m', q, Node([], [], b0, b1))
            && (forall b :: b in m'.AN ==> b in m.AN || b == b1)
            && (forall b :: b in m'.AL ==> b in m.AL || b == b0)
  {
    assert Open(MemOKKey);
    GrownRefl(m);
    var m1 := if kids == [] then m else WithKids(m, b1, k1, Kids(q), kids);
    if kids != [] { WithKidsGrown(m, b1, k1, Kids(q), kids); }
    if leaves != [] {
      WithLeavesGrown(m1, b0, k0, Kids(q), leaves);
      GrownTrans(m, m1, WithLeaves(m1, b0, k0, Kids(q), leaves));
    }
  }

  lemma {:induction false} AllSlots(rib: Routes, q: Path, vec: Vec, kids: seq<Node>, val: NodeMap, ix: Cells)
    requires |q| + STRIDE <= KEYLENGTH && SlotsDone(rib, q, SLOTS, vec, kids, val, ix)
    ensures vec == VecOf(rib, q)
  {
  }

  /** The node is a single leaf exactly when forwarding is constant at q. */
  lemma {:induction false} SingleLeaf(rib: Routes, q: Path)
    requires |q| + STRIDE <= KEYLENGTH
    ensures Constant(rib, q) <==> Count(VecOf(rib, q)) == 0 && |RunLeaves(VecOf(rib, q), ValsOf(rib, q))| == 1
    ensures Constant(rib, q) ==> RunLeaves(VecOf(rib, q), ValsOf(rib, q)) == [Val(rib, q)]
  {
    var vec, vals := VecOf(rib, q), ValsOf(rib, q);
    SlotsConstant(rib, q);
    CountZero(vec);
    if Count(vec) == 0 {
      SingleRun(vec, vals);
      assert Constant(rib, q) <==> forall i :: 0 <= i < SLOTS ==> vals[i] == vals[0];
    }
    if Constant(rib, q) {
      assert Count(vec) == 0;
      assert vals[0] == Val(rib, q);
    }
  }

  lemma {:induction false} CountZero(v: Vec)
    ensures Count(v) == 0 <==> forall i :: 0 <= i < |v| ==> !v[i]
  {
    if v != [] {
      CountZero(v[..|v| - 1]);
      if Count(v) == 0 {
        forall i | 0 <= i < |v| ensures !v[i] {
          if i < |v| - 1 { assert v[..|v| - 1][i] == v[i]; }
        }
      }
    }
  }

  lemma {:induction false} NotBelowItself(val: NodeMap, ix: Cells, q: Path, vec: Vec)
    requires BelowSlots(val, q, SLOTS) && ix.Keys <= val.Keys && |vec| == SLOTS
    requires forall j :: 0 <= j < SLOTS && vec[j] ==> Slot(q, j) !in ix
    ensures q !in val && q !in ix && KidSet(q, vec) !! ix.Keys
  {
  }

  lemma {:induction false} NewBlocksAccounted(m0: Mem, m: Mem, m': Mem, q: Path, n: Node, val: NodeMap, ix: Cells,
                                              cells: Cells)
    requires Accounted(m0, m, val, ix) && Grown(m, m') && MemOK(m) && Labelled(m', q, n) && q !in val
    requires forall b :: b in m'.AN ==> b in m.AN || b == n.base1
    requires forall b :: b in m'.AL ==> b in m.AL || b == n.base0
    requires SubMap(ix, cells)
    ensures Accounted(m0, m', val[q := n], cells)
  {
    assert Open(AccountedKey) && Open(GrownKey) && Open(MemOKKey);
    forall b | b in m'.AN && b !in m0.AN ensures UsedN(m', val[q := n], cells, b) {
      if b in m.AN { assert UsedN(m, val, ix, b); }
    }
    forall b | b in m'.AL && b !in m0.AL ensures UsedL(m', val[q := n], b) {
      if b in m.AL { assert UsedL(m, val, b); }
    }
  }

  lemma {:induction false} AddTree(m: Mem, rib: Routes, val: NodeMap, ix: Cells, q: Path, n: Node)
    requires Trees(m, rib, val, ix) && NodeOK(m, rib, ix, q, n)
    ensures Trees(m, rib, val[q := n], ix)
  {
    assert Open(TreesKey);
  }

  /** Storing the children and leaves finishes the node. */
  lemma {:induction false} FinishNode(m0: Mem, m: Mem, m': Mem, rib: Routes, q: Path, kids: seq<Node>, val: NodeMap,
                                      ix: Cells,
                                      n: Node, k1: nat, k0: nat)
    requires Building(m0, m, rib, q, SLOTS, n.vector, kids, val, ix)
    requires n.leafvec == RunVec(n.vector, ValsOf(rib, q))
    requires var leaves := RunLeaves(n.vector, ValsOf(rib, q));
             var packed := Pick(n.vector, kids);
             && Got(m.AN, |m.N|, n.base1, k1, |packed|) && Got(m.AL, |m.L|, n.base0, k0, |leaves|)
             && m' == WithNode(m, q, n.base1, k1, packed, n.base0, k0, leaves)
    requires |q| == TOP || !Constant(rib, q)
    ensures Count(n.vector) > 0 ==> n.base1 >= 0
    ensures Piece(m0, m', rib, q, n, val[q := n], ix + KidCells(q, n.vector, n.base1))
  {
    var leaves := RunLeaves(n.vector, ValsOf(rib, q));
    var packed := Pick(n.vector, kids);
    RunCount(n.vector, ValsOf(rib, q));
    BuildingIs(m0, m, rib, q, SLOTS, n.vector, kids, val, ix);
    AllSlots(rib, q, n.vector, kids, val, ix);
    NotBelowItself(val, ix, q, n.vector);
    WithNodeGrown(m, q, n.base1, k1, packed, n.base0, k0, leaves);
    NodeStored(m, m', rib, q, kids, val, ix, n);
    GrownTrans(m0, m, m');
    var cells := ix + KidCells(q, n.vector, n.base1);
    SubMapPlus(ix, KidCells(q, n.vector, n.base1));
    NewBlocksAccounted(m0, m, m', q, n, val, ix, cells);
    assert Forest(m0, m', rib, val[q := n], cells) by { assert Open(ForestKey); }
    RootedPiece(m0, m', rib, q, n, val, cells);
  }

  lemma {:induction false} RootedPiece(m0: Mem, m: Mem, rib: Routes, q: Path, n: Node, val: NodeMap, ix: Cells)
    requires Forest(m0, m, rib, val[q := n], ix) && q !in ix && BelowSlots(val, q, SLOTS) && Parented(val, |q| + STRIDE)
    ensures Piece(m0, m, rib, q, n, val[q := n], ix)
  {
    assert Open(PieceKey);
    ParentedRoot(val, q, n);
  }

  lemma {:induction false} ParentedRoot(val: NodeMap, q: Path, n: Node)
    requires BelowSlots(val, q, SLOTS) && Parented(val, |q| + STRIDE)
    ensures Parented(val[q := n], |q|)
  {
    assert Open(ParentKey);
    forall x | x in val && |x| == |q| + STRIDE ensures x[..|x| - STRIDE] == q {
      assert Extends(x, q);
    }
  }

  lemma {:induction false} SubMapPlus(ix: Cells, cells: Cells)
    requires ix.Keys !! cells.Keys
    ensures SubMap(ix, ix + cells)
  {
  }

  lemma {:induction false} BuildingIs(m0: Mem, m: Mem, rib: Routes, q: Path, i: nat, vec: Vec, kids: seq<Node>,
                                      val: NodeMap, ix: Cells)
    requires Building(m0, m, rib, q, i, vec, kids, val, ix)
    ensures Forest(m0, m, rib, val, ix) && BelowSlots(val, q, i) && SlotsDone(rib, q, i, vec, kids, val, ix)
    ensures Parented(val, |q| + STRIDE)
    ensures Grown(m0, m) && MemOK(m) && ix.Keys <= val.Keys
    ensures Stored(m, val, ix) && Trees(m, rib, val, ix) && Accounted(m0, m, val, ix)
  {
    assert Open(BuildingKey) && Open(ForestKey);
  }

  lemma {:induction false} NodeStored(m: Mem, m': Mem, rib: Routes, q: Path, kids: seq<Node>, val: NodeMap, ix: Cells,
                                      n: Node)
    requires AtNode(q) && Trees(m, rib, val, ix) && Stored(m, val, ix) && ix.Keys <= val.Keys && Grown(m, m')
    requires BelowSlots(val, q, SLOTS) && SlotsDone(rib, q, SLOTS, n.vector, kids, val, ix)
    requires n.vector == VecOf(rib, q) && n.leafvec == RunVec(n.vector, ValsOf(rib, q))
    requires KidSet(q, n.vector) !! ix.Keys && q !in val
    requires Block(m'.AN, n.base1, Count(n.vector)) && Block(m'.AL, n.base0, Count(n.leafvec))
    requires LeavesAt(m'.L, n.base0, RunLeaves(n.vector, ValsOf(rib, q)))
    requires Count(n.vector) > 0 ==>
               0 <= n.base1 && n.base1 + Count(n.vector) <= |m'.N|
               && m'.N[n.base1..n.base1 + Count(n.vector)] == Pick(n.vector, kids)
    requires Labelled(m', q, n) && (|q| == TOP || !Constant(rib, q))
    ensures var cells := ix + KidCells(q, n.vector, n.base1);
            && Stored(m', val[q := n], cells) && Trees(m', rib, val[q := n], cells)
            && cells.Keys <= val[q := n].Keys && q !in cells
  {
    TreesGrown(m, m', rib, val, ix);
    StoredGrown(m, m', val, ix);
    StoreKids(m', rib, val, ix, q, n.vector, kids, n.base1);
    var cells := ix + KidCells(q, n.vector, n.base1);
    assert Good(m', rib, cells, q, n) by { assert Open(GoodKey); }
    AddTree(m', rib, val, cells, q, n);
    KidsKeys(q, n.vector, n.base1, val);
    StoredAdd(m', val, cells, q, n);
  }

  lemma {:induction false} KidsKeys(q: Path, vec: Vec, b: int, val: NodeMap)
    requires |vec| == SLOTS && (Count(vec) > 0 ==> b >= 0)
    requires forall j :: 0 <= j < SLOTS && vec[j] ==> Slot(q, j) in val
    ensures KidCells(q, vec, b).Keys <= val.Keys
  {
  }

  lemma {:induction false} StoredAdd(m: Mem, val: NodeMap, ix: Cells, q: Path, n: Node)
    requires Stored(m, val, ix) && ix.Keys <= val.Keys && q !in val
    ensures Stored(m, val[q := n], ix) && ix.Keys <= val[q := n].Keys && q !in ix
  {
    assert Open(StoredKey);
  }

  // ---------- a node that is compressed to a leaf ----------

  ghost function DropL(m: Mem, b: nat): Mem {
    m.(AL := m.AL - {b}, OL := m.OL - {b})
  }

  /** Forwarding is constant at q: nothing but the leaf block of n has been allocated. */
  ghost predicate Compressed(m0: Mem, m: Mem, rib: Routes, q: Path, n: Node, leaf: nat) {
    forall k: Key :: Open(k) && k.CompressedKey? ==>
      && |q| <= KEYLENGTH && Constant(rib, q) && leaf == Val(rib, q)
      && n.base0 >= 0 && n.base0 in m.AL && MemOK(m)
      && Forest(m0, DropL(m, n.base0), rib, map[], map[])
  }

  lemma {:induction false} NotConstant(m: Mem, rib: Routes, val: NodeMap, ix: Cells, p: Path)
    requires Trees(m, rib, val, ix) && p in val
    ensures AtNode(p) && NodeOK(m, rib, ix, p, val[p])
    ensures |p| == TOP || !Constant(rib, p)
  {
    assert Open(TreesKey);
  }

  lemma {:induction false} NothingBelowConstant(m0: Mem, m: Mem, rib: Routes, q: Path, vec: Vec, kids: seq<Node>,
                                                val: NodeMap, ix: Cells)
    requires Building(m0, m, rib, q, SLOTS, vec, kids, val, ix) && Constant(rib, q)
    ensures val == map[] && ix == map[]
  {
    BuildingIs(m0, m, rib, q, SLOTS, vec, kids, val, ix);
    forall p | p in val ensures false {
      NotConstant(m, rib, val, ix, p);
      assert p == q + p[|q|..];
      ConstantBelow(rib, q, p[|q|..]);
    }
  }

  lemma {:induction false} CompressNode(m0: Mem, m: Mem, m': Mem, rib: Routes, q: Path, kids: seq<Node>, val: NodeMap,
                                        ix: Cells,
                                        n: Node, k1: nat, k0: nat)
    requires Building(m0, m, rib, q, SLOTS, n.vector, kids, val, ix)
    requires var leaves := RunLeaves(n.vector, ValsOf(rib, q));
             var packed := Pick(n.vector, kids);
             && Got(m.AN, |m.N|, n.base1, k1, |packed|) && Got(m.AL, |m.L|, n.base0, k0, |leaves|)
             && m' == WithNode(m, q, n.base1, k1, packed, n.base0, k0, leaves)
    requires Constant(rib, q)
    ensures Compressed(m0, m', rib, q, n, Val(rib, q))
  {
    BuildingIs(m0, m, rib, q, SLOTS, n.vector, kids, val, ix);
    AllSlots(rib, q, n.vector, kids, val, ix);
    SingleLeaf(rib, q);
    NothingBelowConstant(m0, m, rib, q, n.vector, kids, val, ix);
    LeafBlockOnly(m0, m, rib, n.base0, k0, Kids(q), [Val(rib, q)]);
    assert Open(CompressedKey);
  }

  lemma {:induction false} TakeDropL(m: Mem, b: nat, k: nat, o: Owner, xs: seq<nat>)
    requires MemOK(m) && FreeBlock(m.AL, |m.L|, b, k) && |xs| <= Pow2(k)
    ensures var m' := DropL(WithLeaves(m, b, k, o, xs), b); MemOK(m') && Grown(m, m') && m' == m.(L := m'.L)
  {
    WithLeavesGrown(m, b, k, o, xs);
    var m'' := DropL(WithLeaves(m, b, k, o, xs), b);
    OnlyFreshCells(m, b, k);
    assert m''.AL == m.AL && m''.OL == m.OL;
    assert MemOK(m'') by { assert Open(MemOKKey); }
    assert Grown(m, m'') by { assert Open(GrownKey); }
  }

  lemma {:induction false} LeafBlockOnly(m0: Mem, m: Mem, rib: Routes, b: nat, k: nat, o: Owner, xs: seq<nat>)
    requires Forest(m0, m, rib, map[], map[]) && FreeBlock(m.AL, |m.L|, b, k) && |xs| <= Pow2(k)
    ensures var m' := WithLeaves(m, b, k, o, xs);
            MemOK(m') && Forest(m0, DropL(m', b), rib, map[], map[])
  {
    assert Grown(m0, m) && MemOK(m) && Accounted(m0, m, map[], map[]) by { assert Open(ForestKey); }
    WithLeavesGrown(m, b, k, o, xs);
    TakeDropL(m, b, k, o, xs);
    var m'' := DropL(WithLeaves(m, b, k, o, xs), b);
    GrownTrans(m0, m, m'');
    assert Accounted(m0, m'', map[], map[]) by { assert Open(AccountedKey); }
    EmptyForest(m'', rib);
    assert Open(ForestKey);
  }
}
