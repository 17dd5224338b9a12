/** Rebuilding the parent of a part that has been compiled again. */
module Splice {
  import opened Bits
  import opened Forwarding
  import opened Nodes
  import opened Folding
  import opened Memory
  import opened Compile
  import opened Inodes
  import opened Versions
  import opened Succession

  // ---------- the siblings of a part ----------

  predicate BesideAt(x: Path, p: Path, q: Path) {
    Extends(x, p) && x != p && !Extends(x, q)
  }

  /** The nodes below p that are not at or below q. */
  function Beside(val: NodeMap, p: Path, q: Path): NodeMap {
    map x | x in val && BesideAt(x, p, q) :: val[x]
  }

  /** Their cells, without those of the children of p, which are copied to a new block. */
  function BesideCells(ix: Cells, p: Path, q: Path): Cells {
    map x | x in ix && BesideAt(x, p, q) && |x| > |p| + STRIDE :: ix[x]
  }

  lemma {:induction false} BesideKid(p: Path, q: Path, x: Path, i: nat)
    requires BesideAt(x, p, q) && |q| == |p| + STRIDE && |x| >= |q| && i < SLOTS
    ensures BesideAt(Slot(x, i), p, q) && |Slot(x, i)| > |p| + STRIDE
  {
    SlotExtends(x, i);
    ExtendsTrans(Slot(x, i), x, p);
    PrefixesNested(Slot(x, i), q, x);
  }

  lemma {:induction false} BesideDepth(m: Mem, rib: Routes, val: NodeMap, ix: Cells, p: Path, q: Path, x: Path)
    requires Trees(m, rib, val, ix) && p in val && x in val && BesideAt(x, p, q) && |q| == |p| + STRIDE
    ensures |x| >= |q|
  {
    NotConstant(m, rib, val, ix, p);
    NotConstant(m, rib, val, ix, x);
    ExtendsShort(x, p);
    DepthStep(|p|, |x|);
  }

  lemma {:induction false} BesideNode(m: Mem, o: Version, rib: Routes, p: Path, q: Path, x: Path)
    requires Trees(m, o.rib, o.val, o.ix) && p in o.val && |q| == |p| + STRIDE && OnlyUnder(o.rib, rib, q)
    requires x in o.val && BesideAt(x, p, q)
    ensures NodeOK(m, rib, BesideCells(o.ix, p, q), x, o.val[x])
  {
    BesideDepth(m, o.rib, o.val, o.ix, p, q, x);
    NotConstant(m, o.rib, o.val, o.ix, x);
    ExtendsShort(q, x);
    assert Extends(x, x);
    SameBeside(o.rib, rib, q, x);
    SameConstant(o.rib, rib, x);
    BesideSibling(m, o, rib, p, q, x);
  }

  lemma {:induction false} BesideSibling(m: Mem, o: Version, rib: Routes, p: Path, q: Path, x: Path)
    requires x in o.val && Good(m, o.rib, o.ix, x, o.val[x]) && Same(o.rib, rib, x) && |q| == |p| + STRIDE
    requires BesideAt(x, p, q) && |x| >= |q|
    ensures Good(m, rib, BesideCells(o.ix, p, q), x, o.val[x])
  {
    assert Open(GoodKey);
    SameVec(o.rib, rib, x);
    var n := o.val[x];
    forall i | 0 <= i < SLOTS && n.vector[i]
      ensures Slot(x, i) in BesideCells(o.ix, p, q) && BesideCells(o.ix, p, q)[Slot(x, i)] == o.ix[Slot(x, i)]
    {
      BesideKid(p, q, x, i);
    }
  }

  lemma {:induction false} BesideTrees(m: Mem, o: Version, rib: Routes, p: Path, q: Path)
    requires Trees(m, o.rib, o.val, o.ix) && p in o.val && |q| == |p| + STRIDE && OnlyUnder(o.rib, rib, q)
    ensures Trees(m, rib, Beside(o.val, p, q), BesideCells(o.ix, p, q))
  {
    forall x | x in Beside(o.val, p, q) ensures NodeOK(m, rib, BesideCells(o.ix, p, q), x, o.val[x]) {
      BesideNode(m, o, rib, p, q, x);
    }
    assert Open(TreesKey);
  }

  lemma {:induction false} BesideStored(m: Mem, o: Version, p: Path, q: Path)
    requires Stored(m, o.val, o.ix) && o.ix.Keys <= o.val.Keys
    ensures Stored(m, Beside(o.val, p, q), BesideCells(o.ix, p, q))
    ensures BesideCells(o.ix, p, q).Keys <= Beside(o.val, p, q).Keys
  {
    assert Open(StoredKey);
  }

  lemma {:induction false} BesideParented(m: Mem, o: Version, p: Path, q: Path)
    requires Trees(m, o.rib, o.val, o.ix) && Parented(o.val, TOP) && p in o.val && |q| == |p| + STRIDE
    ensures Parented(Beside(o.val, p, q), |p| + STRIDE)
  {
    forall x | x in Beside(o.val, p, q) && |x| != |p| + STRIDE
      ensures |p| + 2 * STRIDE <= |x| && x[..|x| - STRIDE] in Beside(o.val, p, q)
    {
      BesideDepth(m, o.rib, o.val, o.ix, p, q, x);
      NotConstant(m, o.rib, o.val, o.ix, x);
      NotConstant(m, o.rib, o.val, o.ix, p);
      NextDepth2(|p|, |x|);
      assert x[..|x| - STRIDE] in o.val by { assert Open(ParentKey); }
      UpOutside(x, q);
      assert x[..|x| - STRIDE][..|p|] == x[..|p|];
    }
    assert Open(ParentKey);
  }

  lemma {:induction false} NextDepth2(d: nat, e: nat)
    requires TOP <= d && d + STRIDE < e && (d - TOP) % STRIDE == 0 && (e - TOP) % STRIDE == 0
    ensures d + 2 * STRIDE <= e
  {
  }

  // ---------- the part and its siblings ----------

  /** What has been compiled for slot j of p: the pending node n with the nodes below it, or nothing when
      the slot has become a leaf. */
  ghost predicate Part1(m0: Mem, m: Mem, rib: Routes, q: Path, n: Node, val: NodeMap, ix: Cells) {
    && Forest(m0, m, rib, val, ix) && (forall x :: x in val ==> Extends(x, q)) && Parented(val, |q|) && q !in ix
    && |q| <= KEYLENGTH && (Constant(rib, q) ==> val == map[]) && (!Constant(rib, q) ==> q in val && val[q] == n)
  }

  lemma {:induction false} PieceIsPart(m0: Mem, m: Mem, rib: Routes, q: Path, n: Node, val: NodeMap, ix: Cells)
    requires Piece(m0, m, rib, q, n, val, ix) && |q| > TOP
    ensures Part1(m0, m, rib, q, n, val, ix) && !Constant(rib, q)
  {
    PieceParts(m0, m, rib, q, n, val, ix);
    NotConstant(m, rib, val, ix, q);
    assert Open(PieceKey);
  }

  lemma {:induction false} LeafIsPart(m0: Mem, m: Mem, rib: Routes, q: Path, n: Node)
    requires Forest(m0, m, rib, map[], map[]) && |q| <= KEYLENGTH && Constant(rib, q)
    ensures Part1(m0, m, rib, q, n, map[], map[])
  {
    assert Open(ParentKey);
  }

  /** The children of p: the old ones, and n in slot j. */
  ghost predicate Siblings(o: Version, p: Path, j: nat, n: Node, vec: Vec, kids: seq<Node>) {
    && |vec| == |kids| == SLOTS && j < SLOTS
    && (forall i :: 0 <= i < SLOTS && i != j && vec[i] ==> Slot(p, i) in o.val && kids[i] == o.val[Slot(p, i)])
    && kids[j] == n
  }

  ghost function WholeVal(o: Version, p: Path, q: Path, val: NodeMap): NodeMap {
    Beside(o.val, p, q) + val
  }

  ghost function WholeIx(o: Version, p: Path, q: Path, ix: Cells): Cells {
    BesideCells(o.ix, p, q) + ix
  }

  lemma {:induction false} WholeForest(m0: Mem, m: Mem, o: Version, rib: Routes, p: Path, q: Path, n: Node,
                                       val: NodeMap, ix: Cells)
    requires Old(m, o) && p in o.val && |q| == |p| + STRIDE && OnlyUnder(o.rib, rib, q)
    requires Part1(m0, m, rib, q, n, val, ix)
    ensures Forest(m0, m, rib, WholeVal(o, p, q, val), WholeIx(o, p, q, ix))
    ensures Parented(WholeVal(o, p, q, val), |p| + STRIDE)
  {
    assert Stored(m, o.val, o.ix) && Trees(m, o.rib, o.val, o.ix) && Parented(o.val, TOP) && MemOK(m)
        && o.ix.Keys <= o.val.Keys
      by { assert Open(VersionKey); }
    ForestParts(m0, m, rib, val, ix);
    BesideTrees(m, o, rib, p, q);
    BesideStored(m, o, p, q);
    BesideParented(m, o, p, q);
    TreesUnion(m, rib, Beside(o.val, p, q), BesideCells(o.ix, p, q), val, ix);
    StoredUnion(m, Beside(o.val, p, q), BesideCells(o.ix, p, q), val, ix);
    ParentedUnion(Beside(o.val, p, q), val, |q|);
    MoreAccounted(m0, m, Beside(o.val, p, q), BesideCells(o.ix, p, q), val, ix);
    assert Open(ForestKey);
  }

  lemma {:induction false} ForestParts(m0: Mem, m: Mem, rib: Routes, val: NodeMap, ix: Cells)
    requires Forest(m0, m, rib, val, ix)
    ensures Grown(m0, m) && MemOK(m) && ix.Keys <= val.Keys
    ensures Stored(m, val, ix) && Trees(m, rib, val, ix) && Accounted(m0, m, val, ix)
  {
    assert Open(ForestKey);
  }

  lemma {:induction false} MoreAccounted(m0: Mem, m: Mem, old': NodeMap, oldIx: Cells, val: NodeMap, ix: Cells)
    requires Accounted(m0, m, val, ix)
    ensures Accounted(m0, m, old' + val, oldIx + ix)
  {
    assert Open(AccountedKey);
    forall b | b in m.AN && b !in m0.AN ensures UsedN(m, old' + val, oldIx + ix, b) {
      assert UsedN(m, val, ix, b);
    }
    forall b | b in m.AL && b !in m0.AL ensures UsedL(m, old' + val, b) {
      assert UsedL(m, val, b);
    }
  }

  lemma {:induction false} WholeBelow(m: Mem, o: Version, p: Path, q: Path, val: NodeMap)
    requires Trees(m, o.rib, o.val, o.ix) && p in o.val && |q| == |p| + STRIDE && Extends(q, p)
    requires forall x :: x in val ==> Extends(x, q)
    ensures BelowSlots(WholeVal(o, p, q, val), p, SLOTS)
  {
    forall x | x in WholeVal(o, p, q, val) ensures Extends(x, p) && |p| + STRIDE <= |x| && SlotOf(x, |p|) < SLOTS {
      if x in val {
        ExtendsTrans(x, q, p);
      } else {
        BesideDepth(m, o.rib, o.val, o.ix, p, q, x);
      }
    }
  }

  /** The vector of the parent: only slot j may change. */
  lemma {:induction false} ParentVec(o: Version, rib: Routes, p: Path, j: nat, i: nat)
    requires j < SLOTS && OnlyUnder(o.rib, rib, Slot(p, j)) && |p| + STRIDE <= KEYLENGTH && i < SLOTS && i != j
    ensures VecOf(rib, p)[i] == VecOf(o.rib, p)[i] && ValsOf(rib, p)[i] == ValsOf(o.rib, p)[i]
    ensures Slot(p, i) != Slot(p, j)
  {
    SlotExtends(p, j);
    SlotOfSlot(p, j);
    SlotOfSlot(p, i);
    SlotsAbove(o.rib, rib, Slot(p, j), p, i);
  }

  lemma {:induction false} WholeSlots(m: Mem, o: Version, rib: Routes, p: Path, j: nat, n: Node, vec: Vec,
                                      kids: seq<Node>,
                                      val: NodeMap, ix: Cells)
    requires Siblings(o, p, j, n, vec, kids) && |p| + STRIDE <= KEYLENGTH && vec == VecOf(rib, p)
    requires var q := Slot(p, j);
             && OnlyUnder(o.rib, rib, q) && q !in ix && (!Constant(rib, q) ==> q in val && val[q] == n)
             && (forall x :: x in val ==> Extends(x, q)) && ix.Keys <= val.Keys
    ensures SlotsDone(rib, p, SLOTS, vec, kids, WholeVal(o, p, Slot(p, j), val), WholeIx(o, p, Slot(p, j), ix))
  {
    var q := Slot(p, j);
    forall i | 0 <= i < SLOTS && vec[i]
      ensures var x := Slot(p, i);
              x in WholeVal(o, p, q, val) && x !in WholeIx(o, p, q, ix) && WholeVal(o, p, q, val)[x] == kids[i]
    {
      var x := Slot(p, i);
      SlotExtends(p, i);
      if i != j {
        ParentVec(o, rib, p, j, i);
        ExtendsShort(x, q);
        assert x !in val;
      }
    }
  }

  /** All slots of p are decided again. */
  lemma {:induction false} WholeBuilding(m0: Mem, m: Mem, o: Version, rib: Routes, p: Path, j: nat, n: Node, vec: Vec,
                                         kids: seq<Node>,
                                         val: NodeMap, ix: Cells)
    requires Old(m, o) && p in o.val && Siblings(o, p, j, n, vec, kids) && OnlyUnder(o.rib, rib, Slot(p, j))
    requires Part1(m0, m, rib, Slot(p, j), n, val, ix) && |p| + STRIDE <= KEYLENGTH && vec == VecOf(rib, p)
    ensures Building(m0, m, rib, p, SLOTS, vec, kids, WholeVal(o, p, Slot(p, j), val), WholeIx(o, p, Slot(p, j), ix))
  {
    var q := Slot(p, j);
    assert Trees(m, o.rib, o.val, o.ix) by { assert Open(VersionKey); }
    ForestParts(m0, m, rib, val, ix);
    WholeForest(m0, m, o, rib, p, q, n, val, ix);
    SlotExtends(p, j);
    WholeBelow(m, o, p, q, val);
    WholeSlots(m, o, rib, p, j, n, vec, kids, val, ix);
    NotConstant(m, o.rib, o.val, o.ix, p);
    assert Open(BuildingKey);
  }
}
