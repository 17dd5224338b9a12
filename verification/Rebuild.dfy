/** The steps of the two loops of _update_part that build a parent again. */
module Rebuild {
  import opened Bits
  import opened Forwarding
  import opened Nodes
  import opened Folding
  import opened Memory
  import opened Compile
  import opened Inodes
  import opened Versions
  import opened Succession
  import opened Splice
  import opened Pools
  import opened Requests

  /** The old node at p is stored in cell inode; below it, only slot j changes. */
  ghost predicate ParentAt(m: Mem, o: Version, rib: Routes, p: Path, j: nat, inode: int, node: Node) {
    && j < SLOTS && |p| + STRIDE <= KEYLENGTH && OnlyUnder(o.rib, rib, Slot(p, j))
    && Old(m, o) && inode >= 0 && OldCell(m, o, p, inode) && node == o.val[p]
  }

  /** The vector of the parent after slot j has changed. */
  ghost predicate NewVector(o: Version, rib: Routes, p: Path, j: nat, vec: Vec) {
    && |p| + STRIDE <= KEYLENGTH && p in o.val && j < SLOTS && |vec| == |o.val[p].vector| == SLOTS
    && vec[j] == !Constant(rib, Slot(p, j))
    && forall i :: 0 <= i < SLOTS && i != j ==> vec[i] == o.val[p].vector[i]
  }

  lemma {:induction false} NewVectorIs(m: Mem, o: Version, rib: Routes, p: Path, j: nat, inode: int, node: Node,
                                       vec: Vec)
    requires ParentAt(m, o, rib, p, j, inode, node) && NewVector(o, rib, p, j, vec)
    ensures vec == VecOf(rib, p)
  {
    forall i | 0 <= i < SLOTS ensures vec[i] == VecOf(rib, p)[i] {
      OldChild(m, o, p, inode, i);
      OldLeaf(m, o, p, inode, i);
      OldBit(m, o, p, inode, i);
      if i != j { ParentVec(o, rib, p, j, i); }
    }
  }

  lemma {:induction false} OldBit(m: Mem, o: Version, p: Path, inode: int, i: nat)
    requires Old(m, o) && inode >= 0 && OldCell(m, o, p, inode) && i < SLOTS
    ensures |p| + STRIDE <= KEYLENGTH && |o.val[p].vector| == SLOTS
    ensures o.val[p].vector[i] == VecOf(o.rib, p)[i]
  {
    assert Open(VersionKey);
    NotConstant(m, o.rib, o.val, o.ix, p);
    GoodChild(m, o.rib, o.ix, p, o.val[p], i);
  }

  /** The leaves of the parent are merged again: the value sleaf in slot j, the old ones elsewhere. */
  method MergeLeaves(pool: Pool, node: Node, vector: Vec, j: nat, sleaf: nat,
                     ghost o: Version, ghost rib: Routes, ghost p: Path, ghost inode: int)
    returns (leafvec: Vec, leaves: seq<nat>)
    requires pool.Valid() && ParentAt(pool.View(), o, rib, p, j, inode, node) && NewVector(o, rib, p, j, vector)
    requires !vector[j] ==> sleaf == Val(rib, Slot(p, j))
    ensures leafvec == RunVec(vector, ValsOf(rib, p)) && leaves == RunLeaves(vector, ValsOf(rib, p))
  {
    ghost var vals := ValsOf(rib, p);
    var w := Work(vector, seq(SLOTS, _ => node), Zeros(SLOTS), [], -1, 0);
    assert vector[..0] == [] && vals[..0] == [];
    assert w.leafvec == [] + Zeros(SLOTS);
    for i := 0 to SLOTS
      invariant Progress(w, vals, i) && w.vector == vector
    {
      if !vector[i] {
        var leaf := MergedLeaf(pool, node, vector, i, j, sleaf, o, rib, p, inode);
        ProgressLeaf(w, vals, i);
        w := WithLeaf(w, i, leaf);
        assert w.vector == vector;
      } else {
        ProgressChild(w, vals, i, w.children[i]);
        w := w.(children := w.children[i := w.children[i]], nvec := w.nvec + 1);
      }
    }
    FinishedWork(w, vals);
    leafvec, leaves := w.leafvec, w.leaves;
  }

  method MergedLeaf(pool: Pool, node: Node, vector: Vec, i: nat, j: nat, sleaf: nat,
                    ghost o: Version, ghost rib: Routes, ghost p: Path, ghost inode: int) returns (leaf: nat)
    requires pool.Valid() && ParentAt(pool.View(), o, rib, p, j, inode, node) && NewVector(o, rib, p, j, vector)
    requires i < SLOTS && !vector[i] && (!vector[j] ==> sleaf == Val(rib, Slot(p, j)))
    ensures leaf == ValsOf(rib, p)[i]
  {
    MergeStep(pool.View(), o, rib, p, j, inode, node, vector, i);
    if i == j {
      leaf := sleaf;
    } else {
      leaf := pool.leaves[node.base0 + Rank(node.leafvec, i) - 1];
    }
  }

  /** The leaf of another slot. */
  lemma {:induction false} MergeStep(m: Mem, o: Version, rib: Routes, p: Path, j: nat, inode: int, node: Node, vec: Vec,
                                     i: nat)
    requires ParentAt(m, o, rib, p, j, inode, node) && NewVector(o, rib, p, j, vec) && i < SLOTS && !vec[i]
    ensures |node.leafvec| == SLOTS
    ensures i != j ==> var c := node.base0 + Rank(node.leafvec, i) - 1; 0 <= c < |m.L| && m.L[c] == ValsOf(rib, p)[i]
  {
    OldLeaf(m, o, p, inode, i);
    if i != j { ParentVec(o, rib, p, j, i); }
  }

  /** The first i children have been gathered. */
  ghost predicate Gathered(o: Version, p: Path, j: nat, n: Node, vec: Vec, kids: seq<Node>, i: nat) {
    && |vec| == |kids| == SLOTS && j < SLOTS && kids[j] == n
    && forall k: Key :: Open(k) && k.WorkKey? ==>
        forall l :: 0 <= l < i && l < SLOTS && l != j && vec[l] ==> Slot(p, l) in o.val && kids[l] == o.val[Slot(p, l)]
  }

  lemma {:induction false} GatherStep(o: Version, p: Path, j: nat, n: Node, vec: Vec, kids: seq<Node>, i: nat,
                                      kid: Node)
    requires Gathered(o, p, j, n, vec, kids, i) && i < SLOTS
    ensures vec[i] && i != j && Slot(p, i) in o.val && kid == o.val[Slot(p, i)] ==>
        Gathered(o, p, j, n, vec, kids[i := kid], i + 1)
    ensures !vec[i] || i == j ==> Gathered(o, p, j, n, vec, kids, i + 1)
  {
    assert Open(WorkKey);
  }

  lemma {:induction false} GatheredAll(o: Version, p: Path, j: nat, n: Node, vec: Vec, kids: seq<Node>)
    requires Gathered(o, p, j, n, vec, kids, SLOTS)
    ensures Siblings(o, p, j, n, vec, kids)
  {
    assert Open(WorkKey);
  }

  /** The children of the parent: n in slot j, the old ones elsewhere. */
  method GatherChildren(pool: Pool, node: Node, vector: Vec, j: nat, n: Node,
                        ghost o: Version, ghost rib: Routes, ghost p: Path, ghost inode: int)
    returns (kids: seq<Node>)
    requires pool.Valid() && ParentAt(pool.View(), o, rib, p, j, inode, node) && NewVector(o, rib, p, j, vector)
    ensures Siblings(o, p, j, n, vector, kids)
  {
    kids := seq(SLOTS, _ => n);
    for i := 0 to SLOTS
      invariant Gathered(o, p, j, n, vector, kids, i)
    {
      if vector[i] && i != j {
        var kid := OldKid(pool, node, i, o, rib, p, j, inode);
        GatherStep(o, p, j, n, vector, kids, i, kid);
        kids := kids[i := kid];
      } else {
        GatherStep(o, p, j, n, vector, kids, i, n);
      }
    }
    GatheredAll(o, p, j, n, vector, kids);
  }

  method OldKid(pool: Pool, node: Node, i: nat, ghost o: Version, ghost rib: Routes, ghost p: Path, ghost j: nat,
                ghost inode: int)
    returns (kid: Node)
    requires pool.Valid() && ParentAt(pool.View(), o, rib, p, j, inode, node) && i < SLOTS
    requires |node.vector| == SLOTS && node.vector[i]
    ensures Slot(p, i) in o.val && kid == o.val[Slot(p, i)]
  {
    OldChild(pool.View(), o, p, inode, i);
    kid := pool.nodes[node.base1 + Rank(node.vector, i) - 1];
  }

  /** The parent is a new node with new blocks. */
  lemma {:induction false} NewParent(m0: Mem, m: Mem, m': Mem, o: Version, rib: Routes, p: Path, j: nat, n: Node,
                                     inode: int, node: Node,
                                     kids: seq<Node>, val: NodeMap, ix: Cells, n': Node, k1: nat, k0: nat)
    requires ParentAt(m, o, rib, p, j, inode, node) && NewVector(o, rib, p, j, n'.vector)
        && Siblings(o, p, j, n, n'.vector, kids)
    requires Part1(m0, m, rib, Slot(p, j), n, val, ix)
    requires n'.leafvec == RunVec(n'.vector, ValsOf(rib, p))
    requires var leaves := RunLeaves(n'.vector, ValsOf(rib, p));
             var packed := Pick(n'.vector, kids);
             && Got(m.AN, |m.N|, n'.base1, k1, |packed|) && Got(m.AL, |m.L|, n'.base0, k0, |leaves|)
             && m' == WithNode(m, p, n'.base1, k1, packed, n'.base0, k0, leaves)
    requires |p| == TOP || !Constant(rib, p)
    ensures Count(n'.vector) > 0 ==> n'.base1 >= 0
    ensures var q := Slot(p, j);
            Piece(m0, m', rib, p, n', WholeVal(o, p, q, val)[p := n'],
                WholeIx(o, p, q, ix) + KidCells(p, n'.vector, n'.base1))
  {
    NewVectorIs(m, o, rib, p, j, inode, node, n'.vector);
    WholeBuilding(m0, m, o, rib, p, j, n, n'.vector, kids, val, ix);
    FinishNode(m0, m, m', rib, p, kids, WholeVal(o, p, Slot(p, j), val), WholeIx(o, p, Slot(p, j), ix), n', k1, k0);
  }

  // ---------- vertical compression ----------

  /** A leaf in slot j of p that was a leaf before: the added route v below it has changed nothing. */
  lemma {:induction false} LeafUnchanged(rib: Routes, rib': Routes, v: Path, q: Path)
    requires OnlyUnder(rib, rib', v) && Extends(v, q) && |q| < |v| <= KEYLENGTH && Constant(rib, q) && Constant(rib', q)
    ensures forall a :: |a| == KEYLENGTH ==> Fwd(rib, a) == Fwd(rib', a)
  {
    var a := Last(q + [!v[|q|]]);
    assert a[..|q|] == q && a[|q|] == !v[|q|];
    assert !Extends(a, v) by { assert a[..|v|][|q|] == a[|q|]; }
    assert Under(a, q);
    forall b | |b| == KEYLENGTH ensures Fwd(rib, b) == Fwd(rib', b) {
      if Extends(b, v) {
        ExtendsTrans(b, v, q);
        assert Under(b, q);
      }
    }
  }

  lemma {:induction false} ForwardsAlike(rib: Routes, rib': Routes, x: Path)
    requires forall a :: |a| == KEYLENGTH ==> Fwd(rib, a) == Fwd(rib', a)
    ensures Same(rib, rib', x)
  {
  }

  /** The bit and the leaves of the parent when slot j has become a leaf with value leaf. */
  lemma {:induction false} ClearedVector(m: Mem, o: Version, rib: Routes, p: Path, j: nat, inode: int, node: Node)
    requires ParentAt(m, o, rib, p, j, inode, node)
    ensures |node.vector| == SLOTS && node.vector[j] == !Constant(o.rib, Slot(p, j))
    ensures Constant(rib, Slot(p, j)) ==> NewVector(o, rib, p, j, node.vector[j := false])
    ensures !Constant(rib, Slot(p, j)) ==> NewVector(o, rib, p, j, node.vector[j := true])
  {
    OldBit(m, o, p, inode, j);
  }

  /** The node at p is a single leaf exactly when forwarding is constant at p. */
  lemma {:induction false} CollapsesIff(m: Mem, o: Version, rib: Routes, p: Path, j: nat, inode: int, node: Node,
                                        vec: Vec)
    requires ParentAt(m, o, rib, p, j, inode, node) && NewVector(o, rib, p, j, vec)
    ensures var leaves := RunLeaves(vec, ValsOf(rib, p));
            && (Constant(rib, p) <==> Count(vec) == 0 && |leaves| == 1)
            && (Constant(rib, p) ==> leaves == [Val(rib, p)])
  {
    NewVectorIs(m, o, rib, p, j, inode, node, vec);
    SingleLeaf(rib, p);
  }

  /** In the branch where slot j was a leaf before, the leaves come out as they were and p stays. */
  lemma {:induction false} NothingChanged(m: Mem, o: Version, rib: Routes, v: Path, p: Path, j: nat, inode: int,
                                          node: Node)
    requires ParentAt(m, o, rib, p, j, inode, node) && NewVector(o, rib, p, j, node.vector) && !node.vector[j]
    requires OnlyUnder(o.rib, rib, v) && Extends(v, Slot(p, j)) && |Slot(p, j)| < |v| <= KEYLENGTH
    ensures RunVec(node.vector, ValsOf(rib, p)) == node.leafvec
    ensures |p| == TOP || !Constant(rib, p)
    ensures forall a :: |a| == KEYLENGTH ==> Fwd(o.rib, a) == Fwd(rib, a)
  {
    OldBit(m, o, p, inode, j);
    LeafUnchanged(o.rib, rib, v, Slot(p, j));
    ForwardsAlike(o.rib, rib, p);
    SameVec(o.rib, rib, p);
    SameConstant(o.rib, rib, p);
    assert Trees(m, o.rib, o.val, o.ix) by { assert Open(VersionKey); }
    NotConstant(m, o.rib, o.val, o.ix, p);
    assert node.leafvec == RunVec(node.vector, ValsOf(o.rib, p)) by { assert Open(GoodKey); }
  }

  // ---------- _update_part_loop1 ----------

  /** The part at q: a leaf with value sleaf, or the pending node n. */
  ghost predicate Pending(m0: Mem, m: Mem, rib: Routes, q: Path, vcomp: bool, sleaf: nat, n: Node, val: NodeMap,
                          ix: Cells) {
    && |q| <= KEYLENGTH && |q| >= TOP
    && if vcomp then Forest(m0, m, rib, map[], map[]) && Constant(rib, q) && sleaf == Val(rib, q)
       else Piece(m0, m, rib, q, n, val, ix)
  }

  /** The parent is at p, on the way to the added route v. */
  ghost predicate OnWay(o: Version, rib: Routes, v: Path, p: Path, j: nat) {
    && j < SLOTS && AtNode(p) && OnlyUnder(o.rib, rib, v) && |v| <= KEYLENGTH && |p| + STRIDE < |v|
    && Extends(v, Slot(p, j))
  }

  lemma {:induction false} ParentOnWay(m0: Mem, m: Mem, o: Version, rib: Routes, v: Path, p: Path, j: nat, inode: int)
    requires Trie(m0, o) && Grown(m0, m) && MemOK(m) && OnWay(o, rib, v, p, j) && p in o.ix && o.ix[p] == inode
    ensures p in o.val && inode < |m.N| && m.N[inode] == o.val[p]
    ensures ParentAt(m, o, rib, p, j, inode, o.val[p])
  {
    TrieParts(m0, o);
    OldGrown(m0, m, o);
    StoredAt(m0, o.val, o.ix, p);
    assert Stored(m, o.val, o.ix) by { assert Open(VersionKey); }
    StoredAt(m, o.val, o.ix, p);
    UnderLonger(o.rib, rib, v, Slot(p, j));
  }

  lemma {:induction false} UnderLonger(rib: Routes, rib': Routes, v: Path, q: Path)
    requires OnlyUnder(rib, rib', v) && Extends(v, q)
    ensures OnlyUnder(rib, rib', q)
  {
    forall a | |a| == KEYLENGTH && !Extends(a, q) ensures Fwd(rib, a) == Fwd(rib', a) {
      if Extends(a, v) { ExtendsTrans(a, v, q); }
    }
  }

  /** _update_part_loop1: the part in slot j of the node at p has become a leaf.  top says that the stack ends
      here. */
  method Loop1(pool: Pool, inode: int, j: nat, top: bool, sleaf: nat,
               ghost m0: Mem, ghost o: Version, ghost rib: Routes, ghost v: Path, ghost p: Path)
    returns (ret: int, vcomp: bool, n: Node, ghost val: NodeMap, ghost ix: Cells)
    requires pool.Valid() && Trie(m0, o) && OnWay(o, rib, v, p, j) && p in o.ix && o.ix[p] == inode
        && top == (|p| == TOP)
    requires Pending(m0, pool.View(), rib, Slot(p, j), true, sleaf, Node([], [], -1, -1), map[], map[])
    modifies pool.Repr(), pool.log
    ensures pool.Valid() && -1 <= ret <= 1
    ensures |pool.log.notes| == old(|pool.log.notes|) + if ret < 0 then 1 else 0
    ensures Told(old(pool.log.notes), pool.log.notes, ret >= 0, pool, m0, rib, p)
    ensures ret == 0 ==> Pending(m0, pool.View(), rib, p, vcomp, sleaf, n, val, ix) && (vcomp ==> !top)
    ensures ret == 1 ==>
              Forest(m0, pool.View(), rib, map[], map[]) && forall a :: |a| == KEYLENGTH ==>
                  Fwd(o.rib, a) == Fwd(rib, a)
  {
    ghost var m := pool.View();
    ghost var q := Slot(p, j);
    ret, vcomp, n, val, ix := 0, true, Node([], [], -1, -1), map[], map[];
    NothingTold(pool.log.notes, pool, m0, rib, p);
    ForestParts(m0, m, rib, map[], map[]);
    ParentOnWay(m0, m, o, rib, v, p, j, inode);
    var node := pool.nodes[inode];
    ClearedVector(m, o, rib, p, j, inode, node);
    var vector := node.vector[j := false];
    var leafvec, leaves := MergeLeaves(pool, node, vector, j, sleaf, o, rib, p, inode);
    CollapsesIff(m, o, rib, p, j, inode, node, vector);
    if node.vector[j] {
      if |leaves| != 1 || Count(vector) != 0 || top {
        vcomp := false;
        RunDecode(vector, ValsOf(rib, p), j);
        ret, n, val, ix := LeafParent(pool, node, vector, leafvec, leaves, j, m0, o, rib, p, inode);
      } else {
        SlotExtends(p, j);
        SlotVal(rib, p, j);
      }
    } else {
      assert vector == node.vector;
      NothingChanged(m, o, rib, v, p, j, inode, node);
      assert |leaves| != 1 || Count(vector) != 0 || top;
      vcomp := false;
      assert node.leafvec == leafvec;
      ret := 1;
    }
  }

  lemma {:induction false} SlotVal(rib: Routes, p: Path, j: nat)
    requires j < SLOTS && |p| + STRIDE <= KEYLENGTH && Constant(rib, p)
    ensures Val(rib, Slot(p, j)) == Val(rib, p)
  {
    ConstantBelow(rib, p, ToBits(j, STRIDE));
  }

  lemma {:induction false} TakenLeaves(m: Mem, b: int, k: nat, q: Path, leaves: seq<nat>)
    requires leaves != [] && Got(m.AL, |m.L|, b, k, |leaves|)
    ensures LeavesTaken(m, WithNode(m, q, -1, 0, [], b, k, leaves), q, |leaves|)
  {
    var m' := WithNode(m, q, -1, 0, [], b, k, leaves);
    assert b !in m.AL && b in m'.AL && m'.AL[b] == k && m'.AL == m.AL[b := m'.AL[b]] && m'.OL == m.OL[b := Kids(q)];
  }

  /** The parent at p has been built again but not stored. */
  lemma {:induction false} ParentRefused(ns0: seq<Note>, ns: seq<Note>, pool: Pool, m0: Mem, m: Mem, o: Version,
                                         rib: Routes, p: Path, j: nat, inode: int, node: Node, vec: Vec, val: NodeMap,
                                         ix: Cells)
    requires ParentAt(m, o, rib, p, j, inode, node) && NewVector(o, rib, p, j, vec)
    requires Forest(m0, m, rib, val, ix) && Beneath(val, p)
    requires StoreFails(ns0, ns, pool, m, p, Count(vec), |RunLeaves(vec, ValsOf(rib, p))|)
    requires ns[|ns0|].mem != m ==> |p| == TOP || !Constant(rib, p)
    ensures Told(ns0, ns, false, pool, m0, rib, p)
  {
    NewVectorIs(m, o, rib, p, j, inode, node, vec);
    assert Trees(m, o.rib, o.val, o.ix) by { assert Open(VersionKey); }
    NotConstant(m, o.rib, o.val, o.ix, p);
    StoreTold(ns0, ns, pool, m0, m, rib, p, val, ix);
  }

  /** New blocks for the leaves and the children of the node at p. */
  method StoreBoth(pool: Pool, vector: Vec, kids: seq<Node>, leaves: seq<nat>, ghost p: Path)
    returns (ok: bool, base1: int, base0: int, ghost k1: nat, ghost k0: nat)
    requires pool.Valid() && |vector| == |kids| && leaves != []
    modifies pool.Repr(), pool.log
    ensures pool.Valid()
    ensures ok ==> pool.log.notes == old(pool.log.notes)
    ensures !ok ==> StoreFails(old(pool.log.notes), pool.log.notes, pool, old(pool.View()), p, Count(vector), |leaves|)
    ensures ok ==>
              && Got(old(pool.View()).AN, |old(pool.View()).N|, base1, k1, Count(vector))
              && Got(old(pool.View()).AL, |old(pool.View()).L|, base0, k0, |leaves|)
              && pool.View() == WithNode(old(pool.View()), p, base1, k1, Pick(vector, kids), base0, k0, leaves)
  {
    ghost var m := pool.View();
    ok, base1, k1 := false, -1, 0;
    base0, k0 := StoreLeaves(pool, leaves, p);
    if base0 < 0 {
      return;
    }
    TakenLeaves(m, base0, k0, p, leaves);
    base1, k1 := StoreChildren(pool, vector, kids, Count(vector), p);
    ok := Count(vector) == 0 || base1 >= 0;
  }

  /** The parent keeps its other children and has a leaf in slot j. */
  method LeafParent(pool: Pool, node: Node, vector: Vec, leafvec: Vec, leaves: seq<nat>, j: nat,
                    ghost m0: Mem, ghost o: Version, ghost rib: Routes, ghost p: Path, ghost inode: int)
    returns (ret: int, n: Node, ghost val: NodeMap, ghost ix: Cells)
    requires pool.Valid() && ParentAt(pool.View(), o, rib, p, j, inode, node) && NewVector(o, rib, p, j, vector)
    requires Forest(m0, pool.View(), rib, map[], map[]) && Constant(rib, Slot(p, j))
    requires leafvec == RunVec(vector, ValsOf(rib, p)) && leaves == RunLeaves(vector, ValsOf(rib, p)) && leaves != []
    requires |p| == TOP || !Constant(rib, p)
    modifies pool.Repr(), pool.log
    ensures pool.Valid() && -1 <= ret <= 0
    ensures |pool.log.notes| == old(|pool.log.notes|) + if ret < 0 then 1 else 0
    ensures Told(old(pool.log.notes), pool.log.notes, ret >= 0, pool, m0, rib, p)
    ensures ret == 0 ==> Piece(m0, pool.View(), rib, p, n, val, ix)
  {
    ghost var m := pool.View();
    ghost var q := Slot(p, j);
    ret, n, val, ix := -1, node, map[], map[];
    var kids := GatherChildren(pool, node, vector, j, node, o, rib, p, inode);
    var ok, base1, base0, k1, k0 := StoreBoth(pool, vector, kids, leaves, p);
    if !ok {
      ParentRefused(old(pool.log.notes), pool.log.notes, pool, m0, m, o, rib, p, j, inode, node, vector, map[], map[]);
      return;
    }
    NothingTold(pool.log.notes, pool, m0, rib, p);
    n := Node(leafvec, vector, base0, base1);
    LeafIsPart(m0, m, rib, q, node);
    NewParent(m0, m, pool.View(), o, rib, p, j, node, inode, node, kids, map[], map[], n, k1, k0);
    val, ix := WholeVal(o, p, q, map[])[p := n], WholeIx(o, p, q, map[]) + KidCells(p, vector, base1);
    ret := 0;
  }

  // ---------- _update_part_loop2: a leaf becomes a child ----------

  lemma {:induction false} StillParent(m: Mem, m': Mem, o: Version, rib: Routes, p: Path, j: nat, inode: int,
                                       node: Node)
    requires ParentAt(m, o, rib, p, j, inode, node) && Grown(m, m') && MemOK(m')
    ensures ParentAt(m', o, rib, p, j, inode, node)
  {
    OldGrown(m, m', o);
    assert Stored(m', o.val, o.ix) by { assert Open(VersionKey); }
    StoredAt(m', o.val, o.ix, p);
  }

  lemma {:induction false} TakenNGrown(m: Mem, b: nat, k: nat, o: Owner)
    requires MemOK(m) && FreeBlock(m.AN, |m.N|, b, k) && (o.Root? ==> k == 0 && |o.p| == TOP)
    ensures Grown(m, TakenN(m, b, k, o)) && MemOK(TakenN(m, b, k, o))
  {
    WithKidsGrown(m, b, k, o, []);
    assert Write(m.N, b, []) == m.N;
    assert WithKids(m, b, k, o, []) == TakenN(m, b, k, o);
  }

  lemma {:induction false} StillTaken(m: Mem, o: Version, rib: Routes, p: Path, j: nat, inode: int, node: Node, b: nat,
                                      k: nat)
    requires ParentAt(m, o, rib, p, j, inode, node) && FreeBlock(m.AN, |m.N|, b, k)
    ensures ParentAt(TakenN(m, b, k, Kids(p)), o, rib, p, j, inode, node)
  {
    assert MemOK(m) by { assert Open(VersionKey); }
    TakenNGrown(m, b, k, Kids(p));
    StillParent(m, TakenN(m, b, k, Kids(p)), o, rib, p, j, inode, node);
  }

  /** New blocks for the node at p, when the block for its children has been taken. */
  method StoreRest(pool: Pool, base1: nat, vector: Vec, kids: seq<Node>, leaves: seq<nat>, ghost m: Mem,
                   ghost k1: nat, ghost p: Path)
    returns (base0: int, ghost k0: nat)
    requires pool.Valid() && |vector| == |kids| && Got(m.AN, |m.N|, base1, k1, Count(vector)) && Count(vector) > 0
    requires pool.View() == TakenN(m, base1, k1, Kids(p))
    modifies pool.Repr(), pool.log
    ensures pool.Valid()
    ensures if leaves != [] && base0 < 0 then
              StoreFails(old(pool.log.notes), pool.log.notes, pool, m, p, Count(vector), |leaves|)
            else
              && pool.log.notes == old(pool.log.notes) && Got(m.AL, |m.L|, base0, k0, |leaves|)
              && pool.View() == WithNode(m, p, base1, k1, Pick(vector, kids), base0, k0, leaves)
  {
    TakenKids(m, base1, k1, p, Count(vector));
    base0, k0 := StoreLeaves(pool, leaves, p);
    if leaves != [] && base0 < 0 {
      return;
    }
    pool.PutChildren(base1, vector, kids);
    assert pool.View() == WithNode(m, p, base1, k1, Pick(vector, kids), base0, k0, leaves);
  }

  lemma {:induction false} PartBeneath(m0: Mem, m: Mem, rib: Routes, p: Path, j: nat, n: Node, val: NodeMap, ix: Cells)
    requires j < SLOTS && Part1(m0, m, rib, Slot(p, j), n, val, ix)
    ensures Forest(m0, m, rib, val, ix) && Beneath(val, p)
  {
    SlotExtends(p, j);
    forall x | x in val ensures Extends(x, p) && x != p { ExtendsTrans(x, Slot(p, j), p); }
  }

  /** The block for the children of the parent has been taken: merge its leaves and fill the blocks. */
  method PlaceParent(pool: Pool, node: Node, vector: Vec, kids: seq<Node>, base1: nat, j: nat, ghost n: Node,
                     ghost m0: Mem, ghost m: Mem, ghost o: Version, ghost rib: Routes, ghost p: Path, ghost inode: int,
                     ghost val: NodeMap, ghost ix: Cells, ghost k1: nat)
    returns (ret: int, n': Node, ghost val': NodeMap, ghost ix': Cells)
    requires pool.Valid() && ParentAt(m, o, rib, p, j, inode, node) && NewVector(o, rib, p, j, vector) && vector[j]
    requires Part1(m0, m, rib, Slot(p, j), n, val, ix) && Siblings(o, p, j, n, vector, kids) && !Constant(rib, p)
    requires Got(m.AN, |m.N|, base1, k1, Count(vector)) && pool.View() == TakenN(m, base1, k1, Kids(p))
    modifies pool.Repr(), pool.log
    ensures pool.Valid() && -1 <= ret <= 0
    ensures |pool.log.notes| == old(|pool.log.notes|) + if ret < 0 then 1 else 0
    ensures Told(old(pool.log.notes), pool.log.notes, ret >= 0, pool, m0, rib, p)
    ensures ret == 0 ==> Piece(m0, pool.View(), rib, p, n', val', ix')
  {
    ret, n', val', ix' := -1, node, map[], map[];
    SomeChild(vector, j);
    StillTaken(m, o, rib, p, j, inode, node, base1, k1);
    PartBeneath(m0, m, rib, p, j, n, val, ix);
    var leafvec, leaves := MergeLeaves(pool, node, vector, j, 0, o, rib, p, inode);
    var base0, k0 := StoreRest(pool, base1, vector, kids, leaves, m, k1, p);
    if |leaves| > 0 && base0 < 0 {
      ParentRefused(old(pool.log.notes), pool.log.notes, pool, m0, m, o, rib, p, j, inode, node, vector, val, ix);
      return;
    }
    NothingTold(pool.log.notes, pool, m0, rib, p);
    n' := Node(leafvec, vector, base0, base1);
    NewParent(m0, m, pool.View(), o, rib, p, j, n, inode, node, kids, val, ix, n', k1, k0);
    val', ix' := WholeVal(o, p, Slot(p, j), val)[p := n'], WholeIx(o, p, Slot(p, j), ix) + KidCells(p, vector, base1);
    ret := 0;
  }

  /** The parent gets the child n in slot j, where it had a leaf. */
  method ChildParent(pool: Pool, node: Node, j: nat, n: Node,
                     ghost m0: Mem, ghost o: Version, ghost rib: Routes, ghost p: Path, ghost inode: int,
                     ghost val: NodeMap, ghost ix: Cells)
    returns (ret: int, n': Node, ghost val': NodeMap, ghost ix': Cells)
    requires pool.Valid() && ParentAt(pool.View(), o, rib, p, j, inode, node) && |node.vector| == SLOTS
    requires NewVector(o, rib, p, j, node.vector[j := true]) && !Constant(rib, p)
    requires Part1(m0, pool.View(), rib, Slot(p, j), n, val, ix)
    modifies pool.Repr(), pool.log
    ensures pool.Valid() && -1 <= ret <= 0
    ensures |pool.log.notes| == old(|pool.log.notes|) + if ret < 0 then 1 else 0
    ensures Told(old(pool.log.notes), pool.log.notes, ret >= 0, pool, m0, rib, p)
    ensures ret == 0 ==> Piece(m0, pool.View(), rib, p, n', val', ix')
  {
    ghost var m := pool.View();
    ret, n', val', ix' := -1, node, map[], map[];
    var vector := node.vector[j := true];
    SomeChild(vector, j);
    var kids := GatherChildren(pool, node, vector, j, n, o, rib, p, inode);
    ghost var k1 := OrderFor(Count(vector));
    var base1 := pool.AllocNodes(OrderFor(Count(vector)), Kids(p));
    PartBeneath(m0, m, rib, p, j, n, val, ix);
    if base1 < 0 {
      ParentRefused(old(pool.log.notes), pool.log.notes, pool, m0, m, o, rib, p, j, inode, node, vector, val, ix);
      return;
    }
    ret, n', val', ix' := PlaceParent(pool, node, vector, kids, base1, j, n, m0, m, o, rib, p, inode, val, ix, k1);
  }

  lemma {:induction false} SomeChild(vec: Vec, j: nat)
    requires j < |vec| && vec[j]
    ensures Count(vec) > 0
  {
    CountZero(vec);
  }

  // ---------- _update_part_loop2: a child takes the place of a child ----------

  /** The children of the node at p have been copied to a new block; its leaves stay where they are. */
  lemma {:induction false} SameParent(m0: Mem, m: Mem, m': Mem, o: Version, rib: Routes, p: Path, j: nat, n: Node,
                                      inode: int, node: Node,
                                      kids: seq<Node>, val: NodeMap, ix: Cells, b: int, k: nat)
    requires ParentAt(m, o, rib, p, j, inode, node) && NewVector(o, rib, p, j, node.vector)
    requires Siblings(o, p, j, n, node.vector, kids) && Part1(m0, m, rib, Slot(p, j), n, val, ix)
    requires !Constant(o.rib, Slot(p, j)) && !Constant(rib, Slot(p, j))
    requires var packed := Pick(node.vector, kids);
             Got(m.AN, |m.N|, b, k, |packed|) && m' == WithNode(m, p, b, k, packed, -1, 0, [])
    ensures Count(node.vector) > 0 ==> b >= 0
    ensures var q, n' := Slot(p, j), node.(base1 := b);
            Piece(m0, m', rib, p, n', WholeVal(o, p, q, val)[p := n'],
                WholeIx(o, p, q, ix) + KidCells(p, node.vector, b))
  {
    var q, n' := Slot(p, j), node.(base1 := b);
    NewVectorIs(m, o, rib, p, j, inode, node, node.vector);
    WholeBuilding(m0, m, o, rib, p, j, n, node.vector, kids, val, ix);
    SlotExtends(p, j);
    AboveVec(o.rib, rib, q, p);
    SameNode(m0, m, m', o, rib, p, inode, kids, WholeVal(o, p, q, val), WholeIx(o, p, q, ix), b, k);
  }

  lemma {:induction false} SameNode(m0: Mem, m: Mem, m': Mem, o: Version, rib: Routes, p: Path, inode: int,
                                    kids: seq<Node>,
                                    val: NodeMap, ix: Cells, b: int, k: nat)
    requires Old(m, o) && inode >= 0 && OldCell(m, o, p, inode)
    requires |p| + STRIDE <= KEYLENGTH && !Constant(rib, p) && VecOf(rib, p) == VecOf(o.rib, p)
    requires RunVec(VecOf(o.rib, p), ValsOf(o.rib, p)) == RunVec(VecOf(o.rib, p), ValsOf(rib, p))
    requires RunLeaves(VecOf(o.rib, p), ValsOf(o.rib, p)) == RunLeaves(VecOf(o.rib, p), ValsOf(rib, p))
    requires Building(m0, m, rib, p, SLOTS, o.val[p].vector, kids, val, ix)
    requires var packed := Pick(o.val[p].vector, kids);
             Got(m.AN, |m.N|, b, k, |packed|) && m' == WithNode(m, p, b, k, packed, -1, 0, [])
    ensures Count(o.val[p].vector) > 0 ==> b >= 0
    ensures var node := o.val[p];
            Piece(m0, m', rib, p, node.(base1 := b), val[p := node.(base1 := b)], ix + KidCells(p, node.vector, b))
  {
    var node := o.val[p];
    var n' := node.(base1 := b);
    BuildingIs(m0, m, rib, p, SLOTS, node.vector, kids, val, ix);
    WithNodeGrown(m, p, b, k, Pick(node.vector, kids), -1, 0, []);
    OldBlocks(m, m', o, p, inode);
    NotBelowItself(val, ix, p, node.vector);
    NodeStored(m, m', rib, p, kids, val, ix, n');
    GrownTrans(m0, m, m');
    var cells := ix + KidCells(p, node.vector, b);
    SubMapPlus(ix, KidCells(p, node.vector, b));
    NewBlocksAccounted(m0, m, m', p, n', val, ix, cells);
    assert Forest(m0, m', rib, val[p := n'], cells) by { assert Open(ForestKey); }
    RootedPiece(m0, m', rib, p, n', val, cells);
  }

  /** The leaf block of the old node. */
  lemma {:induction false} OldBlocks(m: Mem, m': Mem, o: Version, p: Path, inode: int)
    requires Old(m, o) && inode >= 0 && OldCell(m, o, p, inode) && Grown(m, m')
    ensures |p| + STRIDE <= KEYLENGTH && Labelled(m', p, o.val[p])
    ensures var node := o.val[p];
            && node.vector == VecOf(o.rib, p) && node.leafvec == RunVec(node.vector, ValsOf(o.rib, p))
            && Block(m'.AL, node.base0, Count(node.leafvec))
                && LeavesAt(m'.L, node.base0, RunLeaves(node.vector, ValsOf(o.rib, p)))
            && (Count(node.vector) > 0 ==> node.base1 >= 0)
  {
    assert Trees(m, o.rib, o.val, o.ix) by { assert Open(VersionKey); }
    TreesGrown(m, m', o.rib, o.val, o.ix);
    NotConstant(m', o.rib, o.val, o.ix, p);
    assert Open(GoodKey);
  }
}
