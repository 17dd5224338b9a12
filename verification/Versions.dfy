/** Replacing a part of the compiled trie by a newly compiled one. */
module Versions {
  import opened Bits
  import opened Forwarding
  import opened Nodes
  import opened Folding
  import opened Memory
  import opened Compile
  import opened Inodes

  // ---------- the trie between updates ----------

  ghost predicate RootsOK(m: Mem, ix: Cells) {
    forall p :: p in ix && |p| == TOP ==> ix[p] in m.AN && ix[p] in m.ON && m.ON[ix[p]] == Root(p)
  }

  ghost predicate AllUsed(m: Mem, val: NodeMap, ix: Cells) {
    && (forall b :: b in m.AN ==> UsedN(m, val, ix, b))
    && (forall b :: b in m.AL ==> UsedL(m, val, b))
  }

  /** The memory holds the version o and nothing else. */
  ghost predicate Trie(m: Mem, o: Version) {
    forall k: Key :: Open(k) && k.TrieKey? ==>
      Old(m, o) && o.ix.Keys == o.val.Keys && RootsOK(m, o.ix) && AllUsed(m, o.val, o.ix)
  }

  function Up(x: Path): Path {
    if |x| >= STRIDE then x[..|x| - STRIDE] else []
  }

  lemma {:induction false} SlotOfUp(x: Path)
    requires |x| >= STRIDE
    ensures var u := Up(x); |u| == |x| - STRIDE && Extends(x, u) && Slot(u, SlotOf(x, |u|)) == x
  {
    var u := Up(x);
    SlotUnder(x, u, SlotOf(x, |u|));
    assert x[..|x|] == x;
  }

  /** The cell of a node that is not at depth d lies in the block of its parent. */
  ghost predicate InBlock(m: Mem, u: Path, b: int, c: nat) {
    b >= 0 && b in m.AN && b in m.ON && m.ON[b] == Kids(u) && b <= c < b + Pow2(m.AN[b])
  }

  lemma {:induction false} GoodKid(m: Mem, rib: Routes, ix: Cells, u: Path, n: Node, i: nat)
    requires NodeOK(m, rib, ix, u, n) && MemOK(m) && i < SLOTS && !Constant(rib, Slot(u, i))
    ensures |n.vector| == SLOTS && n.vector[i] && Slot(u, i) in ix && ix[Slot(u, i)] == n.base1 + Rank(n.vector, i) - 1
    ensures InBlock(m, u, n.base1, ix[Slot(u, i)])
  {
    GoodChild(m, rib, ix, u, n, i);
    RankBounds(n.vector, i);
    assert Block(m.AN, n.base1, Count(n.vector)) by { assert Open(GoodKey); }
  }

  lemma {:induction false} CellOwner(m: Mem, rib: Routes, val: NodeMap, ix: Cells, d: nat, x: Path)
    requires MemOK(m) && Trees(m, rib, val, ix) && Parented(val, d) && TOP <= d && x in val && |x| > d
    ensures |x| >= STRIDE && Up(x) in val && x in ix && InBlock(m, Up(x), val[Up(x)].base1, ix[x])
    ensures |val[Up(x)].vector| == SLOTS && val[Up(x)].vector[SlotOf(x, |Up(x)|)]
    ensures ix[x] == val[Up(x)].base1 + Rank(val[Up(x)].vector, SlotOf(x, |Up(x)|)) - 1
  {
    assert Up(x) in val && |x| >= STRIDE by { assert Open(ParentKey); }
    NotConstant(m, rib, val, ix, x);
    NotConstant(m, rib, val, ix, Up(x));
    SlotOfUp(x);
    GoodKid(m, rib, ix, Up(x), val[Up(x)], SlotOf(x, |Up(x)|));
  }

  /** A cell lies in one block only. */
  lemma {:induction false} OneOwner(m: Mem, b: nat, b': nat, c: nat)
    requires MemOK(m) && b in m.AN && b' in m.AN && b <= c < b + Pow2(m.AN[b]) && b' <= c < b' + Pow2(m.AN[b'])
    ensures b == b'
  {
    assert Open(MemOKKey);
  }

  // ---------- what an update leaves as it was ----------

  /** Only addresses under p are forwarded differently. */
  ghost predicate OnlyUnder(rib: Routes, rib': Routes, p: Path) {
    forall a :: |a| == KEYLENGTH && !Extends(a, p) ==> Fwd(rib, a) == Fwd(rib', a)
  }

  lemma {:induction false} AddOnlyUnder(rib: Routes, v: Path, n: nat, p: Path)
    requires v !in rib && Extends(v, p)
    ensures OnlyUnder(rib, rib[v := n], p)
  {
    forall a | |a| == KEYLENGTH && !Extends(a, p) ensures Fwd(rib, a) == Fwd(rib[v := n], a) {
      FwdAdd(rib, v, n, a);
      if Extends(a, v) { ExtendsTrans(a, v, p); }
    }
  }

  lemma {:induction false} SameBeside(rib: Routes, rib': Routes, p: Path, x: Path)
    requires OnlyUnder(rib, rib', p) && !Extends(x, p) && !Extends(p, x)
    ensures Same(rib, rib', x)
  {
    forall a | Under(a, x) ensures Fwd(rib, a) == Fwd(rib', a) {
      PrefixesNested(a, p, x);
      PrefixesNested(a, x, p);
    }
  }

  function Outside<V>(val: map<Path, V>, p: Path): map<Path, V> {
    map x | x in val && !Extends(x, p) :: val[x]
  }

  /** The nodes below p are replaced. */
  ghost function Next(o: Version, rib: Routes, p: Path, nv: NodeMap, ni: Cells): Version {
    Version(rib, Outside(o.val, p) + nv, Outside(o.ix, p) + ni)
  }

  /** What is needed of the new nodes below p: a node p that had a parent keeps its cell. */
  ghost predicate Fits(m: Mem, o: Version, rib: Routes, p: Path, nv: NodeMap, ni: Cells) {
    && Trees(m, rib, nv, ni) && ni.Keys == nv.Keys && (forall x :: x in nv ==> Extends(x, p))
    && (|p| > TOP ==> p in nv && p in o.ix && ni[p] == o.ix[p])
    && Parented(nv, if |p| > TOP then |p| else TOP)
  }

  /** A node beside p is as good as before. */
  lemma {:induction false} BesideOK(m: Mem, o: Version, rib: Routes, p: Path, nv: NodeMap, ni: Cells, x: Path)
    requires x in o.val && NodeOK(m, o.rib, o.ix, x, o.val[x]) && !Extends(x, p) && !Extends(p, x)
    requires OnlyUnder(o.rib, rib, p) && forall y :: y in ni ==> Extends(y, p)
    ensures NodeOK(m, rib, Next(o, rib, p, nv, ni).ix, x, o.val[x])
  {
    SameBeside(o.rib, rib, p, x);
    SameConstant(o.rib, rib, x);
    BesideGood(m, o, rib, p, nv, ni, x);
  }

  lemma {:induction false} KidBeside(p: Path, x: Path, i: nat)
    requires !Extends(x, p) && !Extends(p, x) && i < SLOTS
    ensures !Extends(Slot(x, i), p)
  {
    SlotExtends(x, i);
    PrefixesNested(Slot(x, i), x, p);
    PrefixesNested(Slot(x, i), p, x);
  }

  lemma {:induction false} BesideGood(m: Mem, o: Version, rib: Routes, p: Path, nv: NodeMap, ni: Cells, x: Path)
    requires x in o.val && Good(m, o.rib, o.ix, x, o.val[x]) && Same(o.rib, rib, x) && !Extends(x, p) && !Extends(p, x)
    requires forall y :: y in ni ==> Extends(y, p)
    ensures Good(m, rib, Next(o, rib, p, nv, ni).ix, x, o.val[x])
  {
    assert Open(GoodKey);
    SameVec(o.rib, rib, x);
    var ix' := Next(o, rib, p, nv, ni).ix;
    var n := o.val[x];
    forall i | 0 <= i < SLOTS && n.vector[i] ensures Slot(x, i) in ix' && ix'[Slot(x, i)] == o.ix[Slot(x, i)] {
      KidBeside(p, x, i);
    }
  }

  // ---------- the nodes above p ----------

  lemma {:induction false} AncestorIn(val: NodeMap, p: Path, x: Path, m: Mem, rib: Routes, ix: Cells)
    requires Parented(val, TOP) && Trees(m, rib, val, ix) && p in val && Extends(p, x) && AtNode(x)
    ensures x in val
    decreases |p|
  {
    NotConstant(m, rib, val, ix, p);
    if |p| == |x| {
      assert p == x;
    } else {
      DepthStep(|x|, |p|);
      assert Up(p) in val by { assert Open(ParentKey); }
      assert Up(p)[..|x|] == x;
      AncestorIn(val, Up(p), x, m, rib, ix);
    }
  }

  lemma {:induction false} ConstantAbove(rib: Routes, p: Path, x: Path)
    requires Extends(p, x) && |p| <= KEYLENGTH && Constant(rib, x)
    ensures Constant(rib, p)
  {
    assert p == x + p[|x|..];
    ConstantBelow(rib, x, p[|x|..]);
  }

  lemma {:induction false} ExtendsShort(a: Path, p: Path)
    ensures Extends(a, p) && |a| <= |p| ==> a == p
  {
    if Extends(a, p) && |a| <= |p| {
      assert a == a[..|p|];
    }
  }

  lemma {:induction false} UpOutside(x: Path, p: Path)
    requires |x| >= STRIDE
    ensures Extends(x[..|x| - STRIDE], p) ==> Extends(x, p)
  {
    if Extends(x[..|x| - STRIDE], p) {
      assert x[..|p|] == x[..|x| - STRIDE][..|p|];
    }
  }

  /** The slot of an ancestor x of p that leads to p, and the other slots. */
  lemma {:induction false} SlotsAbove(rib: Routes, rib': Routes, p: Path, x: Path, i: nat)
    requires OnlyUnder(rib, rib', p) && Extends(p, x) && |x| + STRIDE <= |p| <= KEYLENGTH && i < SLOTS
    ensures i == SlotOf(p, |x|) ==> Extends(p, Slot(x, i))
    ensures i != SlotOf(p, |x|) ==> Same(rib, rib', Slot(x, i)) && !Extends(Slot(x, i), p)
    ensures i != SlotOf(p, |x|) ==> (Constant(rib, Slot(x, i)) <==> Constant(rib', Slot(x, i)))
    ensures i != SlotOf(p, |x|) ==> Val(rib, Slot(x, i)) == Val(rib', Slot(x, i))
    ensures i == SlotOf(p, |x|) && Extends(Slot(x, i), p) ==> Slot(x, i) == p
  {
    SlotUnder(p, x, i);
    var a := Slot(x, i);
    if i != SlotOf(p, |x|) {
      ExtendsShort(a, p);
      SameBeside(rib, rib', p, a);
      SameConstant(rib, rib', a);
    } else if Extends(a, p) {
      assert a[..|p|] == p && p[..|a|] == a;
    }
  }

  lemma {:induction false} AboveVec(rib: Routes, rib': Routes, p: Path, x: Path)
    requires OnlyUnder(rib, rib', p) && Extends(p, x) && |x| + STRIDE <= |p| <= KEYLENGTH
    requires !Constant(rib, p) && !Constant(rib', p)
    ensures VecOf(rib, x) == VecOf(rib', x) && !Constant(rib', x)
    ensures RunVec(VecOf(rib, x), ValsOf(rib, x)) == RunVec(VecOf(rib, x), ValsOf(rib', x))
    ensures RunLeaves(VecOf(rib, x), ValsOf(rib, x)) == RunLeaves(VecOf(rib, x), ValsOf(rib', x))
  {
    if Constant(rib', x) { ConstantAbove(rib', p, x); }
    var j := SlotOf(p, |x|);
    SlotsAbove(rib, rib', p, x, j);
    if Constant(rib, Slot(x, j)) { ConstantAbove(rib, p, Slot(x, j)); }
    if Constant(rib', Slot(x, j)) { ConstantAbove(rib', p, Slot(x, j)); }
    forall i | 0 <= i < SLOTS
      ensures VecOf(rib, x)[i] == VecOf(rib', x)[i] && (!VecOf(rib, x)[i] ==> ValsOf(rib, x)[i] == ValsOf(rib', x)[i])
    {
      SlotsAbove(rib, rib', p, x, i);
    }
    RunIrrelevant(VecOf(rib, x), ValsOf(rib, x), ValsOf(rib', x));
  }

  /** A node above p is as good as before. */
  lemma {:induction false} AboveOK(m: Mem, o: Version, rib: Routes, p: Path, nv: NodeMap, ni: Cells, x: Path)
    requires x in o.val && NodeOK(m, o.rib, o.ix, x, o.val[x]) && Extends(p, x) && |x| + STRIDE <= |p| <= KEYLENGTH
    requires OnlyUnder(o.rib, rib, p) && (forall y :: y in ni ==> Extends(y, p))
    requires p in ni && p in o.ix && ni[p] == o.ix[p] && !Constant(o.rib, p) && !Constant(rib, p)
    ensures NodeOK(m, rib, Next(o, rib, p, nv, ni).ix, x, o.val[x])
  {
    AboveVec(o.rib, rib, p, x);
    AboveGood(m, o, rib, p, nv, ni, x);
  }

  lemma {:induction false} AboveGood(m: Mem, o: Version, rib: Routes, p: Path, nv: NodeMap, ni: Cells, x: Path)
    requires x in o.val && Good(m, o.rib, o.ix, x, o.val[x]) && Extends(p, x) && |x| + STRIDE <= |p| <= KEYLENGTH
    requires OnlyUnder(o.rib, rib, p) && (forall y :: y in ni ==> Extends(y, p))
    requires p in ni && p in o.ix && ni[p] == o.ix[p]
    requires VecOf(o.rib, x) == VecOf(rib, x)
    requires RunVec(VecOf(o.rib, x), ValsOf(o.rib, x)) == RunVec(VecOf(o.rib, x), ValsOf(rib, x))
    requires RunLeaves(VecOf(o.rib, x), ValsOf(o.rib, x)) == RunLeaves(VecOf(o.rib, x), ValsOf(rib, x))
    ensures Good(m, rib, Next(o, rib, p, nv, ni).ix, x, o.val[x])
  {
    assert Open(GoodKey);
    var ix' := Next(o, rib, p, nv, ni).ix;
    var n := o.val[x];
    forall i | 0 <= i < SLOTS && n.vector[i] ensures Slot(x, i) in ix' && ix'[Slot(x, i)] == o.ix[Slot(x, i)] {
      SlotsAbove(o.rib, rib, p, x, i);
    }
  }

  lemma {:induction false} NextNode(m: Mem, o: Version, rib: Routes, p: Path, nv: NodeMap, ni: Cells, x: Path)
    requires Trees(m, o.rib, o.val, o.ix) && o.ix.Keys == o.val.Keys && Fits(m, o, rib, p, nv, ni)
    requires OnlyUnder(o.rib, rib, p) && x in o.val && !Extends(x, p)
    ensures NodeOK(m, rib, Next(o, rib, p, nv, ni).ix, x, o.val[x])
  {
    NotConstant(m, o.rib, o.val, o.ix, x);
    if Extends(p, x) {
      ExtendsShort(p, x);
      NotConstant(m, o.rib, o.val, o.ix, p);
      NotConstant(m, rib, nv, ni, p);
      DepthStep(|x|, |p|);
      AboveOK(m, o, rib, p, nv, ni, x);
    } else {
      BesideOK(m, o, rib, p, nv, ni, x);
    }
  }

  lemma {:induction false} NextTrees(m: Mem, o: Version, rib: Routes, p: Path, nv: NodeMap, ni: Cells)
    requires Trees(m, o.rib, o.val, o.ix) && o.ix.Keys == o.val.Keys && Fits(m, o, rib, p, nv, ni)
    requires OnlyUnder(o.rib, rib, p)
    ensures var o' := Next(o, rib, p, nv, ni); Trees(m, rib, o'.val, o'.ix) && o'.ix.Keys == o'.val.Keys
  {
    var o' := Next(o, rib, p, nv, ni);
    TreesMore(m, rib, nv, ni, o'.ix);
    forall x | x in o'.val ensures NodeOK(m, rib, o'.ix, x, o'.val[x]) {
      if x !in nv {
        NextNode(m, o, rib, p, nv, ni, x);
      } else {
        assert NodeOK(m, rib, o'.ix, x, nv[x]) by { assert Open(TreesKey); }
      }
    }
    assert Open(TreesKey);
  }

  lemma {:induction false} NextParented(m: Mem, o: Version, rib: Routes, p: Path, nv: NodeMap, ni: Cells)
    requires Parented(o.val, TOP) && o.ix.Keys == o.val.Keys && Fits(m, o, rib, p, nv, ni)
    ensures Parented(Next(o, rib, p, nv, ni).val, TOP)
  {
    assert Open(ParentKey);
    var val' := Next(o, rib, p, nv, ni).val;
    forall x | x in val' && |x| != TOP ensures TOP + STRIDE <= |x| && x[..|x| - STRIDE] in val' {
      if x in nv {
        if x == p { assert p in o.val && !Extends(x[..|x| - STRIDE], p); }
        if |x| == |p| { assert x == p; }
      } else {
        assert x in o.val && !Extends(x, p);
        UpOutside(x, p);
      }
    }
  }
}
