/** _update_inode: compile the radix tree below a path into a node. */
module Inodes {
  // The slots of the old node below which nothing is marked are copied.

  import opened Bits
  import opened Forwarding
  import opened Nodes
  import opened Folding
  import opened Memory
  import opened Compile
  import opened Radix
  import opened Marking
  import opened Triangles
  import opened Pools
  import opened Requests

  /** A compiled set of nodes: the routes it was compiled for, its nodes and their cells. */
  datatype VersionWith<R, A, B> = Version(rib: R, val: A, ix: B)
  type Version = VersionWith<Routes, NodeMap, Cells>

  ghost predicate Old(m: Mem, o: Version) {
    forall k: Key :: Open(k) && k.VersionKey? ==>
      MemOK(m) && o.ix.Keys <= o.val.Keys && Stored(m, o.val, o.ix) && Trees(m, o.rib, o.val, o.ix)
          && Parented(o.val, TOP)
  }

  lemma {:induction false} OldGrown(m: Mem, m': Mem, o: Version)
    requires Old(m, o) && Grown(m, m') && MemOK(m')
    ensures Old(m', o)
  {
    assert Open(VersionKey);
    StoredGrown(m, m', o.val, o.ix);
    TreesGrown(m, m', o.rib, o.val, o.ix);
  }

  /** inode is the cell of the old node at q, or negative when there is none. */
  ghost predicate OldCell(m: Mem, o: Version, q: Path, inode: int) {
    if inode >= 0 then q in o.ix && o.ix[q] == inode && q in o.val && inode < |m.N|
        && m.N[inode] == o.val[q] else q !in o.val
  }

  // ---------- the radix tree and its marks ----------

  /** x is a slot of a node of the version o. */
  predicate OldSlot(o: Version, x: Path) {
    |x| >= STRIDE && x[..|x| - STRIDE] in o.val
  }

  /** The compiler copies slot x of the old trie: it lies at depth d or below, and the radix tree has children
      there none of which is marked. */
  ghost predicate Kept(s: Snap, o: Version, d: nat, x: Path) {
    OldSlot(o, x) && d <= |x| && Reused(s, x)
  }

  /** p lies at or below a slot that is copied. */
  ghost predicate Copied(s: Snap, o: Version, d: nat, p: Path) {
    exists x :: Kept(s, o, d, x) && Extends(p, x)
  }

  /** The routes rib forward like the old ones below the slots that are copied, and like the routes src of the radix
      tree below the paths without children elsewhere. */
  ghost predicate Tells(s: Snap, src: Routes, rib: Routes, o: Version, d: nat) {
    forall k: Key :: Open(k) && k.MarksKey? ==>
      && (forall x :: Kept(s, o, d, x) ==> Same(o.rib, rib, x))
      && (forall p :: p + [false] !in s && p + [true] !in s && !Copied(s, o, d, p) ==> Same(src, rib, p))
  }

  // ---------- the leaves found so far ----------

  /** The local variables of the loop over the slots. */
  datatype WorkWith<V, K, L> = Work(vector: V, children: K, leafvec: V, leaves: L, prev: int, nvec: nat)
  type Work = WorkWith<Vec, seq<Node>, seq<nat>>

  /** Slot i is a leaf: begin a new run unless it continues the last one. */
  function WithLeaf(w: Work, i: nat, leaf: nat): Work
    requires i < |w.vector| && i < |w.leafvec|
  {
    var w' := w.(vector := w.vector[i := false], prev := leaf);
    if w.prev != leaf then w'.(leafvec := w.leafvec[i := true], leaves := w.leaves + [leaf]) else w'
  }

  /** The leaves and children of the first i slots. */
  ghost predicate Progress(w: Work, vals: seq<nat>, i: nat) {
    && i <= SLOTS && |w.vector| == |vals| == |w.children| == SLOTS
    && w.leafvec == RunVec(w.vector[..i], vals[..i]) + Zeros(SLOTS - i)
    && w.leaves == RunLeaves(w.vector[..i], vals[..i])
    && w.prev == LastValue(w.vector[..i], vals[..i])
    && w.nvec == Count(w.vector[..i])
  }

  lemma {:induction false} StepRuns(vec: Vec, vals: seq<nat>, i: nat)
    requires |vec| == |vals| && i < |vec|
    ensures var starts := !vec[i] && LastValue(vec[..i], vals[..i]) != vals[i];
            && RunVec(vec[..i + 1], vals[..i + 1]) == RunVec(vec[..i], vals[..i]) + [starts]
            && RunLeaves(vec[..i + 1], vals[..i + 1]) ==
                RunLeaves(vec[..i], vals[..i]) + (if starts then [vals[i]] else [])
            && LastValue(vec[..i + 1], vals[..i + 1]) == (if vec[i] then LastValue(vec[..i], vals[..i]) else vals[i])
            && Count(vec[..i + 1]) == Count(vec[..i]) + (if vec[i] then 1 else 0)
  {
    CountPrefix(vec, i);
    assert vec[..i + 1][..i] == vec[..i] && vals[..i + 1][..i] == vals[..i];
  }

  lemma {:induction false} ProgressLeaf(w: Work, vals: seq<nat>, i: nat)
    requires Progress(w, vals, i) && i < SLOTS
    ensures Progress(WithLeaf(w, i, vals[i]), vals, i + 1)
  {
    var w' := WithLeaf(w, i, vals[i]);
    assert w'.vector[..i] == w.vector[..i];
    StepRuns(w'.vector, vals, i);
    SetZero(RunVec(w.vector[..i], vals[..i]), i);
  }

  lemma {:induction false} SetZero(u: Vec, i: nat)
    requires |u| == i < SLOTS
    ensures (u + Zeros(SLOTS - i))[i := true] == u + [true] + Zeros(SLOTS - i - 1)
    ensures u + Zeros(SLOTS - i) == u + [false] + Zeros(SLOTS - i - 1)
  {
  }

  lemma {:induction false} ProgressChild(w: Work, vals: seq<nat>, i: nat, n: Node)
    requires Progress(w, vals, i) && i < SLOTS && w.vector[i]
    ensures Progress(w.(children := w.children[i := n], nvec := w.nvec + 1), vals, i + 1)
  {
    StepRuns(w.vector, vals, i);
    SetZero(RunVec(w.vector[..i], vals[..i]), i);
  }

  // ---------- the state of the loop ----------

  /** i slots of the node at q have been compiled; the later bits of the vector say which slots have
      children in the radix tree. */
  ghost predicate Compiling(m0: Mem, m: Mem, o: Version, rib: Routes, q: Path, i: nat, w: Work, val: NodeMap,
                            ix: Cells) {
    && |q| + STRIDE <= KEYLENGTH && |w.vector| == |w.children| == |w.leafvec| == SLOTS
    && forall k: Key :: Open(k) && k.WorkKey? ==>
        && Building(m0, m, rib, q, i, w.vector, w.children, val, ix)
        && Progress(w, ValsOf(rib, q), i)
        && Old(m, o)
  }

  lemma {:induction false} CompilingIs(m0: Mem, m: Mem, o: Version, rib: Routes, q: Path, i: nat, w: Work, val: NodeMap,
                                       ix: Cells)
    requires Compiling(m0, m, o, rib, q, i, w, val, ix)
    ensures Building(m0, m, rib, q, i, w.vector, w.children, val, ix) && Progress(w, ValsOf(rib, q), i) && Old(m, o)
  {
    assert Open(WorkKey);
  }

  lemma {:induction false} BuildingGrown(m0: Mem, m: Mem, rib: Routes, q: Path, i: nat, vec: Vec, kids: seq<Node>,
                                         val: NodeMap, ix: Cells)
    requires Building(m0, m, rib, q, i, vec, kids, val, ix)
    ensures Grown(m0, m) && MemOK(m)
  {
    BuildingIs(m0, m, rib, q, i, vec, kids, val, ix);
  }

  /** Slot i turns out to be a leaf. */
  lemma {:induction false} CompileLeaf(m0: Mem, m: Mem, m': Mem, o: Version, rib: Routes, q: Path, i: nat, w: Work,
                                       val: NodeMap, ix: Cells, leaf: nat)
    requires Compiling(m0, m, o, rib, q, i, w, val, ix) && i < SLOTS
    requires Forest(m, m', rib, map[], map[])
    requires Constant(rib, Slot(q, i)) && leaf == Val(rib, Slot(q, i))
    ensures Compiling(m0, m', o, rib, q, i + 1, WithLeaf(w, i, leaf), val, ix)
  {
    CompilingIs(m0, m, o, rib, q, i, w, val, ix);
    ProgressLeaf(w, ValsOf(rib, q), i);
    LeafSlot(m0, m, m', rib, q, i, w.vector, w.children, val, ix);
    assert Grown(m, m') && MemOK(m') by { assert Open(ForestKey); }
    OldGrown(m, m', o);
  }

  /** Slot i gets the child n. */
  lemma {:induction false} CompileChild(m0: Mem, m: Mem, m': Mem, o: Version, rib: Routes, q: Path, i: nat, w: Work,
                                        val: NodeMap, ix: Cells, n: Node, val': NodeMap, ix': Cells)
    requires Compiling(m0, m, o, rib, q, i, w, val, ix) && i < SLOTS && w.vector[i]
    requires Piece(m, m', rib, Slot(q, i), n, val', ix')
    ensures Compiling(m0, m', o, rib, q, i + 1, WithChild(w, i, n), val + val', ix + ix')
  {
    CompilingIs(m0, m, o, rib, q, i, w, val, ix);
    ProgressChild(w, ValsOf(rib, q), i, n);
    ChildSlot(m0, m, m', rib, q, i, w.vector, w.children, val, ix, n, val', ix');
    assert Grown(m, m') && MemOK(m') by { assert Open(PieceKey) && Open(ForestKey); }
    OldGrown(m, m', o);
  }

  lemma {:induction false} NoChange(m0: Mem, m: Mem, o: Version, rib: Routes, q: Path, i: nat, w: Work, val: NodeMap,
                                    ix: Cells)
    requires Compiling(m0, m, o, rib, q, i, w, val, ix)
    ensures Forest(m, m, rib, map[], map[])
  {
    CompilingIs(m0, m, o, rib, q, i, w, val, ix);
    BuildingGrown(m0, m, rib, q, i, w.vector, w.children, val, ix);
    EmptyForest(m, rib);
  }

  // ---------- reading the old node ----------

  /** A child of the old node. */
  lemma {:induction false} OldChild(m: Mem, o: Version, q: Path, inode: nat, i: nat)
    requires Old(m, o) && OldCell(m, o, q, inode) && i < SLOTS
    ensures var n := o.val[q];
            |n.vector| == SLOTS && (n.vector[i] ==> OldCell(m, o, Slot(q, i), n.base1 + Rank(n.vector, i) - 1))
    ensures var n := o.val[q]; n.vector[i] ==> n.base1 >= 0 && Rank(n.vector, i) >= 1
  {
    assert Open(VersionKey);
    NotConstant(m, o.rib, o.val, o.ix, q);
    GoodChild(m, o.rib, o.ix, q, o.val[q], i);
    if o.val[q].vector[i] {
      StoredAt(m, o.val, o.ix, Slot(q, i));
    }
  }

  /** Where forwarding is the same, a child of the old node can be used again. */
  lemma {:induction false} OldPiece(m: Mem, o: Version, rib: Routes, q: Path, inode: nat, i: nat)
    returns (n: Node, val: NodeMap, ix: Cells)
    requires Old(m, o) && OldCell(m, o, q, inode) && i < SLOTS
    requires |o.val[q].vector| == SLOTS && o.val[q].vector[i] && Same(o.rib, rib, Slot(q, i))
    ensures Piece(m, m, rib, Slot(q, i), n, val, ix)
    ensures var c := o.val[q].base1 + Rank(o.val[q].vector, i) - 1; 0 <= c < |m.N| && n == m.N[c]
  {
    var p := Slot(q, i);
    OldChild(m, o, q, inode, i);
    assert MemOK(m) && o.ix.Keys <= o.val.Keys && Stored(m, o.val, o.ix) && Trees(m, o.rib, o.val, o.ix)
        && Parented(o.val, TOP)
      by { assert Open(VersionKey); }
    PartForest(m, o.rib, rib, o.val, o.ix, p);
    PartPiece(m, o.rib, rib, o.val, o.ix, p);
    n, val, ix := o.val[p], Part(o.val, p), Part(o.ix, p) - {p};
  }

  lemma {:induction false} GoodChild(m: Mem, rib: Routes, ix: Cells, q: Path, n: Node, i: nat)
    requires Good(m, rib, ix, q, n) && i < SLOTS
    ensures |n.vector| == |n.leafvec| == SLOTS && |q| + STRIDE <= KEYLENGTH
    ensures n.vector[i] <==> !Constant(rib, Slot(q, i))
    ensures n.vector[i] ==> n.base1 >= 0 && Rank(n.vector, i) >= 1
    ensures n.vector[i] ==> Slot(q, i) in ix && ix[Slot(q, i)] == n.base1 + Rank(n.vector, i) - 1
  {
    assert Open(GoodKey);
    RankBounds(n.vector, i);
  }

  lemma {:induction false} StoredAt(m: Mem, val: NodeMap, ix: Cells, p: Path)
    requires Stored(m, val, ix) && p in ix
    ensures p in val && ix[p] < |m.N| && m.N[ix[p]] == val[p]
  {
    assert Open(StoredKey);
  }

  lemma {:induction false} PartPiece(m: Mem, rib: Routes, rib': Routes, val: NodeMap, ix: Cells, p: Path)
    requires Forest(m, m, rib', Part(val, p), Part(ix, p) - {p}) && p in val && Trees(m, rib, val, ix)
        && Parented(val, TOP)
    ensures Piece(m, m, rib', p, val[p], Part(val, p), Part(ix, p) - {p})
  {
    assert Open(PieceKey);
    assert Extends(p, p);
    PartParented(m, rib, val, ix, p);
  }

  lemma {:induction false} PartParented(m: Mem, rib: Routes, val: NodeMap, ix: Cells, p: Path)
    requires p in val && Trees(m, rib, val, ix) && Parented(val, TOP)
    ensures Parented(Part(val, p), |p|)
  {
    forall x | x in Part(val, p) && |x| != |p|
      ensures |p| + STRIDE <= |x| && x[..|x| - STRIDE] in Part(val, p)
    {
      NotConstant(m, rib, val, ix, x);
      NotConstant(m, rib, val, ix, p);
      DepthStep(|p|, |x|);
      assert x[..|x| - STRIDE] in val by { assert Open(ParentKey); }
      assert x[..|x| - STRIDE][..|p|] == x[..|p|];
    }
  }

  lemma {:induction false} DepthStep(d: nat, e: nat)
    requires TOP <= d < e && (d - TOP) % STRIDE == 0 && (e - TOP) % STRIDE == 0
    ensures d + STRIDE <= e
  {
  }

  /** The leaf that the old node has for slot i. */
  lemma {:induction false} OldLeaf(m: Mem, o: Version, q: Path, inode: nat, i: nat)
    requires Old(m, o) && OldCell(m, o, q, inode) && i < SLOTS
    ensures var n := o.val[q]; |n.vector| == |n.leafvec| == SLOTS && |q| + STRIDE <= KEYLENGTH
    ensures var n := o.val[q];
            !n.vector[i] ==>
              var c := n.base0 + Rank(n.leafvec, i) - 1;
              0 <= c < |m.L| && Constant(o.rib, Slot(q, i)) && m.L[c] == Val(o.rib, Slot(q, i))
  {
    assert Open(VersionKey);
    NotConstant(m, o.rib, o.val, o.ix, q);
    GoodLeaf(m, o.rib, o.ix, q, o.val[q], i);
  }

  lemma {:induction false} SliceAt(xs: seq<nat>, base: nat, ys: seq<nat>, k: nat)
    requires base + |ys| <= |xs| && xs[base..base + |ys|] == ys && k < |ys|
    ensures xs[base + k] == ys[k]
  {
    assert xs[base..base + |ys|][k] == xs[base + k];
  }

  lemma {:induction false} GoodLeaf(m: Mem, rib: Routes, ix: Cells, q: Path, n: Node, i: nat)
    requires Good(m, rib, ix, q, n) && i < SLOTS
    ensures |n.vector| == |n.leafvec| == SLOTS && |q| + STRIDE <= KEYLENGTH
    ensures !n.vector[i] ==>
              var c := n.base0 + Rank(n.leafvec, i) - 1;
              0 <= c < |m.L| && Constant(rib, Slot(q, i)) && m.L[c] == Val(rib, Slot(q, i))
  {
    assert Open(GoodKey);
    if !n.vector[i] {
      var vals := ValsOf(rib, q);
      RunDecode(n.vector, vals, i);
      SliceAt(m.L, n.base0, RunLeaves(n.vector, vals), Rank(n.leafvec, i) - 1);
    }
  }

  // ---------- one slot ----------

  predicate SameFrom(u: Vec, v: Vec, i: nat) {
    |u| == |v| && forall j :: i <= j < |u| ==> v[j] == u[j]
  }


  /** The radix tree holds the routes src, and with its marks it tells how to get from the version o to a trie for
      the routes rib. */
  ghost predicate Source(t: Tree, src: Routes, rib: Routes, o: Version, d: nat)
    reads t.Values
  {
    RibOK(t, src) && Tells(View(t), src, rib, o, d)
  }

  /** The node at q does not lie below a slot that is copied. */
  ghost predicate Rebuilt(t: Tree, o: Version, d: nat, q: Path)
    reads t.Values
  {
    forall k: Key :: Open(k) && k.MarksKey? ==> !Copied(View(t), o, d, q)
  }

  /** The radix tree tells, also about the node at q. */
  ghost predicate SourceAt(t: Tree, src: Routes, rib: Routes, o: Version, d: nat, q: Path)
    reads t.Values
  {
    forall k: Key :: Open(k) && k.WorkKey? ==> Source(t, src, rib, o, d) && Rebuilt(t, o, d, q)
  }

  /** A copied slot above slot i of the node at q is that slot itself or lies above q. */
  lemma {:induction false} KeptAbove(s: Snap, m: Mem, o: Version, d: nat, q: Path, i: nat, y: Path)
    requires Old(m, o) && AtNode(q) && i < SLOTS && Kept(s, o, d, y) && Extends(Slot(q, i), y)
    ensures y == Slot(q, i) || Extends(q, y)
  {
    var x := Slot(q, i);
    SlotExtends(q, i);
    assert Trees(m, o.rib, o.val, o.ix) by { assert Open(VersionKey); }
    NotConstant(m, o.rib, o.val, o.ix, y[..|y| - STRIDE]);
    SlotDepths(|q|, |y| - STRIDE, |x|);
    PrefixesNested(x, y, q);
    assert |y| == |x| ==> y == x by { assert x[..|x|] == x; }
  }

  lemma {:induction false} RebuiltSlot(t: Tree, m: Mem, o: Version, d: nat, q: Path, i: nat)
    requires Old(m, o) && AtNode(q) && i < SLOTS && Rebuilt(t, o, d, q) && !Kept(View(t), o, d, Slot(q, i))
    ensures Rebuilt(t, o, d, Slot(q, i)) && !Copied(View(t), o, d, Slot(q, i))
  {
    assert Open(MarksKey);
    forall y | Kept(View(t), o, d, y) ensures !Extends(Slot(q, i), y) {
      if Extends(Slot(q, i), y) { KeptAbove(View(t), m, o, d, q, i, y); }
    }
  }

  lemma {:induction false} SlotDepths(q: nat, d: nat, x: nat)
    requires TOP <= q && (q - TOP) % STRIDE == 0 && TOP <= d && (d - TOP) % STRIDE == 0 && x == q + STRIDE
        && d + STRIDE <= x
    ensures d + STRIDE == x || d + STRIDE <= q
  {
  }

  /** A slot without children in the radix tree is a leaf. */
  lemma {:induction false} SourceLeaf(t: Tree, m: Mem, src: Routes, rib: Routes, o: Version, d: nat, q: Path, i: nat,
                                      f: Fields)
    requires Source(t, src, rib, o, d) && Old(m, o) && AtNode(q) && i < SLOTS && Rebuilt(t, o, d, q)
    requires CopyOf(t, src, Slot(q, i), f) && f.left == null && f.right == null
    ensures Constant(rib, Slot(q, i)) && Val(rib, Slot(q, i)) == ExtNh(f.ext)
  {
    var p := Slot(q, i);
    RebuiltSlot(t, m, o, d, q, i);
    ChildlessConstant(t, src, p);
    ExtForwards(t, src, p);
    assert Same(src, rib, p) by { assert Open(MarksKey); }
    SameConstant(src, rib, p);
  }

  /** A slot with children in the radix tree ends where a node can begin. */
  lemma {:induction false} SourceChild(t: Tree, rib: Routes, q: Path, i: nat, o: Fields)
    requires RibOK(t, rib) && AtNode(q) && i < SLOTS && CopyOf(t, rib, Slot(q, i), o)
        && (o.left != null || o.right != null)
    ensures AtNode(Slot(q, i))
  {
    HasChild(t, rib, Slot(q, i), o);
    NextDepth(|q|);
  }

  lemma {:induction false} HasChild(t: Tree, rib: Routes, p: Path, o: Fields)
    requires Shape(t, rib) && CopyOf(t, rib, p, o) && (o.left != null || o.right != null)
    ensures |p| < KEYLENGTH
  {
    assert Open(ShapeKey);
    assert |p + [false]| == |p| + 1 && |p + [true]| == |p| + 1;
  }

  lemma {:induction false} NextDepth(d: nat)
    requires TOP <= d && (d - TOP) % STRIDE == 0
    ensures (d + STRIDE - TOP) % STRIDE == 0
    ensures d + STRIDE < KEYLENGTH ==> d + 2 * STRIDE <= KEYLENGTH
  {
  }

  /** Is a child marked? */
  predicate ChildMarked(o: Fields)
    reads o.left, o.right
  {
    (o.left != null && o.left.mark) || (o.right != null && o.right.mark)
  }

  lemma {:induction false} UnmarkedIsSame(t: Tree, src: Routes, rib: Routes, o: Version, d: nat, q: Path, i: nat,
                                          f: Fields)
    requires Source(t, src, rib, o, d) && q in o.val && i < SLOTS && d <= |q| + STRIDE && CopyOf(t, src, Slot(q, i), f)
    requires (f.left != null || f.right != null) && !ChildMarked(f)
    ensures Same(o.rib, rib, Slot(q, i))
  {
    assert Open(MarksKey);
    assert Slot(q, i)[..|q|] == q;
    assert Kept(View(t), o, d, Slot(q, i));
  }

  /** A slot that is compiled again does not lie below one that is copied. */
  lemma {:induction false} RebuiltBelow(t: Tree, m: Mem, src: Routes, rib: Routes, o: Version, d: nat, q: Path,
                                        inode: int, i: nat, f: Fields)
    requires Source(t, src, rib, o, d) && CompileInput(m, o, q, inode, d) && i < SLOTS && Rebuilt(t, o, d, q)
    requires CopyOf(t, src, Slot(q, i), f) && (ChildMarked(f) || inode < 0)
    ensures Rebuilt(t, o, d, Slot(q, i))
  {
    assert Slot(q, i)[..|q|] == q;
    RebuiltSlot(t, m, o, d, q, i);
  }

  /** The work after slot i was given the child n. */
  function WithChild(w: Work, i: nat, n: Node): Work
    requires i < |w.children|
  {
    w.(children := w.children[i := n], nvec := w.nvec + 1)
  }

  lemma {:induction false} CopiedChild(m0: Mem, m: Mem, o: Version, rib: Routes, q: Path, inode: nat, i: nat, w: Work,
                                       val: NodeMap, ix: Cells)
    returns (n: Node, val': NodeMap, ix': Cells)
    requires Compiling(m0, m, o, rib, q, i, w, val, ix) && OldCell(m, o, q, inode) && i < SLOTS && w.vector[i]
    requires |m.N[inode].vector| == SLOTS && m.N[inode].vector[i] && Same(o.rib, rib, Slot(q, i))
    ensures var old' := m.N[inode]; var c := old'.base1 + Rank(old'.vector, i) - 1; 0 <= c < |m.N| && n == m.N[c]
    ensures Compiling(m0, m, o, rib, q, i + 1, WithChild(w, i, n), val', ix')
  {
    CompilingIs(m0, m, o, rib, q, i, w, val, ix);
    var nv, ni;
    n, nv, ni := OldPiece(m, o, rib, q, inode, i);
    CompileChild(m0, m, m, o, rib, q, i, w, val, ix, n, nv, ni);
    val', ix' := val + nv, ix + ni;
  }

  lemma {:induction false} CopiedLeaf(m0: Mem, m: Mem, o: Version, rib: Routes, q: Path, inode: nat, i: nat, w: Work,
                                      val: NodeMap, ix: Cells)
    returns (leaf: nat)
    requires Compiling(m0, m, o, rib, q, i, w, val, ix) && OldCell(m, o, q, inode) && i < SLOTS && w.vector[i]
    requires |m.N[inode].vector| == SLOTS && !m.N[inode].vector[i] && Same(o.rib, rib, Slot(q, i))
    ensures var old' := m.N[inode];
            |old'.leafvec| == SLOTS && var c := old'.base0 + Rank(old'.leafvec, i) - 1; 0 <= c < |m.L| && leaf == m.L[c]
    ensures Compiling(m0, m, o, rib, q, i + 1, WithLeaf(w, i, leaf), val, ix)
  {
    CompilingIs(m0, m, o, rib, q, i, w, val, ix);
    OldLeaf(m, o, q, inode, i);
    SameConstant(o.rib, rib, Slot(q, i));
    NoChange(m0, m, o, rib, q, i, w, val, ix);
    leaf := Val(rib, Slot(q, i));
    CompileLeaf(m0, m, m, o, rib, q, i, w, val, ix, leaf);
  }

  lemma {:induction false} OldShape(m0: Mem, m: Mem, o: Version, rib: Routes, q: Path, inode: nat, i: nat, w: Work,
                                    val: NodeMap, ix: Cells)
    requires Compiling(m0, m, o, rib, q, i, w, val, ix) && OldCell(m, o, q, inode)
    ensures |m.N[inode].vector| == SLOTS
  {
    CompilingIs(m0, m, o, rib, q, i, w, val, ix);
    OldChild(m, o, q, inode, 0);
  }

  /** Slot i is copied from the old node. */
  method CopySlot(pool: Pool, nd: Fields, inode: nat, w: Work, i: nat, ghost t: Tree, ghost o: Version,
                  ghost src: Routes, ghost rib: Routes, ghost d: nat,
                  ghost q: Path, ghost m0: Mem, ghost val: NodeMap, ghost ix: Cells)
    returns (w': Work, ghost val': NodeMap, ghost ix': Cells)
    requires pool.Valid() && Source(t, src, rib, o, d) && i < SLOTS
    requires OldCell(pool.View(), o, q, inode) && d <= |q| + STRIDE
    requires Compiling(m0, pool.View(), o, rib, q, i, w, val, ix)
    requires CopyOf(t, src, Slot(q, i), nd) && w.vector[i] && (nd.left != null || nd.right != null) && !ChildMarked(nd)
    ensures Compiling(m0, pool.View(), o, rib, q, i + 1, w', val', ix') && SameFrom(w.vector, w'.vector, i + 1)
  {
    ghost var m := pool.View();
    UnmarkedIsSame(t, src, rib, o, d, q, i, nd);
    OldShape(m0, m, o, rib, q, inode, i, w, val, ix);
    var old' := pool.nodes[inode];
    assert old' == m.N[inode];
    if old'.vector[i] {
      ghost var n;
      n, val', ix' := CopiedChild(m0, m, o, rib, q, inode, i, w, val, ix);
      var child := pool.nodes[old'.base1 + Rank(old'.vector, i) - 1];
      assert child == n;
      w' := WithChild(w, i, child);
    } else {
      ghost var l := CopiedLeaf(m0, m, o, rib, q, inode, i, w, val, ix);
      val', ix' := val, ix;
      var sleaf := pool.leaves[old'.base0 + Rank(old'.leafvec, i) - 1];
      assert sleaf == l;
      w' := WithLeaf(w, i, sleaf);
    }
  }

  /** Slot i is a leaf with the next hop of the radix tree. */
  method LeafFromTree(pool: Pool, nd: Fields, w: Work, i: nat, ghost t: Tree, ghost o: Version, ghost src: Routes,
                      ghost rib: Routes, ghost d: nat,
                      ghost q: Path, ghost m0: Mem, ghost val: NodeMap, ghost ix: Cells)
    returns (w': Work)
    requires pool.Valid() && Source(t, src, rib, o, d) && i < SLOTS && AtNode(q) && Rebuilt(t, o, d, q)
    requires Compiling(m0, pool.View(), o, rib, q, i, w, val, ix)
    requires CopyOf(t, src, Slot(q, i), nd) && nd.left == null && nd.right == null
    ensures Compiling(m0, pool.View(), o, rib, q, i + 1, w', val, ix) && SameFrom(w.vector, w'.vector, i + 1)
  {
    CompilingIs(m0, pool.View(), o, rib, q, i, w, val, ix);
    SourceLeaf(t, pool.View(), src, rib, o, d, q, i, nd);
    NoChange(m0, pool.View(), o, rib, q, i, w, val, ix);
    CompileLeaf(m0, pool.View(), pool.View(), o, rib, q, i, w, val, ix, ExtNh(nd.ext));
    w' := WithLeaf(w, i, ExtNh(nd.ext));
  }

  lemma {:induction false} StartCompiling(m: Mem, o: Version, rib: Routes, q: Path, inode: int, d: nat, w: Work)
    requires CompileInput(m, o, q, inode, d) && |w.vector| == |w.children| == SLOTS
    requires w.leafvec == Zeros(SLOTS) && w.leaves == [] && w.prev == -1 && w.nvec == 0
    ensures Compiling(m, m, o, rib, q, 0, w, map[], map[])
  {
    assert MemOK(m) by { assert Open(VersionKey); }
    StartBuilding(m, rib, q, w.vector, w.children);
    assert w.vector[..0] == [] && ValsOf(rib, q)[..0] == [];
    assert w.leafvec == [] + Zeros(SLOTS);
  }

  lemma {:induction false} StillInput(m0: Mem, m: Mem, o: Version, rib: Routes, q: Path, i: nat, w: Work, val: NodeMap,
                                      ix: Cells,
                                      inode: int, d: nat)
    requires CompileInput(m0, o, q, inode, d) && Compiling(m0, m, o, rib, q, i, w, val, ix)
    ensures CompileInput(m, o, q, inode, d)
  {
    CompilingIs(m0, m, o, rib, q, i, w, val, ix);
    if inode >= 0 {
      assert Stored(m, o.val, o.ix) by { assert Open(VersionKey); }
      StoredAt(m, o.val, o.ix, q);
    }
  }

  lemma {:induction false} ChunkFreed(m0: Mem, m: Mem, rib: Routes, q: Path, n: Node, leaf: nat)
    requires Compressed(m0, m, rib, q, n, leaf)
    ensures |q| <= KEYLENGTH && Constant(rib, q) && leaf == Val(rib, q)
    ensures n.base0 >= 0 && n.base0 in m.AL && Forest(m0, DropL(m, n.base0), rib, map[], map[])
    ensures Grown(m0, DropL(m, n.base0))
  {
    assert Open(CompressedKey) && Open(ForestKey);
  }

  /** _update_inode_chunk: a node that is a single leaf is not kept. */
  method UpdateChunk(pool: Pool, node: Fields, inode: int, ghost t: Tree, ghost o: Version, ghost src: Routes,
                     ghost rib: Routes, ghost d: nat, ghost q: Path)
    returns (ret: int, n: Node, leaf: nat, ghost val: NodeMap, ghost ix: Cells)
    requires Rebuilt(t, o, d, q)
    requires pool.Valid() && Source(t, src, rib, o, d) && t.Values !! pool.Repr()
    requires CompileInput(pool.View(), o, q, inode, d) && CopyOf(t, src, q, node)
    modifies pool.Repr(), pool.log
    ensures pool.Valid() && -1 <= ret <= 1 && Grown(old(pool.View()), pool.View())
    ensures |pool.log.notes| == old(|pool.log.notes|) + if ret < 0 then 1 else 0
    ensures Told(old(pool.log.notes), pool.log.notes, ret >= 0, pool, old(pool.View()), rib, q)
    ensures ret == 0 ==> Piece(old(pool.View()), pool.View(), rib, q, n, val, ix)
    ensures ret == 1 ==>
              && Forest(old(pool.View()), pool.View(), rib, map[], map[])
              && |q| <= KEYLENGTH && Constant(rib, q) && leaf == Val(rib, q)
    ensures |q| <= KEYLENGTH && (ret >= 0 ==> (ret == 1 <==> Constant(rib, q)))
    decreases KEYLENGTH - |q|, 4
  {
    ghost var m0 := pool.View();
    ret, n, leaf, val, ix := UpdateInode(pool, node, inode, t, o, src, rib, d, q);
    if ret > 0 {
      ChunkFreed(m0, pool.View(), rib, q, n, leaf);
      pool.FreeLeaves(n.base0);
    }
  }

  /** Slot i is compiled again. */
  method RebuildSlot(pool: Pool, nd: Fields, inode: int, w: Work, i: nat, ghost t: Tree, ghost o: Version,
                     ghost src: Routes, ghost rib: Routes, ghost d: nat,
                     ghost q: Path, ghost m0: Mem, ghost val: NodeMap, ghost ix: Cells)
    returns (ok: bool, w': Work, ghost val': NodeMap, ghost ix': Cells)
    requires Rebuilt(t, o, d, q)
    requires pool.Valid() && Source(t, src, rib, o, d) && t.Values !! pool.Repr() && i < SLOTS
    requires CompileInput(pool.View(), o, q, inode, d)
    requires Compiling(m0, pool.View(), o, rib, q, i, w, val, ix)
    requires CopyOf(t, src, Slot(q, i), nd) && w.vector[i] && (nd.left != null || nd.right != null)
    requires ChildMarked(nd) || inode < 0
    modifies pool.Repr(), pool.log
    ensures pool.Valid() && Grown(old(pool.View()), pool.View())
    ensures |pool.log.notes| == old(|pool.log.notes|) + if !ok then 1 else 0
    ensures Told(old(pool.log.notes), pool.log.notes, ok, pool, m0, rib, q)
    ensures ok ==> Compiling(m0, pool.View(), o, rib, q, i + 1, w', val', ix') && SameFrom(w.vector, w'.vector, i + 1)
    decreases KEYLENGTH - |q|, 0
  {
    ghost var m := pool.View();
    SourceChild(t, src, q, i, nd);
    RebuiltBelow(t, m, src, rib, o, d, q, inode, i, nd);
    var ninode := ChildInode(pool, inode, i, o, q, d);
    var ret, child, sleaf;
    ret, child, sleaf, val', ix' := UpdateChunk(pool, nd, ninode, t, o, src, rib, d, Slot(q, i));
    ok, w' := ret >= 0, w;
    CompilingIs(m0, m, o, rib, q, i, w, val, ix);
    SlotTold(old(pool.log.notes), pool.log.notes, ok, pool, m0, m, rib, q, i, w.vector, w.children, val, ix);
    if ret > 0 {
      CompileLeaf(m0, m, pool.View(), o, rib, q, i, w, val, ix, sleaf);
      w' := WithLeaf(w, i, sleaf);
      val', ix' := val, ix;
    } else if ret == 0 {
      CompileChild(m0, m, pool.View(), o, rib, q, i, w, val, ix, child, val', ix');
      w' := WithChild(w, i, child);
      val', ix' := val + val', ix + ix';
    }
  }

  method CompileSlot(pool: Pool, nd: Fields, inode: int, w: Work, i: nat, ghost t: Tree, ghost o: Version,
                     ghost src: Routes, ghost rib: Routes, ghost d: nat,
                     ghost q: Path, ghost m0: Mem, ghost val: NodeMap, ghost ix: Cells)
    returns (ok: bool, w': Work, ghost val': NodeMap, ghost ix': Cells)
    requires Rebuilt(t, o, d, q)
    requires pool.Valid() && Source(t, src, rib, o, d) && t.Values !! pool.Repr() && i < SLOTS
    requires CompileInput(pool.View(), o, q, inode, d)
    requires Compiling(m0, pool.View(), o, rib, q, i, w, val, ix)
    requires CopyOf(t, src, Slot(q, i), nd) && (w.vector[i] <==> nd.left != null || nd.right != null)
    modifies pool.Repr(), pool.log
    ensures pool.Valid() && Grown(old(pool.View()), pool.View())
    ensures |pool.log.notes| == old(|pool.log.notes|) + if !ok then 1 else 0
    ensures Told(old(pool.log.notes), pool.log.notes, ok, pool, m0, rib, q)
    ensures ok ==> Compiling(m0, pool.View(), o, rib, q, i + 1, w', val', ix') && SameFrom(w.vector, w'.vector, i + 1)
    decreases KEYLENGTH - |q|, 1
  {
    NothingTold(pool.log.notes, pool, m0, rib, q);
    if w.vector[i] {
      if ChildMarked(nd) || inode < 0 {
        ok, w', val', ix' := RebuildSlot(pool, nd, inode, w, i, t, o, src, rib, d, q, m0, val, ix);
      } else {
        GrownRefl(pool.View());
        w', val', ix' := CopySlot(pool, nd, inode, w, i, t, o, src, rib, d, q, m0, val, ix);
        ok := true;
      }
    } else {
      GrownRefl(pool.View());
      w' := LeafFromTree(pool, nd, w, i, t, o, src, rib, d, q, m0, val, ix);
      ok, val', ix' := true, val, ix;
    }
  }

  ghost predicate AllParsed(t: Tree, rib: Routes, q: Path, vector: Vec, nodes: seq<Fields>) {
    && |nodes| == |vector| == SLOTS
    && forall k: Key :: Open(k) && k.ShapeKey? ==> forall i :: 0 <= i < SLOTS ==>
        SlotParsed(t, rib, q, vector, nodes, i)
  }

  lemma {:induction false} ParsedAt(t: Tree, rib: Routes, q: Path, vector: Vec, nodes: seq<Fields>, vector': Vec,
                                    i: nat)
    requires AllParsed(t, rib, q, vector, nodes) && SameFrom(vector, vector', i) && i < SLOTS
    ensures CopyOf(t, rib, Slot(q, i), nodes[i]) && (vector'[i] <==> nodes[i].left != null || nodes[i].right != null)
  {
    assert Open(ShapeKey);
    assert SlotParsed(t, rib, q, vector, nodes, i);
  }

  lemma {:induction false} TriangleParsed(t: Tree, rib: Routes, q: Path, vec: Vec, nodes: seq<Fields>, vec': Vec,
                                          nodes': seq<Fields>)
    requires Parsed(t, rib, q, [], vec, nodes, vec', nodes')
    ensures AllParsed(t, rib, q, vec', nodes')
  {
    assert [] + Zeros(STRIDE) == Zeros(STRIDE);
    ZeroValue(STRIDE);
    assert First([]) == 0 && Pow2(6) == 64;
  }

  /** The slots one after the other. */
  method CompileSlots(pool: Pool, nodes: seq<Fields>, vector: Vec, inode: int, ghost t: Tree, ghost o: Version,
                      ghost src: Routes, ghost rib: Routes, ghost d: nat, ghost q: Path)
    returns (ok: bool, w: Work, ghost val: NodeMap, ghost ix: Cells)
    requires pool.Valid() && SourceAt(t, src, rib, o, d, q) && t.Values !! pool.Repr()
    requires CompileInput(pool.View(), o, q, inode, d)
    requires AllParsed(t, src, q, vector, nodes)
    modifies pool.Repr(), pool.log
    ensures pool.Valid() && Grown(old(pool.View()), pool.View())
    ensures |pool.log.notes| == old(|pool.log.notes|) + if !ok then 1 else 0
    ensures Told(old(pool.log.notes), pool.log.notes, ok, pool, old(pool.View()), rib, q)
    ensures ok ==> Compiling(old(pool.View()), pool.View(), o, rib, q, SLOTS, w, val, ix)
    decreases KEYLENGTH - |q|, 2, 1
  {
    ghost var m0 := pool.View();
    ok, val, ix := true, map[], map[];
    w := Work(vector, seq(SLOTS, _ => Node([], [], -1, -1)), Zeros(SLOTS), [], -1, 0);
    StartCompiling(m0, o, rib, q, inode, d, w);
    GrownRefl(m0);
    for i := 0 to SLOTS
      invariant pool.Valid() && SourceAt(t, src, rib, o, d, q) && Grown(m0, pool.View())
          && pool.log.notes == old(pool.log.notes)
      invariant Compiling(m0, pool.View(), o, rib, q, i, w, val, ix) && SameFrom(vector, w.vector, i)
    {
      ok, w, val, ix := CompileNext(pool, nodes, vector, inode, w, i, t, o, src, rib, d, q, m0, val, ix);
      ToldIs(old(pool.log.notes), pool.log.notes, ok, pool, m0, rib, q);
      if !ok {
        return;
      }
    }
    NothingTold(pool.log.notes, pool, m0, rib, q);
  }

  /** The next slot. */
  method CompileNext(pool: Pool, nodes: seq<Fields>, ghost vector: Vec, inode: int, w: Work, i: nat, ghost t: Tree,
                     ghost o: Version,
                     ghost src: Routes, ghost rib: Routes, ghost d: nat, ghost q: Path, ghost m0: Mem,
                     ghost val: NodeMap, ghost ix: Cells)
    returns (ok: bool, w': Work, ghost val': NodeMap, ghost ix': Cells)
    requires pool.Valid() && SourceAt(t, src, rib, o, d, q) && t.Values !! pool.Repr() && i < SLOTS
    requires CompileInput(m0, o, q, inode, d) && Grown(m0, pool.View()) && AllParsed(t, src, q, vector, nodes)
    requires Compiling(m0, pool.View(), o, rib, q, i, w, val, ix) && SameFrom(vector, w.vector, i)
    modifies pool.Repr(), pool.log
    ensures pool.Valid() && Grown(m0, pool.View())
    ensures |pool.log.notes| == old(|pool.log.notes|) + if !ok then 1 else 0
    ensures Told(old(pool.log.notes), pool.log.notes, ok, pool, m0, rib, q)
    ensures ok ==> Compiling(m0, pool.View(), o, rib, q, i + 1, w', val', ix') && SameFrom(vector, w'.vector, i + 1)
    decreases KEYLENGTH - |q|, 2, 0
  {
    assert Open(WorkKey);
    ghost var m := pool.View();
    ParsedAt(t, src, q, vector, nodes, w.vector, i);
    StillInput(m0, m, o, rib, q, i, w, val, ix, inode, d);
    ok, w', val', ix' := CompileSlot(pool, nodes[i], inode, w, i, t, o, src, rib, d, q, m0, val, ix);
    GrownTrans(m0, m, pool.View());
  }

  // ---------- storing the finished node ----------

  lemma {:induction false} TakeDrop(m: Mem, b: nat, k: nat, o: Owner)
    requires MemOK(m) && b !in m.AN
    ensures DropN(TakenN(m, b, k, o), b) == m
  {
    assert Open(MemOKKey);
    assert m.AN[b := k] - {b} == m.AN && m.ON[b := o] - {b} == m.ON;
  }

  /** The children block of a node. */
  method StoreChildren(pool: Pool, vector: Vec, children: seq<Node>, n: nat, ghost q: Path)
    returns (base1: int, ghost k: nat)
    requires pool.Valid() && |vector| == |children| && n == Count(vector)
    modifies pool.Repr(), pool.log
    ensures pool.Valid() && base1 >= -1
    ensures pool.log.notes == old(pool.log.notes) +
              if n > 0 && base1 < 0 then [Note(old(pool.View()), k, true)] else []
    ensures n > 0 && base1 < 0 ==>
              LeastOrder(n, k) && NoRoom(old(pool.View()).AN, pool.cnodes, k) && MemOK(pool.View())
    ensures n > 0 && base1 < 0 ==> pool.View() == old(pool.View())
    ensures n == 0 || base1 >= 0 ==>
              && Got(old(pool.View()).AN, |old(pool.View()).N|, base1, k, n)
              && pool.View() == WithNode(old(pool.View()), q, base1, k, Pick(vector, children), -1, 0, [])
  {
    ghost var m := pool.View();
    base1, k := -1, 0;
    if n > 0 {
      k := OrderFor(n);
      base1 := pool.AllocNodes(OrderFor(n), Kids(q));
      if base1 < 0 {
        return;
      }
    }
    pool.PutChildren(base1, vector, children);
    assert pool.View() == WithNode(m, q, base1, k, Pick(vector, children), -1, 0, []);
  }

  method StoreLeaves(pool: Pool, leaves: seq<nat>, ghost q: Path) returns (base0: int, ghost k: nat)
    requires pool.Valid()
    modifies pool.Repr(), pool.log
    ensures pool.Valid() && base0 >= -1
    ensures pool.log.notes == old(pool.log.notes) +
              if leaves != [] && base0 < 0 then [Note(old(pool.View()), k, false)] else []
    ensures leaves != [] && base0 < 0 ==>
              LeastOrder(|leaves|, k) && NoRoom(old(pool.View()).AL, pool.cleaves, k) && MemOK(pool.View())
    ensures leaves != [] && base0 < 0 ==> pool.View() == old(pool.View())
    ensures leaves == [] || base0 >= 0 ==>
              && Got(old(pool.View()).AL, |old(pool.View()).L|, base0, k, |leaves|)
              && pool.View() == WithNode(old(pool.View()), q, -1, 0, [], base0, k, leaves)
  {
    ghost var m := pool.View();
    base0, k := -1, 0;
    if |leaves| > 0 {
      k := OrderFor(|leaves|);
      base0 := pool.AllocLeaves(OrderFor(|leaves|), Kids(q));
      if base0 < 0 {
        return;
      }
    }
    pool.PutLeaves(base0, leaves);
    assert pool.View() == WithNode(m, q, -1, 0, [], base0, k, leaves);
  }

  lemma {:induction false} TakenKids(m: Mem, b: nat, k: nat, q: Path, n: nat)
    requires b !in m.AN && LeastOrder(n, k)
    ensures KidsTaken(m, TakenN(m, b, k, Kids(q)), q, n)
  {
    var m' := TakenN(m, b, k, Kids(q));
    assert b in m'.AN && m'.AN[b] == k && m'.AN == m.AN[b := m'.AN[b]] && m'.ON == m.ON[b := Kids(q)];
  }

  /** The node at q has been compiled but not stored. */
  lemma {:induction false} StoreRefused(ns0: seq<Note>, ns: seq<Note>, pool: Pool, m0: Mem, m: Mem, o: Version,
                                        rib: Routes, q: Path, w: Work, val: NodeMap, ix: Cells)
    requires Compiling(m0, m, o, rib, q, SLOTS, w, val, ix)
    requires StoreFails(ns0, ns, pool, m, q, w.nvec, |w.leaves|) && (w.nvec == 0 ==> ns[|ns0|].mem == m)
    ensures Told(ns0, ns, false, pool, m0, rib, q)
  {
    CompilingIs(m0, m, o, rib, q, SLOTS, w, val, ix);
    FinishedWork(w, ValsOf(rib, q));
    BuildingIs(m0, m, rib, q, SLOTS, w.vector, w.children, val, ix);
    AllSlots(rib, q, w.vector, w.children, val, ix);
    SingleLeaf(rib, q);
    StoreTold(ns0, ns, pool, m0, m, rib, q, val, ix);
  }

  /** Allocate the blocks of a node and fill them. */
  method StoreNode(pool: Pool, w: Work, ghost q: Path)
    returns (ok: bool, base1: int, base0: int, ghost k1: nat, ghost k0: nat)
    requires pool.Valid() && |w.vector| == |w.children| && w.nvec == Count(w.vector)
    modifies pool.Repr(), pool.log
    ensures pool.Valid()
    ensures |pool.log.notes| == old(|pool.log.notes|) + if !ok then 1 else 0
    ensures ok ==> pool.log.notes == old(pool.log.notes)
    ensures !ok ==> StoreFails(old(pool.log.notes), pool.log.notes, pool, old(pool.View()), q, w.nvec, |w.leaves|)
    ensures !ok && w.nvec == 0 ==> pool.log.notes[|old(pool.log.notes)|].mem == old(pool.View())
    ensures !ok ==> pool.View() == old(pool.View())
    ensures ok ==>
              && Got(old(pool.View()).AN, |old(pool.View()).N|, base1, k1, w.nvec)
              && Got(old(pool.View()).AL, |old(pool.View()).L|, base0, k0, |w.leaves|)
              && pool.View() == WithNode(old(pool.View()), q, base1, k1, Pick(w.vector, w.children), base0, k0,
                  w.leaves)
  {
    ghost var m := pool.View();
    ok, base1, base0, k1, k0 := false, -1, -1, 0, 0;
    pool.Sound();
    if w.nvec > 0 {
      k1 := OrderFor(w.nvec);
      base1 := pool.AllocNodes(OrderFor(w.nvec), Kids(q));
      if base1 < 0 {
        return;
      }
      TakeDrop(m, base1, k1, Kids(q));
      TakenKids(m, base1, k1, q, w.nvec);
    }
    if |w.leaves| > 0 {
      k0 := OrderFor(|w.leaves|);
      base0 := pool.AllocLeaves(OrderFor(|w.leaves|), Kids(q));
      if base0 < 0 {
        if base1 >= 0 {
          pool.FreeNodes(base1);
        }
        return;
      }
    }
    pool.PutChildren(base1, w.vector, w.children);
    pool.PutLeaves(base0, w.leaves);
    assert pool.View() == WithNode(m, q, base1, k1, Pick(w.vector, w.children), base0, k0, w.leaves);
    ok := true;
  }

  // ---------- the compiler ----------

  ghost predicate CompileInput(m: Mem, o: Version, q: Path, inode: int, d: nat) {
    AtNode(q) && Old(m, o) && OldCell(m, o, q, inode) && (inode >= 0 ==> d <= |q| + STRIDE)
  }

  /** Where the old node has no child there is no old node below. */
  lemma {:induction false} NoOldChild(m: Mem, o: Version, q: Path, i: nat)
    requires Old(m, o) && i < SLOTS && AtNode(q)
    ensures Slot(q, i) in o.val ==> q in o.val && |o.val[q].vector| == SLOTS && o.val[q].vector[i]
  {
    var x := Slot(q, i);
    if x in o.val {
      assert Open(VersionKey);
      assert x[..|x| - STRIDE] == q;
      assert q in o.val by { assert Open(ParentKey); }
      NotConstant(m, o.rib, o.val, o.ix, x);
      NotConstant(m, o.rib, o.val, o.ix, q);
      GoodChild(m, o.rib, o.ix, q, o.val[q], i);
    }
  }

  lemma {:induction false} InputBelow(m: Mem, o: Version, q: Path, inode: int, d: nat, i: nat)
    requires CompileInput(m, o, q, inode, d) && inode >= 0 && i < SLOTS && AtNode(Slot(q, i))
    ensures var n := o.val[q];
            |n.vector| == SLOTS
            && CompileInput(m, o, Slot(q, i), if n.vector[i] then n.base1 + Rank(n.vector, i) - 1 else -1, d)
  {
    OldChild(m, o, q, inode, i);
    NoOldChild(m, o, q, i);
  }

  /** The old node of slot i. */
  method ChildInode(pool: Pool, inode: int, i: nat, ghost o: Version, ghost q: Path, ghost d: nat) returns (ninode: int)
    requires pool.Valid() && CompileInput(pool.View(), o, q, inode, d) && i < SLOTS && AtNode(Slot(q, i))
    ensures CompileInput(pool.View(), o, Slot(q, i), ninode, d)
  {
    ninode := -1;
    NoOldChild(pool.View(), o, q, i);
    if inode >= 0 {
      InputBelow(pool.View(), o, q, inode, d, i);
      var old' := pool.nodes[inode];
      assert old' == pool.View().N[inode];
      if old'.vector[i] {
        ninode := old'.base1 + Rank(old'.vector, i) - 1;
      }
    }
  }

  lemma {:induction false} FinishedWork(w: Work, vals: seq<nat>)
    requires Progress(w, vals, SLOTS)
    ensures w.leafvec == RunVec(w.vector, vals) && w.leaves == RunLeaves(w.vector, vals) && w.nvec == Count(w.vector)
  {
    assert w.vector[..SLOTS] == w.vector && vals[..SLOTS] == vals;
    assert Zeros(SLOTS - SLOTS) == [];
  }

  /** The node is finished, or it is a single leaf. */
  lemma {:induction false} FinishInode(m0: Mem, m: Mem, m': Mem, o: Version, rib: Routes, q: Path, w: Work,
                                       val: NodeMap, ix: Cells,
                                       n: Node, k1: nat, k0: nat)
    requires Compiling(m0, m, o, rib, q, SLOTS, w, val, ix)
    requires n == Node(w.leafvec, w.vector, n.base0, n.base1)
    requires && Got(m.AN, |m.N|, n.base1, k1, w.nvec) && Got(m.AL, |m.L|, n.base0, k0, |w.leaves|)
             && w.nvec == Count(w.vector)
             && m' == WithNode(m, q, n.base1, k1, Pick(w.vector, w.children), n.base0, k0, w.leaves)
    ensures Constant(rib, q) <==> w.nvec == 0 && |w.leaves| == 1
    ensures Constant(rib, q) ==> Compressed(m0, m', rib, q, n, w.leaves[0])
    ensures !Constant(rib, q) ==> (w.nvec > 0 ==> n.base1 >= 0)
    ensures !Constant(rib, q) ==> Piece(m0, m', rib, q, n, val[q := n], ix + KidCells(q, n.vector, n.base1))
    ensures Grown(m0, m')
  {
    CompilingIs(m0, m, o, rib, q, SLOTS, w, val, ix);
    FinishedWork(w, ValsOf(rib, q));
    BuildingIs(m0, m, rib, q, SLOTS, w.vector, w.children, val, ix);
    AllSlots(rib, q, w.vector, w.children, val, ix);
    SingleLeaf(rib, q);
    if Constant(rib, q) {
      CompressNode(m0, m, m', rib, q, w.children, val, ix, n, k1, k0);
    } else {
      FinishNode(m0, m, m', rib, q, w.children, val, ix, n, k1, k0);
    }
    WithNodeGrown(m, q, n.base1, k1, Pick(w.vector, w.children), n.base0, k0, w.leaves);
    GrownTrans(m0, m, m');
  }

  /** _update_inode. */
  method UpdateInode(pool: Pool, node: Fields, inode: int, ghost t: Tree, ghost o: Version, ghost src: Routes,
                     ghost rib: Routes, ghost d: nat, ghost q: Path)
    returns (ret: int, n: Node, leaf: nat, ghost val: NodeMap, ghost ix: Cells)
    requires Rebuilt(t, o, d, q)
    requires pool.Valid() && Source(t, src, rib, o, d) && t.Values !! pool.Repr()
    requires CompileInput(pool.View(), o, q, inode, d) && CopyOf(t, src, q, node)
    modifies pool.Repr(), pool.log
    ensures pool.Valid() && -1 <= ret <= 1 && Grown(old(pool.View()), pool.View())
    ensures |pool.log.notes| == old(|pool.log.notes|) + if ret < 0 then 1 else 0
    ensures Told(old(pool.log.notes), pool.log.notes, ret >= 0, pool, old(pool.View()), rib, q)
    ensures ret == 0 ==> Piece(old(pool.View()), pool.View(), rib, q, n, val, ix)
    ensures ret == 1 ==> Compressed(old(pool.View()), pool.View(), rib, q, n, leaf)
    ensures |q| <= KEYLENGTH && (ret >= 0 ==> (ret == 1 <==> Constant(rib, q)))
    decreases KEYLENGTH - |q|, 3
  {
    ghost var m0 := pool.View();
    ret, n, leaf, val, ix := -1, Node([], [], -1, -1), 0, map[], map[];
    assert q + [] == q;
    var vector, nodes := ParseTriangle(node, Zeros(SLOTS), seq(SLOTS, _ => node), 0, 0, t, src, q, []);
    TriangleParsed(t, src, q, Zeros(SLOTS), seq(SLOTS, _ => node), vector, nodes);
    var ok, w, val0, ix0 := CompileSlots(pool, nodes, vector, inode, t, o, src, rib, d, q);
    if !ok {
      return;
    }
    ghost var m := pool.View();
    CompilingIs(m0, m, o, rib, q, SLOTS, w, val0, ix0);
    FinishedWork(w, ValsOf(rib, q));
    ToldIs(old(pool.log.notes), pool.log.notes, true, pool, m0, rib, q);
    var ok', base1, base0, k1, k0 := StoreNode(pool, w, q);
    if !ok' {
      StoreRefused(old(pool.log.notes), pool.log.notes, pool, m0, m, o, rib, q, w, val0, ix0);
      return;
    }
    NothingTold(pool.log.notes, pool, m0, rib, q);
    n := Node(w.leafvec, w.vector, base0, base1);
    FinishInode(m0, m, pool.View(), o, rib, q, w, val0, ix0, n, k1, k0);
    if w.nvec == 0 && |w.leaves| == 1 {
      leaf := w.leaves[0];
      ret := 1;
    } else {
      val, ix := val0[q := n], ix0 + KidCells(q, n.vector, n.base1);
      ret := 0;
    }
  }
}
