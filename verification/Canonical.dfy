/** What the compiled trie depends on, and what the popcount walk over it finds. */
module Canonical {
  import opened Bits
  import opened Forwarding
  import opened Nodes
  import opened Folding
  import opened Memory
  import opened Compile
  import opened Radix
  import opened Triangles
  import opened Inodes
  import opened Versions
  import opened Succession
  import opened Roots
  import opened TopEntries
  import opened Lagging
  import opened Pools
  import opened Requests

  // ---------- the popcount walk ----------

  /** The leaf that the walk for addr finds from the node n at depth pos on, or -1 if it leaves the arrays. */
  function Walk(m: Mem, n: Node, addr: Path, pos: nat): (r: int)
    decreases KEYLENGTH - pos
  {
    if pos + STRIDE > |addr| || |addr| > KEYLENGTH || |n.vector| != SLOTS || |n.leafvec| != SLOTS then -1
    else
      var idx := SlotOf(addr, pos);
      if n.vector[idx] then
        var c := n.base1 + Rank(n.vector, idx) - 1;
        if 0 <= c < |m.N| then Walk(m, m.N[c], addr, pos + STRIDE) else -1
      else
        var c := n.base0 + Rank(n.leafvec, idx) - 1;
        if 0 <= c < |m.L| then m.L[c] else -1
  }

  /** From every node of val, the walk gives the longest match. */
  lemma {:induction false} WalkFrom(m: Mem, rib: Routes, val: NodeMap, ix: Cells, x: Path, a: Path)
    requires Trees(m, rib, val, ix) && Stored(m, val, ix) && x in val && Under(a, x)
    ensures Walk(m, val[x], a, |x|) == Fwd(rib, a)
    decreases KEYLENGTH - |x|
  {
    NotConstant(m, rib, val, ix, x);
    var n, i := val[x], SlotOf(a, |x|);
    GoodChild(m, rib, ix, x, n, i);
    GoodLeaf(m, rib, ix, x, n, i);
    SlotUnder(a, x, i);
    if n.vector[i] {
      StoredAt(m, val, ix, Slot(x, i));
      WalkFrom(m, rib, val, ix, Slot(x, i), a);
    }
  }

  /** A compiled piece: the walk from its pending root gives the longest match for every address below. */
  lemma {:induction false} PieceWalk(m0: Mem, m: Mem, rib: Routes, q: Path, n: Node, val: NodeMap, ix: Cells, a: Path)
    requires Piece(m0, m, rib, q, n, val, ix) && Under(a, q)
    ensures Walk(m, n, a, |q|) == Fwd(rib, a)
  {
    PieceParts(m0, m, rib, q, n, val, ix);
    WalkFrom(m, rib, val, ix, q, a);
  }

  // ---------- compiling from scratch ----------

  const NOTHING: Version := Version(map[], map[], map[])

  lemma {:induction false} NothingOld(m: Mem, q: Path)
    requires MemOK(m) && AtNode(q)
    ensures Old(m, NOTHING) && OldCell(m, NOTHING, q, -1)
  {
    EmptyForest(m, map[]);
    assert Stored(m, map[], map[]) && Trees(m, map[], map[], map[]) by { assert Open(ForestKey); }
    assert Parented(NOTHING.val, TOP) by { assert Open(ParentKey); }
    assert Open(VersionKey);
  }

  lemma {:induction false} NothingKept(t: Tree, src: Routes, q: Path)
    requires RibOK(t, src)
    ensures Source(t, src, src, NOTHING, 0) && Rebuilt(t, NOTHING, 0, q)
  {
    assert Open(MarksKey);
  }

  /** _update_inode with inode < 0: the result depends on the routes below q only, not on what is stored or marked.
      Constant forwarding gives a single leaf; otherwise the node has the bitmaps and leaves of the forwarding function,
      and the walk from it gives the longest match for every address below q. */
  method FromScratch(pool: Pool, node: Fields, ghost t: Tree, ghost src: Routes, ghost q: Path)
    returns (ret: int, n: Node, leaf: nat, ghost val: NodeMap, ghost ix: Cells)
    requires pool.Valid() && RibOK(t, src) && t.Values !! pool.Repr() && AtNode(q) && CopyOf(t, src, q, node)
    modifies pool.Repr(), pool.log
    ensures pool.Valid() && -1 <= ret <= 1 && |pool.log.notes| == old(|pool.log.notes|) + if ret < 0 then 1 else 0
    ensures Told(old(pool.log.notes), pool.log.notes, ret >= 0, pool, old(pool.View()), src, q)
    ensures ret >= 0 ==> (ret == 1 <==> Constant(src, q)) && (ret == 1 ==> leaf == Val(src, q))
    ensures ret == 0 ==>
              && Piece(old(pool.View()), pool.View(), src, q, n, val, ix)
              && n.vector == VecOf(src, q) && n.leafvec == RunVec(n.vector, ValsOf(src, q))
              && LeavesAt(pool.View().L, n.base0, RunLeaves(n.vector, ValsOf(src, q)))
              && forall a :: Under(a, q) ==> Walk(pool.View(), n, a, |q|) == Fwd(src, a)
  {
    ghost var m0 := pool.View();
    pool.Sound();
    NothingOld(m0, q);
    NothingKept(t, src, q);
    ret, n, leaf, val, ix := UpdateChunk(pool, node, -1, t, NOTHING, src, src, 0, q);
    if ret == 0 {
      PieceForm(m0, pool.View(), src, q, n, val, ix);
    }
  }

  lemma {:induction false} PieceForm(m0: Mem, m: Mem, rib: Routes, q: Path, n: Node, val: NodeMap, ix: Cells)
    requires Piece(m0, m, rib, q, n, val, ix)
    ensures |q| + STRIDE <= KEYLENGTH && n.vector == VecOf(rib, q) && n.leafvec == RunVec(n.vector, ValsOf(rib, q))
    ensures LeavesAt(m.L, n.base0, RunLeaves(n.vector, ValsOf(rib, q)))
    ensures forall a :: Under(a, q) ==> Walk(m, n, a, |q|) == Fwd(rib, a)
  {
    PieceParts(m0, m, rib, q, n, val, ix);
    NotConstant(m, rib, val, ix, q);
    assert Open(GoodKey);
    forall a | Under(a, q) ensures Walk(m, n, a, |q|) == Fwd(rib, a) {
      PieceWalk(m0, m, rib, q, n, val, ix, a);
    }
  }

  // ---------- canonical form ----------

  /** Below the top level there is a node exactly where forwarding is not constant; at the top level wherever it is not,
      and perhaps elsewhere. */
  lemma {:induction false} NodeIff(m: Mem, dir: seq<nat>, o: Version, p: Path)
    requires Trie(m, o) && DirOK(dir, o) && AtNode(p)
    ensures !Constant(o.rib, p) ==> p in o.val
    ensures |p| > TOP && p in o.val ==> !Constant(o.rib, p)
    decreases |p|
  {
    TrieParts(m, o);
    if p in o.val { NotConstant(m, o.rib, o.val, o.ix, p); }
    if !Constant(o.rib, p) {
      if |p| == TOP {
        EntryOfTop(p);
      } else {
        DepthStep(TOP, |p|);
        SlotOfUp(p);
        var u := Up(p);
        if Constant(o.rib, u) { ConstantAbove(o.rib, p, u); }
        NodeIff(m, dir, o, u);
        NotConstant(m, o.rib, o.val, o.ix, u);
        GoodChild(m, o.rib, o.ix, u, o.val[u], SlotOf(p, |u|));
      }
    }
  }

  /** The leaves of the node at p. */
  function LeavesOf(m: Mem, n: Node): seq<nat> {
    if 0 <= n.base0 && n.base0 + Count(n.leafvec) <= |m.L| then m.L[n.base0..n.base0 + Count(n.leafvec)] else []
  }

  lemma {:induction false} LeavesAre(m: Mem, o: Version, p: Path)
    requires Trie(m, o) && p in o.val
    ensures |p| + STRIDE <= KEYLENGTH
    ensures var n := o.val[p];
            && n.vector == VecOf(o.rib, p) && n.leafvec == RunVec(n.vector, ValsOf(o.rib, p))
            && LeavesOf(m, n) == RunLeaves(n.vector, ValsOf(o.rib, p))
  {
    TrieParts(m, o);
    NotConstant(m, o.rib, o.val, o.ix, p);
    assert Open(GoodKey);
    var n := o.val[p];
    RunCount(n.vector, ValsOf(o.rib, p));
    if RunLeaves(n.vector, ValsOf(o.rib, p)) == [] {
      assert LeavesOf(m, n) == [];
    }
  }

  /** No two neighbouring leaves of a node are equal. */
  lemma {:induction false} LeavesDiffer(m: Mem, o: Version, p: Path, i: nat)
    requires Trie(m, o) && p in o.val && 0 < i < |LeavesOf(m, o.val[p])|
    ensures LeavesOf(m, o.val[p])[i - 1] != LeavesOf(m, o.val[p])[i]
  {
    LeavesAre(m, o, p);
    RunsDiffer(o.val[p].vector, ValsOf(o.rib, p), i);
  }

  /** Two compiled tries that forward alike have the same nodes below the top level, and nodes at the same path have
      the same vector, the same leafvec and the same leaves. */
  lemma {:induction false} CanonicalForm(m: Mem, dir: seq<nat>, o: Version, m': Mem, dir': seq<nat>, o': Version,
                                         p: Path)
    requires Trie(m, o) && DirOK(dir, o) && Trie(m', o') && DirOK(dir', o') && Alike(o.rib, o'.rib)
    ensures |p| > TOP ==> (p in o.val <==> p in o'.val)
    ensures p in o.val && p in o'.val ==>
              && o.val[p].vector == o'.val[p].vector && o.val[p].leafvec == o'.val[p].leafvec
              && LeavesOf(m, o.val[p]) == LeavesOf(m', o'.val[p])
  {
    TrieParts(m, o);
    TrieParts(m', o');
    if p in o.val || p in o'.val {
      if p in o.val { NotConstant(m, o.rib, o.val, o.ix, p); } else { NotConstant(m', o'.rib, o'.val, o'.ix, p); }
      assert Same(o.rib, o'.rib, p);
      SameConstant(o.rib, o'.rib, p);
      NodeIff(m, dir, o, p);
      NodeIff(m', dir', o', p);
    }
    if p in o.val && p in o'.val {
      SameVec(o.rib, o'.rib, p);
      LeavesAre(m, o, p);
      LeavesAre(m', o', p);
    }
  }

  /** Where one of them has a node at the top level and the other a leaf in its entry, the node has no children and a
      single leaf, the one in the entry. */
  lemma {:induction false} TopException(m: Mem, dir: seq<nat>, o: Version, m': Mem, dir': seq<nat>, o': Version,
                                        p: Path)
    requires Trie(m, o) && DirOK(dir, o) && Trie(m', o') && DirOK(dir', o') && Alike(o.rib, o'.rib)
    requires |p| == TOP && p in o.val && p !in o'.val
    ensures FirstEntry(p) < ENTRIES && dir'[FirstEntry(p)] >= LEAF
    ensures Constant(o.rib, p) && Count(o.val[p].vector) == 0 && LeavesOf(m, o.val[p]) == [dir'[FirstEntry(p)] - LEAF]
  {
    TrieParts(m', o');
    TopLeaf(dir', o', p);
    LoneLeaf(m, o, o'.rib, p);
  }

  lemma {:induction false} LoneLeaf(m: Mem, o: Version, rib: Routes, p: Path)
    requires Trie(m, o) && p in o.val && |p| == TOP && Alike(o.rib, rib) && Constant(rib, p)
    ensures Constant(o.rib, p) && Count(o.val[p].vector) == 0 && LeavesOf(m, o.val[p]) == [Val(rib, p)]
  {
    assert Same(o.rib, rib, p);
    SameConstant(o.rib, rib, p);
    LeavesAre(m, o, p);
    SingleLeaf(o.rib, p);
  }

  lemma {:induction false} TopLeaf(dir: seq<nat>, o: Version, p: Path)
    requires DirOK(dir, o) && |p| == TOP && o.ix.Keys == o.val.Keys && p !in o.val
    ensures FirstEntry(p) < ENTRIES && dir[FirstEntry(p)] >= LEAF && Constant(o.rib, p)
        && dir[FirstEntry(p)] - LEAF == Val(o.rib, p)
  {
    EntryOfTop(p);
  }

  /** The trie has no node that a compile from scratch would not make. */
  ghost predicate Minimal(o: Version) {
    forall p :: p in o.val && |p| == TOP ==> !Constant(o.rib, p)
  }

  /** Without the exception the nodes are those where forwarding is not constant, so two such tries that forward alike
      have the same entries: leaves with the same next hop, or nodes. */
  lemma {:induction false} MinimalForm(m: Mem, dir: seq<nat>, o: Version, m': Mem, dir': seq<nat>, o': Version)
    requires Trie(m, o) && DirOK(dir, o) && Trie(m', o') && DirOK(dir', o') && Alike(o.rib, o'.rib)
    requires Minimal(o) && Minimal(o')
    ensures o.val.Keys == o'.val.Keys
    ensures forall i :: 0 <= i < ENTRIES ==>
        (dir[i] >= LEAF <==> dir'[i] >= LEAF) && (dir[i] >= LEAF ==> dir[i] == dir'[i])
  {
    TrieParts(m, o);
    TrieParts(m', o');
    forall p ensures p in o.val <==> p in o'.val {
      CanonicalForm(m, dir, o, m', dir', o', p);
      TopAlike(m, dir, o, m', dir', o', p);
    }
    forall i | 0 <= i < ENTRIES ensures (dir[i] >= LEAF <==> dir'[i] >= LEAF)
        && (dir[i] >= LEAF ==> dir[i] == dir'[i]) {
      var p := TopOf(i);
      assert EntryOK(dir[i], o, p) && EntryOK(dir'[i], o', p);
      assert Same(o.rib, o'.rib, p);
      SameConstant(o.rib, o'.rib, p);
    }
  }

  lemma {:induction false} TopAlike(m: Mem, dir: seq<nat>, o: Version, m': Mem, dir': seq<nat>, o': Version, p: Path)
    requires Trie(m, o) && DirOK(dir, o) && Trie(m', o') && DirOK(dir', o') && Alike(o.rib, o'.rib)
    requires Minimal(o) && Minimal(o')
    ensures |p| <= TOP ==> (p in o.val <==> p in o'.val)
  {
    TrieParts(m, o);
    TrieParts(m', o');
    if p in o.val { NotConstant(m, o.rib, o.val, o.ix, p); }
    if p in o'.val { NotConstant(m', o'.rib, o'.val, o'.ix, p); }
    if |p| == TOP && (p in o.val || p in o'.val) {
      assert Same(o.rib, o'.rib, p);
      SameConstant(o.rib, o'.rib, p);
      NodeIff(m, dir, o, p);
      NodeIff(m', dir', o', p);
    }
  }
}
