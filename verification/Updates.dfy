/** _update_part: compile what is marked, and carry the change up to the root. */
module Updates {
  import opened Bits
  import opened Forwarding
  import opened Nodes
  import opened Folding
  import opened Memory
  import opened Compile
  import opened Radix
  import opened Inodes
  import opened Versions
  import opened Succession
  import opened Splice
  import opened Rebuild
  import opened Exchange
  import opened Pools
  import opened Requests

  // ---------- _update_part_loop2 ----------

  lemma {:induction false} NotConstantAbove(rib: Routes, p: Path, j: nat)
    requires j < SLOTS && |p| + STRIDE <= KEYLENGTH && !Constant(rib, Slot(p, j))
    ensures !Constant(rib, p)
  {
    SlotExtends(p, j);
    if Constant(rib, p) { ConstantAbove(rib, Slot(p, j), p); }
  }

  /** _update_part_loop2: the pending node n belongs into slot j of the node at p. */
  method Loop2(pool: Pool, inode: int, j: nat, n: Node, ghost m0: Mem, ghost o: Version, ghost rib: Routes,
               ghost v: Path, ghost p: Path,
               ghost val: NodeMap, ghost ix: Cells)
    returns (ret: int, n': Node, ghost val': NodeMap, ghost ix': Cells, ghost o': Version)
    requires pool.Valid() && Trie(m0, o) && OnWay(o, rib, v, p, j) && p in o.ix && o.ix[p] == inode
    requires Piece(m0, pool.View(), rib, Slot(p, j), n, val, ix)
    modifies pool.Repr(), pool.log
    ensures pool.Valid() && -1 <= ret <= 1
    ensures |pool.log.notes| == old(|pool.log.notes|) + if ret < 0 then 1 else 0
    ensures Told(old(pool.log.notes), pool.log.notes, ret >= 0, pool, m0, rib, p)
    ensures ret == 0 ==> Piece(m0, pool.View(), rib, p, n', val', ix')
    ensures ret == 1 ==> Trie(pool.View(), o') && Exchanged(o, o', rib, p) && p in o'.ix && o'.ix[p] == inode
  {
    ghost var m := pool.View();
    n', val', ix', o' := n, map[], map[], o;
    PieceParts(m0, m, rib, Slot(p, j), n, val, ix);
    PieceIsPart(m0, m, rib, Slot(p, j), n, val, ix);
    ParentOnWay(m0, m, o, rib, v, p, j, inode);
    var node := pool.nodes[inode];
    ClearedVector(m, o, rib, p, j, inode, node);
    SlotExtends(p, j);
    ExtendsTrans(v, Slot(p, j), p);
    UnderLonger(o.rib, rib, v, p);
    if node.vector[j] {
      assert node.vector[j := true] == node.vector;
      ret, o' := SwapChild(pool, node, inode, j, n, m0, o, rib, p, val, ix);
      if ret == 0 {
        ret := 1;
      }
    } else {
      NotConstantAbove(rib, p, j);
      ret, n', val', ix' := ChildParent(pool, node, j, n, m0, o, rib, p, inode, val, ix);
    }
  }

  // ---------- the stack ----------

  /** An entry of the stack: a node on the way down and the slot taken there.  The sentinel has idx -1. */
  datatype Frame = Frame(inode: int, idx: int)

  /** The stack holds the nodes on the way to depth d along v. */
  ghost predicate StackOK(stack: seq<Frame>, o: Version, v: Path, d: nat)
    requires d <= |v|
    decreases |stack|
  {
    |stack| >= 1 &&
    var f := stack[|stack| - 1];
    if |stack| == 1 then d == TOP && f.idx < 0
    else d >= TOP + STRIDE && f.idx == SlotOf(v, d - STRIDE) && AtNode(v[..d - STRIDE])
         && v[..d - STRIDE] in o.ix && f.inode == o.ix[v[..d - STRIDE]]
         && StackOK(stack[..|stack| - 1], o, v, d - STRIDE)
  }

  lemma {:induction false} WayDown(v: Path, d: nat)
    requires STRIDE <= d <= |v|
    ensures Slot(v[..d - STRIDE], SlotOf(v, d - STRIDE)) == v[..d] && Extends(v, v[..d])
  {
    var p := v[..d - STRIDE];
    SlotUnder(v, p, SlotOf(v, d - STRIDE));
    assert v[..|Slot(p, SlotOf(v, |p|))|] == v[..d];
  }

  /** The frame on top of the stack. */
  lemma {:induction false} TopFrame(stack: seq<Frame>, o: Version, rib: Routes, v: Path, d: nat)
    requires d < |v| <= KEYLENGTH && StackOK(stack, o, v, d) && stack[|stack| - 1].idx >= 0 && OnlyUnder(o.rib, rib, v)
    ensures |stack| >= 2 && d >= TOP + STRIDE && StackOK(stack[..|stack| - 1], o, v, d - STRIDE)
    ensures var f, p := stack[|stack| - 1], v[..d - STRIDE];
            OnWay(o, rib, v, p, f.idx) && p in o.ix && f.inode == o.ix[p] && Slot(p, f.idx) == v[..d]
    ensures stack[|stack| - 2].idx < 0 <==> d - STRIDE == TOP
  {
    WayDown(v, d);
    var s := stack[..|stack| - 1];
    assert s[|s| - 1] == stack[|stack| - 2];
  }

  lemma {:induction false} PushFrame(stack: seq<Frame>, o: Version, v: Path, d: nat, inode: int)
    requires d + STRIDE <= |v| && StackOK(stack, o, v, d) && AtNode(v[..d]) && v[..d] in o.ix && o.ix[v[..d]] == inode
    ensures StackOK(stack + [Frame(inode, SlotOf(v, d))], o, v, d + STRIDE)
  {
    var s := stack + [Frame(inode, SlotOf(v, d))];
    assert s[..|s| - 1] == stack;
    assert v[..d + STRIDE - STRIDE] == v[..d];
    StackEnd(stack, o, v, d);
  }

  lemma {:induction false} StackEnd(stack: seq<Frame>, o: Version, v: Path, d: nat)
    requires d <= |v| && StackOK(stack, o, v, d)
    ensures stack[|stack| - 1].idx < 0 <==> d == TOP
    ensures d >= TOP
  {
  }

  /** A version that was exchanged below a longer path. */
  lemma {:induction false} ExchangedUp(o: Version, o': Version, rib: Routes, p: Path, q: Path)
    requires Exchanged(o, o', rib, p) && Extends(p, q)
    ensures Exchanged(o, o', rib, q)
  {
    OutsideUp(o.val, o'.val, p, q);
    OutsideUp(o.ix, o'.ix, p, q);
  }

  lemma {:induction false} OutsideUp<V>(a: map<Path, V>, b: map<Path, V>, p: Path, q: Path)
    requires Outside(b, p) == Outside(a, p) && Extends(p, q)
    ensures Outside(b, q) == Outside(a, q)
  {
    forall x | !Extends(x, q) ensures !Extends(x, p) {
      if Extends(x, p) { ExtendsTrans(x, p, q); }
    }
    forall x ensures x in Outside(b, q) <==> x in Outside(a, q) {
      assert x in Outside(b, p) <==> x in Outside(a, p);
    }
    forall x | x in Outside(b, q) ensures Outside(b, q)[x] == Outside(a, q)[x] {
      assert Outside(b, p)[x] == Outside(a, p)[x];
    }
  }

  /** Nothing is forwarded differently: the old version is the new one. */
  lemma {:induction false} SameVersion(m0: Mem, m: Mem, o: Version, rib: Routes)
    requires Trie(m0, o) && Forest(m0, m, rib, map[], map[])
    requires forall a :: |a| == KEYLENGTH ==> Fwd(o.rib, a) == Fwd(rib, a)
    ensures Trie(m, Version(rib, o.val, o.ix))
  {
    TrieParts(m0, o);
    ForestParts(m0, m, rib, map[], map[]);
    TreesGrown(m0, m, o.rib, o.val, o.ix);
    StoredGrown(m0, m, o.val, o.ix);
    RootsGrown(m0, m, o.ix);
    AllAccounted(m0, m, o, map[], map[]);
    NoneUsed(m, o);
    SameTrees(m, o, rib);
    assert Old(m, Version(rib, o.val, o.ix)) by { assert Open(VersionKey); }
    assert Open(TrieKey);
  }

  lemma {:induction false} NoneUsed(m: Mem, o: Version)
    requires forall b :: b in m.AN ==> UsedN(m, o.val, o.ix, b) || UsedN(m, map[], map[], b)
    requires forall b :: b in m.AL ==> UsedL(m, o.val, b) || UsedL(m, map[], b)
    ensures AllUsed(m, o.val, o.ix)
  {
  }

  lemma {:induction false} SameTrees(m: Mem, o: Version, rib: Routes)
    requires Trees(m, o.rib, o.val, o.ix) && forall a :: |a| == KEYLENGTH ==> Fwd(o.rib, a) == Fwd(rib, a)
    ensures Trees(m, rib, o.val, o.ix)
  {
    forall x | x in o.val ensures NodeOK(m, rib, o.ix, x, o.val[x]) {
      NotConstant(m, o.rib, o.val, o.ix, x);
      ForwardsAlike(o.rib, rib, x);
      SameConstant(o.rib, rib, x);
      GoodSame(m, o.rib, rib, o.ix, x, o.val[x]);
    }
    assert Open(TreesKey);
  }

  lemma {:induction false} GoodSame(m: Mem, rib: Routes, rib': Routes, ix: Cells, x: Path, n: Node)
    requires Good(m, rib, ix, x, n) && Same(rib, rib', x)
    ensures Good(m, rib', ix, x, n)
  {
    assert Open(GoodKey);
    SameVec(rib, rib', x);
  }

  // ---------- walking up ----------

  /** The result of walking up: a pending node at the top, or a finished version. */
  ghost predicate Arrived(m0: Mem, m: Mem, o: Version, rib: Routes, top: Path, ret: int, n: Node, val: NodeMap,
                          ix: Cells, o': Version) {
    && -1 <= ret <= 1
    && (ret == 0 ==> Piece(m0, m, rib, top, n, val, ix))
    && (ret == 1 ==>
        Trie(m, o') && Exchanged(o, o', rib, top) && top in o'.ix && top in o.ix && o'.ix[top] == o.ix[top])
  }

  lemma {:induction false} TopIn(m0: Mem, o: Version, p: Path)
    requires Trie(m0, o) && p in o.ix
    ensures |p| >= TOP && p[..TOP] in o.ix && Extends(p, p[..TOP])
  {
    TrieParts(m0, o);
    NotConstant(m0, o.rib, o.val, o.ix, p);
    AncestorIn(o.val, p, p[..TOP], m0, o.rib, o.ix);
  }

  /** The top of a version exchanged below p. */
  lemma {:induction false} ExchangedTop(m0: Mem, m: Mem, o: Version, o': Version, rib: Routes, p: Path)
    requires Trie(m0, o) && Trie(m, o') && Exchanged(o, o', rib, p) && p in o.ix && p in o'.ix && o'.ix[p] == o.ix[p]
    ensures |p| >= TOP
    ensures var top := p[..TOP]; Exchanged(o, o', rib, top) && top in o'.ix && top in o.ix && o'.ix[top] == o.ix[top]
  {
    TopIn(m0, o, p);
    TopIn(m, o', p);
    var top := p[..TOP];
    ExchangedUp(o, o', rib, p, top);
    if |p| == TOP {
      assert top == p;
    } else {
      assert !Extends(top, p);
      assert top in Outside(o.ix, p) && Outside(o.ix, p)[top] == o.ix[top];
      assert top in Outside(o'.ix, p) && Outside(o'.ix, p)[top] == o'.ix[top];
    }
  }

  /** One turn of the first loop. */
  method LeafStep(pool: Pool, stack: seq<Frame>, sleaf: nat, ghost m0: Mem, ghost o: Version, ghost rib: Routes,
                  ghost v: Path, ghost d: nat)
    returns (ret: int, vcomp: bool, n: Node, ghost val: NodeMap, ghost ix: Cells, ghost o': Version)
    requires pool.Valid() && Trie(m0, o) && OnlyUnder(o.rib, rib, v) && d < |v| <= KEYLENGTH
    requires StackOK(stack, o, v, d) && stack[|stack| - 1].idx >= 0
    requires Pending(m0, pool.View(), rib, v[..d], true, sleaf, Node([], [], -1, -1), map[], map[])
    modifies pool.Repr(), pool.log
    ensures pool.Valid() && -1 <= ret <= 1
    ensures |pool.log.notes| == old(|pool.log.notes|) + if ret < 0 then 1 else 0
    ensures |stack| >= 2 && d >= TOP + STRIDE && StackOK(stack[..|stack| - 1], o, v, d - STRIDE)
    ensures Told(old(pool.log.notes), pool.log.notes, ret >= 0, pool, m0, rib, v[..TOP])
    ensures ret == 0 ==>
        Pending(m0, pool.View(), rib, v[..d - STRIDE], vcomp, sleaf, n, val, ix) && (vcomp ==> d - STRIDE > TOP)
    ensures ret == 0 && vcomp ==> n == Node([], [], -1, -1) && val == map[] && ix == map[]
    ensures ret == 1 ==> Arrived(m0, pool.View(), o, rib, v[..TOP], ret, n, val, ix, o')
  {
    TopFrame(stack, o, rib, v, d);
    var f := stack[|stack| - 1];
    ghost var p := v[..d - STRIDE];
    o' := o;
    ret, vcomp, n, val, ix := Loop1(pool, f.inode, f.idx, stack[|stack| - 2].idx < 0, sleaf, m0, o, rib, v, p);
    assert p[..TOP] == v[..TOP];
    ToldWider(old(pool.log.notes), pool.log.notes, ret >= 0, pool, m0, rib, p, v[..TOP]);
    if ret > 0 {
      o' := Version(rib, o.val, o.ix);
      SameVersion(m0, pool.View(), o, rib);
      ExchangedTop(m0, pool.View(), o, o', rib, p);
    } else if vcomp {
      n, val, ix := Node([], [], -1, -1), map[], map[];
    }
  }

  /** The first loop of _update_part: while the part is a leaf, its parents may become leaves. */
  method WalkLeaf(pool: Pool, stack: seq<Frame>, sleaf: nat, ghost m0: Mem, ghost o: Version, ghost rib: Routes,
                  ghost v: Path, ghost d: nat)
    returns (ret: int, rest: seq<Frame>, n: Node, ghost e: nat, ghost val: NodeMap, ghost ix: Cells, ghost o': Version)
    requires pool.Valid() && Trie(m0, o) && OnlyUnder(o.rib, rib, v) && TOP < d < |v| <= KEYLENGTH
        && StackOK(stack, o, v, d)
    requires Pending(m0, pool.View(), rib, v[..d], true, sleaf, Node([], [], -1, -1), map[], map[])
    modifies pool.Repr(), pool.log
    ensures pool.Valid() && -1 <= ret <= 1
    ensures |pool.log.notes| == old(|pool.log.notes|) + if ret < 0 then 1 else 0
    ensures Told(old(pool.log.notes), pool.log.notes, ret >= 0, pool, m0, rib, v[..TOP])
    ensures ret == 0 ==> e < |v| && StackOK(rest, o, v, e) && Piece(m0, pool.View(), rib, v[..e], n, val, ix)
    ensures ret == 1 ==> Arrived(m0, pool.View(), o, rib, v[..TOP], ret, n, val, ix, o')
  {
    ret, rest, n, e, val, ix, o' := 0, stack, Node([], [], -1, -1), d, map[], map[], o;
    var vcomp := true;
    StackEnd(rest, o, v, e);
    while vcomp && rest[|rest| - 1].idx >= 0
      invariant ret == 0 && TOP <= e < |v| && StackOK(rest, o, v, e)
      invariant pool.log.notes == old(pool.log.notes)
      invariant pool.Valid() && Pending(m0, pool.View(), rib, v[..e], vcomp, sleaf, n, val, ix)
      invariant vcomp ==> e > TOP && n == Node([], [], -1, -1) && val == map[] && ix == map[]
      decreases |rest|
    {
      ret, vcomp, n, val, ix, o' := LeafStep(pool, rest, sleaf, m0, o, rib, v, e);
      ToldIs(old(pool.log.notes), pool.log.notes, ret >= 0, pool, m0, rib, v[..TOP]);
      if ret != 0 {
        return;
      }
      rest := rest[..|rest| - 1];
      e := e - STRIDE;
    }
    NothingTold(pool.log.notes, pool, m0, rib, v[..TOP]);
    StackEnd(rest, o, v, e);
  }

  /** The second loop of _update_part: the pending node is put into its parent. */
  method WalkNode(pool: Pool, stack: seq<Frame>, n0: Node, ghost m0: Mem, ghost o: Version, ghost rib: Routes,
                  ghost v: Path, ghost d: nat,
                  ghost val0: NodeMap, ghost ix0: Cells)
    returns (ret: int, n: Node, ghost val: NodeMap, ghost ix: Cells, ghost o': Version)
    requires pool.Valid() && Trie(m0, o) && OnlyUnder(o.rib, rib, v) && d < |v| <= KEYLENGTH && StackOK(stack, o, v, d)
    requires Piece(m0, pool.View(), rib, v[..d], n0, val0, ix0)
    modifies pool.Repr(), pool.log
    ensures pool.Valid() && -1 <= ret <= 1
    ensures |pool.log.notes| == old(|pool.log.notes|) + if ret < 0 then 1 else 0
    ensures |v| > TOP && Told(old(pool.log.notes), pool.log.notes, ret >= 0, pool, m0, rib, v[..TOP])
    ensures |v| > TOP && Arrived(m0, pool.View(), o, rib, v[..TOP], ret, n, val, ix, o')
  {
    ret, n, val, ix, o' := 0, n0, val0, ix0, o;
    var rest := stack;
    ghost var e := d;
    StackEnd(rest, o, v, e);
    while rest[|rest| - 1].idx >= 0
      invariant ret == 0 && TOP <= e < |v| && StackOK(rest, o, v, e)
      invariant pool.log.notes == old(pool.log.notes)
      invariant pool.Valid() && Piece(m0, pool.View(), rib, v[..e], n, val, ix)
      decreases |rest|
    {
      ret, n, val, ix, o' := NodeStep(pool, rest, n, m0, o, rib, v, e, val, ix);
      ToldIs(old(pool.log.notes), pool.log.notes, ret >= 0, pool, m0, rib, v[..TOP]);
      if ret != 0 {
        return;
      }
      rest := rest[..|rest| - 1];
      e := e - STRIDE;
    }
    NothingTold(pool.log.notes, pool, m0, rib, v[..TOP]);
    StackEnd(rest, o, v, e);
  }

  /** One turn of the second loop. */
  method NodeStep(pool: Pool, stack: seq<Frame>, n: Node, ghost m0: Mem, ghost o: Version, ghost rib: Routes,
                  ghost v: Path, ghost d: nat,
                  ghost val: NodeMap, ghost ix: Cells)
    returns (ret: int, n': Node, ghost val': NodeMap, ghost ix': Cells, ghost o': Version)
    requires pool.Valid() && Trie(m0, o) && OnlyUnder(o.rib, rib, v) && d < |v| <= KEYLENGTH
    requires StackOK(stack, o, v, d) && stack[|stack| - 1].idx >= 0
    requires Piece(m0, pool.View(), rib, v[..d], n, val, ix)
    modifies pool.Repr(), pool.log
    ensures pool.Valid() && -1 <= ret <= 1
    ensures |pool.log.notes| == old(|pool.log.notes|) + if ret < 0 then 1 else 0
    ensures |stack| >= 2 && d >= TOP + STRIDE && StackOK(stack[..|stack| - 1], o, v, d - STRIDE)
    ensures Told(old(pool.log.notes), pool.log.notes, ret >= 0, pool, m0, rib, v[..TOP])
    ensures ret == 0 ==> Piece(m0, pool.View(), rib, v[..d - STRIDE], n', val', ix')
    ensures ret == 1 ==> Arrived(m0, pool.View(), o, rib, v[..TOP], ret, n', val', ix', o')
  {
    TopFrame(stack, o, rib, v, d);
    var f := stack[|stack| - 1];
    ghost var p := v[..d - STRIDE];
    ret, n', val', ix', o' := Loop2(pool, f.inode, f.idx, n, m0, o, rib, v, p, val, ix);
    assert p[..TOP] == v[..TOP];
    ToldWider(old(pool.log.notes), pool.log.notes, ret >= 0, pool, m0, rib, p, v[..TOP]);
    if ret > 0 {
      ExchangedTop(m0, pool.View(), o, o', rib, p);
    }
  }
}
