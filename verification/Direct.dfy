/** _update_part and _update_part_dp. */
module Direct {
  // What is marked below a node of the radix tree is compiled, and the result put into the direct pointing array.

  import opened Bits
  import opened Forwarding
  import opened Nodes
  import opened Folding
  import opened Memory
  import opened Compile
  import opened Radix
  import opened Triangles
  import opened Inodes
  import opened Versions
  import opened Cleanup
  import opened Succession
  import opened Rebuild
  import opened Exchange
  import opened Updates
  import opened Roots
  import opened Pools
  import opened Requests

  /** There is no cell for the root at the top-level path top. */
  lemma {:induction false} RootRefused(ns: seq<Note>, pool: Pool, m0: Mem, m: Mem, rib: Routes, top: Path, n: Node,
                                       val: NodeMap, ix: Cells)
    requires Piece(m0, m, rib, top, n, val, ix) && NoRoom(m.AN, pool.cnodes, 0) && MemOK(m)
    ensures Told(ns, ns + [Note(m, 0, true)], false, pool, m0, rib, top)
  {
    assert Forest(m0, m, rib, val, ix) && forall x :: x in val ==> Extends(x, top) by { assert Open(PieceKey); }
    ForestCharged(m0, m, rib, val, ix, top);
  }

  /** The pending node at the top-level path top is stored and becomes entry i. */
  method PlaceRoot(pool: Pool, root: array<nat>, i: nat, n: Node, ghost m0: Mem, ghost rib: Routes, ghost top: Path,
                   ghost val: NodeMap, ghost ix: Cells)
    returns (ret: int, ghost ni: Cells)
    requires pool.Valid() && pool.nodes.Length <= LEAF && root !in pool.Repr() && i < root.Length && |top| == TOP
    requires Piece(m0, pool.View(), rib, top, n, val, ix)
    modifies pool.Repr(), pool.log, root
    ensures pool.Valid() && -1 <= ret <= 0
    ensures |pool.log.notes| == old(|pool.log.notes|) + if ret < 0 then 1 else 0
    ensures Told(old(pool.log.notes), pool.log.notes, ret >= 0, pool, m0, rib, top)
    ensures ret == 0 ==> Shoots(m0, pool.View(), rib, top, val, ni) && NewEntry(root[i], rib, top, val, ni)
    ensures ret < 0 ==> pool.View() == old(pool.View())
    ensures ret < 0 <==> NoRoom(old(pool.View()).AN, pool.cnodes, 0)
    ensures root[..] == if ret == 0 then old(root[..])[i := root[i]] else old(root[..])
    ensures ret == 0 ==> root[i] < LEAF
  {
    ghost var m := pool.View();
    ni := ix;
    var nroot := pool.AllocNodes(0, Root(top));
    if nroot < 0 {
      RootRefused(old(pool.log.notes), pool, m0, m, rib, top, n, val, ix);
      return -1, ni;
    }
    NothingTold(pool.log.notes, pool, m0, rib, top);
    PutRoot(pool, nroot, n, m, top);
    root[i] := nroot;
    RootStored(m0, m, rib, top, n, val, ix, nroot);
    ni := ix[top := nroot];
    ret := 0;
  }

  /** The same for the growth of the memory since m0. */
  method KeepRoot(pool: Pool, root: array<nat>, i: nat, n: Node, ghost m0: Mem, ghost rib: Routes, ghost top: Path,
                  ghost val: NodeMap, ghost ix: Cells)
    returns (ret: int, ghost ni: Cells)
    requires pool.Valid() && pool.nodes.Length <= LEAF && root !in pool.Repr() && i < root.Length && |top| == TOP
    requires Piece(m0, pool.View(), rib, top, n, val, ix) && Grown(m0, pool.View())
    modifies pool.Repr(), pool.log, root
    ensures pool.Valid() && -1 <= ret <= 0 && Grown(m0, pool.View())
    ensures |pool.log.notes| == old(|pool.log.notes|) + if ret < 0 then 1 else 0
    ensures Told(old(pool.log.notes), pool.log.notes, ret >= 0, pool, m0, rib, top)
    ensures ret == 0 ==> Shoots(m0, pool.View(), rib, top, val, ni) && NewEntry(root[i], rib, top, val, ni)
    ensures NoRoom(m0.AN, pool.cnodes, 0) ==> ret < 0
    ensures root[..] == if ret == 0 then old(root[..])[i := root[i]] else old(root[..])
    ensures ret == 0 ==> root[i] < LEAF
  {
    if NoRoom(m0.AN, pool.cnodes, 0) { NoRoomLater(m0, pool.View(), pool.cnodes, 0); }
    ret, ni := PlaceRoot(pool, root, i, n, m0, rib, top, val, ix);
    if ret == 0 { ShootParts(m0, pool.View(), rib, top, val, ni); }
  }

  method PutRoot(pool: Pool, c: nat, n: Node, ghost m: Mem, ghost top: Path)
    requires pool.Valid() && c < pool.nodes.Length && pool.View() == TakenN(m, c, 0, Root(top))
    modifies pool.nodes
    ensures pool.Valid() && c + 1 <= |m.N| && pool.View() == WithKids(m, c, 0, Root(top), [n])
  {
    assert |m.N| == pool.nodes.Length by { assert pool.View().N == m.N; }
    WriteOne(m.N, c, n);
    pool.SetNode(c, n);
  }

  lemma {:induction false} WriteOne(s: seq<Node>, c: nat, n: Node)
    requires c < |s|
    ensures Write(s, c, [n]) == s[c := n]
  {
    var r := Write(s, c, [n]);
    assert r[c..c + 1][0] == r[c];
  }

  /** Slots that are copied lie below the top level. */
  lemma {:induction false} TopRebuilt(t: Tree, m: Mem, o: Version, d: nat, top: Path)
    requires Old(m, o) && |top| == TOP
    ensures Rebuilt(t, o, d, top)
  {
    forall y | Kept(View(t), o, d, y) ensures !Extends(top, y) {
      assert Trees(m, o.rib, o.val, o.ix) by { assert Open(VersionKey); }
      NotConstant(m, o.rib, o.val, o.ix, y[..|y| - STRIDE]);
    }
  }

  /** What has been compiled for the top-level path top becomes entry i: the leaf sleaf, or the node n. */
  method PlaceTop(pool: Pool, root: array<nat>, i: nat, isLeaf: bool, n: Node, sleaf: nat, ghost m0: Mem,
                  ghost rib: Routes, ghost top: Path, ghost val: NodeMap, ghost ix: Cells)
    returns (ret: int, ghost nv: NodeMap, ghost ni: Cells)
    requires pool.Valid() && pool.nodes.Length <= LEAF && root !in pool.Repr() && i < root.Length && |top| == TOP
    requires Grown(m0, pool.View()) && (isLeaf <==> Constant(rib, top))
    requires if isLeaf then Forest(m0, pool.View(), rib, map[], map[]) && sleaf == Val(rib, top)
             else Piece(m0, pool.View(), rib, top, n, val, ix)
    modifies pool.Repr(), pool.log, root
    ensures pool.Valid() && -1 <= ret <= 0 && Grown(m0, pool.View())
    ensures |pool.log.notes| == old(|pool.log.notes|) + if ret < 0 then 1 else 0
    ensures Told(old(pool.log.notes), pool.log.notes, ret >= 0, pool, m0, rib, top)
    ensures ret == 0 ==> Shoots(m0, pool.View(), rib, top, nv, ni) && NewEntry(root[i], rib, top, nv, ni)
    ensures root[..] == if ret == 0 then old(root[..])[i := root[i]] else old(root[..])
    ensures NoRoom(m0.AN, pool.cnodes, 0) && !Constant(rib, top) ==> ret < 0
    ensures ret == 0 ==> (root[i] >= LEAF <==> Constant(rib, top))
  {
    if isLeaf {
      nv, ni := map[], map[];
      NothingTold(pool.log.notes, pool, m0, rib, top);
      NoShoots(m0, pool.View(), rib, top);
      root[i] := LEAF + sleaf;
      ret := 0;
    } else {
      nv := val;
      ret, ni := KeepRoot(pool, root, i, n, m0, rib, top, val, ix);
    }
  }

  /** The first half of _update_part_dp: compile the radix tree below the top-level path top into entry i. */
  method CompileTop(pool: Pool, root: array<nat>, i: nat, tnode: RadixNode, inode: int,
                    ghost t: Tree, ghost o: Version, ghost src: Routes, ghost rib: Routes, ghost d: nat,
                    ghost top: Path)
    returns (ret: int, ghost nv: NodeMap, ghost ni: Cells)
    requires pool.Valid() && pool.nodes.Length <= LEAF && root !in pool.Repr() && i < root.Length && |top| == TOP
    requires Source(t, src, rib, o, d) && t.Values !! pool.Repr() && top in t && tnode == t[top]
    requires CompileInput(pool.View(), o, top, inode, d)
    modifies pool.Repr(), pool.log, root
    ensures pool.Valid() && -1 <= ret <= 0 && Grown(old(pool.View()), pool.View())
    ensures |pool.log.notes| == old(|pool.log.notes|) + if ret < 0 then 1 else 0
    ensures Told(old(pool.log.notes), pool.log.notes, ret >= 0, pool, old(pool.View()), rib, top)
    ensures ret == 0 ==> Shoots(old(pool.View()), pool.View(), rib, top, nv, ni) && NewEntry(root[i], rib, top, nv, ni)
    ensures root[..] == if ret == 0 then old(root[..])[i := root[i]] else old(root[..])
    ensures NoRoom(old(pool.View()).AN, pool.cnodes, 0) && !Constant(rib, top) ==> ret < 0
    ensures ret == 0 ==> (root[i] >= LEAF <==> Constant(rib, top))
  {
    ghost var m0 := pool.View();
    ObjectIsCopy(t, src, top);
    TopRebuilt(t, m0, o, d, top);
    var n, sleaf;
    ghost var ix;
    ret, n, sleaf, nv, ix := UpdateChunk(pool, FieldsOf(tnode), inode, t, o, src, rib, d, top);
    ToldIs(old(pool.log.notes), pool.log.notes, ret >= 0, pool, m0, rib, top);
    ni := ix;
    if ret >= 0 {
      ret, nv, ni := PlaceTop(pool, root, i, ret > 0, n, sleaf, m0, rib, top, nv, ix);
    }
  }

  /** The second half: entry e of the old version has been replaced by e', and what only the old one uses is
      freed. */
  method FinishTop(pool: Pool, e: nat, e': nat, ghost m0: Mem, ghost o: Version, ghost rib: Routes, ghost top: Path,
                   ghost nv: NodeMap, ghost ni: Cells)
    requires pool.Valid() && Trie(m0, o) && Shoots(m0, pool.View(), rib, top, nv, ni) && |top| == TOP
        && OnlyUnder(o.rib, rib, top)
    requires EntryOK(e, o, top) && NewEntry(e', rib, top, nv, ni)
    modifies pool.Repr()
    ensures pool.Valid() && Trie(pool.View(), Next(o, rib, top, nv, ni))
    ensures EntryOK(e', Next(o, rib, top, nv, ni), top) && Exchanged(o, Next(o, rib, top, nv, ni), rib, top)
  {
    ghost var m := pool.View();
    ReplaceTops(m0, m, o, rib, top, nv, ni);
    NothingFreed(m, top);
    assert SparesTop(m, Gone({}, {}), top);
    assert Extends(top, top);
    ShootParts(m0, m, rib, top, nv, ni);
    Succeeds(m, o, rib, top, nv, ni);
    NextExchanged(o, rib, top, nv, ni);
    NextEntry(o, rib, top, nv, ni, top, e');
    CleanTop(pool, e, e', m, o, rib, top, nv, ni, top, Gone({}, {}));
  }

  lemma {:induction false} NextEntry(o: Version, rib: Routes, p: Path, nv: NodeMap, ni: Cells, top: Path, e': nat)
    requires NewEntry(e', rib, top, nv, ni) && Extends(top, p)
    ensures EntryOK(e', Next(o, rib, p, nv, ni), top)
  {
    assert Extends(top, top);
  }

  // ---------- _update_part ----------

  /** The node tnode of the radix tree at depth d on the way to v is to be compiled: inode is the cell of the
      old node there, and stack leads to it. */
  ghost predicate Here(m: Mem, t: Tree, o: Version, rib: Routes, v: Path, d: nat, tnode: RadixNode, inode: int,
                       stack: seq<Frame>) {
    && TOP <= d <= |v| <= KEYLENGTH && OnlyUnder(o.rib, rib, v) && Trie(m, o)
    && v[..d] in t && tnode == t[v[..d]] && AtNode(v[..d]) && OldCell(m, o, v[..d], inode)
    && StackOK(stack, o, v, d) && (d == TOP || d < |v|)
  }

  lemma {:induction false} HereInput(m: Mem, t: Tree, o: Version, rib: Routes, v: Path, d: nat, tnode: RadixNode,
                                     inode: int, stack: seq<Frame>)
    requires Here(m, t, o, rib, v, d, tnode, inode, stack) && (inode >= 0 ==> |v| <= d + STRIDE)
    ensures CompileInput(m, o, v[..d], inode, |v|) && OnlyUnder(o.rib, rib, v[..TOP])
    ensures stack[|stack| - 1].idx < 0 <==> d == TOP
  {
    assert Old(m, o) by { assert Open(TrieKey); }
    UnderLonger(o.rib, rib, v, v[..TOP]);
    StackEnd(stack, o, v, d);
  }

  /** Slots that are copied lie below the way to v. */
  lemma {:induction false} HereRebuilt(t: Tree, m: Mem, o: Version, rib: Routes, v: Path, d: nat, tnode: RadixNode,
                                       inode: int, stack: seq<Frame>)
    requires Here(m, t, o, rib, v, d, tnode, inode, stack)
    ensures Rebuilt(t, o, |v|, v[..d])
  {
    if d == TOP {
      assert Old(m, o) by { assert Open(TrieKey); }
      TopRebuilt(t, m, o, |v|, v[..d]);
    }
  }

  /** What an update at entry i achieves. */
  ghost predicate Updated(m: Mem, o: Version, o': Version, rib: Routes, top: Path, e: nat) {
    Trie(m, o') && EntryOK(e, o', top) && Exchanged(o, o', rib, top)
  }

  /** _update_part_dp: the top-level node is compiled. */
  method UpdatePartDp(pool: Pool, root: array<nat>, i: nat, tnode: RadixNode, inode: int, ghost t: Tree,
                      ghost o: Version, ghost src: Routes, ghost rib: Routes,
                      ghost d: nat, ghost top: Path)
    returns (ret: int, ghost o': Version)
    requires pool.Valid() && pool.nodes.Length <= LEAF && root !in pool.Repr() && i < root.Length && |top| == TOP
    requires Source(t, src, rib, o, d) && t.Values !! pool.Repr() && top in t && tnode == t[top]
    requires CompileInput(pool.View(), o, top, inode, d) && Trie(pool.View(), o) && OnlyUnder(o.rib, rib, top)
    requires EntryOK(root[i], o, top)
    modifies pool.Repr(), pool.log, root
    ensures pool.Valid() && -1 <= ret <= 0
    ensures |pool.log.notes| == old(|pool.log.notes|) + if ret < 0 then 1 else 0
    ensures Told(old(pool.log.notes), pool.log.notes, ret >= 0, pool, old(pool.View()), rib, top)
    ensures ret == 0 ==> Updated(pool.View(), o, o', rib, top, root[i])
    ensures root[..] == if ret == 0 then old(root[..])[i := root[i]] else old(root[..])
  {
    ghost var m0 := pool.View();
    var oroot := root[i];
    ghost var nv, ni;
    o' := o;
    ret, nv, ni := CompileTop(pool, root, i, tnode, inode, t, o, src, rib, d, top);
    if ret == 0 {
      FinishTop(pool, oroot, root[i], m0, o, rib, top, nv, ni);
      o' := Next(o, rib, top, nv, ni);
    }
  }

  /** _update_part below the top level: compile, walk up, and replace the root if the change gets there. */
  method UpdateBelow(pool: Pool, root: array<nat>, i: nat, tnode: RadixNode, inode: int, stack: seq<Frame>,
                     ghost t: Tree, ghost o: Version, ghost src: Routes, ghost rib: Routes, ghost v: Path, ghost d: nat)
    returns (ret: int, ghost o': Version)
    requires pool.Valid() && pool.nodes.Length <= LEAF && root !in pool.Repr() && i < root.Length
    requires Source(t, src, rib, o, |v|) && t.Values !! pool.Repr()
    requires Here(pool.View(), t, o, rib, v, d, tnode, inode, stack) && (inode >= 0 ==> |v| <= d + STRIDE)
    requires stack[|stack| - 1].idx >= 0 && EntryOK(root[i], o, v[..TOP])
    modifies pool.Repr(), pool.log, root
    ensures pool.Valid() && -1 <= ret <= 0
    ensures |pool.log.notes| == old(|pool.log.notes|) + if ret < 0 then 1 else 0
    ensures Told(old(pool.log.notes), pool.log.notes, ret >= 0, pool, old(pool.View()), rib, v[..TOP])
    ensures ret == 0 ==> Updated(pool.View(), o, o', rib, v[..TOP], root[i])
    ensures ret == 0 ==> root[..] == old(root[..])[i := root[i]]
  {
    ghost var m0 := pool.View();
    ghost var top := v[..TOP];
    var oroot := root[i];
    o' := o;
    HereInput(m0, t, o, rib, v, d, tnode, inode, stack);
    var n;
    ghost var val, ix;
    ret, n, val, ix, o' := WalkUp(pool, tnode, inode, stack, t, o, src, rib, v, d);
    ToldIs(old(pool.log.notes), pool.log.notes, ret >= 0, pool, m0, rib, top);
    if ret < 0 {
      return;
    }
    if ret > 0 {
      SameEntry(oroot, m0, o, o', rib, top);
      assert root[..] == old(root[..])[i := root[i]];
      ret := 0;
      return;
    }
    ghost var ni;
    ret, ni := PlaceRoot(pool, root, i, n, m0, rib, top, val, ix);
    if ret == 0 {
      FinishTop(pool, oroot, root[i], m0, o, rib, top, val, ni);
      o' := Next(o, rib, top, val, ni);
    }
  }

  lemma {:induction false} SameEntry(e: nat, m0: Mem, o: Version, o': Version, rib: Routes, top: Path)
    requires EntryOK(e, o, top) && top in o.ix && top in o'.ix && o'.ix[top] == o.ix[top] && Trie(m0, o)
    ensures EntryOK(e, o', top)
  {
    TrieParts(m0, o);
  }

  /** Compile at depth d and walk up to the top. */
  method WalkUp(pool: Pool, tnode: RadixNode, inode: int, stack: seq<Frame>, ghost t: Tree, ghost o: Version,
                ghost src: Routes, ghost rib: Routes, ghost v: Path, ghost d: nat)
    returns (ret: int, n: Node, ghost val: NodeMap, ghost ix: Cells, ghost o': Version)
    requires pool.Valid() && Source(t, src, rib, o, |v|) && t.Values !! pool.Repr()
    requires Here(pool.View(), t, o, rib, v, d, tnode, inode, stack) && (inode >= 0 ==> |v| <= d + STRIDE)
    requires stack[|stack| - 1].idx >= 0
    modifies pool.Repr(), pool.log
    ensures pool.Valid() && |v| >= TOP
    ensures |pool.log.notes| == old(|pool.log.notes|) + if ret < 0 then 1 else 0
    ensures Told(old(pool.log.notes), pool.log.notes, ret >= 0, pool, old(pool.View()), rib, v[..TOP])
    ensures Arrived(old(pool.View()), pool.View(), o, rib, v[..TOP], ret, n, val, ix, o')
  {
    ghost var m0 := pool.View();
    o' := o;
    HereInput(m0, t, o, rib, v, d, tnode, inode, stack);
    ObjectIsCopy(t, src, v[..d]);
    HereRebuilt(t, m0, o, rib, v, d, tnode, inode, stack);
    var sleaf;
    ret, n, sleaf, val, ix := UpdateChunk(pool, FieldsOf(tnode), inode, t, o, src, rib, |v|, v[..d]);
    assert v[..d][..TOP] == v[..TOP];
    ToldWider(old(pool.log.notes), pool.log.notes, ret >= 0, pool, m0, rib, v[..d], v[..TOP]);
    ToldIs(old(pool.log.notes), pool.log.notes, ret >= 0, pool, m0, rib, v[..TOP]);
    if ret < 0 {
      return;
    }
    var rest := stack;
    ghost var e := d;
    if ret > 0 {
      ret, rest, n, e, val, ix, o' := WalkLeaf(pool, stack, sleaf, m0, o, rib, v, d);
      ToldIs(old(pool.log.notes), pool.log.notes, ret >= 0, pool, m0, rib, v[..TOP]);
      if ret != 0 {
        return;
      }
    }
    ret, n, val, ix, o' := WalkNode(pool, rest, n, m0, o, rib, v, e, val, ix);
  }

  /** _update_part. */
  method UpdatePart(pool: Pool, root: array<nat>, i: nat, tnode: RadixNode, inode: int, stack: seq<Frame>,
                    ghost t: Tree, ghost o: Version, ghost src: Routes, ghost rib: Routes, ghost v: Path, ghost d: nat)
    returns (ret: int, ghost o': Version)
    requires pool.Valid() && pool.nodes.Length <= LEAF && root !in pool.Repr() && i < root.Length
    requires Source(t, src, rib, o, |v|) && t.Values !! pool.Repr()
    requires Here(pool.View(), t, o, rib, v, d, tnode, inode, stack) && (inode >= 0 ==> |v| <= d + STRIDE)
    requires EntryOK(root[i], o, v[..TOP])
    modifies pool.Repr(), pool.log, root
    ensures pool.Valid() && -1 <= ret <= 0
    ensures |pool.log.notes| == old(|pool.log.notes|) + if ret < 0 then 1 else 0
    ensures Told(old(pool.log.notes), pool.log.notes, ret >= 0, pool, old(pool.View()), rib, v[..TOP])
    ensures ret == 0 ==> Updated(pool.View(), o, o', rib, v[..TOP], root[i])
    ensures ret == 0 ==> root[..] == old(root[..])[i := root[i]]
  {
    HereInput(pool.View(), t, o, rib, v, d, tnode, inode, stack);
    if stack[|stack| - 1].idx < 0 {
      ret, o' := UpdatePartDp(pool, root, i, tnode, inode, t, o, src, rib, |v|, v[..TOP]);
    } else {
      ret, o' := UpdateBelow(pool, root, i, tnode, inode, stack, t, o, src, rib, v, d);
    }
  }

  // ---------- _descend_and_update ----------

  /** One step down. */
  lemma {:induction false} StepDown(m: Mem, t: Tree, o: Version, src: Routes, rib: Routes, v: Path, d: nat,
                                    tnode: RadixNode, inode: int, stack: seq<Frame>)
    requires Here(m, t, o, rib, v, d, tnode, inode, stack) && inode >= 0 && d + STRIDE < |v| && Shape(t, src) && v in t
    ensures var j, node := SlotOf(v, d), o.val[v[..d]];
            && inode < |m.N| && m.N[inode] == node && |node.vector| == SLOTS && v[..d + STRIDE] in t
            && Here(m, t, o, rib, v, d + STRIDE, t[v[..d + STRIDE]],
                    if node.vector[j] then node.base1 + Rank(node.vector, j) - 1 else -1, stack + [Frame(inode, j)])
  {
    assert Old(m, o) by { assert Open(TrieKey); }
    OldDown(m, o, v, d, inode);
    PrefixIn(t, src, v, d + STRIDE);
    DepthAgain(d, |v|);
    PushFrame(stack, o, v, d, inode);
  }

  /** The old node one step down, if there is one. */
  lemma {:induction false} OldDown(m: Mem, o: Version, v: Path, d: nat, inode: int)
    requires Old(m, o) && d + STRIDE <= |v| && OldCell(m, o, v[..d], inode) && inode >= 0 && AtNode(v[..d])
    ensures var j, node := SlotOf(v, d), o.val[v[..d]];
            && |node.vector| == SLOTS
            && OldCell(m, o, v[..d + STRIDE], if node.vector[j] then node.base1 + Rank(node.vector, j) - 1 else -1)
  {
    var q, j := v[..d], SlotOf(v, d);
    OldChild(m, o, q, inode, j);
    NoOldChild(m, o, q, j);
    WayDown(v, d + STRIDE);
    assert v[..d + STRIDE - STRIDE] == q;
  }

  lemma {:induction false} DepthAgain(d: nat, e: nat)
    requires TOP <= d && (d - TOP) % STRIDE == 0 && d + STRIDE < e <= KEYLENGTH
    ensures (d + STRIDE - TOP) % STRIDE == 0 && d + 2 * STRIDE <= KEYLENGTH
  {
  }

  /** _descend_and_update: find the node from which on something is marked. */
  method DescendAndUpdate(pool: Pool, root: array<nat>, i: nat, tnode: RadixNode, inode: int, stack: seq<Frame>,
                          prefix: Path, len: nat, depth: nat,
                          ghost t: Tree, ghost o: Version, ghost src: Routes, ghost rib: Routes)
    returns (ret: int, ghost o': Version)
    requires pool.Valid() && pool.nodes.Length <= LEAF && root !in pool.Repr() && i < root.Length && len == |prefix|
    requires Source(t, src, rib, o, len) && t.Values !! pool.Repr() && prefix in t
    requires Here(pool.View(), t, o, rib, prefix, depth, tnode, inode, stack) && EntryOK(root[i], o, prefix[..TOP])
    modifies pool.Repr(), pool.log, root
    ensures pool.Valid() && -1 <= ret <= 0
    ensures |pool.log.notes| == old(|pool.log.notes|) + if ret < 0 then 1 else 0
    ensures Told(old(pool.log.notes), pool.log.notes, ret >= 0, pool, old(pool.View()), rib, prefix[..TOP])
    ensures ret == 0 ==> Updated(pool.View(), o, o', rib, prefix[..TOP], root[i])
    ensures ret == 0 ==> root[..] == old(root[..])[i := root[i]]
    decreases len - depth
  {
    if len <= depth + STRIDE {
      ret, o' := UpdatePart(pool, root, i, tnode, inode, stack, t, o, src, rib, prefix, depth);
    } else if inode < 0 {
      ret, o' := UpdatePart(pool, root, i, tnode, inode, stack, t, o, src, rib, prefix, depth);
    } else {
      StepDown(pool.View(), t, o, src, rib, prefix, depth, tnode, inode, stack);
      var idx := SlotOf(prefix, depth);
      var bits := prefix[depth..depth + STRIDE];
      assert prefix[..depth] + bits == prefix[..depth + STRIDE];
      assert bits[..0] == [] && prefix[..depth] + [] == prefix[..depth];
      var ntnode := NextBlock(tnode, bits, 0, t, src, prefix[..depth]);
      var node := pool.nodes[inode];
      assert node == pool.View().N[inode];
      var ninode := if node.vector[idx] then node.base1 + Rank(node.vector, idx) - 1 else -1;
      ret, o' := DescendAndUpdate(pool, root, i, ntnode, ninode, stack + [Frame(inode, idx)], prefix, len,
          depth + STRIDE, t, o, src, rib);
    }
  }
}
