/** Exchanging a part of the trie for a new one and freeing what the old one leaves behind. */
module Exchange {
  import opened Bits
  import opened Forwarding
  import opened Nodes
  import opened Folding
  import opened Memory
  import opened Compile
  import opened Inodes
  import opened Versions
  import opened Cleanup
  import opened Succession
  import opened Splice
  import opened Cleaning
  import opened Rebuild
  import opened Pools
  import opened Requests

  ghost function Sides(m: Mem, o: Version, rib: Routes, p: Path, nv: NodeMap, ni: Cells): Both {
    Both(m, o.rib, o.val, o.ix, TOP, rib, nv, ni, if |p| > TOP then |p| else TOP)
  }

  lemma {:induction false} SidesHold(m: Mem, o: Version, rib: Routes, p: Path, nv: NodeMap, ni: Cells)
    requires Replacing(m, o, rib, p, nv, ni)
    ensures BothHold(Sides(m, o, rib, p, nv, ni))
    ensures CellsBelow(m, o.val, o.ix, p) && CellsBelow(m, nv, ni, p)
    ensures forall x :: x in nv ==> CellHas(m, nv, ni, x) && Extends(x, p)
  {
    assert Open(DeadKey);
    assert Open(StoredKey);
  }

  lemma {:induction false} NothingFreed(m: Mem, x: Path)
    ensures Freed(m, Gone({}, {})) == m && Spares(m, Gone({}, {}), x)
    ensures forall g: Gone :: Plus(Gone({}, {}), g) == g && Plus(g, Gone({}, {})) == g
  {
    assert m.AN - {} == m.AN && m.AL - {} == m.AL && m.ON - {} == m.ON && m.OL - {} == m.OL;
    forall g: Gone ensures Plus(Gone({}, {}), g) == g && Plus(g, Gone({}, {})) == g {
      assert {} + g.n == g.n && {} + g.l == g.l && g.n + {} == g.n && g.l + {} == g.l;
    }
  }

  // ---------- a node that is changed in place ----------

  lemma {:induction false} NoDeadRoots(o: Version, p: Path, nv: NodeMap, ni: Cells)
    requires TOP <= |p| && p in o.ix && p in ni && ni[p] == o.ix[p]
    ensures DeadRoots(o.ix, ni, p) == Gone({}, {}) && AllDead(o, p, nv, ni) == Dead(o.val, nv, p)
  {
    forall y | y in o.ix && |y| == TOP && Extends(y, p) ensures y == p {
      ExtendsShort(y, p);
    }
    assert DeadRoots(o.ix, ni, p).n == {};
    NothingFreed(Mem([], [], map[], map[], map[], map[]), p);
  }

  /** _update_clean_node: node is the new node at p, oinode the first cell of the old children. */
  method CleanNode(pool: Pool, node: Node, obase: int, ghost m: Mem, ghost o: Version, ghost rib: Routes, ghost p: Path,
                   ghost nv: NodeMap, ghost ni: Cells)
    requires pool.Valid() && pool.View() == m && Replacing(m, o, rib, p, nv, ni)
    requires p in o.ix && p in o.val && p in ni && p in nv && ni[p] == o.ix[p] && TOP <= |p|
        && |p| + STRIDE <= KEYLENGTH
    requires node == nv[p] && obase == o.val[p].base1 && obase >= 0
    requires o.val[p].vector == node.vector && o.val[p].base0 == node.base0
    modifies pool.Repr()
    ensures pool.Valid() && Trie(pool.View(), Next(o, rib, p, nv, ni))
  {
    ghost var c := Sides(m, o, rib, p, nv, ni);
    ghost var g := Gone({}, {});
    SidesHold(m, o, rib, p, nv, ni);
    NothingFreed(m, p);
    NoDeadRoots(o, p, nv, ni);
    Succeeds(m, o, rib, p, nv, ni);
    CleanSlots(pool, node.vector, obase, node.vector, node.base1, c, p, g);
    SparesHere(c, g, p);
    SameLeavesParts(c, p, g);
    FreeChildrenUnless(pool, obase, node.base1, m, Plus(g, DeadSlots(o.val, nv, p, SLOTS)));
  }

  lemma {:induction false} SameLeavesParts(c: Both, x: Path, g: Gone)
    requires BothHold(c) && x in c.val && x in c.nv && c.nv[x].base0 == c.val[x].base0
    ensures var h := DeadSlots(c.val, c.nv, x, SLOTS);
            var n := if DeadN(c.val, c.nv, x) then {c.val[x].base1 as nat} else {};
            Plus(Plus(g, h), Gone(n, {})) == Plus(g, Dead(c.val, c.nv, x))
  {
    CleanParts(c, x, g);
    var h := DeadSlots(c.val, c.nv, x, SLOTS);
    var n := if DeadN(c.val, c.nv, x) then {c.val[x].base1 as nat} else {};
    FreedMore(c.m, Plus(Plus(g, h), Gone(n, {})), h, 0);
  }

  /** The children of the node at p are copied with n in the place of child j, the node is changed in place,
      and the old children are cleaned. */
  method SwapChild(pool: Pool, node: Node, inode: int, j: nat, n: Node, ghost m0: Mem, ghost o: Version,
                   ghost rib: Routes, ghost p: Path,
                   ghost val: NodeMap, ghost ix: Cells)
    returns (ret: int, ghost o': Version)
    requires pool.Valid() && Trie(m0, o) && Grown(m0, pool.View()) && p in o.ix && o.ix[p] == inode && AtNode(p)
    requires ParentAt(pool.View(), o, rib, p, j, inode, node) && NewVector(o, rib, p, j, node.vector)
    requires Part1(m0, pool.View(), rib, Slot(p, j), n, val, ix) && node.vector[j] && !Constant(o.rib, Slot(p, j))
    requires OnlyUnder(o.rib, rib, p)
    modifies pool.Repr(), pool.log
    ensures pool.Valid() && -1 <= ret <= 0
    ensures |pool.log.notes| == old(|pool.log.notes|) + if ret < 0 then 1 else 0
    ensures Told(old(pool.log.notes), pool.log.notes, ret >= 0, pool, m0, rib, p)
    ensures ret == 0 ==> Trie(pool.View(), o') && Exchanged(o, o', rib, p) && p in o'.ix && o'.ix[p] == inode
  {
    ghost var m, q := pool.View(), Slot(p, j);
    ret, o' := -1, o;
    var base1;
    ghost var k1;
    base1, k1 := StoreSiblings(pool, node, inode, j, n, m0, o, rib, p, val, ix);
    if base1 < 0 {
      return;
    }
    OldBase(m, o, p, inode);
    SomeChild(node.vector, j);
    o' := SwapNode(pool, node, inode, base1, m0, o, rib, p, WholeVal(o, p, q, val)[p := node.(base1 := base1)],
                   WholeIx(o, p, q, ix) + KidCells(p, node.vector, base1));
    ret := 0;
  }

  /** A new block for the children of the node at p, with n in the place of child j. */
  method StoreSiblings(pool: Pool, node: Node, inode: int, j: nat, n: Node, ghost m0: Mem, ghost o: Version,
                       ghost rib: Routes,
                       ghost p: Path, ghost val: NodeMap, ghost ix: Cells)
    returns (base1: int, ghost k1: nat)
    requires pool.Valid() && ParentAt(pool.View(), o, rib, p, j, inode, node) && NewVector(o, rib, p, j, node.vector)
    requires Part1(m0, pool.View(), rib, Slot(p, j), n, val, ix) && node.vector[j] && !Constant(o.rib, Slot(p, j))
    modifies pool.Repr(), pool.log
    ensures pool.Valid() && |pool.log.notes| == old(|pool.log.notes|) + if base1 < 0 then 1 else 0
    ensures Told(old(pool.log.notes), pool.log.notes, base1 >= 0, pool, m0, rib, p)
    ensures base1 >= 0 ==>
              Piece(m0, pool.View(), rib, p, node.(base1 := base1),
                  WholeVal(o, p, Slot(p, j), val)[p := node.(base1 := base1)],
                    WholeIx(o, p, Slot(p, j), ix) + KidCells(p, node.vector, base1))
  {
    ghost var m := pool.View();
    SomeChild(node.vector, j);
    var kids := GatherChildren(pool, node, node.vector, j, n, o, rib, p, inode);
    base1, k1 := StoreChildren(pool, node.vector, kids, Count(node.vector), p);
    PartBeneath(m0, m, rib, p, j, n, val, ix);
    if base1 < 0 {
      ParentRefused(old(pool.log.notes), pool.log.notes, pool, m0, m, o, rib, p, j, inode, node, node.vector, val, ix);
    } else {
      NothingTold(pool.log.notes, pool, m0, rib, p);
      SameParent(m0, m, pool.View(), o, rib, p, j, n, inode, node, kids, val, ix, base1, k1);
    }
  }

  lemma {:induction false} OldBase(m: Mem, o: Version, p: Path, inode: int)
    requires Old(m, o) && inode >= 0 && OldCell(m, o, p, inode)
    ensures Count(o.val[p].vector) > 0 ==> o.val[p].base1 >= 0
  {
    GrownRefl(m);
    OldBlocks(m, m, o, p, inode);
  }

  /** The node at p, its children copied to a block at base1, is changed in place. */
  method SwapNode(pool: Pool, node: Node, inode: int, base1: int, ghost m0: Mem, ghost o: Version, ghost rib: Routes,
                  ghost p: Path,
                  ghost nv: NodeMap, ghost ni: Cells)
    returns (ghost o': Version)
    requires pool.Valid() && Trie(m0, o) && p in o.ix && o.ix[p] == inode && p in o.val && node == o.val[p]
    requires AtNode(p) && OnlyUnder(o.rib, rib, p) && node.base1 >= 0
    requires Piece(m0, pool.View(), rib, p, node.(base1 := base1), nv, ni)
    modifies pool.Repr()
    ensures pool.Valid() && Trie(pool.View(), o') && Exchanged(o, o', rib, p) && p in o'.ix && o'.ix[p] == inode
  {
    var n' := node.(base1 := base1);
    PieceParts(m0, pool.View(), rib, p, n', nv, ni);
    ReplaceInPlace(m0, pool.View(), o, rib, p, n', nv, ni);
    pool.SetNode(inode, n');
    o' := Next(o, rib, p, nv, ni[p := inode]);
    NextExchanged(o, rib, p, nv, ni[p := inode]);
    CleanNode(pool, n', node.base1, pool.View(), o, rib, p, nv, ni[p := inode]);
  }

  /** Nothing but what lies at or below p differs between the versions. */
  ghost predicate Exchanged(o: Version, o': Version, rib: Routes, p: Path) {
    o'.rib == rib && Outside(o'.val, p) == Outside(o.val, p) && Outside(o'.ix, p) == Outside(o.ix, p)
  }

  lemma {:induction false} NextExchanged(o: Version, rib: Routes, p: Path, nv: NodeMap, ni: Cells)
    requires forall x :: x in nv ==> Extends(x, p)
    requires ni.Keys <= nv.Keys
    ensures Exchanged(o, Next(o, rib, p, nv, ni), rib, p)
    ensures p in ni ==> p in Next(o, rib, p, nv, ni).ix && Next(o, rib, p, nv, ni).ix[p] == ni[p]
  {
    assert Outside(Next(o, rib, p, nv, ni).val, p) == Outside(o.val, p);
    assert Outside(Next(o, rib, p, nv, ni).ix, p) == Outside(o.ix, p);
  }
}
