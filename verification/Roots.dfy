/** The entries of the direct pointing array, and what is freed when one of them is replaced. */
module Roots {
  import opened Bits
  import opened Forwarding
  import opened Nodes
  import opened Folding
  import opened Memory
  import opened Inodes
  import opened Versions
  import opened Cleanup
  import opened Succession
  import opened Cleaning
  import opened Exchange
  import opened Pools

  /** Bit 31 of an entry says that it is a leaf. */
  const LEAF: nat := 0x8000_0000

  /** The entry for the top-level path p. */
  ghost predicate EntryOK(e: nat, o: Version, p: Path) {
    if e >= LEAF then |p| <= KEYLENGTH && p !in o.val && Constant(o.rib, p) && e - LEAF == Val(o.rib, p)
    else p in o.ix && o.ix[p] == e
  }

  /** The new entry for p. */
  ghost predicate NewEntry(e: nat, rib: Routes, p: Path, nv: NodeMap, ni: Cells) {
    if e >= LEAF then |p| <= KEYLENGTH && (forall y :: y in nv ==> !Extends(y, p)) && Constant(rib, p)
        && e - LEAF == Val(rib, p)
    else p in ni && ni[p] == e
  }

  /** Neither the root block of p nor a block of a node below p has been freed. */
  ghost predicate SparesTop(m: Mem, g: Gone, p: Path) {
    Spares(m, g, p) && forall b :: b in g.n && b in m.ON ==> m.ON[b] != Root(p)
  }

  lemma {:induction false} NothingOld(m: Mem, o: Version, p: Path, nv: NodeMap, ni: Cells)
    requires Holds(m, o.rib, o.val, o.ix, TOP) && |p| == TOP && p !in o.val
    ensures AllDead(o, p, nv, ni) == Gone({}, {})
  {
    forall y | y in o.val ensures !Extends(y, p) {
      if Extends(y, p) { AncestorIn(o.val, y, p, m, o.rib, o.ix); }
    }
    DeadNone(o.val, nv, p);
    assert DeadRoots(o.ix, ni, p).n == {};
    assert AllDead(o, p, nv, ni).n == {} && AllDead(o, p, nv, ni).l == {};
  }

  lemma {:induction false} DeadRootIs(o: Version, p: Path, nv: NodeMap, ni: Cells)
    requires |p| == TOP && p in o.ix
    ensures DeadRoots(o.ix, ni, p) == Gone(if p in ni && ni[p] == o.ix[p] then {} else {o.ix[p]}, {})
  {
    forall y | y in o.ix && |y| == TOP && Extends(y, p) ensures y == p {
      ExtendsShort(y, p);
    }
    assert Extends(p, p);
    assert DeadRoots(o.ix, ni, p).n == if p in ni && ni[p] == o.ix[p] then {} else {o.ix[p]};
  }

  /** The root block of p is not among the blocks of nodes below p. */
  lemma {:induction false} RootNotDead(c: Both, g: Gone, p: Path, b: nat)
    requires BothHold(c) && SparesTop(c.m, g, p) && b in c.m.ON && c.m.ON[b] == Root(p)
    ensures b !in Plus(g, Dead(c.val, c.nv, p)).n
  {
    assert Open(DeadKey);
    DeadLabels(c.m, c.rib, c.val, c.ix, c.d, c.nv, p);
  }

  ghost predicate Ready(m: Mem, o: Version, rib: Routes, p: Path, nv: NodeMap, ni: Cells) {
    Replacing(m, o, rib, p, nv, ni) && forall x :: x in o.val ==> CellHas(m, o.val, o.ix, x)
  }

  lemma {:induction false} ReadyTop(m: Mem, o: Version, rib: Routes, p: Path, nv: NodeMap, ni: Cells, top: Path, e: nat,
                                    e': nat)
    requires Ready(m, o, rib, p, nv, ni) && Extends(top, p) && |top| == TOP && e < LEAF && EntryOK(e, o, top)
        && NewEntry(e', rib, top, nv, ni)
    ensures var c := Sides(m, o, rib, p, nv, ni);
            BothHold(c) && OldAt(c, top, e) && NewAt(c, top, if e' >= LEAF then -1 else e')
    ensures e in m.AN && e in m.ON && m.ON[e] == Root(top)
    ensures |top| + STRIDE <= KEYLENGTH
  {
    SidesHold(m, o, rib, p, nv, ni);
    assert Open(DeadKey);
    CellsBelowMore(m, nv, ni, p, top);
    AllCells(m, o.val, o.ix, top);
  }

  lemma {:induction false} AllCells(m: Mem, val: NodeMap, ix: Cells, p: Path)
    requires forall x :: x in val ==> CellHas(m, val, ix, x)
    ensures CellsBelow(m, val, ix, p)
  {
  }

  /** _update_clean_root, and _update_clean_subtree with the block of the root: clean what the old node at
      cell oroot leaves behind; nroot is the new one, or negative when there is none. */
  method CleanRoot(pool: Pool, nroot: int, oroot: nat, ghost c: Both, ghost top: Path, ghost g: Gone)
    requires BothHold(c) && OldAt(c, top, oroot) && NewAt(c, top, nroot) && |top| + STRIDE <= KEYLENGTH
    requires oroot in c.m.AN && oroot in c.m.ON && c.m.ON[oroot] == Root(top) && SparesTop(c.m, g, top)
    requires pool.Valid() && pool.View() == Freed(c.m, g)
    modifies pool.Repr()
    ensures pool.Valid()
    ensures pool.View() == Freed(c.m,
        Plus(Plus(g, Dead(c.val, c.nv, top)), Gone(if oroot == nroot then {} else {oroot}, {})))
  {
    assert Extends(top, top);
    var onode := pool.nodes[oroot];
    assert onode == pool.View().N[oroot];
    var nnode := Node([], Zeros(SLOTS), -1, -1);
    if nroot >= 0 {
      nnode := pool.nodes[nroot];
      assert nnode == pool.View().N[nroot];
    }
    CleanSlots(pool, onode.vector, onode.base1, nnode.vector, nnode.base1, c, top, g);
    CleanHere(pool, onode, nnode.base1, nnode.base0, c, top, g);
    RootNotDead(c, g, top, oroot);
    FreeChildrenUnless(pool, oroot, nroot, c.m, Plus(g, Dead(c.val, c.nv, top)));
  }

  /** An entry e of the direct pointing array has been replaced by e'. */
  method CleanTop(pool: Pool, e: nat, e': nat, ghost m: Mem, ghost o: Version, ghost rib: Routes, ghost p: Path,
                  ghost nv: NodeMap, ghost ni: Cells,
                  ghost top: Path, ghost g: Gone)
    requires Ready(m, o, rib, p, nv, ni) && Extends(top, p) && |top| == TOP && EntryOK(e, o, top)
        && NewEntry(e', rib, top, nv, ni)
    requires pool.Valid() && pool.View() == Freed(m, g) && SparesTop(m, g, top)
    modifies pool.Repr()
    ensures pool.Valid() && pool.View() == Freed(m, Plus(g, AllDead(o, top, nv, ni)))
  {
    if e < LEAF {
      ReadyTop(m, o, rib, p, nv, ni, top, e, e');
      DeadRootIs(o, top, nv, ni);
      var nroot := if e' >= LEAF then -1 else e';
      CleanRoot(pool, nroot, e, Sides(m, o, rib, p, nv, ni), top, g);
      NewRootIs(m, o, rib, p, nv, ni, top, e', nroot);
      PlusAssoc(g, Dead(o.val, nv, top), DeadRoots(o.ix, ni, top));
    } else {
      assert Holds(m, o.rib, o.val, o.ix, TOP) by { assert Open(DeadKey); }
      NothingOld(m, o, top, nv, ni);
      FreedMore(m, g, g, 0);
    }
  }

  lemma {:induction false} NewRootIs(m: Mem, o: Version, rib: Routes, p: Path, nv: NodeMap, ni: Cells, top: Path,
                                     e': nat, nroot: int)
    requires Ready(m, o, rib, p, nv, ni) && NewEntry(e', rib, top, nv, ni) && top in o.ix
        && nroot == if e' >= LEAF then -1 else e'
    ensures o.ix[top] == nroot <==> top in ni && ni[top] == o.ix[top]
  {
    assert Open(DeadKey);
    assert Extends(top, top);
  }
}
