/** _update_clean_inode and its kin. */
module Cleaning {
  // The old and the new trie are walked together, and what only the old one uses is freed.

  import opened Bits
  import opened Forwarding
  import opened Nodes
  import opened Folding
  import opened Memory
  import opened Compile
  import opened Inodes
  import opened Cleanup
  import opened Pools

  /** An old set of nodes and a new one, in one memory. */
  datatype BothWith<M, R, A, B> = Both(m: M, rib: R, val: A, ix: B, d: nat, rib': R, nv: A, ni: B, d': nat)
  type Both = BothWith<Mem, Routes, NodeMap, Cells>

  ghost predicate BothHold(c: Both) {
    forall k: Key :: Open(k) && k.DeadKey? ==>
      Holds(c.m, c.rib, c.val, c.ix, c.d) && Holds(c.m, c.rib', c.nv, c.ni, c.d')
  }

  /** oinode is the cell of the old node at x. */
  ghost predicate OldAt(c: Both, x: Path, oinode: int) {
    CellHas(c.m, c.val, c.ix, x) && c.ix[x] == oinode && CellsBelow(c.m, c.val, c.ix, x)
  }

  /** ninode is the cell of the new node at x, or negative when there are no new nodes at or below x. */
  ghost predicate NewAt(c: Both, x: Path, ninode: int) {
    if ninode >= 0 then CellHas(c.m, c.nv, c.ni, x) && c.ni[x] == ninode && CellsBelow(c.m, c.nv, c.ni, x)
    else forall y :: y in c.nv ==> !Extends(y, x)
  }

  predicate LabelBelow(o: Owners, b: nat, x: Path) {
    b in o && o[b].Kids? && Extends(o[b].p, x)
  }

  /** No block that belongs to a node at or below x has been freed. */
  ghost predicate Spares(m: Mem, g: Gone, x: Path) {
    && (forall b :: b in g.n ==> !LabelBelow(m.ON, b, x))
    && (forall b :: b in g.l ==> !LabelBelow(m.OL, b, x))
  }

  lemma {:induction false} Labels(m: Mem, rib: Routes, val: NodeMap, ix: Cells, d: nat, y: Path)
    requires Holds(m, rib, val, ix, d) && y in val
    ensures Labelled(m, y, val[y])
    ensures val[y].base1 >= 0 ==> val[y].base1 in m.AN
    ensures val[y].base0 >= 0 ==> val[y].base0 in m.AL
    ensures val[y].base1 >= -1 && val[y].base0 >= -1
  {
    NotConstant(m, rib, val, ix, y);
    assert Open(GoodKey);
  }

  /** The freed blocks of the nodes below x belong to nodes below x. */
  lemma {:induction false} DeadLabels(m: Mem, rib: Routes, val: NodeMap, ix: Cells, d: nat, nv: NodeMap, x: Path)
    requires Holds(m, rib, val, ix, d)
    ensures forall b :: b in Dead(val, nv, x).n ==> LabelBelow(m.ON, b, x)
    ensures forall b :: b in Dead(val, nv, x).l ==> LabelBelow(m.OL, b, x)
  {
    forall y | y in val ensures Labelled(m, y, val[y]) {
      Labels(m, rib, val, ix, d, y);
    }
  }

  lemma {:induction false} DeadSlotsLabels(m: Mem, rib: Routes, val: NodeMap, ix: Cells, d: nat, nv: NodeMap, x: Path,
                                           i: nat)
    requires Holds(m, rib, val, ix, d)
    ensures forall b :: b in DeadSlots(val, nv, x, i).n ==> b in m.ON && m.ON[b].Kids? && InSlots(m.ON[b].p, x, i)
    ensures forall b :: b in DeadSlots(val, nv, x, i).l ==> b in m.OL && m.OL[b].Kids? && InSlots(m.OL[b].p, x, i)
  {
    forall y | y in val ensures Labelled(m, y, val[y]) {
      Labels(m, rib, val, ix, d, y);
    }
  }

  /** Cleaning the first i slots of x spares slot i and x itself. */
  lemma {:induction false} SparesSlot(c: Both, g: Gone, x: Path, i: nat)
    requires BothHold(c) && Spares(c.m, g, x) && i < SLOTS
    ensures Spares(c.m, Plus(g, DeadSlots(c.val, c.nv, x, i)), Slot(x, i))
  {
    assert Open(DeadKey);
    DeadSlotsLabels(c.m, c.rib, c.val, c.ix, c.d, c.nv, x, i);
    var g' := Plus(g, DeadSlots(c.val, c.nv, x, i));
    forall b | b in g'.n ensures !LabelBelow(c.m.ON, b, Slot(x, i)) {
      if b in c.m.ON { SlotApart(c.m.ON[b].p, x, i); }
    }
    forall b | b in g'.l ensures !LabelBelow(c.m.OL, b, Slot(x, i)) {
      if b in c.m.OL { SlotApart(c.m.OL[b].p, x, i); }
    }
  }

  lemma {:induction false} SlotApart(y: Path, x: Path, i: nat)
    requires i < SLOTS
    ensures Extends(y, Slot(x, i)) ==> Extends(y, x) && !InSlots(y, x, i)
  {
    if Extends(y, Slot(x, i)) {
      SlotExtends(x, i);
      ExtendsTrans(y, Slot(x, i), x);
      SlotUnder(y, x, i);
    }
  }

  lemma {:induction false} SparesHere(c: Both, g: Gone, x: Path)
    requires BothHold(c) && Spares(c.m, g, x) && x in c.val
    ensures var g' := Plus(g, DeadSlots(c.val, c.nv, x, SLOTS));
            c.val[x].base1 !in g'.n && c.val[x].base0 !in g'.l
    ensures c.val[x].base1 >= 0 ==> c.val[x].base1 in c.m.AN
    ensures c.val[x].base0 >= 0 ==> c.val[x].base0 in c.m.AL
    ensures c.val[x].base1 >= -1 && c.val[x].base0 >= -1
  {
    assert Open(DeadKey);
    assert Extends(x, x);
    Labels(c.m, c.rib, c.val, c.ix, c.d, x);
    DeadSlotsLabels(c.m, c.rib, c.val, c.ix, c.d, c.nv, x, SLOTS);
  }

  lemma {:induction false} FreedMore(m: Mem, g: Gone, h: Gone, b: nat)
    ensures DropN(Freed(m, g), b) == Freed(m, Plus(g, Gone({b}, {})))
    ensures DropL(Freed(m, g), b) == Freed(m, Plus(g, Gone({}, {b})))
    ensures Plus(Plus(g, h), Gone({}, {})) == Plus(g, h) && Plus(g, Gone({}, {})) == g
  {
    assert Freed(m, g).AN - {b} == m.AN - (g.n + {b}) && Freed(m, g).ON - {b} == m.ON - (g.n + {b});
    assert Freed(m, g).AL - {b} == m.AL - (g.l + {b}) && Freed(m, g).OL - {b} == m.OL - (g.l + {b});
    assert g.n + {} == g.n && g.l + {} == g.l;
    assert (g.n + h.n) + {} == g.n + h.n && (g.l + h.l) + {} == g.l + h.l;
  }

  lemma {:induction false} PlusAssoc(a: Gone, b: Gone, c: Gone)
    ensures Plus(Plus(a, b), c) == Plus(a, Plus(b, c))
  {
    assert (a.n + b.n) + c.n == a.n + (b.n + c.n) && (a.l + b.l) + c.l == a.l + (b.l + c.l);
  }

  // ---------- one node ----------

  method FreeChildrenUnless(pool: Pool, b: int, keep: int, ghost m: Mem, ghost a: Gone)
    requires pool.Valid() && pool.View() == Freed(m, a) && b >= -1
    requires b >= 0 ==> b in m.AN && b !in a.n
    modifies pool.Repr()
    ensures pool.Valid() && pool.View() == Freed(m, Plus(a, Gone(if b != -1 && b != keep then {b} else {}, {})))
  {
    if b != -1 && b != keep {
      FreedMore(m, a, a, b);
      pool.FreeNodes(b);
    } else {
      FreedMore(m, a, a, 0);
    }
  }

  method FreeLeavesUnless(pool: Pool, b: int, keep: int, ghost m: Mem, ghost a: Gone)
    requires pool.Valid() && pool.View() == Freed(m, a) && b >= -1
    requires b >= 0 ==> b in m.AL && b !in a.l
    modifies pool.Repr()
    ensures pool.Valid() && pool.View() == Freed(m, Plus(a, Gone({}, if b != -1 && b != keep then {b} else {})))
  {
    if b != -1 && b != keep {
      FreedMore(m, a, a, b);
      pool.FreeLeaves(b);
    } else {
      FreedMore(m, a, a, 0);
    }
  }

  /** Free the blocks of the old node unless the new one uses them. */
  method CleanHere(pool: Pool, node: Node, keep1: int, keep0: int, ghost c: Both, ghost x: Path, ghost g: Gone)
    requires BothHold(c) && x in c.val && node == c.val[x] && Spares(c.m, g, x)
    requires pool.Valid() && pool.View() == Freed(c.m, Plus(g, DeadSlots(c.val, c.nv, x, SLOTS)))
    requires keep1 == (if x in c.nv then c.nv[x].base1 else -1) && keep0 == (if x in c.nv then c.nv[x].base0 else -1)
    modifies pool.Repr()
    ensures pool.Valid() && pool.View() == Freed(c.m, Plus(g, Dead(c.val, c.nv, x)))
  {
    ghost var a := Plus(g, DeadSlots(c.val, c.nv, x, SLOTS));
    SparesHere(c, g, x);
    CleanParts(c, x, g);
    FreeChildrenUnless(pool, node.base1, keep1, c.m, a);
    ghost var n := if DeadN(c.val, c.nv, x) then {node.base1 as nat} else {};
    FreeLeavesUnless(pool, node.base0, keep0, c.m, Plus(a, Gone(n, {})));
  }

  lemma {:induction false} CleanParts(c: Both, x: Path, g: Gone)
    requires BothHold(c) && x in c.val
    ensures var h := DeadSlots(c.val, c.nv, x, SLOTS);
            var n := if DeadN(c.val, c.nv, x) then {c.val[x].base1 as nat} else {};
            var l := if DeadL(c.val, c.nv, x) then {c.val[x].base0 as nat} else {};
            Plus(Plus(Plus(g, h), Gone(n, {})), Gone({}, l)) == Plus(g, Dead(c.val, c.nv, x))
    ensures var h := DeadSlots(c.val, c.nv, x, SLOTS); Plus(Plus(g, h), Gone({}, {})) == Plus(g, h)
  {
    assert Open(DeadKey);
    DeadAll(c.m, c.rib, c.val, c.ix, c.nv, x);
    var h := DeadSlots(c.val, c.nv, x, SLOTS);
    var n := if DeadN(c.val, c.nv, x) then {c.val[x].base1 as nat} else {};
    var l := if DeadL(c.val, c.nv, x) then {c.val[x].base0 as nat} else {};
    assert g.n + h.n + n + {} == g.n + (h.n + n) && g.l + h.l + {} + l == g.l + (h.l + l);
    assert g.n + h.n + {} == g.n + h.n && g.l + h.l + {} == g.l + h.l;
  }

  // ---------- the slots of a node ----------

  /** The new children of x, if any. */
  ghost predicate NewSide(c: Both, x: Path, nvec: Vec, nbase: int) {
    if x in c.nv then nvec == c.nv[x].vector && nbase == c.nv[x].base1 && CellsBelow(c.m, c.nv, c.ni, x)
    else nvec == Zeros(SLOTS) && forall y :: y in c.nv ==> !Extends(y, x)
  }

  lemma {:induction false} OldSlot(c: Both, x: Path, i: nat)
    requires BothHold(c) && x in c.val && CellsBelow(c.m, c.val, c.ix, x) && i < SLOTS
    ensures |c.val[x].vector| == SLOTS
    ensures c.val[x].vector[i] ==>
        OldAt(c, Slot(x, i), c.val[x].base1 + Count(c.val[x].vector[..i])) && c.val[x].base1 >= 0
    ensures !c.val[x].vector[i] ==> Dead(c.val, c.nv, Slot(x, i)) == Gone({}, {})
  {
    assert Open(DeadKey);
    ChildCell(c.m, c.rib, c.val, c.ix, c.d, x, i);
    var vec := c.val[x].vector;
    CountPrefix(vec, i);
    SlotExtends(x, i);
    if vec[i] {
      Cell(c.m, c.val, c.ix, x, Slot(x, i));
      CellsBelowMore(c.m, c.val, c.ix, x, Slot(x, i));
    } else {
      DeadNone(c.val, c.nv, Slot(x, i));
    }
  }

  lemma {:induction false} NewSlot(c: Both, x: Path, i: nat, nvec: Vec, nbase: int)
    requires BothHold(c) && NewSide(c, x, nvec, nbase) && i < SLOTS
    ensures |nvec| == SLOTS && NewAt(c, Slot(x, i), if nvec[i] then nbase + Count(nvec[..i]) else -1)
    ensures nvec[i] ==> nbase >= 0
  {
    assert Open(DeadKey);
    SlotExtends(x, i);
    if x in c.nv {
      ChildCell(c.m, c.rib', c.nv, c.ni, c.d', x, i);
      CountPrefix(nvec, i);
      if nvec[i] {
        Cell(c.m, c.nv, c.ni, x, Slot(x, i));
        CellsBelowMore(c.m, c.nv, c.ni, x, Slot(x, i));
      }
    } else {
      forall y | y in c.nv ensures !Extends(y, Slot(x, i)) {
        if Extends(y, Slot(x, i)) { ExtendsTrans(y, Slot(x, i), x); }
      }
    }
  }

  lemma {:induction false} NextSlots(c: Both, x: Path, i: nat, g: Gone)
    requires i < SLOTS
    ensures Plus(Plus(g, DeadSlots(c.val, c.nv, x, i)), Dead(c.val, c.nv, Slot(x, i))) ==
        Plus(g, DeadSlots(c.val, c.nv, x, i + 1))
    ensures Dead(c.val, c.nv, Slot(x, i)) == Gone({}, {}) ==>
              Plus(g, DeadSlots(c.val, c.nv, x, i)) == Plus(g, DeadSlots(c.val, c.nv, x, i + 1))
  {
    DeadSlotsStep(c.val, c.nv, x, i);
    PlusAssoc(g, DeadSlots(c.val, c.nv, x, i), Dead(c.val, c.nv, Slot(x, i)));
    FreedMore(c.m, g, DeadSlots(c.val, c.nv, x, i), 0);
  }

  /** The loop over the 64 slots that all the cleaning functions have: old and new children are paired by
      slot, -1 standing for a missing new one. */
  method CleanSlots(pool: Pool, ovec: Vec, obase: int, nvec: Vec, nbase: int, ghost c: Both, ghost x: Path,
                    ghost g: Gone)
    requires BothHold(c) && x in c.val && ovec == c.val[x].vector && obase == c.val[x].base1
    requires CellsBelow(c.m, c.val, c.ix, x) && NewSide(c, x, nvec, nbase)
    requires pool.Valid() && pool.View() == Freed(c.m, g) && Spares(c.m, g, x) && |x| + STRIDE <= KEYLENGTH
    modifies pool.Repr()
    ensures pool.Valid() && pool.View() == Freed(c.m, Plus(g, DeadSlots(c.val, c.nv, x, SLOTS)))
    decreases KEYLENGTH - |x|, 0
  {
    var ob, nb := obase, nbase;
    DeadSlotsNone(c.val, c.nv, x);
    FreedMore(c.m, g, g, 0);
    OldSlot(c, x, 0);
    NewSlot(c, x, 0, nvec, nbase);
    for i := 0 to SLOTS
      invariant ob == obase + Count(ovec[..i]) && nb == nbase + Count(nvec[..i])
      invariant pool.Valid() && pool.View() == Freed(c.m, Plus(g, DeadSlots(c.val, c.nv, x, i)))
    {
      OldSlot(c, x, i);
      NewSlot(c, x, i, nvec, nbase);
      NextSlots(c, x, i, g);
      CountPrefix(ovec, i);
      CountPrefix(nvec, i);
      if ovec[i] {
        SparesSlot(c, g, x, i);
        CleanInode(pool, if nvec[i] then nb else -1, ob, c, Slot(x, i), Plus(g, DeadSlots(c.val, c.nv, x, i)));
        ob := ob + 1;
      }
      if nvec[i] {
        nb := nb + 1;
      }
    }
  }

  /** _update_clean_inode. */
  method CleanInode(pool: Pool, ninode: int, oinode: int, ghost c: Both, ghost x: Path, ghost g: Gone)
    requires BothHold(c) && OldAt(c, x, oinode) && NewAt(c, x, ninode)
    requires pool.Valid() && pool.View() == Freed(c.m, g) && Spares(c.m, g, x)
    modifies pool.Repr()
    ensures pool.Valid() && pool.View() == Freed(c.m, Plus(g, Dead(c.val, c.nv, x)))
    decreases KEYLENGTH - |x|, 1
  {
    assert Extends(x, x);
    AtOld(c, x, ninode, oinode, g);
    if ninode == oinode {
      return;
    }
    var onode := pool.nodes[oinode];
    assert onode == pool.View().N[oinode];
    var nnode := Node([], Zeros(SLOTS), -1, -1);
    if ninode >= 0 {
      nnode := pool.nodes[ninode];
      assert nnode == pool.View().N[ninode];
    }
    CleanSlots(pool, onode.vector, onode.base1, nnode.vector, nnode.base1, c, x, g);
    CleanHere(pool, onode, nnode.base1, nnode.base0, c, x, g);
  }

  lemma {:induction false} AtOld(c: Both, x: Path, ninode: int, oinode: int, g: Gone)
    requires BothHold(c) && OldAt(c, x, oinode) && NewAt(c, x, ninode)
    ensures |x| + STRIDE <= KEYLENGTH
    ensures ninode == oinode ==> Plus(g, Dead(c.val, c.nv, x)) == g
  {
    assert Open(DeadKey);
    NotConstant(c.m, c.rib, c.val, c.ix, x);
    FreedMore(c.m, g, g, 0);
    if ninode == oinode {
      SharedNotDead(c.m, c.rib, c.val, c.ix, c.d, c.rib', c.nv, c.ni, c.d', x);
    }
  }
}
