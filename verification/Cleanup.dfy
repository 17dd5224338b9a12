/** Giving back what only the old version of the trie uses. */
module Cleanup {
  import opened Bits
  import opened Forwarding
  import opened Nodes
  import opened Folding
  import opened Memory
  import opened Compile
  import opened Inodes
  import opened Versions

  /** Blocks of the node array and of the leaf array. */
  datatype GoneWith<S> = Gone(n: S, l: S)
  type Gone = GoneWith<set<nat>>

  function Plus(a: Gone, b: Gone): Gone {
    Gone(a.n + b.n, a.l + b.l)
  }

  ghost function Freed(m: Mem, g: Gone): Mem {
    m.(AN := m.AN - g.n, AL := m.AL - g.l, ON := m.ON - g.n, OL := m.OL - g.l)
  }

  // ---------- what is to be freed ----------

  /** The children block of the old node y is not a children block of the new one. */
  predicate DeadN(val: NodeMap, nv: NodeMap, y: Path)
    requires y in val
  {
    val[y].base1 >= 0 && !(y in nv && nv[y].base1 == val[y].base1)
  }

  predicate DeadL(val: NodeMap, nv: NodeMap, y: Path)
    requires y in val
  {
    val[y].base0 >= 0 && !(y in nv && nv[y].base0 == val[y].base0)
  }

  /** The blocks of the old nodes at and below x that the new nodes do not use. */
  function Dead(val: NodeMap, nv: NodeMap, x: Path): Gone {
    Gone(set y | y in val && Extends(y, x) && DeadN(val, nv, y) :: val[y].base1,
         set y | y in val && Extends(y, x) && DeadL(val, nv, y) :: val[y].base0)
  }

  /** The same for the nodes in the first i slots of x. */
  function DeadSlots(val: NodeMap, nv: NodeMap, x: Path, i: nat): Gone {
    Gone(set y | y in val && InSlots(y, x, i) && DeadN(val, nv, y) :: val[y].base1,
         set y | y in val && InSlots(y, x, i) && DeadL(val, nv, y) :: val[y].base0)
  }

  predicate InSlots(y: Path, x: Path, i: nat) {
    Extends(y, x) && |x| + STRIDE <= |y| && SlotOf(y, |x|) < i
  }

  /** The blocks of x itself. */
  function DeadHere(val: NodeMap, nv: NodeMap, x: Path): Gone
    requires x in val
  {
    Gone(if DeadN(val, nv, x) then {val[x].base1} else {}, if DeadL(val, nv, x) then {val[x].base0} else {})
  }

  lemma {:induction false} InSlotsStep(y: Path, x: Path, i: nat)
    requires i < SLOTS
    ensures InSlots(y, x, i + 1) <==> InSlots(y, x, i) || Extends(y, Slot(x, i))
  {
    if Extends(y, x) && |x| + STRIDE <= |y| {
      SlotUnder(y, x, i);
    }
    if Extends(y, Slot(x, i)) {
      SlotExtends(x, i);
      ExtendsTrans(y, Slot(x, i), x);
      SlotUnder(y, x, i);
    }
  }

  lemma {:induction false} DeadSlotsStep(val: NodeMap, nv: NodeMap, x: Path, i: nat)
    requires i < SLOTS
    ensures DeadSlots(val, nv, x, i + 1) == Plus(DeadSlots(val, nv, x, i), Dead(val, nv, Slot(x, i)))
  {
    forall y | y in val ensures InSlots(y, x, i + 1) <==> InSlots(y, x, i) || Extends(y, Slot(x, i)) {
      InSlotsStep(y, x, i);
    }
    assert DeadSlots(val, nv, x, i + 1).n == Plus(DeadSlots(val, nv, x, i), Dead(val, nv, Slot(x, i))).n
        && DeadSlots(val, nv, x, i + 1).l == Plus(DeadSlots(val, nv, x, i), Dead(val, nv, Slot(x, i))).l;
  }

  lemma {:induction false} DeadNone(val: NodeMap, nv: NodeMap, x: Path)
    requires forall y :: y in val ==> !Extends(y, x)
    ensures Dead(val, nv, x) == Gone({}, {})
  {
    assert Dead(val, nv, x).n == {} && Dead(val, nv, x).l == {};
  }

  lemma {:induction false} DeadSlotsNone(val: NodeMap, nv: NodeMap, x: Path)
    ensures DeadSlots(val, nv, x, 0) == Gone({}, {})
  {
    assert DeadSlots(val, nv, x, 0).n == {} && DeadSlots(val, nv, x, 0).l == {};
  }

  /** Every node below x is x or lies in one of its slots. */
  lemma {:induction false} DeadAll(m: Mem, rib: Routes, val: NodeMap, ix: Cells, nv: NodeMap, x: Path)
    requires Trees(m, rib, val, ix) && x in val
    ensures Dead(val, nv, x) == Plus(DeadSlots(val, nv, x, SLOTS), DeadHere(val, nv, x))
  {
    forall y | y in val ensures Extends(y, x) <==> InSlots(y, x, SLOTS) || y == x {
      if Extends(y, x) && y != x {
        ExtendsShort(y, x);
        NotConstant(m, rib, val, ix, x);
        NotConstant(m, rib, val, ix, y);
        DepthStep(|x|, |y|);
      }
      assert Extends(x, x);
    }
    assert Dead(val, nv, x).n == Plus(DeadSlots(val, nv, x, SLOTS), DeadHere(val, nv, x)).n
        && Dead(val, nv, x).l == Plus(DeadSlots(val, nv, x, SLOTS), DeadHere(val, nv, x)).l;
  }

  // ---------- the two versions side by side ----------

  /** The nodes and cells of one version, as they lie in memory, except perhaps the cell of the node at r. */
  ghost predicate Holds(m: Mem, rib: Routes, val: NodeMap, ix: Cells, d: nat) {
    TOP <= d && MemOK(m) && Trees(m, rib, val, ix) && ix.Keys == val.Keys && Parented(val, d)
  }

  ghost predicate CellHas(m: Mem, val: NodeMap, ix: Cells, x: Path) {
    x in val && x in ix && ix[x] < |m.N| && m.N[ix[x]] == val[x]
  }

  /** All nodes strictly below p are where ix says. */
  ghost predicate CellsBelow(m: Mem, val: NodeMap, ix: Cells, p: Path) {
    forall k: Key :: Open(k) && k.StoredKey? ==>
      forall x :: x in val && Extends(x, p) && x != p ==> CellHas(m, val, ix, x)
  }

  lemma {:induction false} Cell(m: Mem, val: NodeMap, ix: Cells, p: Path, x: Path)
    requires CellsBelow(m, val, ix, p) && x in val && Extends(x, p) && x != p
    ensures CellHas(m, val, ix, x)
  {
    assert Open(StoredKey);
  }

  lemma {:induction false} CellsBelowMore(m: Mem, val: NodeMap, ix: Cells, p: Path, q: Path)
    requires CellsBelow(m, val, ix, p) && Extends(q, p)
    ensures CellsBelow(m, val, ix, q)
  {
    assert Open(StoredKey);
    forall x | x in val && Extends(x, q) && x != q ensures CellHas(m, val, ix, x) {
      ExtendsTrans(x, q, p);
      ExtendsShort(p, q);
    }
  }

  /** The child of the node x in slot i, if any. */
  lemma {:induction false} ChildCell(m: Mem, rib: Routes, val: NodeMap, ix: Cells, d: nat, x: Path, i: nat)
    requires Holds(m, rib, val, ix, d) && x in val && i < SLOTS
    ensures |val[x].vector| == SLOTS
    ensures val[x].vector[i] ==> Slot(x, i) in val && val[x].base1 >= 0 && Rank(val[x].vector, i) >= 1
    ensures val[x].vector[i] ==> ix[Slot(x, i)] == val[x].base1 + Rank(val[x].vector, i) - 1
    ensures val[x].vector[i] ==> InBlock(m, x, val[x].base1, ix[Slot(x, i)])
    ensures !val[x].vector[i] ==> forall y :: y in val ==> !Extends(y, Slot(x, i))
  {
    NotConstant(m, rib, val, ix, x);
    GoodChild(m, rib, ix, x, val[x], i);
    if val[x].vector[i] {
      GoodKid(m, rib, ix, x, val[x], i);
    } else {
      forall y | y in val ensures !Extends(y, Slot(x, i)) {
        NotConstant(m, rib, val, ix, y);
        if Extends(y, Slot(x, i)) { ConstantAbove(rib, y, Slot(x, i)); }
      }
    }
  }

  /** Equal cells hold equal subtrees. */
  lemma {:induction false} SameCell(m: Mem, rib: Routes, val: NodeMap, ix: Cells, d: nat,
                                    rib': Routes, nv: NodeMap, ni: Cells, d': nat, x: Path, y: Path)
    requires Holds(m, rib, val, ix, d) && Holds(m, rib', nv, ni, d')
    requires CellsBelow(m, val, ix, x) && CellsBelow(m, nv, ni, x) && CellHas(m, val, ix, x) && CellHas(m, nv, ni, x)
    requires ix[x] == ni[x] && y in val && Extends(y, x)
    ensures y in nv && nv[y] == val[y]
    decreases |y| - |x|
  {
    NotConstant(m, rib, val, ix, x);
    NotConstant(m, rib, val, ix, y);
    ExtendsShort(y, x);
    if y != x {
      DepthStep(|x|, |y|);
      var i := SlotOf(y, |x|);
      var z := Slot(x, i);
      SlotUnder(y, x, i);
      SlotExtends(x, i);
      ChildCell(m, rib, val, ix, d, x, i);
      ChildCell(m, rib', nv, ni, d', x, i);
      Cell(m, val, ix, x, z);
      Cell(m, nv, ni, x, z);
      CellsBelowMore(m, val, ix, x, z);
      CellsBelowMore(m, nv, ni, x, z);
      SameCell(m, rib, val, ix, d, rib', nv, ni, d', z, y);
    }
  }

  /** Where old and new cell are the same, nothing is to be freed. */
  lemma {:induction false} SharedNotDead(m: Mem, rib: Routes, val: NodeMap, ix: Cells, d: nat,
                                         rib': Routes, nv: NodeMap, ni: Cells, d': nat, x: Path)
    requires Holds(m, rib, val, ix, d) && Holds(m, rib', nv, ni, d')
    requires CellsBelow(m, val, ix, x) && CellsBelow(m, nv, ni, x) && CellHas(m, val, ix, x) && CellHas(m, nv, ni, x)
    requires ix[x] == ni[x]
    ensures Dead(val, nv, x) == Gone({}, {})
  {
    forall y | y in val && Extends(y, x) ensures !DeadN(val, nv, y) && !DeadL(val, nv, y) {
      SameCell(m, rib, val, ix, d, rib', nv, ni, d', x, y);
    }
    assert Dead(val, nv, x).n == {} && Dead(val, nv, x).l == {};
  }
}
