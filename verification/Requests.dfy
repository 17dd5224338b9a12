/** Why a request for memory is refused: what is taken at that time. */
module Requests {
  import opened Bits
  import opened Tiling
  import opened Forwarding
  import opened Nodes
  import opened Folding
  import opened Memory
  import opened Compile
  import opened Pools

  // ---------- what is taken ----------

  /** There may be a node at p in a trie for these routes. */
  ghost predicate IsNode(rib: Routes, p: Path) {
    AtNode(p) && (|p| == TOP || !Constant(rib, p))
  }

  /** Block b of the node array is a root, or has the order that the children of a node at or below q need. */
  ghost predicate NodesFor(m: Mem, rib: Routes, q: Path, b: nat) {
    && b in m.AN && b in m.ON && Extends(m.ON[b].p, q)
    && match m.ON[b]
       case Root(t) => |t| == TOP && m.AN[b] == 0
       case Kids(p) => IsNode(rib, p) && LeastOrder(Count(VecOf(rib, p)), m.AN[b])
  }

  /** Block b of the leaf array has the order that the leaves of a node at or below q need. */
  ghost predicate LeavesFor(m: Mem, rib: Routes, q: Path, b: nat) {
    && b in m.AL && b in m.OL && m.OL[b].Kids? && Extends(m.OL[b].p, q)
    && var p := m.OL[b].p;
       IsNode(rib, p) && LeastOrder(|RunLeaves(VecOf(rib, p), ValsOf(rib, p))|, m.AL[b])
  }

  /** No two of the blocks beside those of a0 are used for the same. */
  ghost predicate OneEach(a0: Ranges, a: Ranges, o: Owners) {
    forall b, b' :: b in a && b !in a0 && b in o && b' in a && b' !in a0 && b' in o && o[b] == o[b'] ==> b == b'
  }

  /** The blocks taken in m are those of m0, and beside them at most one for the children and one for the leaves of each
      node at or below q of the trie for these routes, and one for each root. */
  ghost predicate Charged(m0: Mem, m: Mem, rib: Routes, q: Path) {
    forall k: Key :: Open(k) && k.ChargedKey? ==>
      && KeptBlocks(m0.AN, m.AN, m0.ON, m.ON) && KeptBlocks(m0.AL, m.AL, m0.OL, m.OL)
      && (forall b :: b in m.AN && b !in m0.AN ==> NodesFor(m, rib, q, b))
      && (forall b :: b in m.AL && b !in m0.AL ==> LeavesFor(m, rib, q, b))
      && OneEach(m0.AN, m.AN, m.ON) && OneEach(m0.AL, m.AL, m.OL)
  }

  /** None of the blocks beside those of m0 is used at or below r. */
  ghost predicate NoneUnder(m0: Mem, m: Mem, r: Path) {
    forall k: Key :: Open(k) && k.ChargedKey? ==>
      && (forall b :: b in m.AN && b !in m0.AN && b in m.ON ==> !Extends(m.ON[b].p, r))
      && (forall b :: b in m.AL && b !in m0.AL && b in m.OL ==> !Extends(m.OL[b].p, r))
  }

  lemma {:induction false} ChargedWider(m0: Mem, m: Mem, rib: Routes, r: Path, q: Path)
    requires Charged(m0, m, rib, r) && Extends(r, q)
    ensures Charged(m0, m, rib, q)
  {
    assert Open(ChargedKey);
    forall b | b in m.AN && b !in m0.AN ensures NodesFor(m, rib, q, b) { ExtendsTrans(m.ON[b].p, r, q); }
    forall b | b in m.AL && b !in m0.AL ensures LeavesFor(m, rib, q, b) { ExtendsTrans(m.OL[b].p, r, q); }
  }

  lemma {:induction false} KeptThen(a: Ranges, a': Ranges, a'': Ranges, o: Owners, o': Owners, o'': Owners)
    requires KeptBlocks(a, a', o, o') && KeptBlocks(a', a'', o', o'')
    ensures KeptBlocks(a, a'', o, o'')
  {
  }

  /** First blocks for nodes under q, then some for nodes under r, where there are none yet. */
  lemma {:induction false} ChargedThen(m0: Mem, m: Mem, m': Mem, rib: Routes, q: Path, r: Path)
    requires Charged(m0, m, rib, q) && NoneUnder(m0, m, r) && Charged(m, m', rib, r) && Extends(r, q)
    ensures Charged(m0, m', rib, q)
  {
    ChargedWider(m, m', rib, r, q);
    OneEachThen(m0, m, m', rib, q, r);
    NodesThen(m0, m, m', rib, q);
    LeavesThen(m0, m, m', rib, q);
    ChargedIs(m0, m, rib, q);
    ChargedIs(m, m', rib, q);
    KeptThen(m0.AN, m.AN, m'.AN, m0.ON, m.ON, m'.ON);
    KeptThen(m0.AL, m.AL, m'.AL, m0.OL, m.OL, m'.OL);
  }

  lemma {:induction false} ChargedIs(m0: Mem, m: Mem, rib: Routes, q: Path)
    requires Charged(m0, m, rib, q)
    ensures KeptBlocks(m0.AN, m.AN, m0.ON, m.ON) && KeptBlocks(m0.AL, m.AL, m0.OL, m.OL)
    ensures forall b :: b in m.AN && b !in m0.AN ==> NodesFor(m, rib, q, b)
    ensures forall b :: b in m.AL && b !in m0.AL ==> LeavesFor(m, rib, q, b)
    ensures OneEach(m0.AN, m.AN, m.ON) && OneEach(m0.AL, m.AL, m.OL)
  {
    assert Open(ChargedKey);
  }

  lemma {:induction false} NodesThen(m0: Mem, m: Mem, m': Mem, rib: Routes, q: Path)
    requires Charged(m0, m, rib, q) && Charged(m, m', rib, q)
    ensures forall b :: b in m'.AN && b !in m0.AN ==> NodesFor(m', rib, q, b)
  {
    assert Open(ChargedKey);
    forall b | b in m'.AN && b !in m0.AN ensures NodesFor(m', rib, q, b) {
      if b in m.AN { assert NodesFor(m, rib, q, b); }
    }
  }

  lemma {:induction false} LeavesThen(m0: Mem, m: Mem, m': Mem, rib: Routes, q: Path)
    requires Charged(m0, m, rib, q) && Charged(m, m', rib, q)
    ensures forall b :: b in m'.AL && b !in m0.AL ==> LeavesFor(m', rib, q, b)
  {
    assert Open(ChargedKey);
    forall b | b in m'.AL && b !in m0.AL ensures LeavesFor(m', rib, q, b) {
      if b in m.AL { assert LeavesFor(m, rib, q, b); }
    }
  }

  lemma {:induction false} OneEachBoth(a0: Ranges, a: Ranges, a': Ranges, o: Owners, o': Owners, r: Path)
    requires OneEach(a0, a, o) && OneEach(a, a', o') && KeptBlocks(a, a', o, o')
    requires forall b :: b in a && b !in a0 ==> b in o && !Extends(o[b].p, r)
    requires forall b :: b in a' && b !in a ==> b in o' && Extends(o'[b].p, r)
    ensures OneEach(a0, a', o')
  {
    forall b | b in a' && b !in a0
      ensures if b in a then b in o && o'[b] == o[b] && !Extends(o'[b].p, r) else b in o' && Extends(o'[b].p, r)
    {
    }
  }

  lemma {:induction false} OneEachThen(m0: Mem, m: Mem, m': Mem, rib: Routes, q: Path, r: Path)
    requires Charged(m0, m, rib, q) && NoneUnder(m0, m, r) && Charged(m, m', rib, r)
    ensures OneEach(m0.AN, m'.AN, m'.ON) && OneEach(m0.AL, m'.AL, m'.OL)
  {
    ChargedIs(m0, m, rib, q);
    ChargedIs(m, m', rib, r);
    forall b | b in m.AN && b !in m0.AN ensures b in m.ON && !Extends(m.ON[b].p, r) {
      assert NodesFor(m, rib, q, b);
      NotUnder(m0, m, r, b);
    }
    forall b | b in m.AL && b !in m0.AL ensures b in m.OL && !Extends(m.OL[b].p, r) {
      assert LeavesFor(m, rib, q, b);
      NotUnder(m0, m, r, b);
    }
    forall b | b in m'.AN && b !in m.AN ensures b in m'.ON && Extends(m'.ON[b].p, r) {
      assert NodesFor(m', rib, r, b);
    }
    forall b | b in m'.AL && b !in m.AL ensures b in m'.OL && Extends(m'.OL[b].p, r) {
      assert LeavesFor(m', rib, r, b);
    }
    OneEachBoth(m0.AN, m.AN, m'.AN, m.ON, m'.ON, r);
    OneEachBoth(m0.AL, m.AL, m'.AL, m.OL, m'.OL, r);
  }

  lemma {:induction false} NotUnder(m0: Mem, m: Mem, r: Path, b: nat)
    requires NoneUnder(m0, m, r)
    ensures b in m.AN && b !in m0.AN && b in m.ON ==> !Extends(m.ON[b].p, r)
    ensures b in m.AL && b !in m0.AL && b in m.OL ==> !Extends(m.OL[b].p, r)
  {
    assert Open(ChargedKey);
  }

  /** What counts is how the routes forward. */
  lemma {:induction false} SameNeeds(rib: Routes, rib': Routes, q: Path, p: Path)
    requires Same(rib, rib', q) && Extends(p, q) && IsNode(rib, p)
    ensures IsNode(rib', p) && VecOf(rib', p) == VecOf(rib, p) && ValsOf(rib', p) == ValsOf(rib, p)
  {
    assert p == q + p[|q|..];
    SameBelow(rib, rib', q, p[|q|..]);
    SameConstant(rib, rib', p);
    SameVec(rib, rib', p);
  }

  lemma {:induction false} ChargedSame(m0: Mem, m: Mem, rib: Routes, rib': Routes, q: Path)
    requires Charged(m0, m, rib, q) && Same(rib, rib', q)
    ensures Charged(m0, m, rib', q)
  {
    ChargedIs(m0, m, rib, q);
    forall b | b in m.AN && b !in m0.AN ensures NodesFor(m, rib', q, b) {
      assert NodesFor(m, rib, q, b);
      if m.ON[b].Kids? { SameNeeds(rib, rib', q, m.ON[b].p); }
    }
    forall b | b in m.AL && b !in m0.AL ensures LeavesFor(m, rib', q, b) {
      assert LeavesFor(m, rib, q, b);
      SameNeeds(rib, rib', q, m.OL[b].p);
    }
    ChargedOf(m0, m, rib', q);
  }

  // ---------- forests ----------

  lemma {:induction false} NodeNeeds(m: Mem, rib: Routes, val: NodeMap, ix: Cells, p: Path)
    requires Trees(m, rib, val, ix) && p in val
    ensures IsNode(rib, p) && |p| + STRIDE <= KEYLENGTH
    ensures var n := val[p];
            && Block(m.AN, n.base1, Count(VecOf(rib, p)))
            && Block(m.AL, n.base0, |RunLeaves(VecOf(rib, p), ValsOf(rib, p))|)
  {
    assert NodeOK(m, rib, ix, p, val[p]) by { assert Open(TreesKey); }
    assert Open(GoodKey);
    RunCount(VecOf(rib, p), ValsOf(rib, p));
  }

  lemma {:induction false} ForestBlocks(m0: Mem, m: Mem, rib: Routes, val: NodeMap, ix: Cells)
    requires Forest(m0, m, rib, val, ix)
    ensures KeptBlocks(m0.AN, m.AN, m0.ON, m.ON) && KeptBlocks(m0.AL, m.AL, m0.OL, m.OL)
    ensures Trees(m, rib, val, ix) && ix.Keys <= val.Keys
    ensures forall b :: b in m.AN && b !in m0.AN ==>
        UsedN(m, val, ix, b) && (m.ON[b].Root? ==> m.AN[b] == 0 && |m.ON[b].p| == TOP)
    ensures forall b :: b in m.AL && b !in m0.AL ==> UsedL(m, val, b)
  {
    assert Open(ForestKey) && Open(AccountedKey) && Open(GrownKey) && Open(MemOKKey);
  }

  /** The new blocks of a forest belong to its nodes. */
  lemma {:induction false} ForestCharged(m0: Mem, m: Mem, rib: Routes, val: NodeMap, ix: Cells, q: Path)
    requires Forest(m0, m, rib, val, ix) && forall x :: x in val ==> Extends(x, q)
    ensures Charged(m0, m, rib, q)
  {
    ForestBlocks(m0, m, rib, val, ix);
    forall b | b in m.AN && b !in m0.AN ensures NodesFor(m, rib, q, b) {
      assert UsedN(m, val, ix, b);
      NodeNeeds(m, rib, val, ix, m.ON[b].p);
    }
    forall b | b in m.AL && b !in m0.AL ensures LeavesFor(m, rib, q, b) {
      assert UsedL(m, val, b);
      NodeNeeds(m, rib, val, ix, m.OL[b].p);
    }
    assert Open(ChargedKey);
  }

  lemma {:induction false} ForestNoneUnder(m0: Mem, m: Mem, rib: Routes, val: NodeMap, ix: Cells, r: Path)
    requires Forest(m0, m, rib, val, ix) && forall x :: x in val ==> !Extends(x, r)
    ensures NoneUnder(m0, m, r)
  {
    ForestBlocks(m0, m, rib, val, ix);
  }

  // ---------- the blocks of one more node ----------

  /** The block for the n children of the node at q has been taken. */
  ghost predicate KidsTaken(m: Mem, m': Mem, q: Path, n: nat) {
    && m'.AL == m.AL && m'.OL == m.OL
    && exists b :: b !in m.AN && b in m'.AN && LeastOrder(n, m'.AN[b]) && m'.AN == m.AN[b := m'.AN[b]]
        && m'.ON == m.ON[b := Kids(q)]
  }

  /** The block for the n leaves of the node at q has been taken. */
  ghost predicate LeavesTaken(m: Mem, m': Mem, q: Path, n: nat) {
    && m'.AN == m.AN && m'.ON == m.ON
    && exists b :: b !in m.AL && b in m'.AL && LeastOrder(n, m'.AL[b]) && m'.AL == m.AL[b := m'.AL[b]]
        && m'.OL == m.OL[b := Kids(q)]
  }

  /** The node at q is none of the nodes of the forest, which lie below it. */
  ghost predicate Beneath(val: NodeMap, q: Path) {
    q !in val && forall x :: x in val ==> Extends(x, q)
  }

  lemma {:induction false} OwnedBy(m0: Mem, m: Mem, rib: Routes, val: NodeMap, ix: Cells, q: Path)
    requires Forest(m0, m, rib, val, ix) && q !in val
    ensures m.ON.Keys == m.AN.Keys && m.OL.Keys == m.AL.Keys && m0.AN.Keys <= m.AN.Keys && m0.AL.Keys <= m.AL.Keys
    ensures forall b :: b in m.AN && b !in m0.AN ==> m.ON[b] != Kids(q)
    ensures forall b :: b in m.AL && b !in m0.AL ==> m.OL[b] != Kids(q)
  {
    ForestBlocks(m0, m, rib, val, ix);
    assert MemOK(m) && Grown(m0, m) by { assert Open(ForestKey); }
    assert Open(MemOKKey) && Open(GrownKey);
  }

  lemma {:induction false} OneMore(a0: Ranges, a: Ranges, o: Owners, b: nat, k: nat, w: Owner)
    requires OneEach(a0, a, o) && b !in a && b !in o && o.Keys == a.Keys && a0.Keys <= a.Keys
    requires forall x :: x in a && x !in a0 ==> o[x] != w
    ensures OneEach(a0, a[b := k], o[b := w])
  {
  }

  lemma {:induction false} KeptMore(a0: Ranges, a: Ranges, o0: Owners, o: Owners, b: nat, k: nat, w: Owner)
    requires KeptBlocks(a0, a, o0, o) && b !in a && b !in o
    ensures KeptBlocks(a0, a[b := k], o0, o[b := w])
  {
  }

  lemma {:induction false} ChargedOf(m0: Mem, m: Mem, rib: Routes, q: Path)
    requires KeptBlocks(m0.AN, m.AN, m0.ON, m.ON) && KeptBlocks(m0.AL, m.AL, m0.OL, m.OL)
    requires forall b :: b in m.AN && b !in m0.AN ==> NodesFor(m, rib, q, b)
    requires forall b :: b in m.AL && b !in m0.AL ==> LeavesFor(m, rib, q, b)
    requires OneEach(m0.AN, m.AN, m.ON) && OneEach(m0.AL, m.AL, m.OL)
    ensures Charged(m0, m, rib, q)
  {
  }

  lemma {:induction false} SameBlocks(m: Mem, m': Mem, rib: Routes, q: Path, x: nat)
    ensures m'.AN == m.AN && m'.ON == m.ON && NodesFor(m, rib, q, x) ==> NodesFor(m', rib, q, x)
    ensures m'.AL == m.AL && m'.OL == m.OL && LeavesFor(m, rib, q, x) ==> LeavesFor(m', rib, q, x)
  {
  }

  lemma {:induction false} NodesMore(m: Mem, m': Mem, rib: Routes, q: Path, b: nat, x: nat)
    requires IsNode(rib, q) && b !in m.AN && b in m'.AN && m'.AN == m.AN[b := m'.AN[b]] && m'.ON == m.ON[b := Kids(q)]
    requires LeastOrder(Count(VecOf(rib, q)), m'.AN[b])
    requires x in m'.AN && (x != b ==> NodesFor(m, rib, q, x))
    ensures NodesFor(m', rib, q, x)
  {
  }

  lemma {:induction false} LeavesMore(m: Mem, m': Mem, rib: Routes, q: Path, b: nat, x: nat)
    requires IsNode(rib, q) && b !in m.AL && b in m'.AL && m'.AL == m.AL[b := m'.AL[b]] && m'.OL == m.OL[b := Kids(q)]
    requires LeastOrder(|RunLeaves(VecOf(rib, q), ValsOf(rib, q))|, m'.AL[b])
    requires x in m'.AL && (x != b ==> LeavesFor(m, rib, q, x))
    ensures LeavesFor(m', rib, q, x)
  {
  }

  lemma {:induction false} KidsCharged(m0: Mem, m: Mem, m': Mem, rib: Routes, val: NodeMap, ix: Cells, q: Path)
    requires Forest(m0, m, rib, val, ix) && Beneath(val, q) && IsNode(rib, q)
    requires KidsTaken(m, m', q, Count(VecOf(rib, q)))
    ensures Charged(m0, m', rib, q)
  {
    ForestCharged(m0, m, rib, val, ix, q);
    OwnedBy(m0, m, rib, val, ix, q);
    var b :| b !in m.AN && b in m'.AN && LeastOrder(Count(VecOf(rib, q)), m'.AN[b])
      && m'.AN == m.AN[b := m'.AN[b]] && m'.ON == m.ON[b := Kids(q)];
    KidsChargedBy(m0, m, m', rib, q, b);
  }

  lemma {:induction false} KidsChargedBy(m0: Mem, m: Mem, m': Mem, rib: Routes, q: Path, b: nat)
    requires Charged(m0, m, rib, q) && IsNode(rib, q) && m'.AL == m.AL && m'.OL == m.OL
    requires b !in m.AN && b in m'.AN && m'.AN == m.AN[b := m'.AN[b]] && m'.ON == m.ON[b := Kids(q)]
    requires LeastOrder(Count(VecOf(rib, q)), m'.AN[b])
    requires m.ON.Keys == m.AN.Keys && m0.AN.Keys <= m.AN.Keys
    requires forall x :: x in m.AN && x !in m0.AN ==> m.ON[x] != Kids(q)
    ensures Charged(m0, m', rib, q)
  {
    ChargedIs(m0, m, rib, q);
    OneMore(m0.AN, m.AN, m.ON, b, m'.AN[b], Kids(q));
    KeptMore(m0.AN, m.AN, m0.ON, m.ON, b, m'.AN[b], Kids(q));
    forall x | x in m'.AN && x !in m0.AN ensures NodesFor(m', rib, q, x) { NodesMore(m, m', rib, q, b, x); }
    forall x | x in m'.AL && x !in m0.AL ensures LeavesFor(m', rib, q, x) { SameBlocks(m, m', rib, q, x); }
    ChargedOf(m0, m', rib, q);
  }

  lemma {:induction false} LeavesCharged(m0: Mem, m: Mem, m': Mem, rib: Routes, val: NodeMap, ix: Cells, q: Path)
    requires Forest(m0, m, rib, val, ix) && Beneath(val, q) && IsNode(rib, q)
    requires LeavesTaken(m, m', q, |RunLeaves(VecOf(rib, q), ValsOf(rib, q))|)
    ensures Charged(m0, m', rib, q)
  {
    ForestCharged(m0, m, rib, val, ix, q);
    OwnedBy(m0, m, rib, val, ix, q);
    var b :| b !in m.AL && b in m'.AL && LeastOrder(|RunLeaves(VecOf(rib, q), ValsOf(rib, q))|, m'.AL[b])
      && m'.AL == m.AL[b := m'.AL[b]] && m'.OL == m.OL[b := Kids(q)];
    LeavesChargedBy(m0, m, m', rib, q, b);
  }

  lemma {:induction false} LeavesChargedBy(m0: Mem, m: Mem, m': Mem, rib: Routes, q: Path, b: nat)
    requires Charged(m0, m, rib, q) && IsNode(rib, q) && m'.AN == m.AN && m'.ON == m.ON
    requires b !in m.AL && b in m'.AL && m'.AL == m.AL[b := m'.AL[b]] && m'.OL == m.OL[b := Kids(q)]
    requires LeastOrder(|RunLeaves(VecOf(rib, q), ValsOf(rib, q))|, m'.AL[b])
    requires m.OL.Keys == m.AL.Keys && m0.AL.Keys <= m.AL.Keys
    requires forall x :: x in m.AL && x !in m0.AL ==> m.OL[x] != Kids(q)
    ensures Charged(m0, m', rib, q)
  {
    ChargedIs(m0, m, rib, q);
    OneMore(m0.AL, m.AL, m.OL, b, m'.AL[b], Kids(q));
    KeptMore(m0.AL, m.AL, m0.OL, m.OL, b, m'.AL[b], Kids(q));
    forall x | x in m'.AN && x !in m0.AN ensures NodesFor(m', rib, q, x) { SameBlocks(m, m', rib, q, x); }
    forall x | x in m'.AL && x !in m0.AL ensures LeavesFor(m', rib, q, x) { LeavesMore(m, m', rib, q, b, x); }
    ChargedOf(m0, m', rib, q);
  }

  // ---------- refused requests ----------

  /** A request of order at most 6 was refused because there was no aligned range of that order, while nothing was taken
      but the blocks of m0 and blocks of nodes at or below q of the trie for these routes. */
  ghost predicate Justified(x: Note, pool: Pool, m0: Mem, rib: Routes, q: Path) {
    && MemOK(x.mem) && Charged(m0, x.mem, rib, q) && x.order <= 6
    && (x.nodes ==> NoRoom(x.mem.AN, pool.cnodes, x.order))
    && (!x.nodes ==> NoRoom(x.mem.AL, pool.cleaves, x.order))
  }

  /** Between the notes ns0 and the notes ns nothing was refused, or the first refusal is justified. */
  ghost predicate Told(ns0: seq<Note>, ns: seq<Note>, ok: bool, pool: Pool, m0: Mem, rib: Routes, q: Path) {
    forall k: Key :: Open(k) && k.ToldKey? ==>
      if ok then ns == ns0 else |ns0| < |ns| && ns[..|ns0|] == ns0 && Justified(ns[|ns0|], pool, m0, rib, q)
  }

  lemma {:induction false} NothingTold(ns: seq<Note>, pool: Pool, m0: Mem, rib: Routes, q: Path)
    ensures Told(ns, ns, true, pool, m0, rib, q)
  {
  }

  lemma {:induction false} ToldIs(ns0: seq<Note>, ns: seq<Note>, ok: bool, pool: Pool, m0: Mem, rib: Routes, q: Path)
    requires Told(ns0, ns, ok, pool, m0, rib, q)
    ensures ok ==> ns == ns0
    ensures !ok ==> |ns0| < |ns| && ns[..|ns0|] == ns0 && Justified(ns[|ns0|], pool, m0, rib, q)
  {
    assert Open(ToldKey);
  }

  lemma {:induction false} ToldWider(ns0: seq<Note>, ns: seq<Note>, ok: bool, pool: Pool, m0: Mem, rib: Routes, r: Path,
                                     q: Path)
    requires Told(ns0, ns, ok, pool, m0, rib, r) && Extends(r, q)
    ensures Told(ns0, ns, ok, pool, m0, rib, q)
  {
    ToldIs(ns0, ns, ok, pool, m0, rib, r);
    if !ok { ChargedWider(m0, ns[|ns0|].mem, rib, r, q); }
  }

  lemma {:induction false} ToldSame(ns0: seq<Note>, ns: seq<Note>, ok: bool, pool: Pool, m0: Mem, rib: Routes,
                                    rib': Routes, q: Path)
    requires Told(ns0, ns, ok, pool, m0, rib, q) && Same(rib, rib', q)
    ensures Told(ns0, ns, ok, pool, m0, rib', q)
  {
    ToldIs(ns0, ns, ok, pool, m0, rib, q);
    if !ok { ChargedSame(m0, ns[|ns0|].mem, rib, rib', q); }
  }

  /** Later refusals do not matter. */
  lemma {:induction false} ToldMore(ns0: seq<Note>, ns: seq<Note>, ns': seq<Note>, pool: Pool, m0: Mem, rib: Routes,
                                    q: Path)
    requires Told(ns0, ns, false, pool, m0, rib, q) && |ns| <= |ns'| && ns'[..|ns|] == ns
    ensures Told(ns0, ns', false, pool, m0, rib, q)
  {
    ToldIs(ns0, ns, false, pool, m0, rib, q);
    assert ns'[|ns0|] == ns[|ns0|] && ns'[..|ns0|] == ns[..|ns0|];
  }

  /** A refusal below r after blocks have been taken elsewhere. */
  lemma {:induction false} ToldThen(ns0: seq<Note>, ns: seq<Note>, ok: bool, pool: Pool, m0: Mem, m: Mem, rib: Routes,
                                    q: Path, r: Path)
    requires Told(ns0, ns, ok, pool, m, rib, r) && Charged(m0, m, rib, q) && NoneUnder(m0, m, r) && Extends(r, q)
    ensures Told(ns0, ns, ok, pool, m0, rib, q)
  {
    ToldIs(ns0, ns, ok, pool, m, rib, r);
    if !ok { ChargedThen(m0, m, ns[|ns0|].mem, rib, q, r); }
  }

  /** A refusal in slot i of the node at q. */
  lemma {:induction false} SlotTold(ns0: seq<Note>, ns: seq<Note>, ok: bool, pool: Pool, m0: Mem, m: Mem, rib: Routes,
                                    q: Path, i: nat, vec: Vec, kids: seq<Node>, val: NodeMap, ix: Cells)
    requires Building(m0, m, rib, q, i, vec, kids, val, ix) && i < SLOTS
    requires Told(ns0, ns, ok, pool, m, rib, Slot(q, i))
    ensures Told(ns0, ns, ok, pool, m0, rib, q)
  {
    BuildingIs(m0, m, rib, q, i, vec, kids, val, ix);
    SlotExtends(q, i);
    forall x | x in val ensures !Extends(x, Slot(q, i)) {
      if Extends(x, Slot(q, i)) { SlotUnder(x, q, i); }
    }
    ForestCharged(m0, m, rib, val, ix, q);
    ForestNoneUnder(m0, m, rib, val, ix, Slot(q, i));
    ToldThen(ns0, ns, ok, pool, m0, m, rib, q, Slot(q, i));
  }

  /** Of the requests for the n1 children and the n0 leaves of the node at q, one was refused. */
  ghost predicate StoreFails(ns0: seq<Note>, ns: seq<Note>, pool: Pool, m: Mem, q: Path, n1: nat, n0: nat) {
    && |ns| == |ns0| + 1 && ns[..|ns0|] == ns0
    && var x := ns[|ns0|];
       MemOK(x.mem) &&
       if x.nodes then
         && LeastOrder(n1, x.order) && NoRoom(x.mem.AN, pool.cnodes, x.order)
         && (x.mem == m || LeavesTaken(m, x.mem, q, n0))
       else
         && LeastOrder(n0, x.order) && NoRoom(x.mem.AL, pool.cleaves, x.order)
         && (x.mem == m || KidsTaken(m, x.mem, q, n1))
  }

  lemma {:induction false} StoreTold(ns0: seq<Note>, ns: seq<Note>, pool: Pool, m0: Mem, m: Mem, rib: Routes, q: Path,
                                     val: NodeMap, ix: Cells)
    requires Forest(m0, m, rib, val, ix) && Beneath(val, q) && AtNode(q)
    requires StoreFails(ns0, ns, pool, m, q, Count(VecOf(rib, q)), |RunLeaves(VecOf(rib, q), ValsOf(rib, q))|)
    requires ns[|ns0|].mem != m ==> IsNode(rib, q)
    ensures Told(ns0, ns, false, pool, m0, rib, q)
  {
    var x, vec, vals := ns[|ns0|], VecOf(rib, q), ValsOf(rib, q);
    RunCount(vec, vals);
    OrderAtMost(if x.nodes then Count(vec) else |RunLeaves(vec, vals)|, x.order);
    if x.mem == m {
      ForestCharged(m0, m, rib, val, ix, q);
    } else if x.nodes {
      LeavesCharged(m0, m, x.mem, rib, val, ix, q);
    } else {
      KidsCharged(m0, m, x.mem, rib, val, ix, q);
    }
  }
}
