/** One version of the trie after another. */
module Succession {
  // Once the blocks of the old one have been freed, the memory holds the new version and nothing else.

  import opened Bits
  import opened Tiling
  import opened Forwarding
  import opened Nodes
  import opened Folding
  import opened Memory
  import opened Compile
  import opened Inodes
  import opened Versions
  import opened Cleanup

  /** The old version below p is to be replaced by nv: the memory holds both. */
  ghost predicate Replacing(m: Mem, o: Version, rib: Routes, p: Path, nv: NodeMap, ni: Cells) {
    forall k: Key :: Open(k) && k.DeadKey? ==>
      && Holds(m, o.rib, o.val, o.ix, TOP) && Fits(m, o, rib, p, nv, ni) && OnlyUnder(o.rib, rib, p)
      && (forall x :: x in o.val && x != p ==> CellHas(m, o.val, o.ix, x))
      && (forall x :: x in nv ==> CellHas(m, nv, ni, x))
      && RootsOK(m, o.ix) && RootsOK(m, ni)
      && (forall b :: b in m.AN ==> UsedN(m, o.val, o.ix, b) || UsedN(m, nv, ni, b))
      && (forall b :: b in m.AL ==> UsedL(m, o.val, b) || UsedL(m, nv, b))
  }

  /** The root blocks of the old nodes below p that are not those of the new ones. */
  function DeadRoots(ix: Cells, ni: Cells, p: Path): Gone {
    Gone(set y | y in ix && |y| == TOP && Extends(y, p) && !(y in ni && ni[y] == ix[y]) :: ix[y], {})
  }

  function AllDead(o: Version, p: Path, nv: NodeMap, ni: Cells): Gone {
    Plus(Dead(o.val, nv, p), DeadRoots(o.ix, ni, p))
  }

  /** The new version, before the old one is freed. */
  lemma {:induction false} NextHolds(m: Mem, o: Version, rib: Routes, p: Path, nv: NodeMap, ni: Cells)
    requires Replacing(m, o, rib, p, nv, ni)
    ensures var o' := Next(o, rib, p, nv, ni);
            && Holds(m, rib, o'.val, o'.ix, TOP) && RootsOK(m, o'.ix)
            && (forall x :: x in o'.val ==> CellHas(m, o'.val, o'.ix, x))
  {
    assert Open(DeadKey);
    assert Extends(p, p);
    NextTrees(m, o, rib, p, nv, ni);
    NextParented(m, o, rib, p, nv, ni);
  }

  lemma {:induction false} LabelledAt(m: Mem, rib: Routes, val: NodeMap, ix: Cells, x: Path)
    requires Trees(m, rib, val, ix) && x in val
    ensures Labelled(m, x, val[x]) && |x| >= TOP
  {
    NotConstant(m, rib, val, ix, x);
  }

  /** A block that the new version uses is not freed. */
  lemma {:induction false} KeptN(m: Mem, o: Version, rib: Routes, p: Path, nv: NodeMap, ni: Cells, b: nat)
    requires Replacing(m, o, rib, p, nv, ni) && b in AllDead(o, p, nv, ni).n
    ensures var o' := Next(o, rib, p, nv, ni);
            b in m.ON && !(m.ON[b].Kids? && m.ON[b].p in o'.val && o'.val[m.ON[b].p].base1 == b)
    ensures var o' := Next(o, rib, p, nv, ni);
            b in m.ON && !(m.ON[b].Root? && m.ON[b].p in o'.ix && o'.ix[m.ON[b].p] == b)
  {
    assert Open(DeadKey);
    if b in Dead(o.val, nv, p).n {
      var y :| y in o.val && Extends(y, p) && DeadN(o.val, nv, y) && o.val[y].base1 == b;
      LabelledAt(m, o.rib, o.val, o.ix, y);
    } else {
      var y :| y in o.ix && |y| == TOP && Extends(y, p) && !(y in ni && ni[y] == o.ix[y]) && o.ix[y] == b;
    }
  }

  lemma {:induction false} KeptL(m: Mem, o: Version, rib: Routes, p: Path, nv: NodeMap, ni: Cells, b: nat)
    requires Replacing(m, o, rib, p, nv, ni) && b in AllDead(o, p, nv, ni).l
    ensures var o' := Next(o, rib, p, nv, ni);
            b in m.OL && m.OL[b].Kids? && !(m.OL[b].p in o'.val && o'.val[m.OL[b].p].base0 == b)
  {
    assert Open(DeadKey);
    var y :| y in o.val && Extends(y, p) && DeadL(o.val, nv, y) && o.val[y].base0 == b;
    LabelledAt(m, o.rib, o.val, o.ix, y);
  }

  lemma {:induction false} FreedGood(m: Mem, g: Gone, rib: Routes, ix: Cells, x: Path, n: Node)
    requires NodeOK(m, rib, ix, x, n) && n.base1 !in g.n && n.base0 !in g.l
    ensures NodeOK(Freed(m, g), rib, ix, x, n)
  {
    assert Open(GoodKey);
  }

  lemma {:induction false} FreedTrees(m: Mem, o: Version, rib: Routes, p: Path, nv: NodeMap, ni: Cells)
    requires Replacing(m, o, rib, p, nv, ni)
    ensures var o' := Next(o, rib, p, nv, ni); Trees(Freed(m, AllDead(o, p, nv, ni)), rib, o'.val, o'.ix)
  {
    var o' := Next(o, rib, p, nv, ni);
    var g := AllDead(o, p, nv, ni);
    NextHolds(m, o, rib, p, nv, ni);
    forall x | x in o'.val ensures NodeOK(Freed(m, g), rib, o'.ix, x, o'.val[x]) {
      NotConstant(m, rib, o'.val, o'.ix, x);
      if o'.val[x].base1 in g.n { KeptN(m, o, rib, p, nv, ni, o'.val[x].base1); }
      if o'.val[x].base0 in g.l { KeptL(m, o, rib, p, nv, ni, o'.val[x].base0); }
      FreedGood(m, g, rib, o'.ix, x, o'.val[x]);
    }
    assert Open(TreesKey);
  }

  /** The block that covers the cell of a node is kept. */
  lemma {:induction false} CellKept(m: Mem, o: Version, rib: Routes, p: Path, nv: NodeMap, ni: Cells, x: Path)
    requires Replacing(m, o, rib, p, nv, ni) && x in Next(o, rib, p, nv, ni).val
    ensures x in Next(o, rib, p, nv, ni).ix
    ensures IsCovered(Freed(m, AllDead(o, p, nv, ni)).AN, Next(o, rib, p, nv, ni).ix[x])
  {
    var o' := Next(o, rib, p, nv, ni);
    var g := AllDead(o, p, nv, ni);
    NextHolds(m, o, rib, p, nv, ni);
    LabelledAt(m, rib, o'.val, o'.ix, x);
    var b: nat := o'.ix[x];
    if |x| > TOP {
      CellOwner(m, rib, o'.val, o'.ix, TOP, x);
      b := o'.val[Up(x)].base1;
    }
    if b in g.n { KeptN(m, o, rib, p, nv, ni, b); }
    assert b in Freed(m, g).AN;
    assert Covers(Freed(m, g).AN, b, o'.ix[x]);
  }

  lemma {:induction false} FreedOK(m: Mem, g: Gone)
    requires MemOK(m)
    ensures MemOK(Freed(m, g))
  {
    assert Open(MemOKKey);
  }

  lemma {:induction false} FreedUsed(m: Mem, o: Version, rib: Routes, p: Path, nv: NodeMap, ni: Cells)
    requires Replacing(m, o, rib, p, nv, ni)
    ensures var o' := Next(o, rib, p, nv, ni); AllUsed(Freed(m, AllDead(o, p, nv, ni)), o'.val, o'.ix)
  {
    assert Open(DeadKey);
    var o' := Next(o, rib, p, nv, ni);
    var m' := Freed(m, AllDead(o, p, nv, ni));
    forall b | b in m'.AN ensures UsedN(m', o'.val, o'.ix, b) {
      UsedOrDeadN(m, o, rib, p, nv, ni, b);
    }
    forall b | b in m'.AL ensures UsedL(m', o'.val, b) {
      UsedOrDeadL(m, o, rib, p, nv, ni, b);
    }
  }

  lemma {:induction false} UsedOrDeadN(m: Mem, o: Version, rib: Routes, p: Path, nv: NodeMap, ni: Cells, b: nat)
    requires Replacing(m, o, rib, p, nv, ni) && b in m.AN
    ensures b in AllDead(o, p, nv, ni).n || UsedN(m, Next(o, rib, p, nv, ni).val, Next(o, rib, p, nv, ni).ix, b)
  {
    assert Open(DeadKey);
    if !UsedN(m, nv, ni, b) {
      match m.ON[b]
      case Root(t) =>
        RootDepth(m, o, t, b);
      case Kids(y) =>
        if Extends(y, p) {
          assert DeadN(o.val, nv, y);
        }
    }
  }

  lemma {:induction false} RootDepth(m: Mem, o: Version, t: Path, b: nat)
    requires Holds(m, o.rib, o.val, o.ix, TOP) && t in o.ix && o.ix[t] == b && b in m.ON && m.ON[b] == Root(t)
        && b in m.AN
    ensures |t| == TOP
  {
    LabelledAt(m, o.rib, o.val, o.ix, t);
    if |t| > TOP {
      CellOwner(m, o.rib, o.val, o.ix, TOP, t);
      CoversSelf(m.AN, b);
      OneOwner(m, b, o.val[Up(t)].base1, b);
    }
  }

  lemma {:induction false} CoversSelf(a: Ranges, b: nat)
    requires b in a
    ensures b < b + Pow2(a[b])
  {
  }

  lemma {:induction false} UsedOrDeadL(m: Mem, o: Version, rib: Routes, p: Path, nv: NodeMap, ni: Cells, b: nat)
    requires Replacing(m, o, rib, p, nv, ni) && b in m.AL
    ensures b in AllDead(o, p, nv, ni).l || UsedL(m, Next(o, rib, p, nv, ni).val, b)
  {
    assert Open(DeadKey);
    if !UsedL(m, nv, b) {
      var y := m.OL[b].p;
      if Extends(y, p) {
        assert DeadL(o.val, nv, y);
      }
    }
  }

  lemma {:induction false} FreedRoots(m: Mem, o: Version, rib: Routes, p: Path, nv: NodeMap, ni: Cells)
    requires Replacing(m, o, rib, p, nv, ni)
    ensures RootsOK(Freed(m, AllDead(o, p, nv, ni)), Next(o, rib, p, nv, ni).ix)
  {
    var o' := Next(o, rib, p, nv, ni);
    var g := AllDead(o, p, nv, ni);
    NextHolds(m, o, rib, p, nv, ni);
    forall x | x in o'.ix && |x| == TOP ensures o'.ix[x] !in g.n {
      if o'.ix[x] in g.n { KeptN(m, o, rib, p, nv, ni, o'.ix[x]); }
    }
  }

  lemma {:induction false} FreedStored(m: Mem, o: Version, rib: Routes, p: Path, nv: NodeMap, ni: Cells)
    requires Replacing(m, o, rib, p, nv, ni)
    ensures var o' := Next(o, rib, p, nv, ni); Stored(Freed(m, AllDead(o, p, nv, ni)), o'.val, o'.ix)
  {
    var o' := Next(o, rib, p, nv, ni);
    NextHolds(m, o, rib, p, nv, ni);
    forall x | x in o'.ix ensures IsCovered(Freed(m, AllDead(o, p, nv, ni)).AN, o'.ix[x]) {
      CellKept(m, o, rib, p, nv, ni, x);
    }
    forall x | x in o'.ix ensures CellHas(m, o'.val, o'.ix, x) {
    }
    assert Open(StoredKey);
  }

  /** When exactly the old blocks have been freed, the memory holds the new version and nothing else. */
  lemma {:induction false} Succeeds(m: Mem, o: Version, rib: Routes, p: Path, nv: NodeMap, ni: Cells)
    requires Replacing(m, o, rib, p, nv, ni)
    ensures Trie(Freed(m, AllDead(o, p, nv, ni)), Next(o, rib, p, nv, ni))
  {
    var m' := Freed(m, AllDead(o, p, nv, ni));
    var o' := Next(o, rib, p, nv, ni);
    NextHolds(m, o, rib, p, nv, ni);
    FreedOK(m, AllDead(o, p, nv, ni));
    FreedTrees(m, o, rib, p, nv, ni);
    FreedStored(m, o, rib, p, nv, ni);
    FreedRoots(m, o, rib, p, nv, ni);
    FreedUsed(m, o, rib, p, nv, ni);
    assert Old(m', o') by { assert Open(VersionKey); }
    assert Open(TrieKey);
  }

  // ---------- new top-level nodes ----------

  /** Newly compiled nodes below p, all stored. */
  ghost predicate Shoots(m0: Mem, m: Mem, rib: Routes, p: Path, nv: NodeMap, ni: Cells) {
    forall k: Key :: Open(k) && k.PieceKey? ==>
      && Forest(m0, m, rib, nv, ni) && ni.Keys == nv.Keys && Parented(nv, TOP) && RootsOK(m, ni)
      && forall x :: x in nv ==> Extends(x, p)
  }

  lemma {:induction false} NoShoots(m: Mem, m': Mem, rib: Routes, p: Path)
    requires Forest(m, m', rib, map[], map[])
    ensures Shoots(m, m', rib, p, map[], map[])
  {
    assert Open(PieceKey) && Open(ParentKey);
  }

  lemma {:induction false} RootsGrown(m: Mem, m': Mem, ix: Cells)
    requires RootsOK(m, ix) && Grown(m, m')
    ensures RootsOK(m', ix)
  {
    assert Open(GrownKey);
  }

  /** Two sets of new nodes below different paths. */
  lemma {:induction false} ShootsUnion(m0: Mem, m: Mem, m': Mem, rib: Routes, p: Path, q: Path, q': Path,
                                       nv: NodeMap, ni: Cells, nv': NodeMap, ni': Cells)
    requires Shoots(m0, m, rib, q, nv, ni) && Shoots(m, m', rib, q', nv', ni')
    requires Extends(q, p) && Extends(q', p) && !Extends(q, q') && !Extends(q', q)
    ensures Shoots(m0, m', rib, p, nv + nv', ni + ni')
  {
    assert Open(PieceKey);
    assert Grown(m, m') by { assert Open(ForestKey); }
    forall x | x in nv ensures x !in nv' && Extends(x, p) {
      if x in nv' { PrefixesNested(x, q, q'); PrefixesNested(x, q', q); }
      ExtendsTrans(x, q, p);
    }
    forall x | x in nv' ensures Extends(x, p) {
      ExtendsTrans(x, q', p);
    }
    ForestUnion(m0, m, m', rib, nv, ni, nv', ni');
    ParentedUnion(nv, nv', TOP);
    RootsGrown(m, m', ni);
  }

  lemma {:induction false} PieceParts(m0: Mem, m: Mem, rib: Routes, p: Path, n: Node, val: NodeMap, ix: Cells)
    requires Piece(m0, m, rib, p, n, val, ix)
    ensures Grown(m0, m) && MemOK(m) && ix.Keys <= val.Keys && Stored(m, val, ix) && Trees(m, rib, val, ix)
    ensures Accounted(m0, m, val, ix) && Parented(val, |p|) && p in val && val[p] == n && p !in ix
    ensures forall q :: q in val ==> Extends(q, p)
  {
    assert Open(PieceKey) && Open(ForestKey);
  }

  /** All nodes of a piece but its root are stored. */
  lemma {:induction false} PieceStored(m0: Mem, m: Mem, rib: Routes, p: Path, n: Node, val: NodeMap, ix: Cells)
    requires Piece(m0, m, rib, p, n, val, ix)
    ensures ix.Keys + {p} == val.Keys && TOP <= |p|
  {
    PieceParts(m0, m, rib, p, n, val, ix);
    NotConstant(m, rib, val, ix, p);
    forall x | x in val && x != p ensures x in ix {
      ExtendsShort(x, p);
      CellOwner(m, rib, val, ix, |p|, x);
    }
  }

  lemma {:induction false} RootForest(m0: Mem, m: Mem, rib: Routes, p: Path, n: Node, val: NodeMap, ix: Cells, c: nat)
    requires Piece(m0, m, rib, p, n, val, ix) && FreeBlock(m.AN, |m.N|, c, 0) && |p| == TOP
    ensures var m' := WithKids(m, c, 0, Root(p), [n]);
            Forest(m0, m', rib, val, ix[p := c]) && c in m'.AN && c in m'.ON && m'.ON[c] == Root(p) && Grown(m, m')
  {
    var m' := WithKids(m, c, 0, Root(p), [n]);
    PieceParts(m0, m, rib, p, n, val, ix);
    WithKidsGrown(m, c, 0, Root(p), [n]);
    GrownTrans(m0, m, m');
    TreesGrown(m, m', rib, val, ix);
    TreesMore(m', rib, val, ix, ix[p := c]);
    StoredGrown(m, m', val, ix);
    RootCell(m, val, ix, p, n, c);
    RootAccounted(m0, m, val, ix, p, n, c);
    assert Open(ForestKey);
  }

  lemma {:induction false} RootCell(m: Mem, val: NodeMap, ix: Cells, p: Path, n: Node, c: nat)
    requires FreeBlock(m.AN, |m.N|, c, 0) && p in val && val[p] == n
    requires Stored(WithKids(m, c, 0, Root(p), [n]), val, ix)
    ensures Stored(WithKids(m, c, 0, Root(p), [n]), val, ix[p := c])
  {
    var m' := WithKids(m, c, 0, Root(p), [n]);
    assert m'.N[c..c + 1] == [n];
    assert m'.N[c..c + 1][0] == m'.N[c];
    assert Covers(m'.AN, c, c);
    assert Open(StoredKey);
  }

  lemma {:induction false} RootAccounted(m0: Mem, m: Mem, val: NodeMap, ix: Cells, p: Path, n: Node, c: nat)
    requires Accounted(m0, m, val, ix) && FreeBlock(m.AN, |m.N|, c, 0) && MemOK(m) && p !in ix
    ensures Accounted(m0, WithKids(m, c, 0, Root(p), [n]), val, ix[p := c])
  {
    assert Open(AccountedKey) && Open(MemOKKey);
    var m' := WithKids(m, c, 0, Root(p), [n]);
    forall b | b in m'.AN && b !in m0.AN ensures UsedN(m', val, ix[p := c], b) {
      if b != c { assert UsedN(m, val, ix, b); }
    }
    forall b | b in m'.AL && b !in m0.AL ensures UsedL(m', val, b) {
      assert UsedL(m, val, b);
    }
  }

  /** The node n at the top-level path p is given a block of its own. */
  lemma {:induction false} RootStored(m0: Mem, m: Mem, rib: Routes, p: Path, n: Node, val: NodeMap, ix: Cells, c: nat)
    requires Piece(m0, m, rib, p, n, val, ix) && |p| == TOP && FreeBlock(m.AN, |m.N|, c, 0)
    ensures Shoots(m0, WithKids(m, c, 0, Root(p), [n]), rib, p, val, ix[p := c])
  {
    RootForest(m0, m, rib, p, n, val, ix, c);
    PieceStored(m0, m, rib, p, n, val, ix);
    PieceParts(m0, m, rib, p, n, val, ix);
    forall x | x in ix[p := c] && |x| == TOP ensures x == p {
      ExtendsShort(x, p);
    }
    assert Open(PieceKey);
  }

  /** The old trie and the new nodes below p. */
  lemma {:induction false} ReplaceTops(m0: Mem, m: Mem, o: Version, rib: Routes, p: Path, nv: NodeMap, ni: Cells)
    requires Trie(m0, o) && Shoots(m0, m, rib, p, nv, ni) && |p| <= TOP && OnlyUnder(o.rib, rib, p)
    ensures Replacing(m, o, rib, p, nv, ni)
    ensures forall x :: x in o.val ==> CellHas(m, o.val, o.ix, x)
  {
    TrieParts(m0, o);
    ShootParts(m0, m, rib, p, nv, ni);
    TreesGrown(m0, m, o.rib, o.val, o.ix);
    StoredGrown(m0, m, o.val, o.ix);
    RootsGrown(m0, m, o.ix);
    AllAccounted(m0, m, o, nv, ni);
    StoredCells(m, o.val, o.ix);
    StoredCells(m, nv, ni);
    assert Open(DeadKey);
  }

  lemma {:induction false} TrieParts(m: Mem, o: Version)
    requires Trie(m, o)
    ensures Old(m, o) && o.ix.Keys == o.val.Keys && RootsOK(m, o.ix) && AllUsed(m, o.val, o.ix)
    ensures MemOK(m) && Stored(m, o.val, o.ix) && Trees(m, o.rib, o.val, o.ix) && Parented(o.val, TOP)
  {
    assert Open(TrieKey) && Open(VersionKey);
  }

  lemma {:induction false} ShootParts(m0: Mem, m: Mem, rib: Routes, p: Path, nv: NodeMap, ni: Cells)
    requires Shoots(m0, m, rib, p, nv, ni)
    ensures ni.Keys == nv.Keys && Parented(nv, TOP) && RootsOK(m, ni) && (forall x :: x in nv ==> Extends(x, p))
    ensures Grown(m0, m) && MemOK(m) && Stored(m, nv, ni) && Trees(m, rib, nv, ni) && Accounted(m0, m, nv, ni)
  {
    assert Open(PieceKey) && Open(ForestKey);
  }

  lemma {:induction false} StoredCells(m: Mem, val: NodeMap, ix: Cells)
    requires Stored(m, val, ix) && ix.Keys == val.Keys
    ensures forall x :: x in val ==> CellHas(m, val, ix, x)
  {
    assert Open(StoredKey);
  }

  lemma {:induction false} AllAccounted(m0: Mem, m: Mem, o: Version, nv: NodeMap, ni: Cells)
    requires AllUsed(m0, o.val, o.ix) && Grown(m0, m) && Accounted(m0, m, nv, ni)
    ensures forall b :: b in m.AN ==> UsedN(m, o.val, o.ix, b) || UsedN(m, nv, ni, b)
    ensures forall b :: b in m.AL ==> UsedL(m, o.val, b) || UsedL(m, nv, b)
  {
    assert Open(AccountedKey) && Open(GrownKey);
    forall b | b in m.AN ensures UsedN(m, o.val, o.ix, b) || UsedN(m, nv, ni, b) {
      if b in m0.AN { assert UsedN(m0, o.val, o.ix, b); }
    }
    forall b | b in m.AL ensures UsedL(m, o.val, b) || UsedL(m, nv, b) {
      if b in m0.AL { assert UsedL(m0, o.val, b); }
    }
  }

  // ---------- a node that is replaced in place ----------

  /** Different nodes of one version have different cells. */
  lemma {:induction false} CellsDiffer(m: Mem, rib: Routes, val: NodeMap, ix: Cells, x: Path, y: Path)
    requires Holds(m, rib, val, ix, TOP) && RootsOK(m, ix) && x in ix && y in ix && ix[x] == ix[y]
    ensures x == y
  {
    CellBlock(m, rib, val, ix, x);
    CellBlock(m, rib, val, ix, y);
    var b := if |x| > TOP then val[Up(x)].base1 else ix[x];
    var b2 := if |y| > TOP then val[Up(y)].base1 else ix[y];
    OneOwner(m, b, b2, ix[x]);
    if |x| > TOP {
      CellOwner(m, rib, val, ix, TOP, x);
      CellOwner(m, rib, val, ix, TOP, y);
      SlotOfUp(x);
      SlotOfUp(y);
      var vec := val[Up(x)].vector;
      var i, j := SlotOf(x, |Up(x)|), SlotOf(y, |Up(y)|);
      if i < j { RankOrder(vec, i, j); }
      if j < i { RankOrder(vec, j, i); }
    }
  }

  lemma {:induction false} CellBlock(m: Mem, rib: Routes, val: NodeMap, ix: Cells, x: Path)
    requires Holds(m, rib, val, ix, TOP) && RootsOK(m, ix) && x in ix
    ensures |x| > TOP ==> Up(x) in val && InBlock(m, Up(x), val[Up(x)].base1, ix[x])
    ensures |x| <= TOP ==> |x| == TOP && ix[x] in m.AN && ix[x] in m.ON && m.ON[ix[x]] == Root(x)
  {
    LabelledAt(m, rib, val, ix, x);
    if |x| > TOP { CellOwner(m, rib, val, ix, TOP, x); }
  }

  /** The cell of p in the old version is none of the cells of a piece at p. */
  lemma {:induction false} OtherCells(m: Mem, o: Version, rib: Routes, p: Path, nv: NodeMap, ni: Cells, x: Path)
    requires Holds(m, o.rib, o.val, o.ix, TOP) && RootsOK(m, o.ix) && p in o.ix
    requires Trees(m, rib, nv, ni) && Parented(nv, |p|) && x in nv && x in ni && |x| > |p|
    ensures ni[x] != o.ix[p]
  {
    CellBlock(m, o.rib, o.val, o.ix, p);
    LabelledAt(m, o.rib, o.val, o.ix, p);
    CellOwner(m, rib, nv, ni, |p|, x);
    if |p| > TOP { CellOwner(m, o.rib, o.val, o.ix, TOP, p); }
    assert |p| > TOP ==> |Up(x)| > |Up(p)|;
    if ni[x] == o.ix[p] {
      var b := if |p| > TOP then o.val[Up(p)].base1 else o.ix[p];
      OneOwner(m, b, nv[Up(x)].base1, ni[x]);
    }
  }

  /** The memory after the node n has been written over cell c. */
  ghost function Overwritten(m: Mem, c: nat, n: Node): Mem
    requires c < |m.N|
  {
    m.(N := m.N[c := n])
  }

  lemma {:induction false} OverwrittenSame(m: Mem, c: nat, n: Node, rib: Routes, val: NodeMap, ix: Cells)
    requires c < |m.N| && MemOK(m) && Trees(m, rib, val, ix)
    ensures MemOK(Overwritten(m, c, n)) && Trees(Overwritten(m, c, n), rib, val, ix)
  {
    var m' := Overwritten(m, c, n);
    assert MemOK(m') by { assert Open(MemOKKey); }
    forall p | p in val ensures NodeOK(m', rib, ix, p, val[p]) {
      NotConstant(m, rib, val, ix, p);
      assert Good(m', rib, ix, p, val[p]) by { assert Open(GoodKey); }
    }
    assert Open(TreesKey);
  }

  /** A piece that takes the place of the old node at p. */
  lemma {:induction false} ReplaceInPlace(m0: Mem, m: Mem, o: Version, rib: Routes, p: Path, n: Node, nv: NodeMap,
                                          ni: Cells)
    requires Trie(m0, o) && Piece(m0, m, rib, p, n, nv, ni) && p in o.ix && OnlyUnder(o.rib, rib, p)
    ensures o.ix[p] < |m.N|
    ensures Replacing(Overwritten(m, o.ix[p], n), o, rib, p, nv, ni[p := o.ix[p]])
  {
    var c := o.ix[p];
    var ni' := ni[p := c];
    TrieParts(m0, o);
    PieceParts(m0, m, rib, p, n, nv, ni);
    PieceStored(m0, m, rib, p, n, nv, ni);
    assert c < |m0.N| && |m0.N| == |m.N| by { assert Open(StoredKey) && Open(GrownKey); }
    var m' := Overwritten(m, c, n);
    TreesGrown(m0, m, o.rib, o.val, o.ix);
    StoredGrown(m0, m, o.val, o.ix);
    RootsGrown(m0, m, o.ix);
    TreesMore(m, rib, nv, ni, ni');
    OverwrittenSame(m, c, n, o.rib, o.val, o.ix);
    OverwrittenSame(m, c, n, rib, nv, ni');
    AllAccounted(m0, m, o, nv, ni);
    InPlaceCells(m, o, rib, p, n, nv, ni);
    InPlaceRoots(m, o, p, nv, ni);
    InPlaceParents(nv, p);
    InPlaceUsed(m, o, p, n, nv, ni);
    assert Open(DeadKey);
  }

  lemma {:induction false} InPlaceUsed(m: Mem, o: Version, p: Path, n: Node, nv: NodeMap, ni: Cells)
    requires p in o.ix && o.ix[p] < |m.N| && p !in ni
    requires forall b :: b in m.AN ==> UsedN(m, o.val, o.ix, b) || UsedN(m, nv, ni, b)
    requires forall b :: b in m.AL ==> UsedL(m, o.val, b) || UsedL(m, nv, b)
    ensures var m', ni' := Overwritten(m, o.ix[p], n), ni[p := o.ix[p]];
            && (forall b :: b in m'.AN ==> UsedN(m', o.val, o.ix, b) || UsedN(m', nv, ni', b))
            && (forall b :: b in m'.AL ==> UsedL(m', o.val, b) || UsedL(m', nv, b))
  {
    var m', ni' := Overwritten(m, o.ix[p], n), ni[p := o.ix[p]];
    forall b | b in m'.AN ensures UsedN(m', o.val, o.ix, b) || UsedN(m', nv, ni', b) {
      assert UsedN(m, o.val, o.ix, b) || UsedN(m, nv, ni, b);
    }
    forall b | b in m'.AL ensures UsedL(m', o.val, b) || UsedL(m', nv, b) {
      assert UsedL(m, o.val, b) || UsedL(m, nv, b);
    }
  }

  lemma {:induction false} InPlaceParents(nv: NodeMap, p: Path)
    requires Parented(nv, |p|) && TOP <= |p| && (forall x :: x in nv ==> Extends(x, p))
    ensures Parented(nv, if |p| > TOP then |p| else TOP)
  {
  }

  lemma {:induction false} InPlaceRoots(m: Mem, o: Version, p: Path, nv: NodeMap, ni: Cells)
    requires RootsOK(m, o.ix) && p in o.ix && TOP <= |p| && ni.Keys <= nv.Keys
        && (forall x :: x in nv ==> Extends(x, p))
    ensures RootsOK(m, ni[p := o.ix[p]])
  {
    forall x | x in ni && |x| == TOP ensures x == p {
      ExtendsShort(x, p);
    }
  }

  lemma {:induction false} InPlaceCells(m: Mem, o: Version, rib: Routes, p: Path, n: Node, nv: NodeMap, ni: Cells)
    requires MemOK(m) && Trees(m, o.rib, o.val, o.ix) && Parented(o.val, TOP) && o.ix.Keys == o.val.Keys
    requires RootsOK(m, o.ix) && Stored(m, o.val, o.ix) && p in o.ix && o.ix[p] < |m.N|
    requires Trees(m, rib, nv, ni) && Parented(nv, |p|) && Stored(m, nv, ni) && ni.Keys + {p} == nv.Keys && nv[p] == n
    requires forall x :: x in nv ==> Extends(x, p)
    ensures var m' := Overwritten(m, o.ix[p], n);
            && (forall x :: x in o.val && x != p ==> CellHas(m', o.val, o.ix, x))
            && (forall x :: x in nv ==> CellHas(m', nv, ni[p := o.ix[p]], x))
  {
    var m' := Overwritten(m, o.ix[p], n);
    StoredCells(m, o.val, o.ix);
    forall x | x in o.val && x != p ensures CellHas(m', o.val, o.ix, x) {
      if o.ix[x] == o.ix[p] { CellsDiffer(m, o.rib, o.val, o.ix, x, p); }
      assert CellHas(m, o.val, o.ix, x);
    }
    forall x | x in nv && x != p ensures CellHas(m', nv, ni[p := o.ix[p]], x) {
      ExtendsShort(x, p);
      OtherCells(m, o, rib, p, nv, ni, x);
      StoredAt(m, nv, ni, x);
    }
  }
}
