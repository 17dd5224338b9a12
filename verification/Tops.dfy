/** _update_dp2 and _update_subtree for a route above the direct pointing level. */
module TopEntries {
  // The entries below it are compiled into the alternative array, and cleaned once the arrays have been swapped.

  import opened Bits
  import opened Forwarding
  import opened Folding
  import opened Memory
  import opened Compile
  import opened Radix
  import opened Triangles
  import opened Inodes
  import opened Versions
  import opened Cleanup
  import opened Succession
  import opened Cleaning
  import opened Exchange
  import opened Roots
  import opened Direct
  import opened Pools
  import opened Requests

  /** The number of entries of the direct pointing array. */
  const ENTRIES: nat := Pow2(TOP)

  /** The path of entry i. */
  function TopOf(i: nat): (p: Path)
    requires i < ENTRIES
    ensures |p| == TOP
  {
    ToBits(i, TOP)
  }

  // ---------- the entries below a path ----------

  /** The first entry below x. */
  function FirstEntry(x: Path): (r: nat)
    requires |x| <= TOP
    ensures r + Pow2(TOP - |x|) <= ENTRIES
  {
    ValueZeros(x, TOP - |x|);
    Value(x + Zeros(TOP - |x|))
  }

  lemma {:induction false} BitsRange(y: Path, n: nat, i: nat)
    requires i < Pow2(|y| + n)
    ensures Extends(ToBits(i, |y| + n), y) <==> Value(y + Zeros(n)) <= i < Value(y + Zeros(n)) + Pow2(n)
  {
    var p := ToBits(i, |y| + n);
    if Extends(p, y) {
      ValueToBits(i, |y| + n);
      assert p == y + p[|y|..];
      ValueAppend(y, p[|y|..]);
    }
    if Value(y + Zeros(n)) <= i < Value(y + Zeros(n)) + Pow2(n) {
      BitsFrom(y, n, i);
    }
  }

  lemma {:induction false} EntryRange(x: Path, i: nat)
    requires |x| <= TOP && i < ENTRIES
    ensures Extends(TopOf(i), x) <==> FirstEntry(x) <= i < FirstEntry(x) + Pow2(TOP - |x|)
  {
    BitsRange(x, TOP - |x|, i);
  }

  lemma {:induction false} EntryOfTop(x: Path)
    requires |x| == TOP
    ensures FirstEntry(x) < ENTRIES && TopOf(FirstEntry(x)) == x
    ensures forall i :: 0 <= i < ENTRIES && Extends(TopOf(i), x) ==> i == FirstEntry(x)
  {
    assert x + Zeros(0) == x;
    ToBitsValue(x);
    forall i | 0 <= i < ENTRIES && Extends(TopOf(i), x) ensures i == FirstEntry(x) {
      EntryRange(x, i);
    }
  }

  /** The entries below x are those of the new nodes. */
  ghost predicate EntriesNew(dir: seq<nat>, rib: Routes, x: Path, nv: NodeMap, ni: Cells) {
    && |dir| == ENTRIES
    && forall i :: 0 <= i < ENTRIES && Extends(TopOf(i), x) ==> NewEntry(dir[i], rib, TopOf(i), nv, ni)
  }

  /** The direct pointing array belongs to version o. */
  ghost predicate DirOK(dir: seq<nat>, o: Version) {
    |dir| == ENTRIES && forall i :: 0 <= i < ENTRIES ==> EntryOK(dir[i], o, TopOf(i))
  }

  /** Entries that are not below x are unchanged. */
  predicate OthersKept(dir: seq<nat>, dir': seq<nat>, x: Path) {
    && |dir| == |dir'| == ENTRIES
    && forall i :: 0 <= i < ENTRIES && !Extends(TopOf(i), x) ==> dir'[i] == dir[i]
  }

  /** Entries and nodes below both halves of x. */
  lemma {:induction false} BothHalves(d0: seq<nat>, d1: seq<nat>, d2: seq<nat>, rib: Routes, x: Path,
                                      nv: NodeMap, ni: Cells, nv': NodeMap, ni': Cells)
    requires EntriesNew(d1, rib, x + [false], nv, ni) && EntriesNew(d2, rib, x + [true], nv', ni')
    requires OthersKept(d0, d1, x + [false]) && OthersKept(d1, d2, x + [true]) && |x| < TOP
    requires (forall y :: y in nv ==> Extends(y, x + [false])) && (forall y :: y in nv' ==> Extends(y, x + [true]))
    requires ni.Keys <= nv.Keys && ni'.Keys <= nv'.Keys
    ensures EntriesNew(d2, rib, x, nv + nv', ni + ni') && OthersKept(d0, d2, x)
  {
    forall i | 0 <= i < ENTRIES
      ensures Extends(TopOf(i), x) ==> NewEntry(d2[i], rib, TopOf(i), nv + nv', ni + ni')
      ensures !Extends(TopOf(i), x) ==> d2[i] == d0[i]
    {
      var p := TopOf(i);
      HalfOf(p, x);
      if Extends(p, x + [false]) {
        assert d2[i] == d1[i];
        EntryBeside(d1[i], rib, p, x, false, nv, ni, nv', ni');
      } else if Extends(p, x + [true]) {
        EntryBeside(d2[i], rib, p, x, true, nv', ni', nv, ni);
      }
    }
  }

  lemma {:induction false} HalfOf(p: Path, x: Path)
    requires |x| < |p|
    ensures Extends(p, x) <==> Extends(p, x + [false]) || Extends(p, x + [true])
    ensures !(Extends(p, x + [false]) && Extends(p, x + [true]))
  {
    if Extends(p, x) {
      assert p[..|x| + 1] == x + [p[|x|]];
      assert x + [p[|x|]] == if p[|x|] then x + [true] else x + [false];
    }
    forall b: bool | Extends(p, x + [b]) ensures Extends(p, x) && p[|x|] == b {
      assert p[..|x| + 1][..|x|] == p[..|x|];
      assert p[..|x| + 1][|x|] == b;
    }
  }

  lemma {:induction false} EntryBeside(e: nat, rib: Routes, p: Path, x: Path, b: bool, nv: NodeMap, ni: Cells,
                                       nv': NodeMap, ni': Cells)
    requires NewEntry(e, rib, p, nv, ni) && Extends(p, x + [b]) && |x| < |p|
    requires forall y :: y in nv' ==> Extends(y, x + [!b])
    requires ni'.Keys <= nv'.Keys
    ensures NewEntry(e, rib, p, nv + nv', ni + ni') && NewEntry(e, rib, p, nv' + nv, ni' + ni)
  {
    forall y | y in nv' ensures !Extends(y, p) {
      if Extends(y, p) {
        ExtendsTrans(y, p, x + [b]);
        OneBit(y, x, b);
      }
    }
    assert Extends(p, p);
  }

  lemma {:induction false} OneBit(y: Path, x: Path, b: bool)
    ensures !(Extends(y, x + [b]) && Extends(y, x + [!b]))
  {
    if Extends(y, x + [b]) {
      assert y[..|x| + 1][|x|] == b;
    }
  }

  // ---------- _update_dp2 ----------

  /** The old version, the direct pointing array that belongs to it, and the state of the update. */
  ghost predicate DpInput(m: Mem, dir: seq<nat>, o: Version, x: Path) {
    Old(m, o) && |x| <= TOP && DirOK(dir, o)
  }

  lemma {:induction false} InodeOf(m: Mem, dir: seq<nat>, o: Version, x: Path, d: nat)
    requires DpInput(m, dir, o, x) && |x| == TOP && d <= TOP + STRIDE
    ensures FirstEntry(x) < ENTRIES
    ensures var e := dir[FirstEntry(x)]; CompileInput(m, o, x, if e >= LEAF then -1 else e, d)
  {
    EntryOfTop(x);
    assert Stored(m, o.val, o.ix) by { assert Open(VersionKey); }
    if dir[FirstEntry(x)] < LEAF { StoredAt(m, o.val, o.ix, x); }
  }

  lemma {:induction false} DpGrown(m: Mem, m': Mem, dir: seq<nat>, o: Version, x: Path, y: Path)
    requires DpInput(m, dir, o, x) && Grown(m, m') && MemOK(m') && |y| <= TOP
    ensures DpInput(m', dir, o, y)
  {
    OldGrown(m, m', o);
  }

  /** The entries below a missing node. */
  lemma {:induction false} FilledEntry(t: Tree, m: Mem, src: Routes, rib: Routes, o: Version, d: nat, x: Path, b: bool,
                                       p: Path)
    requires Source(t, src, rib, o, d) && Old(m, o) && x in t && x + [b] !in t && Extends(p, x + [b]) && |p| == TOP
    ensures NewEntry(LEAF + ExtNh(t[x].ext), rib, p, map[], map[])
  {
    At(t, src, x);
    ExtForwards(t, src, p);
    ExtForwards(t, src, x);
    ExtMissing(t, src, x, b, p);
    NoKids(t, src, x, b, p);
    ChildlessConstant(t, src, p);
    TopRebuilt(t, m, o, d, p);
    assert Same(src, rib, p) by { assert Open(MarksKey); }
    SameConstant(src, rib, p);
  }

  lemma {:induction false} NoKids(t: Tree, rib: Routes, x: Path, b: bool, p: Path)
    requires Shape(t, rib) && x + [b] !in t && Extends(p, x + [b])
    ensures p + [false] !in t && p + [true] !in t
  {
    assert (p + [false])[..|x| + 1] == p[..|x| + 1];
    assert (p + [true])[..|x| + 1] == p[..|x| + 1];
    ExtMissing(t, rib, x, b, p + [false]);
    ExtMissing(t, rib, x, b, p + [true]);
  }

  /** The entries below the missing half of x get the next hop cached at x. */
  method FillEntries(altdir: array<nat>, tnode: RadixNode, x: Path, b: bool, ghost t: Tree, ghost m: Mem,
                     ghost o: Version, ghost src: Routes,
                     ghost rib: Routes, ghost d: nat)
    requires altdir.Length == ENTRIES && Source(t, src, rib, o, d) && Old(m, o) && x in t && tnode == t[x]
        && x + [b] !in t && |x| < TOP
    modifies altdir
    ensures EntriesNew(altdir[..], rib, x + [b], map[], map[]) && OthersKept(old(altdir[..]), altdir[..], x + [b])
  {
    ghost var d0 := altdir[..];
    var idx := FirstEntry(x + [b]);
    var nh := LEAF + ExtNh(tnode.ext);
    for i := 0 to Pow2(TOP - |x| - 1)
      invariant forall k :: 0 <= k < ENTRIES ==> altdir[k] == if idx <= k < idx + i then nh else d0[k]
    {
      altdir[idx + i] := nh;
    }
    FilledAll(t, m, src, rib, o, d, x, b, d0, altdir[..], nh);
  }

  lemma {:induction false} FilledAll(t: Tree, m: Mem, src: Routes, rib: Routes, o: Version, d: nat, x: Path, b: bool,
                                     d0: seq<nat>, d1: seq<nat>, nh: nat)
    requires Source(t, src, rib, o, d) && Old(m, o) && x in t && x + [b] !in t && |x| < TOP && |d0| == |d1| == ENTRIES
        && nh == LEAF + ExtNh(t[x].ext)
    requires var idx := FirstEntry(x + [b]);
             forall k :: 0 <= k < ENTRIES ==> d1[k] == if idx <= k < idx + Pow2(TOP - |x| - 1) then nh else d0[k]
    ensures EntriesNew(d1, rib, x + [b], map[], map[]) && OthersKept(d0, d1, x + [b])
  {
    forall i | 0 <= i < ENTRIES
      ensures Extends(TopOf(i), x + [b]) ==> NewEntry(d1[i], rib, TopOf(i), map[], map[])
      ensures !Extends(TopOf(i), x + [b]) ==> d1[i] == d0[i]
    {
      EntryRange(x + [b], i);
      if Extends(TopOf(i), x + [b]) { FilledEntry(t, m, src, rib, o, d, x, b, TopOf(i)); }
    }
  }

  /** One half of the entries below x. */
  method UpdateHalf(pool: Pool, dir: array<nat>, altdir: array<nat>, tnode: RadixNode, x: Path, b: bool,
                    ghost t: Tree, ghost o: Version, ghost src: Routes, ghost rib: Routes, ghost d: nat)
    returns (ret: int, ok: bool, ghost nv: NodeMap, ghost ni: Cells)
    requires pool.Valid() && pool.nodes.Length <= LEAF && altdir !in pool.Repr() && dir !in pool.Repr() && dir != altdir
    requires altdir.Length == ENTRIES && dir.Length == ENTRIES && |x| < TOP && d <= TOP + STRIDE
    requires Source(t, src, rib, o, d) && t.Values !! pool.Repr() && x in t && tnode == t[x]
    requires DpInput(pool.View(), dir[..], o, x)
    modifies pool.Repr(), pool.log, altdir
    ensures pool.Valid() && -1 <= ret <= 0 && Grown(old(pool.View()), pool.View())
    ensures |pool.log.notes| >= old(|pool.log.notes|) && (ok <==> |pool.log.notes| == old(|pool.log.notes|))
    ensures Told(old(pool.log.notes), pool.log.notes, ok, pool, old(pool.View()), rib, x + [b])
    ensures ok ==>
              && ret == 0
              && Shoots(old(pool.View()), pool.View(), rib, x + [b], nv, ni)
              && EntriesNew(altdir[..], rib, x + [b], nv, ni) && OthersKept(old(altdir[..]), altdir[..], x + [b])
    ensures |x| + 1 == TOP && x + [b] in t && NoRoom(old(pool.View()).AN, pool.cnodes, 0) && !Constant(rib, x + [b]) ==>
        !ok
    ensures x + [b] !in t ==> ret == 0 && ok
    decreases TOP - |x|, 0
  {
    ghost var m0 := pool.View();
    At(t, src, x);
    var child := if b then tnode.right else tnode.left;
    if child != null {
      ret, ok, nv, ni := UpdateDp2(pool, dir, altdir, child, x + [b], t, o, src, rib, d);
    } else {
      NothingTold(pool.log.notes, pool, m0, rib, x + [b]);
      FillEntries(altdir, tnode, x, b, t, m0, o, src, rib, d);
      nv, ni := map[], map[];
      assert MemOK(m0) by { assert Open(VersionKey); }
      EmptyForest(m0, rib);
      NoShoots(m0, m0, rib, x + [b]);
      GrownRefl(m0);
      ret, ok := 0, true;
    }
  }

  /** _update_dp2 for the alternative array: compile all entries below x.  The result is that of the right half;
      ok says whether the left half was compiled as well. */
  method UpdateDp2(pool: Pool, dir: array<nat>, altdir: array<nat>, tnode: RadixNode, x: Path,
                   ghost t: Tree, ghost o: Version, ghost src: Routes, ghost rib: Routes, ghost d: nat)
    returns (ret: int, ok: bool, ghost nv: NodeMap, ghost ni: Cells)
    requires pool.Valid() && pool.nodes.Length <= LEAF && altdir !in pool.Repr() && dir !in pool.Repr() && dir != altdir
    requires altdir.Length == ENTRIES && dir.Length == ENTRIES && d <= TOP + STRIDE
    requires Source(t, src, rib, o, d) && t.Values !! pool.Repr() && x in t && tnode == t[x]
    requires DpInput(pool.View(), dir[..], o, x)
    modifies pool.Repr(), pool.log, altdir
    ensures pool.Valid() && -1 <= ret <= 0 && Grown(old(pool.View()), pool.View())
    ensures |pool.log.notes| >= old(|pool.log.notes|) && (ok <==> |pool.log.notes| == old(|pool.log.notes|))
    ensures Told(old(pool.log.notes), pool.log.notes, ok, pool, old(pool.View()), rib, x)
    ensures ok ==>
              && ret == 0
              && Shoots(old(pool.View()), pool.View(), rib, x, nv, ni)
              && EntriesNew(altdir[..], rib, x, nv, ni) && OthersKept(old(altdir[..]), altdir[..], x)
    ensures |x| == TOP && NoRoom(old(pool.View()).AN, pool.cnodes, 0) && !Constant(rib, x) ==> !ok
    ensures x + [false] in t && x + [true] !in t && |x| + 1 == TOP && !Constant(rib, x + [false]) ==>
              NoRoom(old(pool.View()).AN, pool.cnodes, 0) ==> ret == 0 && !ok
    decreases TOP - |x|, 3
  {
    if |x| == TOP {
      ret, nv, ni := UpdateEntry(pool, dir, altdir, tnode, x, t, o, src, rib, d);
      ok := ret == 0;
    } else {
      ret, ok, nv, ni := UpdateBoth(pool, dir, altdir, tnode, x, t, o, src, rib, d);
    }
    ToldIs(old(pool.log.notes), pool.log.notes, ok, pool, old(pool.View()), rib, x);
  }

  /** A refusal while the right half is compiled. */
  lemma {:induction false} RightTold(ns0: seq<Note>, ns: seq<Note>, ok: bool, pool: Pool, m0: Mem, m: Mem, rib: Routes,
                                     x: Path, nv: NodeMap, ni: Cells)
    requires Told(ns0, ns, ok, pool, m, rib, x + [true]) && Shoots(m0, m, rib, x + [false], nv, ni)
    ensures Told(ns0, ns, ok, pool, m0, rib, x)
  {
    assert Forest(m0, m, rib, nv, ni) && forall y :: y in nv ==> Extends(y, x + [false]) by { assert Open(PieceKey); }
    forall y | y in nv ensures Extends(y, x) && !Extends(y, x + [true]) {
      HalfOf(y, x);
    }
    ForestCharged(m0, m, rib, nv, ni, x);
    ForestNoneUnder(m0, m, rib, nv, ni, x + [true]);
    ToldThen(ns0, ns, ok, pool, m0, m, rib, x, x + [true]);
  }

  lemma {:induction false} BothTold(ns0: seq<Note>, ns: seq<Note>, ns': seq<Note>, ok0: bool, ok: bool, pool: Pool,
                                    m0: Mem, m: Mem, rib: Routes, x: Path, nv: NodeMap, ni: Cells)
    requires Told(ns0, ns, ok0, pool, m0, rib, x + [false]) && Told(ns, ns', ok, pool, m, rib, x + [true])
    requires ok0 ==> Shoots(m0, m, rib, x + [false], nv, ni)
    ensures Told(ns0, ns', ok0 && ok, pool, m0, rib, x)
  {
    ToldIs(ns0, ns, ok0, pool, m0, rib, x + [false]);
    ToldIs(ns, ns', ok, pool, m, rib, x + [true]);
    if ok0 {
      RightTold(ns, ns', ok, pool, m0, m, rib, x, nv, ni);
    } else {
      ToldWider(ns0, ns, ok0, pool, m0, rib, x + [false], x);
      ToldMore(ns0, ns, ns', pool, m0, rib, x);
    }
  }

  ghost predicate Sourced(t: Tree, src: Routes, rib: Routes, o: Version, d: nat)
    reads t.Values
  {
    forall k: Key :: Open(k) && k.MarksKey? ==> Source(t, src, rib, o, d)
  }

  /** The left half of the entries below x has been compiled. */
  ghost predicate LeftDone(m0: Mem, m: Mem, d0: seq<nat>, d: seq<nat>, rib: Routes, x: Path, nv: NodeMap, ni: Cells) {
    forall k: Key :: Open(k) && k.WorkKey? ==>
      && Shoots(m0, m, rib, x + [false], nv, ni)
      && EntriesNew(d, rib, x + [false], nv, ni) && OthersKept(d0, d, x + [false])
  }

  /** Both halves of the entries below x. */
  method UpdateBoth(pool: Pool, dir: array<nat>, altdir: array<nat>, tnode: RadixNode, x: Path,
                    ghost t: Tree, ghost o: Version, ghost src: Routes, ghost rib: Routes, ghost d: nat)
    returns (ret: int, ok: bool, ghost nv: NodeMap, ghost ni: Cells)
    requires pool.Valid() && pool.nodes.Length <= LEAF && altdir !in pool.Repr() && dir !in pool.Repr() && dir != altdir
    requires altdir.Length == ENTRIES && dir.Length == ENTRIES && d <= TOP + STRIDE && |x| < TOP
    requires Source(t, src, rib, o, d) && t.Values !! pool.Repr() && x in t && tnode == t[x]
    requires DpInput(pool.View(), dir[..], o, x)
    modifies pool.Repr(), pool.log, altdir
    ensures pool.Valid() && -1 <= ret <= 0 && Grown(old(pool.View()), pool.View())
    ensures Told(old(pool.log.notes), pool.log.notes, ok, pool, old(pool.View()), rib, x)
    ensures ok ==>
              && ret == 0
              && Shoots(old(pool.View()), pool.View(), rib, x, nv, ni)
              && EntriesNew(altdir[..], rib, x, nv, ni) && OthersKept(old(altdir[..]), altdir[..], x)
    ensures x + [false] in t && x + [true] !in t && |x| + 1 == TOP && !Constant(rib, x + [false]) ==>
              NoRoom(old(pool.View()).AN, pool.cnodes, 0) ==> ret == 0 && !ok
    decreases TOP - |x|, 2
  {
    ghost var m0, ns0, d0 := pool.View(), pool.log.notes, altdir[..];
    ok, nv, ni := UpdateLeft(pool, dir, altdir, tnode, x, t, o, src, rib, d);
    ret, ok, nv, ni := UpdateRight(pool, dir, altdir, tnode, x, t, o, src, rib, d, m0, ns0, d0, ok, nv, ni);
  }

  /** The first half of the entries below x, whose result is thrown away. */
  method UpdateLeft(pool: Pool, dir: array<nat>, altdir: array<nat>, tnode: RadixNode, x: Path,
                    ghost t: Tree, ghost o: Version, ghost src: Routes, ghost rib: Routes, ghost d: nat)
    returns (ok: bool, ghost nv: NodeMap, ghost ni: Cells)
    requires pool.Valid() && pool.nodes.Length <= LEAF && altdir !in pool.Repr() && dir !in pool.Repr() && dir != altdir
    requires altdir.Length == ENTRIES && dir.Length == ENTRIES && d <= TOP + STRIDE && |x| < TOP
    requires Source(t, src, rib, o, d) && t.Values !! pool.Repr() && x in t && tnode == t[x]
    requires DpInput(pool.View(), dir[..], o, x)
    modifies pool.Repr(), pool.log, altdir
    ensures pool.Valid() && Grown(old(pool.View()), pool.View()) && DpInput(old(pool.View()), dir[..], o, x)
    ensures Sourced(t, src, rib, o, d)
    ensures Told(old(pool.log.notes), pool.log.notes, ok, pool, old(pool.View()), rib, x + [false])
    ensures ok ==> LeftDone(old(pool.View()), pool.View(), old(altdir[..]), altdir[..], rib, x, nv, ni)
    ensures x + [false] in t && |x| + 1 == TOP && !Constant(rib, x + [false]) ==>
              NoRoom(old(pool.View()).AN, pool.cnodes, 0) ==> !ok
    decreases TOP - |x|, 1
  {
    var left;
    assert Sourced(t, src, rib, o, d);
    left, ok, nv, ni := UpdateHalf(pool, dir, altdir, tnode, x, false, t, o, src, rib, d);
  }

  /** The second half of the entries below x.  ok0 says that no request was refused for the first one. */
  method UpdateRight(pool: Pool, dir: array<nat>, altdir: array<nat>, tnode: RadixNode, x: Path,
                     ghost t: Tree, ghost o: Version, ghost src: Routes, ghost rib: Routes, ghost d: nat,
                     ghost m0: Mem, ghost ns0: seq<Note>, ghost d0: seq<nat>, ok0: bool, ghost nv0: NodeMap,
                     ghost ni0: Cells)
    returns (ret: int, ok: bool, ghost nv: NodeMap, ghost ni: Cells)
    requires pool.Valid() && pool.nodes.Length <= LEAF && altdir !in pool.Repr() && dir !in pool.Repr() && dir != altdir
    requires altdir.Length == ENTRIES && dir.Length == ENTRIES && d <= TOP + STRIDE && |x| < TOP
    requires Sourced(t, src, rib, o, d) && t.Values !! pool.Repr() && x in t && tnode == t[x]
    requires DpInput(m0, dir[..], o, x) && Grown(m0, pool.View())
    requires ok0 ==> LeftDone(m0, pool.View(), d0, altdir[..], rib, x, nv0, ni0)
    requires Told(ns0, pool.log.notes, ok0, pool, m0, rib, x + [false])
    modifies pool.Repr(), pool.log, altdir
    ensures pool.Valid() && -1 <= ret <= 0 && Grown(m0, pool.View())
    ensures Told(ns0, pool.log.notes, ok, pool, m0, rib, x)
    ensures ok ==>
              && ret == 0
              && Shoots(m0, pool.View(), rib, x, nv, ni)
              && EntriesNew(altdir[..], rib, x, nv, ni) && OthersKept(d0, altdir[..], x)
    ensures (!ok0 ==> !ok) && (x + [true] !in t ==> ret == 0 && ok == ok0)
    decreases TOP - |x|, 1
  {
    assert Source(t, src, rib, o, d) by { assert Open(MarksKey); }
    ghost var m1, d1 := pool.View(), altdir[..];
    pool.Sound();
    assert ok0 ==> Shoots(m0, m1, rib, x + [false], nv0, ni0) by { assert Open(WorkKey); }
    DpGrown(m0, m1, dir[..], o, x, x);
    ret, ok, nv, ni := UpdateHalf(pool, dir, altdir, tnode, x, true, t, o, src, rib, d);
    GrownTrans(m0, m1, pool.View());
    BothTold(ns0, old(pool.log.notes), pool.log.notes, ok0, ok, pool, m0, m1, rib, x, nv0, ni0);
    ok := ok0 && ok;
    if ok {
      assert Open(WorkKey);
      JoinHalves(m0, m1, pool.View(), d0, d1, altdir[..], rib, x, nv0, ni0, nv, ni);
      nv, ni := nv0 + nv, ni0 + ni;
    }
  }

  /** The result of _update_dp2 may hide a refused request: no node is free, the left entry needs one, and there is
      no radix node on the right.  The left entry is not compiled, and still the result is 0. */
  method LeftHalfLost(pool: Pool, dir: array<nat>, altdir: array<nat>, tnode: RadixNode, x: Path,
                      ghost t: Tree, ghost o: Version, ghost src: Routes, ghost rib: Routes, ghost d: nat)
    returns (ret: int, ok: bool)
    requires pool.Valid() && pool.nodes.Length <= LEAF && altdir !in pool.Repr() && dir !in pool.Repr() && dir != altdir
    requires altdir.Length == ENTRIES && dir.Length == ENTRIES && d <= TOP + STRIDE && |x| + 1 == TOP
    requires Source(t, src, rib, o, d) && t.Values !! pool.Repr() && x in t && tnode == t[x]
    requires DpInput(pool.View(), dir[..], o, x)
    requires x + [false] in t && !Constant(rib, x + [false]) && x + [true] !in t
        && NoRoom(pool.View().AN, pool.cnodes, 0)
    modifies pool.Repr(), pool.log, altdir
    ensures ret == 0 && !ok && |pool.log.notes| > old(|pool.log.notes|)
  {
    ghost var nv, ni;
    ret, ok, nv, ni := UpdateDp2(pool, dir, altdir, tnode, x, t, o, src, rib, d);
  }

  lemma {:induction false} JoinHalves(m0: Mem, m1: Mem, m2: Mem, d0: seq<nat>, d1: seq<nat>, d2: seq<nat>, rib: Routes,
                                      x: Path,
                                      nv: NodeMap, ni: Cells, nv': NodeMap, ni': Cells)
    requires |x| < TOP && Shoots(m0, m1, rib, x + [false], nv, ni) && Shoots(m1, m2, rib, x + [true], nv', ni')
    requires EntriesNew(d1, rib, x + [false], nv, ni) && EntriesNew(d2, rib, x + [true], nv', ni')
    requires OthersKept(d0, d1, x + [false]) && OthersKept(d1, d2, x + [true])
    ensures Shoots(m0, m2, rib, x, nv + nv', ni + ni') && EntriesNew(d2, rib, x, nv + nv', ni + ni')
        && OthersKept(d0, d2, x)
  {
    ShootParts(m0, m1, rib, x + [false], nv, ni);
    ShootParts(m1, m2, rib, x + [true], nv', ni');
    BothHalves(d0, d1, d2, rib, x, nv, ni, nv', ni');
    assert (x + [false])[|x|] != (x + [true])[|x|];
    ShootsUnion(m0, m1, m2, rib, x, x + [false], x + [true], nv, ni, nv', ni');
  }

  /** One entry. */
  method UpdateEntry(pool: Pool, dir: array<nat>, altdir: array<nat>, tnode: RadixNode, x: Path,
                     ghost t: Tree, ghost o: Version, ghost src: Routes, ghost rib: Routes, ghost d: nat)
    returns (ret: int, ghost nv: NodeMap, ghost ni: Cells)
    requires pool.Valid() && pool.nodes.Length <= LEAF && altdir !in pool.Repr() && dir !in pool.Repr() && dir != altdir
    requires altdir.Length == ENTRIES && dir.Length == ENTRIES && d <= TOP + STRIDE && |x| == TOP
    requires Source(t, src, rib, o, d) && t.Values !! pool.Repr() && x in t && tnode == t[x]
    requires DpInput(pool.View(), dir[..], o, x)
    modifies pool.Repr(), pool.log, altdir
    ensures pool.Valid() && -1 <= ret <= 0 && Grown(old(pool.View()), pool.View())
    ensures |pool.log.notes| == old(|pool.log.notes|) + if ret < 0 then 1 else 0
    ensures Told(old(pool.log.notes), pool.log.notes, ret >= 0, pool, old(pool.View()), rib, x)
    ensures ret == 0 ==>
              && Shoots(old(pool.View()), pool.View(), rib, x, nv, ni)
              && EntriesNew(altdir[..], rib, x, nv, ni) && OthersKept(old(altdir[..]), altdir[..], x)
    ensures NoRoom(old(pool.View()).AN, pool.cnodes, 0) && !Constant(rib, x) ==> ret < 0
  {
    ghost var d0 := altdir[..];
    var idx := FirstEntry(x);
    InodeOf(pool.View(), dir[..], o, x, d);
    var inode := if dir[idx] >= LEAF then -1 else dir[idx];
    ret, nv, ni := CompileTop(pool, altdir, idx, tnode, inode, t, o, src, rib, d, x);
    if ret == 0 { OneEntry(d0, altdir[..], rib, x, nv, ni); }
  }

  lemma {:induction false} OneEntry(d0: seq<nat>, d1: seq<nat>, rib: Routes, x: Path, nv: NodeMap, ni: Cells)
    requires |x| == TOP && |d0| == ENTRIES && FirstEntry(x) < ENTRIES && |d1| == ENTRIES
    requires d1 == d0[FirstEntry(x) := d1[FirstEntry(x)]] && NewEntry(d1[FirstEntry(x)], rib, x, nv, ni)
    ensures EntriesNew(d1, rib, x, nv, ni) && OthersKept(d0, d1, x)
  {
    EntryOfTop(x);
  }

  // ---------- cleaning after the swap ----------

  function Side(g: Gone, leaf: bool): set<nat> {
    if leaf then g.l else g.n
  }

  function Total(gs: seq<Gone>): Gone {
    if gs == [] then Gone({}, {}) else Plus(Total(gs[..|gs| - 1]), gs[|gs| - 1])
  }

  lemma {:induction false} OfTotal(gs: seq<Gone>, leaf: bool, b: nat) returns (k: nat)
    requires b in Side(Total(gs), leaf)
    ensures k < |gs| && b in Side(gs[k], leaf)
  {
    k := |gs| - 1;
    if b !in Side(gs[k], leaf) {
      k := OfTotal(gs[..|gs| - 1], leaf, b);
    }
  }

  lemma {:induction false} InTotal(gs: seq<Gone>, leaf: bool, b: nat, k: nat)
    requires k < |gs| && b in Side(gs[k], leaf)
    ensures b in Side(Total(gs), leaf)
  {
    if k < |gs| - 1 {
      InTotal(gs[..|gs| - 1], leaf, b, k);
    }
  }

  /** What the first i entries from f on leave behind, one after the other. */
  function DeadSeq(o: Version, nv: NodeMap, ni: Cells, f: nat, i: nat): (r: seq<Gone>)
    requires f + i <= ENTRIES
    ensures |r| == i && forall k :: 0 <= k < i ==> r[k] == AllDead(o, TopOf(f + k), nv, ni)
  {
    seq(i, k requires 0 <= k < i => AllDead(o, TopOf(f + k), nv, ni))
  }

  function DeadEntries(o: Version, nv: NodeMap, ni: Cells, f: nat, i: nat): Gone
    requires f + i <= ENTRIES
  {
    Total(DeadSeq(o, nv, ni, f, i))
  }

  lemma {:induction false} DeadEntriesStep(o: Version, nv: NodeMap, ni: Cells, f: nat, i: nat)
    requires f + i < ENTRIES
    ensures DeadEntries(o, nv, ni, f, i + 1) == Plus(DeadEntries(o, nv, ni, f, i), AllDead(o, TopOf(f + i), nv, ni))
    ensures DeadEntries(o, nv, ni, f, 0) == Gone({}, {})
  {
    assert DeadSeq(o, nv, ni, f, i + 1)[..i] == DeadSeq(o, nv, ni, f, i);
  }

  lemma {:induction false} OfEntry(o: Version, nv: NodeMap, ni: Cells, f: nat, i: nat, leaf: bool, b: nat)
    returns (k: nat)
    requires f + i <= ENTRIES && b in Side(DeadEntries(o, nv, ni, f, i), leaf)
    ensures f <= k < f + i && b in Side(AllDead(o, TopOf(k), nv, ni), leaf)
  {
    k := OfTotal(DeadSeq(o, nv, ni, f, i), leaf, b);
    k := f + k;
  }

  lemma {:induction false} InEntries(o: Version, nv: NodeMap, ni: Cells, f: nat, i: nat, leaf: bool, b: nat, k: nat)
    requires f + i <= ENTRIES && f <= k < f + i && b in Side(AllDead(o, TopOf(k), nv, ni), leaf)
    ensures b in Side(DeadEntries(o, nv, ni, f, i), leaf)
  {
    InTotal(DeadSeq(o, nv, ni, f, i), leaf, b, k - f);
  }

  /** What the entries below x leave behind is what the nodes below x leave behind. */
  lemma {:induction false} DeadBelow(m: Mem, o: Version, rib: Routes, x: Path, nv: NodeMap, ni: Cells)
    requires Replacing(m, o, rib, x, nv, ni) && |x| <= TOP
    ensures FirstEntry(x) + Pow2(TOP - |x|) <= ENTRIES
    ensures DeadEntries(o, nv, ni, FirstEntry(x), Pow2(TOP - |x|)) == AllDead(o, x, nv, ni)
  {
    var f, n := FirstEntry(x), Pow2(TOP - |x|);
    var a, g := DeadEntries(o, nv, ni, f, n), AllDead(o, x, nv, ni);
    forall leaf: bool, b: nat ensures b in Side(a, leaf) <==> b in Side(g, leaf) {
      if b in Side(a, leaf) {
        var k := OfEntry(o, nv, ni, f, n, leaf, b);
        EntryRange(x, k);
        DeadNarrower(o, x, nv, ni, TopOf(k), leaf, b);
      }
      if b in Side(g, leaf) {
        var k := DeadInTop(m, o, rib, x, nv, ni, leaf, b);
        InEntries(o, nv, ni, f, n, leaf, b, k);
      }
    }
    SidesEqual(a, g);
  }

  lemma {:induction false} SidesEqual(a: Gone, g: Gone)
    requires forall leaf: bool, b: nat :: b in Side(a, leaf) <==> b in Side(g, leaf)
    ensures a == g
  {
    assert Side(a, false) == Side(g, false) && Side(a, true) == Side(g, true);
  }

  lemma {:induction false} DeadNarrower(o: Version, x: Path, nv: NodeMap, ni: Cells, top: Path, leaf: bool, b: nat)
    requires Extends(top, x) && b in Side(AllDead(o, top, nv, ni), leaf)
    ensures b in Side(AllDead(o, x, nv, ni), leaf)
  {
    forall y | Extends(y, top) ensures Extends(y, x) {
      ExtendsTrans(y, top, x);
    }
  }

  /** The entry above y. */
  lemma {:induction false} EntryAbove(x: Path, y: Path) returns (k: nat)
    requires Extends(y, x) && |x| <= TOP <= |y|
    ensures FirstEntry(x) <= k < FirstEntry(x) + Pow2(TOP - |x|) && Extends(y, TopOf(k))
  {
    var top := y[..TOP];
    EntryOfTop(top);
    k := FirstEntry(top);
    assert top[..|x|] == y[..|x|];
    EntryRange(x, k);
  }

  lemma {:induction false} DeadInTop(m: Mem, o: Version, rib: Routes, x: Path, nv: NodeMap, ni: Cells, leaf: bool,
                                     b: nat) returns (k: nat)
    requires Replacing(m, o, rib, x, nv, ni) && |x| <= TOP && b in Side(AllDead(o, x, nv, ni), leaf)
    ensures FirstEntry(x) <= k < FirstEntry(x) + Pow2(TOP - |x|) <= ENTRIES
        && b in Side(AllDead(o, TopOf(k), nv, ni), leaf)
  {
    assert Holds(m, o.rib, o.val, o.ix, TOP) by { assert Open(DeadKey); }
    var y;
    if leaf {
      y :| y in o.val && Extends(y, x) && DeadL(o.val, nv, y) && o.val[y].base0 == b;
      NotConstant(m, o.rib, o.val, o.ix, y);
    } else if b in Dead(o.val, nv, x).n {
      y :| y in o.val && Extends(y, x) && DeadN(o.val, nv, y) && o.val[y].base1 == b;
      NotConstant(m, o.rib, o.val, o.ix, y);
    } else {
      y :| y in o.ix && |y| == TOP && Extends(y, x) && !(y in ni && ni[y] == o.ix[y]) && o.ix[y] == b;
    }
    k := EntryAbove(x, y);
  }

  /** Freed blocks belong to the entry or to nodes below it. */
  lemma {:induction false} DeadTopLabels(m: Mem, o: Version, rib: Routes, x: Path, nv: NodeMap, ni: Cells, top: Path)
    requires Replacing(m, o, rib, x, nv, ni) && |top| == TOP
    ensures forall b :: b in AllDead(o, top, nv, ni).n ==>
        b in m.ON && (LabelBelow(m.ON, b, top) || m.ON[b] == Root(top))
    ensures forall b :: b in AllDead(o, top, nv, ni).l ==> LabelBelow(m.OL, b, top)
  {
    assert Holds(m, o.rib, o.val, o.ix, TOP) && RootsOK(m, o.ix) by { assert Open(DeadKey); }
    DeadLabels(m, o.rib, o.val, o.ix, TOP, nv, top);
    forall y | y in o.ix && |y| == TOP && Extends(y, top) ensures y == top {
      ExtendsShort(y, top);
    }
  }

  lemma {:induction false} TopsApart(i: nat, j: nat, y: Path)
    requires i < ENTRIES && j < ENTRIES && i != j
    ensures !(Extends(y, TopOf(i)) && Extends(y, TopOf(j))) && TopOf(i) != TopOf(j)
  {
    ValueToBits(i, TOP);
    ValueToBits(j, TOP);
  }

  /** Cleaning the other entries spares this one. */
  lemma {:induction false} DeadEntriesSpare(m: Mem, o: Version, rib: Routes, x: Path, nv: NodeMap, ni: Cells, f: nat,
                                            i: nat)
    requires Replacing(m, o, rib, x, nv, ni) && f + i < ENTRIES
    ensures SparesTop(m, DeadEntries(o, nv, ni, f, i), TopOf(f + i))
  {
    var g, top := DeadEntries(o, nv, ni, f, i), TopOf(f + i);
    forall b | b in g.n ensures !LabelBelow(m.ON, b, top) && (b in m.ON ==> m.ON[b] != Root(top)) {
      SpareBlock(m, o, rib, x, nv, ni, f, i, b);
    }
    forall b | b in g.l ensures !LabelBelow(m.OL, b, top) {
      SpareLeaves(m, o, rib, x, nv, ni, f, i, b);
    }
  }

  lemma {:induction false} SpareBlock(m: Mem, o: Version, rib: Routes, x: Path, nv: NodeMap, ni: Cells, f: nat, i: nat,
                                      b: nat)
    requires Replacing(m, o, rib, x, nv, ni) && f + i < ENTRIES && b in DeadEntries(o, nv, ni, f, i).n
    ensures !LabelBelow(m.ON, b, TopOf(f + i)) && (b in m.ON ==> m.ON[b] != Root(TopOf(f + i)))
  {
    var k := OfEntry(o, nv, ni, f, i, false, b);
    DeadTopLabels(m, o, rib, x, nv, ni, TopOf(k));
    TopsApart(k, f + i, m.ON[b].p);
  }

  lemma {:induction false} SpareLeaves(m: Mem, o: Version, rib: Routes, x: Path, nv: NodeMap, ni: Cells, f: nat, i: nat,
                                       b: nat)
    requires Replacing(m, o, rib, x, nv, ni) && f + i < ENTRIES && b in DeadEntries(o, nv, ni, f, i).l
    ensures !LabelBelow(m.OL, b, TopOf(f + i))
  {
    var k := OfEntry(o, nv, ni, f, i, true, b);
    DeadTopLabels(m, o, rib, x, nv, ni, TopOf(k));
    TopsApart(k, f + i, m.OL[b].p);
  }

  /** An entry that is the same as before leaves nothing behind. */
  lemma {:induction false} SameEntryNotDead(m: Mem, o: Version, rib: Routes, x: Path, nv: NodeMap, ni: Cells, top: Path,
                                            e: nat)
    requires Ready(m, o, rib, x, nv, ni) && Extends(top, x) && |top| == TOP && EntryOK(e, o, top)
        && NewEntry(e, rib, top, nv, ni)
    ensures AllDead(o, top, nv, ni) == Gone({}, {})
  {
    if e < LEAF {
      ReadyTop(m, o, rib, x, nv, ni, top, e, e);
      DeadRootIs(o, top, nv, ni);
      assert Open(DeadKey);
      SharedNotDead(m, o.rib, o.val, o.ix, TOP, rib, nv, ni, if |x| > TOP then |x| else TOP, top);
      assert AllDead(o, top, nv, ni).n == {} && AllDead(o, top, nv, ni).l == {};
    } else {
      assert Holds(m, o.rib, o.val, o.ix, TOP) by { assert Open(DeadKey); }
      NothingOld(m, o, top, nv, ni);
    }
  }

  /** The first i entries from f on have been cleaned. */
  ghost predicate CleanedTo(m': Mem, m: Mem, o: Version, nv: NodeMap, ni: Cells, f: nat, i: nat) {
    forall k: Key :: Open(k) && k.KeptKey? ==> f + i <= ENTRIES && m' == Freed(m, DeadEntries(o, nv, ni, f, i))
  }

  lemma {:induction false} NoneCleaned(m: Mem, o: Version, nv: NodeMap, ni: Cells, f: nat)
    requires f <= ENTRIES
    ensures CleanedTo(m, m, o, nv, ni, f, 0)
  {
    NothingFreed(m, []);
  }

  /** The n entries from f on are those below x. */
  ghost predicate RangeOf(x: Path, f: nat, n: nat) {
    forall k: Key :: Open(k) && k.FixedKey? ==> |x| <= TOP && f == FirstEntry(x) && n == Pow2(TOP - |x|)
  }

  lemma {:induction false} AllCleaned(m': Mem, m: Mem, o: Version, rib: Routes, x: Path, nv: NodeMap, ni: Cells, f: nat,
                                      n: nat)
    requires Replacing(m, o, rib, x, nv, ni) && RangeOf(x, f, n) && CleanedTo(m', m, o, nv, ni, f, n)
    ensures m' == Freed(m, AllDead(o, x, nv, ni))
  {
    assert Open(KeptKey) && Open(FixedKey);
    DeadBelow(m, o, rib, x, nv, ni);
  }

  /** The array altdir of the old version has been replaced by dir. */
  ghost predicate Replaced(dir: seq<nat>, altdir: seq<nat>, o: Version, rib: Routes, x: Path, nv: NodeMap, ni: Cells) {
    && |dir| == |altdir| == ENTRIES
    && forall k: Key :: Open(k) && k.ShapeKey? ==> EntriesNew(dir, rib, x, nv, ni) && DirOK(altdir, o)
  }

  lemma {:induction false} EntryAt(dir: seq<nat>, altdir: seq<nat>, o: Version, rib: Routes, x: Path, nv: NodeMap,
                                   ni: Cells, f: nat, n: nat, k: nat)
    requires Replaced(dir, altdir, o, rib, x, nv, ni) && RangeOf(x, f, n) && f <= k < f + n
    ensures k < ENTRIES && Extends(TopOf(k), x) && EntryOK(altdir[k], o, TopOf(k))
        && NewEntry(dir[k], rib, TopOf(k), nv, ni)
  {
    assert Open(ShapeKey) && Open(FixedKey);
    EntryRange(x, k);
  }

  method CleanEntry(pool: Pool, e: nat, e': nat, ghost x: Path, ghost f: nat, ghost i: nat, ghost m: Mem,
                    ghost o: Version, ghost rib: Routes,
                    ghost nv: NodeMap, ghost ni: Cells)
    requires f + i < ENTRIES && Ready(m, o, rib, x, nv, ni) && Extends(TopOf(f + i), x)
    requires EntryOK(e, o, TopOf(f + i)) && NewEntry(e', rib, TopOf(f + i), nv, ni)
    requires pool.Valid() && CleanedTo(pool.View(), m, o, nv, ni, f, i)
    modifies pool.Repr()
    ensures pool.Valid() && CleanedTo(pool.View(), m, o, nv, ni, f, i + 1)
  {
    assert Open(KeptKey);
    ghost var g := DeadEntries(o, nv, ni, f, i);
    DeadEntriesStep(o, nv, ni, f, i);
    DeadEntriesSpare(m, o, rib, x, nv, ni, f, i);
    if e' != e {
      CleanTop(pool, e, e', m, o, rib, x, nv, ni, TopOf(f + i), g);
    } else {
      SameEntryNotDead(m, o, rib, x, nv, ni, TopOf(f + i), e);
      FreedMore(m, g, g, 0);
    }
  }

  /** One turn of the loop. */
  method CleanNext(pool: Pool, dir: seq<nat>, altdir: seq<nat>, idx: nat, ghost n: nat, i: nat, ghost x: Path,
                   ghost m: Mem, ghost o: Version, ghost rib: Routes, ghost nv: NodeMap, ghost ni: Cells)
    requires pool.Valid() && Ready(m, o, rib, x, nv, ni) && CleanedTo(pool.View(), m, o, nv, ni, idx, i) && i < n
    requires Replaced(dir, altdir, o, rib, x, nv, ni) && RangeOf(x, idx, n)
    modifies pool.Repr()
    ensures pool.Valid() && CleanedTo(pool.View(), m, o, nv, ni, idx, i + 1)
  {
    EntryAt(dir, altdir, o, rib, x, nv, ni, idx, n, idx + i);
    CleanEntry(pool, altdir[idx + i], dir[idx + i], x, idx, i, m, o, rib, nv, ni);
  }

  /** Clean the n entries from idx on that have been replaced; dir is the new array, altdir the old one. */
  method CleanEntries(pool: Pool, dir: seq<nat>, altdir: seq<nat>, idx: nat, n: nat, ghost x: Path, ghost m: Mem,
                      ghost o: Version, ghost rib: Routes,
                      ghost nv: NodeMap, ghost ni: Cells)
    requires pool.Valid() && Ready(m, o, rib, x, nv, ni) && pool.View() == m
    requires Replaced(dir, altdir, o, rib, x, nv, ni) && RangeOf(x, idx, n) && idx + n <= ENTRIES
    modifies pool.Repr()
    ensures pool.Valid() && pool.View() == Freed(m, AllDead(o, x, nv, ni))
  {
    NoneCleaned(m, o, nv, ni, idx);
    for i := 0 to n
      invariant pool.Valid() && CleanedTo(pool.View(), m, o, nv, ni, idx, i)
    {
      CleanNext(pool, dir, altdir, idx, n, i, x, m, o, rib, nv, ni);
    }
    AllCleaned(pool.View(), m, o, rib, x, nv, ni, idx, n);
  }
}
