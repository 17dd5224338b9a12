/** How much memory is enough: an update of a poptrie with few routes for its size is never refused. */
module Capacity {
  import opened Bits
  import opened Tiling
  import opened Forwarding
  import opened Nodes
  import opened Folding
  import opened Memory
  import opened Compile
  import opened Radix
  import opened Inodes
  import opened Versions
  import opened Succession
  import opened Lagging
  import opened Pools
  import opened Requests

  // ---------- counting ----------

  lemma {:induction false} SizeOfAll<T>(s: seq<T>)
    ensures |set x | x in s| <= |s|
  {
    if s == [] {
      assert (set x | x in s) == {};
    } else {
      var t := s[..|s| - 1];
      SizeOfAll(t);
      assert (set x | x in s) == (set x | x in t) + {s[|s| - 1]};
    }
  }

  /** What is used for different things in t is not more than t. */
  lemma {:induction false} AtMost<A, B>(s: set<A>, t: set<B>, f: map<A, B>)
    requires forall a :: a in s ==> a in f && f[a] in t
    requires forall a, b :: a in s && b in s && f[a] == f[b] ==> a == b
    ensures |s| <= |t|
  {
    if a :| a in s {
      AtMost(s - {a}, t - {f[a]}, f);
    }
  }

  /** One of the first n numbers is missing. */
  lemma {:induction false} Missing(s: set<nat>, n: nat) returns (i: nat)
    requires |s| < n
    ensures i < n && i !in s
  {
    if n - 1 in s {
      i := Missing(s - {n - 1}, n - 1);
    } else {
      i := n - 1;
    }
  }

  // ---------- room ----------

  /** A block of at most 64 cells meets at most two of the ranges of 64 cells. */
  lemma {:induction false} Met(a: Ranges) returns (s: set<nat>)
    ensures |s| <= 2 * |a|
    ensures forall x :: x in a ==> x / 64 in s && x / 64 + 1 in s
    decreases |a|
  {
    if x :| x in a {
      var t := Met(a - {x});
      s := t + {x / 64, x / 64 + 1};
      assert |a - {x}| == |a| - 1;
    } else {
      s := {};
    }
  }

  lemma {:induction false} Doubled(i: nat, k: nat)
    requires Aligned(i, k)
    ensures Aligned(2 * i, k + 1)
  {
    assert 2 * i / 2 == i;
  }

  lemma {:induction false} Aligned64(i: nat)
    ensures Aligned(64 * i, 6)
  {
    Doubled(i, 0);
    Doubled(2 * i, 1);
    Doubled(4 * i, 2);
    Doubled(8 * i, 3);
    Doubled(16 * i, 4);
    Doubled(32 * i, 5);
  }

  lemma {:induction false} Pow2Down(n: nat)
    requires n >= 6
    ensures Pow2(n) == 64 * Pow2(n - 6)
  {
    assert Pow2(n) == 2 * Pow2(n - 1) == 4 * Pow2(n - 2) == 8 * Pow2(n - 3);
    assert Pow2(n - 3) == 2 * Pow2(n - 4) == 4 * Pow2(n - 5) == 8 * Pow2(n - 6);
  }

  lemma {:induction false} BlockBeside(x: nat, size: nat, i: nat)
    requires size <= 64 && i != x / 64 && i != x / 64 + 1
    ensures x + size <= 64 * i || 64 * i + 64 <= x
  {
  }

  /** Few small blocks leave room for one more. */
  lemma {:induction false} SomeRoom(a: Ranges, sz: nat, k: nat) returns (x: nat)
    requires k <= 6 <= sz && 2 * |a| < Pow2(sz - 6) && forall b :: b in a ==> a[b] <= 6
    ensures Available(a, sz, x, k)
  {
    var met := Met(a);
    var i := Missing(met, Pow2(sz - 6));
    x := 64 * i;
    Aligned64(i);
    AlignedDown(x, k, 6);
    Pow2Down(sz);
    assert Pow2(6) == 64;
    Pow2Monotone(k, 6);
    forall b | b in a ensures b + Pow2(a[b]) <= x || x + Pow2(k) <= b {
      Pow2Monotone(a[b], 6);
      BlockBeside(b, Pow2(a[b]), i);
    }
  }

  // ---------- the nodes of a trie ----------

  /** The first d bits of a route, if it has as many. */
  function Cut(w: Path, d: nat): Path {
    if d <= |w| then w[..d] else w
  }

  const TOPS: seq<Path> := [[false, false], [false, true], [true, false], [true, true]]

  /** The paths at which a trie for these routes can have a node. */
  ghost function Paths(rib: Routes): (ps: seq<Path>)
    ensures |ps| == 4 + 4 * |rib|
    decreases |rib|
  {
    if rib == map[] then TOPS
    else
      var w :| w in rib;
      Paths(rib - {w}) + [Cut(w, 8), Cut(w, 14), Cut(w, 20), Cut(w, 26)]
  }

  lemma {:induction false} TopInPaths(rib: Routes, p: Path)
    requires |p| == TOP
    ensures p in TOPS && p in Paths(rib)
    decreases |rib|
  {
    assert p == if p[0] then if p[1] then TOPS[3] else TOPS[2] else if p[1] then TOPS[1] else TOPS[0];
    if rib != map[] {
      var w :| w in rib && Paths(rib) == Paths(rib - {w}) + [Cut(w, 8), Cut(w, 14), Cut(w, 20), Cut(w, 26)];
      TopInPaths(rib - {w}, p);
    }
  }

  lemma {:induction false} AboveInPaths(rib: Routes, p: Path, v: Path)
    requires AtNode(p) && |p| > TOP && v in rib && Extends(v, p)
    ensures p in Paths(rib)
    decreases |rib|
  {
    assert |p| == 8 || |p| == 14 || |p| == 20 || |p| == 26;
    var w :| w in rib && Paths(rib) == Paths(rib - {w}) + [Cut(w, 8), Cut(w, 14), Cut(w, 20), Cut(w, 26)];
    if v != w {
      AboveInPaths(rib - {w}, p, v);
    } else {
      assert Cut(v, |p|) == p;
      var l := [Cut(w, 8), Cut(w, 14), Cut(w, 20), Cut(w, 26)];
      assert l[0] == Cut(w, 8) && l[1] == Cut(w, 14) && l[2] == Cut(w, 20) && l[3] == Cut(w, 26);
    }
  }

  lemma {:induction false} NodeInPaths(rib: Routes, p: Path)
    requires IsNode(rib, p)
    ensures p in Paths(rib)
  {
    if |p| == TOP {
      TopInPaths(rib, p);
    } else if v :| v in rib && Extends(v, p) && v != p {
      AboveInPaths(rib, p, v);
    } else {
      NothingBelow(rib, p);
    }
  }

  // ---------- the blocks of a trie ----------

  ghost predicate Within(rib: Routes, ps: seq<Path>) {
    forall p :: IsNode(rib, p) ==> p in ps
  }

  ghost predicate Small(a: Ranges) {
    forall b :: b in a ==> a[b] <= 6
  }

  lemma {:induction false} SmallNew(m0: Mem, m: Mem, rib: Routes, q: Path)
    requires Charged(m0, m, rib, q) && Small(m0.AN) && Small(m0.AL)
    ensures Small(m.AN) && Small(m.AL)
  {
    ChargedIs(m0, m, rib, q);
    forall b | b in m.AN ensures m.AN[b] <= 6 {
      if b !in m0.AN {
        assert NodesFor(m, rib, q, b);
        if m.ON[b].Kids? { OrderAtMost(Count(VecOf(rib, m.ON[b].p)), m.AN[b]); }
      }
    }
    forall b | b in m.AL ensures m.AL[b] <= 6 {
      if b !in m0.AL {
        assert LeavesFor(m, rib, q, b);
        var vec, vals := VecOf(rib, m.OL[b].p), ValsOf(rib, m.OL[b].p);
        RunCount(vec, vals);
        OrderAtMost(|RunLeaves(vec, vals)|, m.AL[b]);
      }
    }
  }

  /** What the nodes at the paths ps use blocks for. */
  function Uses(ps: seq<Path>): (os: seq<Owner>)
    ensures |os| == |ps| + 4
    ensures forall p :: p in ps ==> Kids(p) in os
    ensures forall p :: p in TOPS ==> Root(p) in os
  {
    var ks, rs := seq(|ps|, i requires 0 <= i < |ps| => Kids(ps[i])), seq(4, i requires 0 <= i < 4 => Root(TOPS[i]));
    assert forall p :: p in ps ==> Kids(p) in ks by {
      forall p | p in ps ensures Kids(p) in ks {
        var i :| 0 <= i < |ps| && ps[i] == p;
        assert ks[i] == Kids(p);
      }
    }
    assert forall p :: p in TOPS ==> Root(p) in rs by {
      forall p | p in TOPS ensures Root(p) in rs {
        var i :| 0 <= i < 4 && TOPS[i] == p;
        assert rs[i] == Root(p);
      }
    }
    ks + rs
  }

  lemma {:induction false} CountUsers(a0: Ranges, a: Ranges, o: Owners, os: seq<Owner>)
    requires OneEach(a0, a, o) && forall b :: b in a && b !in a0 ==> b in o && o[b] in os
    ensures |a| <= |a0| + |os|
  {
    var new', all := a.Keys - a0.Keys, set x | x in os;
    AtMost(new', all, o);
    SizeOfAll(os);
    assert a.Keys <= a0.Keys + new';
    SizeOfPart(a.Keys, a0.Keys + new');
    assert |a0.Keys + new'| <= |a0.Keys| + |new'|;
  }

  lemma {:induction false} SizeOfPart<T>(s: set<T>, t: set<T>)
    requires s <= t
    ensures |s| <= |t|
  {
    assert t == s + (t - s);
  }

  /** New blocks are not more than there are uses. */
  lemma {:induction false} CountCharged(m0: Mem, m: Mem, rib: Routes, q: Path, ps: seq<Path>)
    requires Charged(m0, m, rib, q) && Within(rib, ps)
    ensures |m.AN| <= |m0.AN| + |ps| + 4 && |m.AL| <= |m0.AL| + |ps| + 4
  {
    ChargedIs(m0, m, rib, q);
    forall b | b in m.AN && b !in m0.AN ensures b in m.ON && m.ON[b] in Uses(ps) {
      assert NodesFor(m, rib, q, b);
      if m.ON[b].Root? { TopInPaths(rib, m.ON[b].p); }
    }
    forall b | b in m.AL && b !in m0.AL ensures b in m.OL && m.OL[b] in Uses(ps) {
      assert LeavesFor(m, rib, q, b);
    }
    CountUsers(m0.AN, m.AN, m.ON, Uses(ps));
    CountUsers(m0.AL, m.AL, m.OL, Uses(ps));
  }

  // ---------- the memory of a trie ----------

  /** The same memory with nothing taken. */
  ghost function Bare(m: Mem): Mem {
    m.(AN := map[], AL := map[], ON := map[], OL := map[])
  }

  /** A trie takes the blocks of its own nodes. */
  lemma {:induction false} TrieCharged(m: Mem, o: Version)
    requires Trie(m, o)
    ensures Charged(Bare(m), m, o.rib, [])
  {
    TrieParts(m, o);
    forall b | b in m.AN ensures NodesFor(m, o.rib, [], b) {
      assert UsedN(m, o.val, o.ix, b);
      if m.ON[b].Root? {
        assert Open(MemOKKey);
      } else {
        NodeNeeds(m, o.rib, o.val, o.ix, m.ON[b].p);
      }
    }
    forall b | b in m.AL ensures LeavesFor(m, o.rib, [], b) {
      assert UsedL(m, o.val, b);
      NodeNeeds(m, o.rib, o.val, o.ix, m.OL[b].p);
    }
    assert OneEach(map[], m.AN, m.ON) && OneEach(map[], m.AL, m.OL);
    ChargedOf(Bare(m), m, o.rib, []);
  }

  lemma {:induction false} TrieSize(m: Mem, o: Version)
    requires Trie(m, o)
    ensures |m.AN| <= 8 + 4 * |o.rib| && |m.AL| <= 8 + 4 * |o.rib| && Small(m.AN) && Small(m.AL)
  {
    TrieCharged(m, o);
    forall p | IsNode(o.rib, p) ensures p in Paths(o.rib) { NodeInPaths(o.rib, p); }
    CountCharged(Bare(m), m, o.rib, [], Paths(o.rib));
    SmallNew(Bare(m), m, o.rib, []);
  }

  // ---------- enough memory ----------

  /** However n blocks lie in the arrays, there is room for one more. */
  ghost predicate Roomy(pool: Pool, n: nat) {
    && 6 < pool.cnodes.level <= pool.cnodes.sz && 2 * n < Pow2(pool.cnodes.sz - 6)
    && 6 < pool.cleaves.level <= pool.cleaves.sz && 2 * n < Pow2(pool.cleaves.sz - 6)
  }

  /** Nothing is refused on the way from a trie to one whose nodes are at the paths ps. */
  lemma {:induction false} NeverRefused(ns0: seq<Note>, ns: seq<Note>, ok: bool, pool: Pool, m: Mem, o: Version,
                                        rib: Routes, ps: seq<Path>)
    requires Trie(m, o) && Told(ns0, ns, ok, pool, m, rib, []) && Within(rib, ps)
    requires Roomy(pool, 12 + 4 * |o.rib| + |ps|)
    ensures ok && ns == ns0
  {
    ToldIs(ns0, ns, ok, pool, m, rib, []);
    if !ok {
      var x := ns[|ns0|];
      TrieSize(m, o);
      CountCharged(m, x.mem, rib, [], ps);
      SmallNew(m, x.mem, rib, []);
      if x.nodes {
        var a := SomeRoom(x.mem.AN, pool.cnodes.sz, x.order);
      } else {
        var a := SomeRoom(x.mem.AL, pool.cleaves.sz, x.order);
      }
    }
  }

  /** The same as Told, for the trie that changing or deleting the route v leads to: it forwards like the routes src,
      but for the addresses that are late, which are forwarded as in the version o. */
  ghost predicate ToldMoved(ns0: seq<Note>, ns: seq<Note>, ok: bool, pool: Pool, m0: Mem, o: Version, s: Snap, t: Tree,
                            v: Path, src: Routes) {
    v in t && forall k: Key :: Open(k) && k.ToldKey? ==>
      Told(ns0, ns, ok, pool, m0, Mixed(o.rib, src, iset a: Path | LateFor(o, s, t[v], v, a), []), [])
  }

  /** Nodes of the trie that such an update leads to are nodes for the old or for the new routes. */
  lemma {:induction false} MixedNode(m: Mem, o: Version, s: Snap, e: RadixNode, v: Path, src: Routes, p: Path)
    requires Trie(m, o) && IsNode(Mixed(o.rib, src, iset a: Path | LateFor(o, s, e, v, a), []), p)
    ensures IsNode(o.rib, p) || IsNode(src, p)
  {
    var late := iset a: Path | LateFor(o, s, e, v, a);
    var rib := Mixed(o.rib, src, late, []);
    MixedForwards(o.rib, src, late);
    if |p| > TOP && Constant(o.rib, p) && Constant(src, p) {
      if x :| GapAt(o.rib, s, o, e, v, x) && Extends(p, x) {
        forall a | Under(a, p) ensures Fwd(rib, a) == Fwd(o.rib, a) {
          ExtendsTrans(a, p, x);
          assert LateFor(o, s, e, v, a);
        }
        SameConstant(rib, o.rib, p);
      } else {
        forall a | Under(a, p) ensures Fwd(rib, a) == Fwd(src, a) {
          NotLate(m, o, s, e, v, p, a);
        }
        SameConstant(rib, src, p);
      }
    }
  }

  lemma {:induction false} NotLate(m: Mem, o: Version, s: Snap, e: RadixNode, v: Path, p: Path, a: Path)
    requires Trie(m, o) && AtNode(p) && |p| > TOP && Constant(o.rib, p) && Under(a, p)
    requires forall x :: GapAt(o.rib, s, o, e, v, x) ==> !Extends(p, x)
    ensures !LateFor(o, s, e, v, a)
  {
    forall x | GapAt(o.rib, s, o, e, v, x) ensures !Extends(a, x) {
      if Extends(a, x) {
        PrefixesNested(a, p, x);
        if |p| < |x| {
          NodeAbove(m, o, x, p, a);
          TrieParts(m, o);
          NotConstant(m, o.rib, o.val, o.ix, p);
        }
      }
    }
  }

  /** There is a node above every slot of a node. */
  lemma {:induction false} NodeAbove(m: Mem, o: Version, x: Path, p: Path, a: Path)
    requires Trie(m, o) && OldSlot(o, x) && AtNode(p) && Under(a, p) && Extends(a, x) && |p| < |x|
    ensures p in o.val
  {
    var y := x[..|x| - STRIDE];
    TrieParts(m, o);
    NotConstant(m, o.rib, o.val, o.ix, y);
    PrefixesNested(a, x, p);
    NodeDepths(|p|, |y|);
    assert x[..|p|] == p && y[..|p|] == x[..|p|];
    AncestorIn(o.val, y, p, m, o.rib, o.ix);
  }

  lemma {:induction false} NodeDepths(d: nat, e: nat)
    requires TOP <= d < e + STRIDE && TOP <= e && (d - TOP) % STRIDE == 0 && (e - TOP) % STRIDE == 0
    ensures d <= e
  {
  }

  /** 2^12 cells are enough for a first route. */
  lemma {:induction false} RoomAtFirst(pool: Pool, sz1: nat, sz0: nat)
    requires pool.Sized(sz1, sz0) && 12 <= sz1 && 12 <= sz0
    ensures Roomy(pool, 20)
  {
    assert Pow2(6) == 64;
    Pow2Monotone(6, sz1 - 6);
    Pow2Monotone(6, sz0 - 6);
  }

  // ---------- updates that are never refused ----------

  lemma {:induction false} RoomToAdd(ns0: seq<Note>, ns: seq<Note>, ok: bool, pool: Pool, m: Mem, o: Version, v: Path,
                                     n: nat)
    requires Trie(m, o) && v !in o.rib && Told(ns0, ns, ok, pool, m, o.rib[v := n], [])
    ensures Roomy(pool, 20 + 12 * |o.rib|) ==> ok
  {
    if Roomy(pool, 20 + 12 * |o.rib|) {
      var rib := o.rib[v := n];
      forall p | IsNode(rib, p) ensures p in Paths(rib) { NodeInPaths(rib, p); }
      NeverRefused(ns0, ns, ok, pool, m, o, rib, Paths(rib));
    }
  }

  lemma {:induction false} RoomToMove(ns0: seq<Note>, ns: seq<Note>, ok: bool, pool: Pool, m: Mem, o: Version, s: Snap,
                                      t: Tree, v: Path, src: Routes)
    requires Trie(m, o) && ToldMoved(ns0, ns, ok, pool, m, o, s, t, v, src) && |src| <= |o.rib|
    ensures Roomy(pool, 20 + 12 * |o.rib|) ==> ok
  {
    if Roomy(pool, 20 + 12 * |o.rib|) {
      var rib, ps := Mixed(o.rib, src, iset a: Path | LateFor(o, s, t[v], v, a), []), Paths(o.rib) + Paths(src);
      forall p | IsNode(rib, p) ensures p in ps {
        MixedNode(m, o, s, t[v], v, src, p);
        if IsNode(o.rib, p) { NodeInPaths(o.rib, p); } else { NodeInPaths(src, p); }
      }
      assert Open(ToldKey);
      NeverRefused(ns0, ns, ok, pool, m, o, rib, ps);
    }
  }
}
