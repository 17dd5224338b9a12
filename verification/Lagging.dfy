/** Where an update leaves the compiled trie behind the RIB. */
module Lagging {
  // These are slots that the marks allow to be copied although they are forwarded differently now.

  import opened Bits
  import opened Forwarding
  import opened Folding
  import opened Memory
  import opened Radix
  import opened RibGrow
  import opened RibOps
  import opened Marking
  import opened Inodes
  import opened Versions
  import opened Roots
  import opened TopEntries
  import opened Succession
  import opened Updates

  // ---------- what the marks lead to ----------

  /** rib forwards like the version o below the slots that are copied, and like src elsewhere. */
  ghost predicate Follows(s: Snap, o: Version, src: Routes, d: nat, rib: Routes) {
    forall k: Key :: Open(k) && k.KeptKey? ==>
      forall a :: |a| == KEYLENGTH ==> Fwd(rib, a) == if Copied(s, o, d, a) then Fwd(o.rib, a) else Fwd(src, a)
  }

  /** The next hops of all addresses under p, as host routes: those of rib for the late ones, else those of rib'. */
  ghost function Mixed(rib: Routes, rib': Routes, late: iset<Path>, p: Path): Routes
    requires |p| <= KEYLENGTH
    decreases KEYLENGTH - |p|
  {
    if |p| == KEYLENGTH then map[p := Fwd(if p in late then rib else rib', p)]
    else Mixed(rib, rib', late, p + [false]) + Mixed(rib, rib', late, p + [true])
  }

  lemma {:induction false} MixedAt(rib: Routes, rib': Routes, late: iset<Path>, p: Path, a: Path)
    requires |p| <= KEYLENGTH
    ensures a in Mixed(rib, rib', late, p) <==> Under(a, p)
    ensures a in Mixed(rib, rib', late, p) ==>
        Mixed(rib, rib', late, p)[a] == Fwd(if a in late then rib else rib', a)
    decreases KEYLENGTH - |p|
  {
    if |p| < KEYLENGTH {
      MixedAt(rib, rib', late, p + [false], a);
      MixedAt(rib, rib', late, p + [true], a);
      if |a| == KEYLENGTH { HalfOf(a, p); }
    } else if |a| == KEYLENGTH {
      assert a[..|p|] == a;
    }
  }

  lemma {:induction false} MixedForwards(rib: Routes, rib': Routes, late: iset<Path>)
    ensures forall a :: |a| == KEYLENGTH ==>
        Fwd(Mixed(rib, rib', late, []), a) == Fwd(if a in late then rib else rib', a)
  {
    forall a | |a| == KEYLENGTH ensures Fwd(Mixed(rib, rib', late, []), a) == Fwd(if a in late then rib else rib', a) {
      MixedAt(rib, rib', late, [], a);
    }
  }

  /** The routes that the marks lead to. */
  ghost function Blend(s: Snap, o: Version, src: Routes, d: nat): Routes {
    Mixed(o.rib, src, iset a: Path | Copied(s, o, d, a), [])
  }

  lemma {:induction false} BlendFollows(s: Snap, o: Version, src: Routes, d: nat)
    ensures Follows(s, o, src, d, Blend(s, o, src, d))
  {
    MixedForwards(o.rib, src, iset a: Path | Copied(s, o, d, a));
  }

  /** So whatever the marks, they tell how to get to some routes. */
  lemma {:induction false} FollowsTells(t: Tree, s: Snap, o: Version, src: Routes, rib: Routes, d: nat)
    requires Shape(t, src) && s.Keys == t.Keys && Follows(s, o, src, d, rib)
    ensures Tells(s, src, rib, o, d)
  {
    forall x | Kept(s, o, d, x) ensures Same(o.rib, rib, x) {
      forall a | Under(a, x) ensures Fwd(o.rib, a) == Fwd(rib, a) {
        assert Copied(s, o, d, a);
        assert Open(KeptKey);
      }
    }
    forall p | p + [false] !in s && p + [true] !in s && !Copied(s, o, d, p) ensures Same(src, rib, p) {
      forall a | Under(a, p) ensures Fwd(src, a) == Fwd(rib, a) {
        LeafNotCopied(t, s, o, src, d, p, a);
        assert Open(KeptKey);
      }
    }
  }

  /** Below a path without children nothing is copied. */
  lemma {:induction false} LeafNotCopied(t: Tree, s: Snap, o: Version, src: Routes, d: nat, p: Path, a: Path)
    requires Shape(t, src) && s.Keys == t.Keys && p + [false] !in s && p + [true] !in s && !Copied(s, o, d, p)
        && Under(a, p)
    ensures !Copied(s, o, d, a)
  {
    forall x | Kept(s, o, d, x) ensures !Extends(a, x) {
      if Extends(a, x) {
        PrefixesNested(a, x, p);
        PrefixesNested(a, p, x);
        var c := if x + [false] in s then x + [false] else x + [true];
        assert c[..|p| + 1] == p + [c[|p|]];
        assert p + [c[|p|]] == if c[|p|] then p + [true] else p + [false];
        PrefixIn(t, src, c, |p| + 1);
      }
    }
  }

  lemma {:induction false} FollowsUnder(s: Snap, o: Version, src: Routes, d: nat, rib: Routes, v: Path)
    requires Follows(s, o, src, d, rib) && OnlyUnder(o.rib, src, v)
    ensures OnlyUnder(o.rib, rib, v)
  {
    assert Open(KeptKey);
  }

  // ---------- when it is up to date ----------

  /** Both route sets forward alike. */
  ghost predicate Alike(rib: Routes, rib': Routes) {
    forall a :: |a| == KEYLENGTH ==> Fwd(rib, a) == Fwd(rib', a)
  }

  /** The trie is that of the routes src exactly when the slots that are copied are forwarded as before. */
  lemma {:induction false} AlikeIff(s: Snap, o: Version, src: Routes, d: nat, rib: Routes)
    requires Follows(s, o, src, d, rib)
    ensures Alike(rib, src) <==> forall x :: Kept(s, o, d, x) ==> Same(o.rib, src, x)
  {
    assert Open(KeptKey);
    if Alike(rib, src) {
      forall x | Kept(s, o, d, x) ensures Same(o.rib, src, x) {
        forall a | Under(a, x) ensures Fwd(o.rib, a) == Fwd(src, a) {
          assert Copied(s, o, d, a);
        }
      }
    }
    if forall x :: Kept(s, o, d, x) ==> Same(o.rib, src, x) {
      forall a | |a| == KEYLENGTH ensures Fwd(rib, a) == Fwd(src, a) {
        if Copied(s, o, d, a) {
          var x :| Kept(s, o, d, x) && Extends(a, x);
          assert Under(a, x);
        }
      }
    }
  }

  /** A trie for routes that forward alike. */
  lemma {:induction false} TrieAlike(m: Mem, dir: seq<nat>, o: Version, rib: Routes)
    requires Trie(m, o) && DirOK(dir, o) && Alike(o.rib, rib)
    ensures Trie(m, Version(rib, o.val, o.ix)) && DirOK(dir, Version(rib, o.val, o.ix))
  {
    TrieParts(m, o);
    SameTrees(m, o, rib);
    assert Old(m, Version(rib, o.val, o.ix)) by { assert Open(VersionKey); }
    assert Open(TrieKey);
    forall i | 0 <= i < ENTRIES ensures EntryOK(dir[i], Version(rib, o.val, o.ix), TopOf(i)) {
      assert Same(o.rib, rib, TopOf(i));
      SameConstant(o.rib, rib, TopOf(i));
    }
  }

  // ---------- adding, changing and deleting ----------

  /** After adding a route nothing lags behind. */
  lemma {:induction false} AddAlike(t: Tree, s: Snap, o: Version, v: Path, n: nat, rib: Routes)
    requires Added(t, s, o.rib, v, n) && v !in o.rib && Follows(s, o, o.rib[v := n], |v|, rib)
    ensures Alike(rib, o.rib[v := n])
  {
    forall x | Kept(s, o, |v|, x) ensures Same(o.rib, o.rib[v := n], x) {
      AddMarkingComplete(s, o.rib, v, n, x);
    }
    AlikeIff(s, o, o.rib[v := n], |v|, rib);
  }

  /** A slot of the compiled trie that lags behind when the route v, whose object is e, is changed or deleted: v owns
      it and caches in it, it has one child in the radix tree, and below that child v is cached nowhere. */
  ghost predicate GapAt(rib: Routes, s: Snap, o: Version, e: RadixNode, v: Path, x: Path) {
    OldSlot(o, x) && Exposed(rib, s, v, x) && Unnoticed(s, e, x)
  }

  ghost predicate Gap(rib: Routes, s: Snap, o: Version, e: RadixNode, v: Path) {
    exists x :: GapAt(rib, s, o, e, v, x)
  }

  /** Address a is late when the route v is changed or deleted. */
  ghost predicate LateFor(o: Version, s: Snap, e: RadixNode, v: Path, a: Path) {
    exists x :: GapAt(o.rib, s, o, e, v, x) && Extends(a, x)
  }

  lemma {:induction false} KeptAt(t: Tree, s: Snap, s': Snap, o: Version, v: Path, n: nat, rib': Routes, x: Path)
    requires Clean(t, s, o.rib) && v in o.rib && v in t && Moved(o.rib, rib', v, n) && n != o.rib[v]
        && PassMarks(s, s', t[v], v)
    ensures Kept(s', o, |v|, x) && !Same(o.rib, rib', x) <==> GapAt(o.rib, s, o, t[v], v, x)
  {
    forall b: bool, y | y in s && Extends(y, x + [b]) ensures x + [b] in s { PrefixIn(t, o.rib, y, |x| + 1); }
    assert Shape(t, o.rib);
    assert ExtsBelow(t, s, o.rib, v) by { assert Open(ExtsKey); assert forall y: Path :: Extends(y, []); }
    if Extends(x, v) {
      ReusedIff(s, s', t[v], v, x);
    }
    if OldSlot(o, x) && |v| <= |x| && Reused(s', x) {
      assert |x| < KEYLENGTH by { HasRoomBelow(t, s, o.rib, x); }
      MarkingGap(t, s, s', o.rib, rib', v, n, x);
    }
  }

  lemma {:induction false} HasRoomBelow(t: Tree, s: Snap, rib: Routes, x: Path)
    requires Shape(t, rib) && s.Keys == t.Keys && (x + [false] in s || x + [true] in s)
    ensures |x| < KEYLENGTH
  {
    assert Open(ShapeKey);
    assert |x + [false]| == |x + [true]| == |x| + 1;
  }

  /** After changing or deleting the route v,
      the compiled trie is that of the RIB exactly when there is no such slot. */
  lemma {:induction false} MovedAlike(t: Tree, s: Snap, s': Snap, o: Version, v: Path, n: nat, src: Routes, rib: Routes)
    requires Clean(t, s, o.rib) && v in o.rib && v in t && Moved(o.rib, src, v, n) && n != o.rib[v]
        && PassMarks(s, s', t[v], v)
    requires Follows(s', o, src, |v|, rib)
    ensures Alike(rib, src) <==> !Gap(o.rib, s, o, t[v], v)
  {
    AlikeIff(s', o, src, |v|, rib);
    forall x ensures Kept(s', o, |v|, x) && !Same(o.rib, src, x) <==> GapAt(o.rib, s, o, t[v], v, x) {
      KeptAt(t, s, s', o, v, n, src, x);
    }
  }

  /** In the slots that lag behind, what the route owned is forwarded as before; everything else is up to date. */
  lemma {:induction false} MovedFollows(t: Tree, s: Snap, s': Snap, o: Version, v: Path, n: nat, src: Routes,
                                        rib: Routes, a: Path)
    requires Clean(t, s, o.rib) && v in o.rib && v in t && Moved(o.rib, src, v, n) && n != o.rib[v]
        && PassMarks(s, s', t[v], v)
    requires Follows(s', o, src, |v|, rib) && |a| == KEYLENGTH
    ensures Fwd(rib, a) == Fwd(if LateFor(o, s, t[v], v, a) then o.rib else src, a)
  {
    assert Open(KeptKey);
    if x :| GapAt(o.rib, s, o, t[v], v, x) && Extends(a, x) {
      KeptAt(t, s, s', o, v, n, src, x);
      assert Copied(s', o, |v|, a);
    } else if Copied(s', o, |v|, a) {
      var x :| Kept(s', o, |v|, x) && Extends(a, x);
      KeptAt(t, s, s', o, v, n, src, x);
      assert Under(a, x);
    }
  }

  /** A deleted route whose next hop was that of the next shorter one makes no difference. */
  lemma {:induction false} MovedNowhere(s: Snap, o: Version, v: Path, src: Routes, rib: Routes)
    requires v in o.rib && Moved(o.rib, src, v, o.rib[v]) && Follows(s, o, src, |v|, rib)
    ensures Alike(rib, src)
  {
    forall a | |a| == KEYLENGTH ensures Fwd(src, a) == Fwd(o.rib, a) {
      if Owns(o.rib, v, a) { FwdSkip(o.rib, v, a); }
    }
    assert Open(KeptKey);
  }

  /** Moving what v owned changes nothing beside v. */
  lemma {:induction false} MovedUnder(rib: Routes, rib': Routes, v: Path, n: nat)
    requires Moved(rib, rib', v, n)
    ensures OnlyUnder(rib, rib', v)
  {
  }

  /** Address a is still forwarded as before. */
  ghost predicate Late(o: Version, s: Snap, e: RadixNode, v: Path, n: nat, a: Path)
    requires v in o.rib
  {
    n != o.rib[v] && LateFor(o, s, e, v, a)
  }

  /** rib forwards like src but for the addresses that are late. */
  ghost predicate Mended(o: Version, s: Snap, e: RadixNode, v: Path, n: nat, src: Routes, rib: Routes) {
    v in o.rib && forall k: Key :: Open(k) && k.KeptKey? ==>
        forall a :: |a| == KEYLENGTH ==> Fwd(rib, a) == Fwd(if Late(o, s, e, v, n, a) then o.rib else src, a)
  }

  lemma {:induction false} MendedAlike(o: Version, s: Snap, e: RadixNode, v: Path, n: nat, src: Routes, rib: Routes,
                                       rib': Routes)
    requires Mended(o, s, e, v, n, src, rib) && Alike(rib, rib')
    ensures Mended(o, s, e, v, n, src, rib')
  {
    assert Open(KeptKey);
  }

  /** Even when the next hop has not changed, an address may be said to be forwarded as before. */
  lemma {:induction false} LateIsLagging(o: Version, s: Snap, e: RadixNode, v: Path, n: nat, src: Routes, rib: Routes)
    requires Mended(o, s, e, v, n, src, rib) && Moved(o.rib, src, v, n)
    ensures forall a :: |a| == KEYLENGTH ==>
              Fwd(rib, a) == Fwd(if LateFor(o, s, e, v, a) then o.rib else src, a)
  {
    assert Open(KeptKey);
    if n == o.rib[v] {
      forall a | |a| == KEYLENGTH ensures Fwd(src, a) == Fwd(o.rib, a) {
        if Owns(o.rib, v, a) { FwdSkip(o.rib, v, a); }
      }
    }
  }

  /** The compiled trie after changing or deleting the route v. */
  lemma {:induction false} MovedResult(t: Tree, s: Snap, s': Snap, o: Version, v: Path, n: nat, src: Routes,
                                       rib: Routes)
    requires Clean(t, s, o.rib) && v in o.rib && v in t && Moved(o.rib, src, v, n) && PassMarks(s, s', t[v], v)
    requires Follows(s', o, src, |v|, rib)
    ensures Alike(rib, src) <==> n == o.rib[v] || !Gap(o.rib, s, o, t[v], v)
    ensures Mended(o, s, t[v], v, n, src, rib)
  {
    if n == o.rib[v] {
      MovedNowhere(s', o, v, src, rib);
    } else {
      MovedAlike(t, s, s', o, v, n, src, rib);
      forall a | |a| == KEYLENGTH ensures Fwd(rib, a) == Fwd(if Late(o, s, t[v], v, n, a) then o.rib else src, a) {
        MovedFollows(t, s, s', o, v, n, src, rib, a);
      }
    }
  }

  /** What the marks lead to after changing or deleting the route v. */
  lemma {:induction false} MovedMixed(t: Tree, s: Snap, s': Snap, o: Version, v: Path, n: nat, src: Routes)
    requires Clean(t, s, o.rib) && v in o.rib && v in t && Moved(o.rib, src, v, n) && PassMarks(s, s', t[v], v)
    ensures Alike(Blend(s', o, src, |v|), Mixed(o.rib, src, iset a: Path | LateFor(o, s, t[v], v, a), []))
  {
    var rib, late := Blend(s', o, src, |v|), iset a: Path | LateFor(o, s, t[v], v, a);
    BlendFollows(s', o, src, |v|);
    MovedResult(t, s, s', o, v, n, src, rib);
    LateIsLagging(o, s, t[v], v, n, src, rib);
    MixedForwards(o.rib, src, late);
  }

  // ---------- the failing input ----------

  /** With routes for a prefix v of eight bits and its left half only, the slot at v lags behind when v is changed or
      deleted. */
  lemma {:induction false} HalfLags(m: Mem, dir: seq<nat>, t: Tree, s: Snap, o: Version, v: Path)
    requires Trie(m, o) && DirOK(dir, o) && o.rib == map[v := 1, v + [false] := 2] && |v| == TOP + STRIDE
    requires Clean(t, s, o.rib) && v in t && v + [true] !in t
    requires forall x :: x in t && Extends(x, v + [false]) ==> x == v + [false]
    ensures Gap(o.rib, s, o, t[v], v)
  {
    assert ExtsBelow(t, s, o.rib, v) by { assert Open(ExtsKey); assert forall y: Path :: Extends(y, []); }
    HalfRoute(t, s, v);
    TopCompiled(m, dir, o, v);
    assert GapAt(o.rib, s, o, t[v], v, v);
  }

  /** The entry above v is a node, because v and its left half are forwarded differently. */
  lemma {:induction false} TopCompiled(m: Mem, dir: seq<nat>, o: Version, v: Path)
    requires Trie(m, o) && DirOK(dir, o) && o.rib == map[v := 1, v + [false] := 2] && |v| == TOP + STRIDE
    ensures OldSlot(o, v)
  {
    var top, a, b := v[..TOP], Last(v + [false]), Last(v + [true]);
    TrieParts(m, o);
    EntryOfTop(top);
    assert v[..|v| - STRIDE] == top;
    assert a[..|v| + 1] == v + [false] && b[..|v| + 1] == v + [true] && a[..|v|] == v && b[..|v|] == v;
    assert a[..TOP] == v[..TOP] && b[..TOP] == v[..TOP];
    assert LongestMatch(o.rib, a, v + [false]) && LongestMatch(o.rib, b, v) by {
      assert (v + [true])[|v|] != (v + [false])[|v|];
    }
    FwdIsLongestMatch(o.rib, a);
    FwdIsLongestMatch(o.rib, b);
    assert Under(a, top) && Under(b, top);
  }
}
