/** What the marks left by the passes tell the compiler about the slots of a node. */
module Marking {
  // A slot whose children are unmarked is copied from the old trie.

  import opened Bits
  import opened Forwarding
  import opened Folding
  import opened Radix
  import opened RadixUpdate
  import opened RadixPasses

  predicate Marked(s: Snap, p: Path) {
    p in s && s[p].mark
  }

  /** The slot at x has a child, and no child of it is marked. */
  predicate Reused(s: Snap, x: Path) {
    && (x + [false] in s || x + [true] in s)
    && !Marked(s, x + [false]) && !Marked(s, x + [true])
  }

  // ---------- after adding a route ----------

  /** Where the compiler copies the old slot after route v was added, forwarding has not changed. */
  lemma {:induction false} AddMarkingComplete(s: Snap, rib: Routes, v: Path, n: nat, x: Path)
    requires v !in rib && |v| <= |x| && MarkedBelow(s, rib, v, v) && Reused(s, x)
    ensures Same(rib, rib[v := n], x)
  {
    forall a | Under(a, x) ensures Fwd(rib, a) == Fwd(rib[v := n], a) {
      FwdAdd(rib, v, n, a);
      if Owns(rib, v, a) {
        PrefixesNested(a, v, x);
        OwnedIsMarked(s, rib, v, a, x);
        assert false;
      }
    }
  }

  /** The children of a slot from which v takes an address are marked. */
  lemma {:induction false} OwnedIsMarked(s: Snap, rib: Routes, v: Path, a: Path, x: Path)
    requires Owns(rib, v, a) && Under(a, x) && Extends(x, v) && MarkedBelow(s, rib, v, v)
    ensures x + [false] in s ==> s[x + [false]].mark
    ensures x + [true] in s ==> s[x + [true]].mark
  {
    assert Open(MarksKey);
    NoneAbove(rib, v, a, x);
    forall b | b in {false, true} ensures Visited(rib, v, x + [b]) && Extends(x + [b], v) {
      forall w | w in rib && |v| < |w| < |x + [b]| ensures !Extends(x + [b], w) {
        PrefixOfChild(x, b, w);
      }
      PrefixOfChild(x, b, v);
    }
  }

  lemma {:induction false} PrefixOfChild(x: Path, b: bool, w: Path)
    requires |w| <= |x|
    ensures Extends(x + [b], w) <==> Extends(x, w)
  {
    assert (x + [b])[..|w|] == x[..|w|];
  }

  /** A marked object has a marked parent, so clearing from the added route clears all. */
  lemma {:induction false} AddMarksConnected(t: Tree, s: Snap, rib: Routes, rib': Routes, v: Path)
    requires Shape(t, rib') && s.Keys == t.Keys && MarkedBelow(s, rib, v, v)
    ensures MarksConnected(s, v)
  {
    forall x | x in s && Extends(x, v) && x != v && s[x].mark
      ensures x[..|x| - 1] in s && s[x[..|x| - 1]].mark
    {
      var y := x[..|x| - 1];
      assert y in s by { assert Open(ShapeKey); }
      assert Extends(y, v);
      assert Visited(rib, v, x) by { assert Open(MarksKey); }
      VisitedParent(rib, v, x);
      assert Open(MarksKey);
    }
  }

  lemma {:induction false} VisitedParent(rib: Routes, v: Path, x: Path)
    requires Visited(rib, v, x) && |v| < |x|
    ensures Visited(rib, v, x[..|x| - 1])
  {
    var y := x[..|x| - 1];
    assert y[..|v|] == x[..|v|];
    forall w | w in rib && |v| < |w| < |y| ensures !Extends(y, w) {
      assert x[..|w|] == y[..|w|];
    }
  }

  // ---------- after changing or deleting a route ----------

  /** rib' forwards to n what v owned, and the rest like rib: the effect of changing the route v to n, and
      of deleting it when n is the next hop of the next shorter route. */
  ghost predicate Moved(rib: Routes, rib': Routes, v: Path, n: nat) {
    forall a :: |a| == KEYLENGTH ==> Fwd(rib', a) == if Owns(rib, v, a) then n else Fwd(rib, a)
  }

  lemma {:induction false} MovedByChange(rib: Routes, v: Path, n: nat)
    requires v in rib
    ensures Moved(rib, rib[v := n], v, n)
  {
    var less := rib - {v};
    assert less[v := n] == rib[v := n] && less[v := rib[v]] == rib;
    forall a | |a| == KEYLENGTH ensures Fwd(rib[v := n], a) == if Owns(rib, v, a) then n else Fwd(rib, a) {
      FwdAdd(less, v, n, a);
      FwdAdd(less, v, rib[v], a);
      OwnsLess(rib, v, a);
    }
  }

  lemma {:induction false} OwnsLess(rib: Routes, v: Path, a: Path)
    ensures Owns(rib - {v}, v, a) <==> Owns(rib, v, a)
  {
    if NoneBetween(rib - {v}, v, a) {
      forall w | w in rib && |v| < |w| ensures !Extends(a, w) {
        assert w in rib - {v};
      }
    }
  }

  lemma {:induction false} MovedByDelete(rib: Routes, v: Path)
    requires v in rib
    ensures Moved(rib, rib - {v}, v, Fwd(rib - {v}, v))
  {
    var less := rib - {v};
    assert less[v := rib[v]] == rib;
    forall a | |a| == KEYLENGTH ensures Fwd(less, a) == if Owns(rib, v, a) then Fwd(less, v) else Fwd(rib, a) {
      FwdAdd(less, v, rib[v], a);
      OwnsLess(rib, v, a);
      if Owns(rib, v, a) { FwdSkip(less, v, a); }
    }
  }

  /** s' has the marks that the pass for a changed or deleted route, whose object is e, leaves in s: at or below v,
      those objects at or below which e is cached. */
  ghost predicate PassMarks(s: Snap, s': Snap, e: RadixNode, v: Path) {
    s'.Keys == s.Keys && forall k: Key :: Open(k) && k.MarksKey? ==>
        forall x :: x in s ==> (s'[x].mark <==> Extends(x, v) && HasExt(s, e, x))
  }

  /** v owns x, and x is not covered by its children. */
  ghost predicate Exposed(rib: Routes, s: Snap, v: Path, x: Path) {
    Extends(x, v) && NoneBetween(rib, v, x) && (x + [false] !in s || x + [true] !in s)
  }

  /** x has a child, and e is cached nowhere below x. */
  ghost predicate Unnoticed(s: Snap, e: RadixNode, x: Path) {
    && (x + [false] in s || x + [true] in s)
    && !HasExt(s, e, x + [false]) && !HasExt(s, e, x + [true])
  }

  /** Below v, the slots without a marked child are those below which v is cached nowhere. */
  lemma {:induction false} ReusedIff(s: Snap, s': Snap, e: RadixNode, v: Path, x: Path)
    requires PassMarks(s, s', e, v) && Extends(x, v)
        && (forall y :: y in s && Extends(y, x + [false]) ==> x + [false] in s)
    requires forall y :: y in s && Extends(y, x + [true]) ==> x + [true] in s
    ensures Reused(s', x) <==> Unnoticed(s, e, x)
  {
    assert Open(MarksKey);
    assert (x + [false])[..|v|] == x[..|v|] && (x + [true])[..|v|] == x[..|v|];
  }

  /** The passes for changed and deleted routes leave too few marks: of the slots that are copied, exactly
      those are wrong that cache the route and have one child only. */
  lemma {:induction false} MarkingGap(t: Tree, s: Snap, s': Snap, rib: Routes, rib': Routes, v: Path, n: nat, x: Path)
    requires Shape(t, rib) && v in rib && v in t && s.Keys == t.Keys && ExtsBelow(t, s, rib, v)
    requires Moved(rib, rib', v, n) && n != rib[v] && |v| <= |x| < KEYLENGTH
    requires PassMarks(s, s', t[v], v) && Reused(s', x)
    ensures Same(rib, rib', x) <==> !Exposed(rib, s, v, x)
  {
    if Exposed(rib, s, v, x) {
      var b := x + [false] in s;
      ExposedSide(t, s, rib, rib', v, n, x, b);
    } else {
      forall a | Under(a, x) ensures Fwd(rib', a) == Fwd(rib, a) {
        if Owns(rib, v, a) {
          PrefixesNested(a, v, x);
          NoneAbove(rib, v, a, x);
          var b := a[|x|];
          assert x + [b] == if b then x + [true] else x + [false];
          assert a[..|x| + 1] == x + [b];
          OwnedChild(t, s, s', rib, v, a, x, b);
          assert false;
        }
      }
    }
  }

  lemma {:induction false} NoneAbove(rib: Routes, v: Path, a: Path, x: Path)
    requires Owns(rib, v, a) && Extends(a, x)
    ensures NoneBetween(rib, v, x)
  {
    forall w | w in rib && |v| < |w| ensures !Extends(x, w) {
      if Extends(x, w) { ExtendsTrans(a, x, w); }
    }
  }

  /** A child from which v takes an address caches v, so it is marked. */
  lemma {:induction false} OwnedChild(t: Tree, s: Snap, s': Snap, rib: Routes, v: Path, a: Path, x: Path, b: bool)
    requires Shape(t, rib) && v in rib && v in t && s.Keys == t.Keys && ExtsBelow(t, s, rib, v)
    requires PassMarks(s, s', t[v], v) && Owns(rib, v, a) && Extends(x, v) && Extends(a, x + [b]) && x + [b] in s
    ensures Marked(s', x + [b])
  {
    assert Open(MarksKey);
    var c := x + [b];
    assert c[..|v|] == x[..|v|];
    NoneAbove(rib, v, a, c);
    ExtIsRoute(t, rib, c, v);
    assert s[c].ext == t[v] by { assert Open(ExtsKey); }
    assert Extends(c, c);
    assert HasExt(s, t[v], c);
  }

  /** Below a missing child everything is forwarded by v. */
  lemma {:induction false} ExposedSide(t: Tree, s: Snap, rib: Routes, rib': Routes, v: Path, n: nat, x: Path, b: bool)
    requires Shape(t, rib) && v in rib && s.Keys == t.Keys && Moved(rib, rib', v, n) && n != rib[v]
    requires Extends(x, v) && NoneBetween(rib, v, x) && x + [b] !in s && |x| < KEYLENGTH
    ensures !Same(rib, rib', x)
  {
    var c := x + [b];
    var a := Last(c);
    assert a[..|c|] == c && a[..|x|] == x;
    ExtendsTrans(a, x, v);
    forall w | w in rib && |v| < |w| ensures !Extends(a, w) {
      if Extends(a, w) {
        if |w| <= |x| {
          PrefixesNested(a, w, x);
        } else {
          PrefixesNested(a, c, w);
          NoNodeNoRoute(t, rib, c, w);
        }
      }
    }
    FwdSkip(rib, v, a);
    assert Under(a, x) && Fwd(rib, a) == rib[v] && Fwd(rib', a) == n;
  }

  /** With routes for a prefix v and its left half only, nothing below v notices v. */
  lemma {:induction false} HalfRoute(t: Tree, s: Snap, v: Path)
    requires var rib: Routes := map[v := 1, v + [false] := 2];
             Shape(t, rib) && s.Keys == t.Keys && ExtsBelow(t, s, rib, v)
    requires v + [true] !in t && (forall x :: x in t && Extends(x, v + [false]) ==> x == v + [false])
    ensures v in t && Unnoticed(s, t[v], v) && Exposed(map[v := 1, v + [false] := 2], s, v, v)
  {
    var rib: Routes := map[v := 1, v + [false] := 2];
    var c := v + [false];
    assert v in rib && c in rib && Extends(c, v);
    assert v in t && c in t && t[c] != t[v] by { assert Open(ShapeKey); }
    forall x | x in s && Extends(x, c) ensures s[x].ext != t[v] {
      assert s[c].ext == ExtOf(t, rib, c) by { assert Open(ExtsKey); }
    }
    forall x | x in s ensures !Extends(x, v + [true]) {
      if Extends(x, v + [true]) { PrefixIn(t, rib, x, |v| + 1); }
    }
    forall w | w in rib && |v| < |w| ensures !Extends(v, w) {
    }
  }

  /** The gap is real when a route is changed: the slot at v is copied although its right half is now forwarded
      elsewhere. */
  lemma {:induction false} ChangeIsNotMarked(t: Tree, s: Snap, s': Snap, v: Path, n: nat)
    requires var rib: Routes := map[v := 1, v + [false] := 2];
             Shape(t, rib) && s.Keys == t.Keys && ExtsBelow(t, s, rib, v)
    requires v + [true] !in t && (forall x :: x in t && Extends(x, v + [false]) ==> x == v + [false])
    requires |v| < KEYLENGTH && n != 1 && v in t && PassMarks(s, s', t[v], v)
    ensures Reused(s', v) && !Same(map[v := 1, v + [false] := 2], map[v := n, v + [false] := 2], v)
  {
    var rib: Routes := map[v := 1, v + [false] := 2];
    HalfRoute(t, s, v);
    HalfReused(t, s, s', rib, v);
    MovedByChange(rib, v, n);
    assert rib[v := n] == map[v := n, v + [false] := 2];
    MarkingGap(t, s, s', rib, rib[v := n], v, n, v);
  }

  /** And when it is deleted: afterwards no route covers the right half. */
  lemma {:induction false} DeleteIsNotMarked(t: Tree, s: Snap, s': Snap, v: Path)
    requires var rib: Routes := map[v := 1, v + [false] := 2];
             Shape(t, rib) && s.Keys == t.Keys && ExtsBelow(t, s, rib, v)
    requires v + [true] !in t && (forall x :: x in t && Extends(x, v + [false]) ==> x == v + [false])
    requires |v| < KEYLENGTH && v in t && PassMarks(s, s', t[v], v)
    ensures Reused(s', v) && !Same(map[v := 1, v + [false] := 2], map[v + [false] := 2], v)
  {
    var rib: Routes := map[v := 1, v + [false] := 2];
    HalfRoute(t, s, v);
    HalfReused(t, s, s', rib, v);
    MovedByDelete(rib, v);
    assert rib - {v} == map[v + [false] := 2];
    assert NoMatch(rib - {v}, v);
    FwdIsLongestMatch(rib - {v}, v);
    MarkingGap(t, s, s', rib, rib - {v}, v, 0, v);
  }

  lemma {:induction false} HalfReused(t: Tree, s: Snap, s': Snap, rib: Routes, v: Path)
    requires Shape(t, rib) && s.Keys == t.Keys && v in t && PassMarks(s, s', t[v], v) && Unnoticed(s, t[v], v)
    ensures Reused(s', v)
  {
    forall b: bool, y | y in s && Extends(y, v + [b]) ensures v + [b] in s { PrefixIn(t, rib, y, |v| + 1); }
    assert Extends(v, v);
    ReusedIff(s, s', t[v], v, v);
  }
}
