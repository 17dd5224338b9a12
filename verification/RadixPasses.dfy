/** The passes for changed and deleted routes, and the pass that clears the marks. */
module RadixPasses {
  import opened Bits
  import opened Forwarding
  import opened Folding
  import opened Radix
  import opened RadixUpdate

  // ---------- clearing ----------

  /** Marked objects at or below p have marked parents, up to p. */
  ghost predicate MarksConnected(s: Snap, p: Path) {
    forall x :: x in s && Extends(x, p) && x != p && s[x].mark ==> x[..|x| - 1] in s && s[x[..|x| - 1]].mark
  }

  ghost function Cleared(s: Snap, p: Path): Snap {
    map x | x in s :: if Extends(x, p) then s[x].(mark := false) else s[x]
  }

  lemma {:induction false} NothingMarked(s: Snap, p: Path, x: Path)
    requires MarksConnected(s, p) && p in s && !s[p].mark && x in s && Extends(x, p)
    ensures !s[x].mark
  {
    if x != p {
      assert Extends(x[..|x| - 1], p);
      if s[x].mark { NothingMarked(s, p, x[..|x| - 1]); }
    }
  }

  lemma {:induction false} ConnectedChild(s: Snap, p: Path, b: bool)
    requires MarksConnected(s, p)
    ensures MarksConnected(s, p + [b])
  {
    forall x | x in s && Extends(x, p + [b]) && x != p + [b] && s[x].mark
      ensures x[..|x| - 1] in s && s[x[..|x| - 1]].mark
    {
      ExtendsTrans(x, p + [b], p);
    }
  }

  lemma {:induction false} ConnectedAfter(s: Snap, p: Path)
    requires MarksConnected(s, p + [true]) && p in s
    ensures MarksConnected(Cleared(s[p := s[p].(mark := false)], p + [false]), p + [true])
  {
    var s' := Cleared(s[p := s[p].(mark := false)], p + [false]);
    BelowCases(s, p);
    forall x | x in s' && Extends(x, p + [true]) && x != p + [true] && s'[x].mark
      ensures x[..|x| - 1] in s' && s'[x[..|x| - 1]].mark
    {
      assert Extends(x[..|x| - 1], p + [true]);
    }
  }

  lemma {:induction false} ClearedJoin(s: Snap, p: Path)
    requires p in s
    ensures Cleared(Cleared(s[p := s[p].(mark := false)], p + [false]), p + [true]) == Cleared(s, p)
  {
    BelowCases(s, p);
    assert Extends(p, p);
  }

  lemma {:induction false} ClearedNone(s: Snap, p: Path)
    requires forall x :: x in s && Extends(x, p) ==> !s[x].mark
    ensures Cleared(s, p) == s
  {
  }

  /** _clear_mark. */
  method ClearMark(node: RadixNode, ghost t: Tree, ghost rib: Routes, ghost p: Path)
    requires Shape(t, rib) && Fixed(t, View(t), rib) && p in t && node == t[p] && MarksConnected(View(t), p)
    modifies Sub(t, p)
    ensures View(t) == Cleared(old(View(t)), p)
    decreases KEYLENGTH + 1 - |p|, 1
  {
    ghost var s := View(t);
    InSub(t, rib, p, p);
    FixedAt(t, s, rib, p);
    if !node.mark {
      forall x | x in s && Extends(x, p) ensures !s[x].mark { NothingMarked(s, p, x); }
      ClearedNone(s, p);
      return;
    }
    ConnectedChild(s, p, false);
    ConnectedChild(s, p, true);
    ConnectedSame(s, p);
    ConnectedAfter(s, p);
    ClearedJoin(s, p);
    Unmark(node, t, rib, p);
    ClearSide(node, t, rib, p, false);
    ClearSide(node, t, rib, p, true);
  }

  lemma {:induction false} ConnectedSame(s: Snap, p: Path)
    requires MarksConnected(s, p + [false]) && p in s
    ensures MarksConnected(s[p := s[p].(mark := false)], p + [false])
  {
    BelowCases(s, p);
    forall x | x in s && Extends(x, p + [false]) && x != p + [false]
      ensures x[..|x| - 1] != p
    {
      assert Extends(x[..|x| - 1], p + [false]);
    }
  }

  method Unmark(node: RadixNode, ghost t: Tree, ghost rib: Routes, ghost p: Path)
    requires Shape(t, rib) && Fixed(t, View(t), rib) && p in t && node == t[p]
    modifies node
    ensures p in old(View(t)) && View(t) == old(View(t))[p := old(View(t))[p].(mark := false)]
    ensures Fixed(t, View(t), rib)
  {
    ghost var s := View(t);
    node.mark := false;
    OneObject(t, rib, s, p);
    assert View(t) == s[p := s[p].(mark := false)];
    assert Open(FixedKey);
  }

  method ClearSide(node: RadixNode, ghost t: Tree, ghost rib: Routes, ghost p: Path, b: bool)
    requires Shape(t, rib) && Fixed(t, View(t), rib) && p in t && node == t[p] && MarksConnected(View(t), p + [b])
    modifies Sub(t, p)
    ensures View(t) == Cleared(old(View(t)), p + [b]) && Fixed(t, View(t), rib)
    decreases KEYLENGTH + 1 - |p|, 0
  {
    ghost var s := View(t);
    FixedAt(t, s, rib, p);
    var child := if b then node.right else node.left;
    if child != null {
      FixedAt(t, s, rib, p + [b]);
      SubMonotone(t, p, b);
      ClearMark(child, t, rib, p + [b]);
      ClearedFixed(t, s, rib, p + [b]);
    } else {
      NothingThere(t, s, rib, rib, p, p + [b]);
      forall x | x in s ensures !Extends(x, p + [b]) {
        if Extends(x, p + [b]) { PrefixIn(t, rib, x, |p| + 1); }
      }
      ClearedNone(s, p + [b]);
    }
  }

  lemma {:induction false} ClearedFixed(t: Tree, s: Snap, rib: Routes, p: Path)
    requires Fixed(t, s, rib)
    ensures Fixed(t, Cleared(s, p), rib)
  {
    assert Open(FixedKey);
  }

  // ---------- changing and deleting ----------

  /** Some object at or below p caches e. */
  ghost predicate HasExt(s: Snap, e: RadixNode, p: Path) {
    exists x :: x in s && Extends(x, p) && s[x].ext == e
  }

  ghost function PassedAt(s: Snap, e: RadixNode, next: RadixNode?, x: Path): Fields
    requires x in s
  {
    s[x].(ext := if s[x].ext == e then next else s[x].ext, mark := HasExt(s, e, x))
  }

  /** Below p, next has taken the place of e, and the objects with such a one at or below them are marked. */
  ghost function Passed(s: Snap, e: RadixNode, next: RadixNode?, p: Path): Snap {
    map x | x in s :: if Extends(x, p) then PassedAt(s, e, next, x) else s[x]
  }

  lemma {:induction false} HasExtSplit(s: Snap, e: RadixNode, p: Path)
    requires p in s
    ensures HasExt(s, e, p) <==> s[p].ext == e || HasExt(s, e, p + [false]) || HasExt(s, e, p + [true])
  {
    BelowCases(s, p);
    assert Extends(p, p);
    if HasExt(s, e, p) {
      var x :| x in s && Extends(x, p) && s[x].ext == e;
    }
    if HasExt(s, e, p + [false]) {
      var x :| x in s && Extends(x, p + [false]) && s[x].ext == e;
    }
    if HasExt(s, e, p + [true]) {
      var x :| x in s && Extends(x, p + [true]) && s[x].ext == e;
    }
  }

  /** s and s' agree below p. */
  ghost predicate AgreeBelow(s: Snap, s': Snap, p: Path) {
    s.Keys == s'.Keys && forall x :: x in s && Extends(x, p) ==> s'[x] == s[x]
  }

  lemma {:induction false} HasExtAgree(s: Snap, s': Snap, e: RadixNode, p: Path, x: Path)
    requires AgreeBelow(s, s', p) && Extends(x, p)
    ensures HasExt(s, e, x) <==> HasExt(s', e, x)
  {
    if HasExt(s, e, x) {
      var y :| y in s && Extends(y, x) && s[y].ext == e;
      ExtendsTrans(y, x, p);
      assert s'[y].ext == e;
    }
    if HasExt(s', e, x) {
      var y :| y in s' && Extends(y, x) && s'[y].ext == e;
      ExtendsTrans(y, x, p);
      assert s[y].ext == e;
    }
  }

  /** The pass over one subtree, and the mark of its parent. */
  ghost function SidePassed(s: Snap, e: RadixNode, next: RadixNode?, p: Path, b: bool): Snap
    requires p in s
  {
    var s' := Passed(s, e, next, p + [b]);
    s'[p := s[p].(mark := s[p].mark || HasExt(s, e, p + [b]))]
  }

  ghost function HerePassed(s: Snap, e: RadixNode, next: RadixNode?, p: Path): Snap
    requires p in s
  {
    s[p := s[p].(ext := if s[p].ext == e then next else s[p].ext, mark := s[p].ext == e)]
  }

  lemma {:induction false} SidePoint(s: Snap, e: RadixNode, next: RadixNode?, p: Path, b: bool, x: Path)
    requires p in s && x in s
    ensures var s' := SidePassed(s, e, next, p, b);
            s'[x] == if Extends(x, p + [b]) then PassedAt(s, e, next, x)
                     else if x == p then s[p].(mark := s[p].mark || HasExt(s, e, p + [b])) else s[x]
    ensures Extends(x, p + [b]) ==> x != p
  {
  }

  lemma {:induction false} PassedAgree(s: Snap, s': Snap, e: RadixNode, next: RadixNode?, p: Path, x: Path)
    requires AgreeBelow(s, s', p) && x in s && Extends(x, p)
    ensures PassedAt(s, e, next, x) == PassedAt(s', e, next, x)
  {
    HasExtAgree(s, s', e, p, x);
  }

  lemma {:induction false} SidesAgree(s: Snap, e: RadixNode, next: RadixNode?, p: Path)
    requires p in s
    ensures var s1 := HerePassed(s, e, next, p);
            AgreeBelow(s, s1, p + [false]) && AgreeBelow(s, SidePassed(s1, e, next, p, false), p + [true])
  {
    BelowCases(s, p);
  }

  lemma {:induction false} JoinAt(s: Snap, e: RadixNode, next: RadixNode?, p: Path, x: Path)
    requires p in s && x in s
    ensures var s2 := SidePassed(HerePassed(s, e, next, p), e, next, p, false);
            SidePassed(s2, e, next, p, true)[x] == Passed(s, e, next, p)[x]
  {
    var s1 := HerePassed(s, e, next, p);
    var s2 := SidePassed(s1, e, next, p, false);
    SidesAgree(s, e, next, p);
    SidePoint(s1, e, next, p, false, x);
    SidePoint(s2, e, next, p, true, x);
    if x == p {
      HasExtSplit(s, e, p);
      HasExtAgree(s, s1, e, p + [false], p + [false]);
      HasExtAgree(s, s2, e, p + [true], p + [true]);
      assert Extends(p, p);
    } else if Extends(x, p + [true]) {
      BelowCases(s, p);
      PassedAgree(s, s2, e, next, p + [true], x);
    } else if Extends(x, p + [false]) {
      BelowCases(s, p);
      PassedAgree(s, s1, e, next, p + [false], x);
    } else {
      BelowCases(s, p);
    }
  }

  lemma {:induction false} PassedJoin(s: Snap, e: RadixNode, next: RadixNode?, p: Path)
    requires p in s
    ensures var s1 := HerePassed(s, e, next, p);
            SidePassed(SidePassed(s1, e, next, p, false), e, next, p, true) == Passed(s, e, next, p)
  {
    var s3 := SidePassed(SidePassed(HerePassed(s, e, next, p), e, next, p, false), e, next, p, true);
    forall x | x in s ensures s3[x] == Passed(s, e, next, p)[x] {
      JoinAt(s, e, next, p, x);
    }
    SameSnap(s3, Passed(s, e, next, p), s.Keys);
  }

  lemma {:induction false} SameSnap(a: Snap, b: Snap, keys: set<Path>)
    requires a.Keys == keys == b.Keys && forall x :: x in keys ==> a[x] == b[x]
    ensures a == b
  {
  }

  lemma {:induction false} PassedNone(s: Snap, e: RadixNode, next: RadixNode?, p: Path)
    requires forall x :: x in s ==> !Extends(x, p)
    ensures Passed(s, e, next, p) == s && !HasExt(s, e, p)
  {
  }

  lemma {:induction false} PassedFixed(t: Tree, s: Snap, rib: Routes, e: RadixNode, next: RadixNode?, p: Path)
    requires Fixed(t, s, rib)
    ensures Fixed(t, Passed(s, e, next, p), rib)
  {
    assert Open(FixedKey);
  }

  lemma {:induction false} UnmarkedSides(s: Snap, e: RadixNode, next: RadixNode?, p: Path)
    requires UnmarkedBelow(s, p) && p in s
    ensures UnmarkedBelow(HerePassed(s, e, next, p), p + [false])
    ensures UnmarkedBelow(SidePassed(HerePassed(s, e, next, p), e, next, p, false), p + [true])
    ensures !s[p].mark
  {
    assert Open(MarksKey);
    BelowCases(s, p);
    assert Extends(p, p);
  }

  /** poptrie_route_del_propagate.  With next == oext it is poptrie_route_change_propagate, which marks the
      same objects and leaves the cached ancestors alone. */
  method Propagate(node: RadixNode, oext: RadixNode, next: RadixNode?, ghost t: Tree, ghost rib: Routes, ghost p: Path)
    returns (mark: bool)
    requires Shape(t, rib) && Fixed(t, View(t), rib) && p in t && node == t[p] && UnmarkedBelow(View(t), p)
    modifies Sub(t, p)
    ensures View(t) == Passed(old(View(t)), oext, next, p)
    ensures mark == node.mark == HasExt(old(View(t)), oext, p)
    decreases KEYLENGTH + 1 - |p|, 1
  {
    ghost var s := View(t);
    InSub(t, rib, p, p);
    UnmarkedSides(s, oext, next, p);
    PassedJoin(s, oext, next, p);
    ReplaceHere(node, oext, next, t, rib, p);
    PropagateSide(node, oext, next, t, rib, p, false);
    PropagateSide(node, oext, next, t, rib, p, true);
    assert Extends(p, p);
    return node.mark;
  }

  method ReplaceHere(node: RadixNode, oext: RadixNode, next: RadixNode?, ghost t: Tree, ghost rib: Routes,
                     ghost p: Path)
    requires Shape(t, rib) && Fixed(t, View(t), rib) && p in t && node == t[p] && !node.mark
    modifies node
    ensures p in old(View(t)) && View(t) == HerePassed(old(View(t)), oext, next, p)
    ensures Fixed(t, View(t), rib)
  {
    ghost var s := View(t);
    if oext == node.ext {
      node.ext := next;
      node.mark := true;
    }
    OneObject(t, rib, s, p);
    assert View(t) == HerePassed(s, oext, next, p);
    assert Open(FixedKey);
  }

  method PropagateSide(node: RadixNode, oext: RadixNode, next: RadixNode?, ghost t: Tree, ghost rib: Routes,
                       ghost p: Path, b: bool)
    requires Shape(t, rib) && Fixed(t, View(t), rib) && p in t && node == t[p] && UnmarkedBelow(View(t), p + [b])
    modifies Sub(t, p)
    ensures p in old(View(t)) && View(t) == SidePassed(old(View(t)), oext, next, p, b)
    ensures Fixed(t, View(t), rib)
    decreases KEYLENGTH + 1 - |p|, 0
  {
    ghost var s := View(t);
    FixedAt(t, s, rib, p);
    var child := if b then node.right else node.left;
    if child != null {
      FixedAt(t, s, rib, p + [b]);
      SubMonotone(t, p, b);
      var m := Propagate(child, oext, next, t, rib, p + [b]);
      PassedFixed(t, s, rib, oext, next, p + [b]);
      InSub(t, rib, p, p);
      MarkParent(node, m, s, oext, next, t, rib, p, b);
    } else {
      forall x | x in s ensures !Extends(x, p + [b]) {
        if Extends(x, p + [b]) { PrefixIn(t, rib, x, |p| + 1); }
      }
      PassedNone(s, oext, next, p + [b]);
    }
  }

  method MarkParent(node: RadixNode, m: bool, ghost s: Snap, ghost oext: RadixNode, ghost next: RadixNode?,
                    ghost t: Tree,
                    ghost rib: Routes, ghost p: Path, ghost b: bool)
    requires Shape(t, rib) && Fixed(t, View(t), rib) && p in t && node == t[p] && p in s
    requires View(t) == Passed(s, oext, next, p + [b]) && m == HasExt(s, oext, p + [b])
    modifies node
    ensures View(t) == SidePassed(s, oext, next, p, b) && Fixed(t, View(t), rib)
  {
    ghost var s' := View(t);
    ParentOutside(s, oext, next, p, b);
    node.mark := node.mark || m;
    OneObject(t, rib, s', p);
    ghost var o := s[p].(mark := s[p].mark || m);
    assert FieldsOf(node) == o;
    MarkFixed(t, s', rib, p, o);
  }

  lemma {:induction false} ParentOutside(s: Snap, e: RadixNode, next: RadixNode?, p: Path, b: bool)
    requires p in s
    ensures Passed(s, e, next, p + [b])[p] == s[p]
  {
  }

  lemma {:induction false} MarkFixed(t: Tree, s: Snap, rib: Routes, p: Path, o: Fields)
    requires Fixed(t, s, rib) && p in s && o == s[p].(mark := o.mark)
    ensures Fixed(t, s[p := o], rib)
  {
    assert Open(FixedKey);
  }
}
