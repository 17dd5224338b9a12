/** The four operations on the RIB. */
module RibOps {
  import opened Bits
  import opened Forwarding
  import opened Folding
  import opened Radix
  import opened RadixUpdate
  import opened RadixPasses
  import opened RibGrow
  import opened Marking

  // ---------- what a changed route means for the radix tree ----------

  /** Only the route at v has been added, changed or removed. */
  ghost predicate OneRoute(rib: Routes, rib': Routes, v: Path) {
    forall x :: x != v ==> (x in rib' <==> x in rib) && (x in rib ==> rib'[x] == rib[x])
  }

  lemma {:induction false} ShapeOne(t: Tree, rib: Routes, rib': Routes, v: Path)
    requires Shape(t, rib) && OneRoute(rib, rib', v) && v in t
    ensures Shape(t, rib')
  {
    assert Open(ShapeKey);
  }

  /** The object at v takes the new route. */
  lemma {:induction false} FixedOne(t: Tree, s: Snap, rib: Routes, rib': Routes, v: Path, o: Fields)
    requires Fixed(t, s, rib) && OneRoute(rib, rib', v) && v in s && RouteAt(rib', v, o)
    requires o.left == s[v].left && o.right == s[v].right
    ensures Fixed(t, s[v := o], rib')
  {
    assert Open(FixedKey);
  }

  lemma {:induction false} ExtBeside(t: Tree, rib: Routes, rib': Routes, v: Path, x: Path)
    requires OneRoute(rib, rib', v) && !Extends(x, v)
    ensures ExtOf(t, rib', x) == ExtOf(t, rib, x)
  {
    assert x != v;
    if !(x in rib && x in t) && x != [] {
      assert Extends(x[..|x| - 1], v) ==> Extends(x, v);
      ExtBeside(t, rib, rib', v, x[..|x| - 1]);
    }
  }

  /** Outside the part below v the cached ancestors stay right. */
  lemma {:induction false} ExtsOne(t: Tree, s: Snap, s': Snap, rib: Routes, rib': Routes, v: Path)
    requires ExtsBelow(t, s, rib, []) && OneRoute(rib, rib', v) && s'.Keys == s.Keys
    requires forall x :: x in s && !Extends(x, v) ==> s'[x].ext == s[x].ext
    requires ExtsBelow(t, s', rib', v)
    ensures ExtsBelow(t, s', rib', [])
  {
    assert Open(ExtsKey);
    forall x | x in s' ensures s'[x].ext == ExtOf(t, rib', x) {
      if !Extends(x, v) {
        assert Extends(x, []);
        ExtBeside(t, rib, rib', v, x);
      }
    }
  }

  /** Changing the value of a route changes no cached ancestor. */
  lemma {:induction false} ExtChanged(t: Tree, rib: Routes, v: Path, n: nat, x: Path)
    requires v in rib
    ensures ExtOf(t, rib[v := n], x) == ExtOf(t, rib, x)
  {
    if !(x in rib && x in t) && x != [] {
      ExtChanged(t, rib, v, n, x[..|x| - 1]);
    }
  }

  /** Without the route at v, what cached it caches the next shorter route. */
  lemma {:induction false} ExtDeleted(t: Tree, rib: Routes, v: Path, x: Path)
    requires Shape(t, rib) && v in rib && v in t
    ensures var next := ExtAbove(t, rib, v);
            ExtOf(t, rib - {v}, x) == if ExtOf(t, rib, x) == t[v] && Extends(x, v) then next else ExtOf(t, rib, x)
  {
    var rib' := rib - {v};
    if !Extends(x, v) {
      ExtBeside(t, rib, rib', v, x);
    } else if x == v {
      if v != [] { ExtBeside(t, rib, rib', v, v[..|v| - 1]); }
    } else if x in rib && x in t {
      assert Open(ShapeKey);
    } else {
      assert Extends(x[..|x| - 1], v);
      ExtDeleted(t, rib, v, x[..|x| - 1]);
    }
  }

  /** Nothing but what lies below v is marked. */
  ghost predicate UnmarkedBeside(s: Snap, v: Path) {
    forall x :: x in s && !Extends(x, v) ==> !s[x].mark
  }

  /** Clearing from v on leaves nothing marked. */
  lemma {:induction false} ClearedClean(t: Tree, s: Snap, rib: Routes, v: Path)
    requires Shape(t, rib) && s.Keys == t.Keys && Fixed(t, s, rib) && ExtsBelow(t, s, rib, []) && UnmarkedBeside(s, v)
    ensures Clean(t, Cleared(s, v), rib)
  {
    ClearedFixed(t, s, rib, v);
    assert ExtsBelow(t, Cleared(s, v), rib, []) by { assert Open(ExtsKey); }
    assert UnmarkedBelow(Cleared(s, v), []) by { assert Open(MarksKey); }
  }

  // ---------- the path of a prefix ----------

  /** One step: the object on the way to prefix at the next depth, created if it is missing. */
  method StepTo(node: RadixNode, prefix: Path, depth: nat, ext: RadixNode?, ghost t: Tree, ghost rib: Routes)
    returns (child: RadixNode, ghost t': Tree)
    requires Clean(t, View(t), rib) && depth < |prefix| <= KEYLENGTH && prefix[..depth] in t
        && node == t[prefix[..depth]]
    requires ext == ExtOf(t, rib, prefix[..depth])
    modifies node
    ensures Clean(t', View(t'), rib) && prefix[..depth + 1] in t' && child == t'[prefix[..depth + 1]]
    ensures SubTree(t, t') && fresh(t'.Values - t.Values) && ext == ExtOf(t', rib, prefix[..depth])
  {
    ghost var p := prefix[..depth];
    t' := t;
    CleanAt(t, rib, p);
    var b := prefix[depth];
    assert prefix[..depth + 1] == p + [b];
    assert p + [b] == if b then p + [true] else p + [false];
    var next := if b then node.right else node.left;
    if next == null {
      child, t' := NewChild(node, b, ext, t, rib, p);
      GrowExt(t, rib, p + [b], child, p);
      assert t'.Values <= t.Values + {child};
    } else {
      child := next;
    }
  }

  /** Follow the bits of prefix from depth on, creating the objects that are missing. */
  method Reach(node: RadixNode, prefix: Path, depth: nat, ext: RadixNode?, ghost t: Tree, ghost rib: Routes)
    returns (r: RadixNode, ext': RadixNode?, ghost t': Tree)
    requires Clean(t, View(t), rib) && depth <= |prefix| <= KEYLENGTH && prefix[..depth] in t
        && node == t[prefix[..depth]]
    requires ext == ExtAbove(t, rib, prefix[..depth])
    modifies t.Values
    ensures Clean(t', View(t'), rib) && prefix in t' && r == t'[prefix] && SubTree(t, t') && fresh(t'.Values - t.Values)
    ensures ext' == ExtAbove(t', rib, prefix)
    decreases |prefix| - depth
  {
    if depth == |prefix| {
      assert prefix[..depth] == prefix;
      return node, ext, t;
    }
    CleanAt(t, rib, prefix[..depth]);
    assert depth > 0 ==> prefix[..depth][..depth - 1] == prefix[..depth - 1];
    var e := if node.valid then node else ext;
    var child;
    ghost var t1;
    child, t1 := StepTo(node, prefix, depth, e, t, rib);
    assert prefix[..depth + 1][..depth] == prefix[..depth];
    assert t1.Values <= t.Values + (t1.Values - t.Values);
    r, ext', t' := Reach(child, prefix, depth + 1, e, t1, rib);
    SubTreeValues(t, t1, t');
  }

  /** The nearest valid proper ancestor. */
  function ExtAbove(t: Tree, rib: Routes, p: Path): RadixNode? {
    if p == [] then null else ExtOf(t, rib, p[..|p| - 1])
  }

  lemma {:induction false} SubTreeValues(t: Tree, t1: Tree, t': Tree)
    requires SubTree(t, t1) && SubTree(t1, t')
    ensures SubTree(t, t') && t'.Values - t.Values <= (t'.Values - t1.Values) + (t1.Values - t.Values)
  {
  }

  /** Follow the bits of prefix from depth on, noting the last valid object before the end. */
  method Seek(node: RadixNode?, prefix: Path, depth: nat, ext: RadixNode?, ghost t: Tree, ghost rib: Routes)
    returns (r: RadixNode?, ext': RadixNode?)
    requires Clean(t, View(t), rib) && depth <= |prefix| <= KEYLENGTH
    requires node == (if prefix[..depth] in t then t[prefix[..depth]] else null)
    requires ext == ExtAbove(t, rib, prefix[..depth])
    ensures r == if prefix in t then t[prefix] else null
    ensures r != null ==> ext' == ExtAbove(t, rib, prefix)
    decreases |prefix| - depth
  {
    if node == null {
      NeedsPath(t, rib, prefix[..depth], prefix);
      return null, ext;
    }
    if depth == |prefix| {
      assert prefix[..depth] == prefix;
      return node, ext;
    }
    CleanAt(t, rib, prefix[..depth]);
    assert depth > 0 ==> prefix[..depth][..depth - 1] == prefix[..depth - 1];
    var e := if node.valid then node else ext;
    var b := prefix[depth];
    assert prefix[..depth + 1] == prefix[..depth] + [b];
    assert prefix[..depth] + [b] == if b then prefix[..depth] + [true] else prefix[..depth] + [false];
    assert prefix[..depth + 1][..depth] == prefix[..depth];
    r, ext' := Seek(if b then node.right else node.left, prefix, depth + 1, e, t, rib);
  }

  ghost predicate SubTree(t: Tree, t': Tree) {
    forall p :: p in t ==> p in t' && t'[p] == t[p]
  }

  lemma {:induction false} CleanAt(t: Tree, rib: Routes, p: Path)
    requires Clean(t, View(t), rib) && p in t
    ensures |p| <= KEYLENGTH && LinksAt(t, p, FieldsOf(t[p])) && RouteAt(rib, p, FieldsOf(t[p])) && t[p].path == p
    ensures t[p].ext == ExtOf(t, rib, p) && !t[p].mark
  {
    At(t, rib, p);
    assert Open(MarksKey);
    assert Extends(p, []);
  }

  // ---------- adding: the object, the pass ----------

  /** After the pass for an added route. */
  ghost predicate Added(t: Tree, s: Snap, rib: Routes, v: Path, n: nat) {
    && Shape(t, rib[v := n]) && s.Keys == t.Keys && Fixed(t, s, rib[v := n]) && ExtsBelow(t, s, rib[v := n], [])
    && MarkedBelow(s, rib, v, v) && UnmarkedBeside(s, v) && v in t
  }

  lemma {:induction false} AddOne(rib: Routes, v: Path, n: nat)
    ensures OneRoute(rib, rib[v := n], v) && OneRoute(rib, rib - {v}, v)
  {
  }

  /** What the pass finds. */
  lemma {:induction false} BeforePass(t: Tree, s: Snap, rib: Routes, v: Path, n: nat, o: Fields)
    requires Clean(t, s, rib) && v in t && v !in rib
    requires o == s[v].(valid := true, nexthop := n, len := |v|)
    ensures Shape(t, rib[v := n]) && Fixed(t, s[v := o], rib[v := n])
    ensures ExtsBelow(t, s[v := o], rib, v) && ExtsBelow(t, s[v := o], rib, []) && UnmarkedBelow(s[v := o], [])
    ensures UnmarkedBelow(s[v := o], v) && Visited(rib, v, v)
  {
    AddOne(rib, v, n);
    ShapeOne(t, rib, rib[v := n], v);
    FixedOne(t, s, rib, rib[v := n], v, o);
    assert ExtsBelow(t, s[v := o], rib, v) && ExtsBelow(t, s[v := o], rib, []) by {
      assert Open(ExtsKey);
      assert forall x: Path :: Extends(x, []);
    }
    assert UnmarkedBelow(s[v := o], v) && UnmarkedBelow(s[v := o], []) by {
      assert Open(MarksKey);
      assert forall x: Path :: Extends(x, []);
    }
  }

  /** What the pass leaves. */
  lemma {:induction false} AfterPass(t: Tree, s: Snap, s': Snap, rib: Routes, v: Path, n: nat)
    requires Shape(t, rib[v := n]) && s.Keys == t.Keys && Fixed(t, s, rib[v := n]) && ExtsBelow(t, s, rib, [])
        && UnmarkedBelow(s, [])
    requires OnlyBelow(s, s', v) && ExtsBelow(t, s', rib[v := n], v) && MarkedBelow(s', rib, v, v) && v in t
    ensures Added(t, s', rib, v, n)
  {
    FixedKept(t, s, s', rib[v := n], v);
    AddOne(rib, v, n);
    Beside(s, s', v);
    ExtsOne(t, s, s', rib, rib[v := n], v);
    forall x | x in s' && !Extends(x, v) ensures !s'[x].mark {
      assert Open(MarksKey);
      assert Extends(x, []);
    }
  }

  lemma {:induction false} Beside(s: Snap, s': Snap, v: Path)
    requires OnlyBelow(s, s', v)
    ensures forall x :: x in s && !Extends(x, v) ==> s'[x] == s[x]
  {
    assert Open(KeptKey);
  }

  /** Make the object at v a route and tell those below it. */
  method AddAtNode(node: RadixNode, ghost t: Tree, ghost rib: Routes, v: Path, n: nat)
    requires Clean(t, View(t), rib) && v in t && node == t[v] && v !in rib
    modifies t.Values
    ensures Added(t, View(t), rib, v, n)
  {
    ghost var s := View(t);
    SetRoute(node, n, t, rib, v);
    ghost var s1 := View(t);
    BeforePass(t, s, rib, v, n, s1[v]);
    var m := AddPropagate(node, node, t, rib, v, n, v);
    AfterPass(t, s1, View(t), rib, v, n);
  }

  method SetRoute(node: RadixNode, n: nat, ghost t: Tree, ghost rib: Routes, v: Path)
    requires Shape(t, rib) && v in t && node == t[v]
    modifies node
    ensures var s := old(View(t));
            v in s && View(t) == s[v := s[v].(valid := true, nexthop := n, len := |v|)]
  {
    ghost var s := View(t);
    node.valid := true;
    node.nexthop := n;
    node.len := |v|;
    OneObject(t, rib, s, v);
    assert FieldsOf(node) == s[v].(valid := true, nexthop := n, len := |v|);
  }

  // ---------- changing ----------

  /** After the pass for a changed or deleted route. */
  ghost predicate PassDone(t: Tree, s: Snap, rib: Routes, v: Path) {
    && Shape(t, rib) && s.Keys == t.Keys && Fixed(t, s, rib) && ExtsBelow(t, s, rib, [])
    && UnmarkedBeside(s, v) && MarksConnected(s, v) && v in t
  }

  lemma {:induction false} PassedConnected(t: Tree, s: Snap, rib: Routes, e: RadixNode, next: RadixNode?, v: Path)
    requires Shape(t, rib) && s.Keys == t.Keys
    ensures MarksConnected(Passed(s, e, next, v), v)
  {
    var s' := Passed(s, e, next, v);
    forall x | x in s' && Extends(x, v) && x != v && s'[x].mark
      ensures x[..|x| - 1] in s' && s'[x[..|x| - 1]].mark
    {
      var y := x[..|x| - 1];
      assert y in s by { assert Open(ShapeKey); }
      assert Extends(y, v) && Extends(x, y);
      HasExtUp(s, e, x, y);
    }
  }

  lemma {:induction false} HasExtUp(s: Snap, e: RadixNode, x: Path, y: Path)
    requires HasExt(s, e, x) && Extends(x, y)
    ensures HasExt(s, e, y)
  {
    var z :| z in s && Extends(z, x) && s[z].ext == e;
    ExtendsTrans(z, x, y);
  }

  /** The change pass leaves the cached ancestors right. */
  lemma {:induction false} ChangePass(t: Tree, s: Snap, rib: Routes, v: Path, n: nat)
    requires Clean(t, s, rib) && v in t && v in rib
    ensures v in s
    ensures var s1 := s[v := s[v].(nexthop := n)];
            && Shape(t, rib[v := n]) && Fixed(t, s1, rib[v := n]) && UnmarkedBelow(s1, v)
            && PassDone(t, Passed(s1, t[v], t[v], v), rib[v := n], v)
            && PassMarks(s, Passed(s1, t[v], t[v], v), t[v], v)
  {
    var rib' := rib[v := n];
    var s1 := s[v := s[v].(nexthop := n)];
    AddOne(rib, v, n);
    FixedAt(t, s, rib, v);
    ShapeOne(t, rib, rib', v);
    FixedOne(t, s, rib, rib', v, s1[v]);
    var s2 := Passed(s1, t[v], t[v], v);
    PassedFixed(t, s1, rib', t[v], t[v], v);
    PassedConnected(t, s1, rib', t[v], t[v], v);
    assert UnmarkedBelow(s1, v) && UnmarkedBeside(s2, v) by {
      assert Open(MarksKey);
      assert forall x: Path :: Extends(x, []);
    }
    forall x | x in s2 ensures s2[x].ext == ExtOf(t, rib', x) {
      ExtChanged(t, rib, v, n, x);
      assert s[x].ext == ExtOf(t, rib, x) by { assert Open(ExtsKey); assert Extends(x, []); }
    }
    assert ExtsBelow(t, s2, rib', []) by { assert Open(ExtsKey); }
    PassedMarks(s, s1, s2, t[v], t[v], v);
  }

  /** The marks of a pass. */
  lemma {:induction false} PassedMarks(s: Snap, s1: Snap, s2: Snap, e: RadixNode, next: RadixNode?, v: Path)
    requires UnmarkedBelow(s, []) && s1.Keys == s.Keys
        && (forall x :: x in s ==> s1[x].ext == s[x].ext && s1[x].mark == s[x].mark)
    requires s2.Keys == s.Keys && forall x :: x in s ==> s2[x].mark == Passed(s1, e, next, v)[x].mark
    ensures PassMarks(s, s2, e, v)
  {
    assert Open(MarksKey);
    forall x | x in s ensures s2[x].mark <==> Extends(x, v) && HasExt(s, e, x) {
      assert Extends(x, []);
      assert HasExt(s1, e, x) <==> HasExt(s, e, x);
    }
  }

  /** The delete pass replaces the deleted route by the next shorter one. */
  lemma {:induction false} DeletePass(t: Tree, s: Snap, rib: Routes, v: Path, next: RadixNode?)
    requires Clean(t, s, rib) && v in t && v in rib && next == ExtAbove(t, rib, v)
    ensures UnmarkedBelow(s, v)
    ensures var s1 := Passed(s, t[v], next, v);
            && v in s1 && PassDone(t, s1[v := s1[v].(valid := false, nexthop := 0)], rib - {v}, v)
            && PassMarks(s, s1[v := s1[v].(valid := false, nexthop := 0)], t[v], v)
  {
    var rib' := rib - {v};
    var s1 := Passed(s, t[v], next, v);
    var s2 := s1[v := s1[v].(valid := false, nexthop := 0)];
    AddOne(rib, v, 0);
    ShapeOne(t, rib, rib', v);
    PassedFixed(t, s, rib, t[v], next, v);
    FixedOne(t, s1, rib, rib', v, s2[v]);
    PassedConnected(t, s, rib, t[v], next, v);
    SameMarks(s1, s2, v);
    assert UnmarkedBelow(s, v) && UnmarkedBeside(s2, v) by {
      assert Open(MarksKey);
      assert forall x: Path :: Extends(x, []);
      assert Extends(v, v);
    }
    forall x | x in s2 ensures s2[x].ext == ExtOf(t, rib', x) {
      ExtDeleted(t, rib, v, x);
      assert s[x].ext == ExtOf(t, rib, x) by { assert Open(ExtsKey); assert Extends(x, []); }
    }
    assert ExtsBelow(t, s2, rib', []) by { assert Open(ExtsKey); }
    PassedMarks(s, s, s2, t[v], next, v);
  }

  lemma {:induction false} SameMarks(s: Snap, s': Snap, v: Path)
    requires MarksConnected(s, v) && s'.Keys == s.Keys && forall x :: x in s ==> s'[x].mark == s[x].mark
    ensures MarksConnected(s', v)
  {
  }

  /** Store the new next hop of the route at v and mark. */
  method MarkChanged(node: RadixNode, ghost t: Tree, ghost rib: Routes, ghost v: Path, n: nat)
    requires Clean(t, View(t), rib) && v in t && node == t[v] && v in rib
    modifies t.Values
    ensures PassDone(t, View(t), rib[v := n], v) && PassMarks(old(View(t)), View(t), t[v], v)
  {
    ghost var s := View(t);
    ChangePass(t, s, rib, v, n);
    SetNextHop(node, n, t, rib, v);
    InSubAll(t, v);
    var m := Propagate(node, node, node, t, rib[v := n], v);
  }

  method SetNextHop(node: RadixNode, n: nat, ghost t: Tree, ghost rib: Routes, ghost v: Path)
    requires Shape(t, rib) && v in t && node == t[v]
    modifies node
    ensures v in old(View(t)) && View(t) == old(View(t))[v := old(View(t))[v].(nexthop := n)]
  {
    ghost var s := View(t);
    node.nexthop := n;
    OneObject(t, rib, s, v);
    assert FieldsOf(node) == s[v].(nexthop := n);
  }

  /** Let those who cache the route at v cache ext, mark, and invalidate the object. */
  method MarkDeleted(node: RadixNode, ext: RadixNode?, ghost t: Tree, ghost rib: Routes, ghost v: Path)
    requires Clean(t, View(t), rib) && v in t && node == t[v] && v in rib && ext == ExtAbove(t, rib, v)
    modifies t.Values
    ensures PassDone(t, View(t), rib - {v}, v) && PassMarks(old(View(t)), View(t), t[v], v)
  {
    DeletePass(t, View(t), rib, v, ext);
    InSubAll(t, v);
    var m := Propagate(node, node, ext, t, rib, v);
    Invalidate(node, t, rib, v);
  }

  method Invalidate(node: RadixNode, ghost t: Tree, ghost rib: Routes, ghost v: Path)
    requires Shape(t, rib) && v in t && node == t[v]
    modifies node
    ensures v in old(View(t)) && View(t) == old(View(t))[v := old(View(t))[v].(valid := false, nexthop := 0)]
  {
    ghost var s := View(t);
    node.valid := false;
    node.nexthop := 0;
    OneObject(t, rib, s, v);
    assert FieldsOf(node) == s[v].(valid := false, nexthop := 0);
  }

  lemma {:induction false} InSubAll(t: Tree, p: Path)
    ensures Sub(t, p) <= t.Values
  {
  }

  /** Clear the marks below v. */
  method ClearAll(node: RadixNode, ghost t: Tree, ghost rib: Routes, ghost v: Path)
    requires PassDone(t, View(t), rib, v) && node == t[v]
    modifies t.Values
    ensures Clean(t, View(t), rib)
  {
    ghost var s := View(t);
    InSubAll(t, v);
    ClearMark(node, t, rib, v);
    ClearedClean(t, s, rib, v);
  }
}
