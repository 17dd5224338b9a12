/** The passes over the radix tree that follow an addition. */
module RadixUpdate {
  // They keep the cached ancestors up to date and mark what must be compiled again.

  import opened Bits
  import opened Forwarding
  import opened Folding
  import opened Radix

  /** The objects at and below p. */
  ghost function Sub(t: Tree, p: Path): set<RadixNode> {
    set x | x in t.Values && Extends(x.path, p)
  }

  lemma {:induction false} InSub(t: Tree, rib: Routes, p: Path, x: Path)
    requires Shape(t, rib) && x in t
    ensures t[x] in Sub(t, p) <==> Extends(x, p)
  {
    assert Open(ShapeKey);
  }

  lemma {:induction false} SubMonotone(t: Tree, p: Path, b: bool)
    ensures Sub(t, p + [b]) <= Sub(t, p)
  {
    forall x | x in Sub(t, p + [b]) ensures Extends(x.path, p) {
      ExtendsTrans(x.path, p + [b], p);
    }
  }

  // ---------- adding ----------

  /** No route lies strictly between v and x. */
  ghost predicate Visited(rib: Routes, v: Path, x: Path) {
    Extends(x, v) && forall w :: w in rib && |v| < |w| < |x| ==> !Extends(x, w)
  }

  ghost predicate MarkedBelow(s: Snap, rib: Routes, v: Path, p: Path) {
    forall k: Key :: Open(k) && k.MarksKey? ==>
      forall x :: x in s && Extends(x, p) ==> (s[x].mark <==> Visited(rib, v, x))
  }

  /** ExtOf finds the longest route. */
  lemma {:induction false} ExtIs(t: Tree, rib: Routes, p: Path)
    requires Shape(t, rib)
    ensures var e := ExtOf(t, rib, p);
            if e == null then NoMatch(rib, p)
            else e.path in rib && e.path in t && t[e.path] == e && Extends(p, e.path) && NoneBetween(rib, e.path, p)
  {
    if p in rib && p in t {
      assert Open(ShapeKey);
    } else if p == [] {
      assert Open(ShapeKey);
    } else {
      var b := p[..|p| - 1];
      ExtIs(t, rib, b);
      var e := ExtOf(t, rib, b);
      forall w | w in rib && Extends(p, w) ensures Extends(b, w) {
        assert Open(ShapeKey);
        assert w != p;
      }
    }
  }

  /** The route w is the cached one when it is the longest. */
  lemma {:induction false} ExtIsRoute(t: Tree, rib: Routes, p: Path, w: Path)
    requires Shape(t, rib) && w in rib && Extends(p, w) && NoneBetween(rib, w, p)
    ensures w in t && ExtOf(t, rib, p) == t[w]
  {
    ExtIs(t, rib, p);
    assert Open(ShapeKey);
    var e := ExtOf(t, rib, p);
    assert |e.path| == |w|;
    assert e.path == p[..|w|] == w;
  }

  /** A more specific route keeps v out. */
  lemma {:induction false} ExtKept(t: Tree, rib: Routes, v: Path, n: nat, w: Path, x: Path)
    requires Shape(t, rib[v := n]) && v !in rib && w in rib && |v| < |w| && Extends(x, w)
    ensures ExtOf(t, rib[v := n], x) == ExtOf(t, rib, x)
    decreases |x|
  {
    assert Open(ShapeKey);
    assert x != v;
    if x !in rib {
      assert x != w;
      assert Extends(x[..|x| - 1], w);
      ExtKept(t, rib, v, n, w, x[..|x| - 1]);
    }
  }

  lemma {:induction false} ShapeLess(t: Tree, rib: Routes, v: Path, n: nat)
    requires Shape(t, rib[v := n])
    ensures Shape(t, rib) && v in t
  {
    assert Open(ShapeKey);
  }

  /** The new route becomes the cached ancestor of p, which had none or a less specific one, when no
      route lies between them. */
  lemma {:induction false} AddAt(t: Tree, rib: Routes, v: Path, n: nat, p: Path)
    requires Shape(t, rib[v := n]) && v !in rib && Visited(rib, v, p) && p !in rib
    ensures v in t && ExtOf(t, rib[v := n], p) == t[v]
    ensures var e := ExtOf(t, rib, p);
            e == null || (e.path in rib && e.path in t && t[e.path] == e && |e.path| < |v|)
  {
    ShapeLess(t, rib, v, n);
    var rib' := rib[v := n];
    forall w | w in rib' && |v| < |w| ensures !Extends(p, w) {
      assert Extends(p, w) && |w| == |p| ==> w == p;
    }
    ExtIsRoute(t, rib', p, v);
    ExtIs(t, rib, p);
    var e := ExtOf(t, rib, p);
    assert e != null ==> |e.path| < |v| by {
      if e != null { LongerMatch(rib, v, p, e.path); }
    }
  }

  lemma {:induction false} LongerMatch(rib: Routes, v: Path, p: Path, w: Path)
    requires Visited(rib, v, p) && p !in rib && v !in rib && w in rib && Extends(p, w)
    ensures |w| < |v|
  {
    assert |w| == |p| ==> w == p;
    assert |w| == |v| ==> w == v;
  }

  /** A route p below v is its own cached ancestor. */
  lemma {:induction false} AddAtRoute(t: Tree, rib: Routes, v: Path, n: nat, p: Path)
    requires Shape(t, rib[v := n]) && v !in rib && Visited(rib, v, p) && p in rib
    ensures p in t && ExtOf(t, rib, p) == t[p] == ExtOf(t, rib[v := n], p) && |v| < |p|
  {
    assert Open(ShapeKey);
    assert |p| == |v| ==> p == v;
  }

  /** Below a route p, nothing is visited and nothing changes. */
  lemma {:induction false} StopsAt(t: Tree, rib: Routes, v: Path, n: nat, p: Path, x: Path)
    requires Shape(t, rib[v := n]) && v !in rib && p in rib && |v| < |p| && Extends(x, p)
    ensures ExtOf(t, rib[v := n], x) == ExtOf(t, rib, x)
    ensures x != p ==> !Visited(rib, v, x)
  {
    ExtKept(t, rib, v, n, p, x);
    if x != p { assert x[..|p|] == p; }
  }

  lemma {:induction false} VisitedChild(rib: Routes, v: Path, p: Path, b: bool)
    requires Visited(rib, v, p) && p !in rib
    ensures Visited(rib, v, p + [b])
  {
    var x := p + [b];
    assert x[..|v|] == p[..|v|];
    forall w | w in rib && |v| < |w| < |x| ensures !Extends(x, w) {
      assert x[..|w|] == p[..|w|];
      if |w| == |p| { assert p[..|w|] == p; }
    }
  }

  /** What lies below p is p itself or below one of its children. */
  lemma {:induction false} BelowSplit(x: Path, p: Path)
    requires Extends(x, p)
    ensures x == p || Extends(x, p + [false]) || Extends(x, p + [true])
    ensures !(Extends(x, p + [false]) && Extends(x, p + [true])) && !Extends(p, p + [false]) && !Extends(p, p + [true])
  {
    if |x| > |p| {
      assert x[..|p| + 1] == p + [x[|p|]];
      assert p + [x[|p|]] == if x[|p|] then p + [true] else p + [false];
      assert Extends(x, p + [false]) ==> x[..|p| + 1][|p|] == false;
      assert Extends(x, p + [true]) ==> x[..|p| + 1][|p|] == true;
    } else {
      assert x == x[..|p|];
    }
  }

  // ---------- putting the two subtrees together ----------

  lemma {:induction false} BelowCases(s: Snap, p: Path)
    ensures forall x :: Extends(x, p + [false]) ==> Extends(x, p) && x != p && !Extends(x, p + [true])
    ensures forall x :: Extends(x, p + [true]) ==> Extends(x, p) && x != p && !Extends(x, p + [false])
    ensures forall x :: x in s && Extends(x, p) ==> x == p || Extends(x, p + [false]) || Extends(x, p + [true])
  {
    forall x | Extends(x, p + [false]) ensures Extends(x, p) && x != p && !Extends(x, p + [true]) {
      ExtendsTrans(x, p + [false], p);
      BelowSplit(x, p);
    }
    forall x | Extends(x, p + [true]) ensures Extends(x, p) && x != p && !Extends(x, p + [false]) {
      ExtendsTrans(x, p + [true], p);
      BelowSplit(x, p);
    }
    forall x | x in s && Extends(x, p) ensures x == p || Extends(x, p + [false]) || Extends(x, p + [true]) {
      BelowSplit(x, p);
    }
  }

  lemma {:induction false} ExtsJoin(t: Tree, s: Snap, rib: Routes, p: Path)
    requires ExtsBelow(t, s, rib, p + [false]) && ExtsBelow(t, s, rib, p + [true])
    requires p in s ==> s[p].ext == ExtOf(t, rib, p)
    ensures ExtsBelow(t, s, rib, p)
  {
    assert Open(ExtsKey);
    BelowCases(s, p);
  }

  lemma {:induction false} MarkedJoin(s: Snap, rib: Routes, v: Path, p: Path)
    requires MarkedBelow(s, rib, v, p + [false]) && MarkedBelow(s, rib, v, p + [true])
    requires p in s ==> (s[p].mark <==> Visited(rib, v, p))
    ensures MarkedBelow(s, rib, v, p)
  {
    assert Open(MarksKey);
    BelowCases(s, p);
  }

  /** Without a node at p there is none below. */
  lemma {:induction false} NothingThere(t: Tree, s: Snap, rib: Routes, rib': Routes, v: Path, p: Path)
    requires Shape(t, rib) && p !in t && s.Keys == t.Keys
    ensures ExtsBelow(t, s, rib', p) && MarkedBelow(s, rib', v, p) && UnmarkedBelow(s, p)
  {
    forall x | x in s ensures !Extends(x, p) {
      if Extends(x, p) { PrefixIn(t, rib, x, |p|); }
    }
  }

  /** Only cached ancestors and marks, and only those below p, have changed. */
  ghost predicate OnlyBelow(s: Snap, s': Snap, p: Path) {
    && s'.Keys == s.Keys
    && forall k: Key :: Open(k) && k.KeptKey? ==>
        && (forall x :: x in s ==> s'[x] == s[x].(ext := s'[x].ext, mark := s'[x].mark))
        && (forall x :: x in s && !Extends(x, p) ==> s'[x] == s[x])
  }

  lemma {:induction false} OnlyBelowTrans(s: Snap, s': Snap, s'': Snap, p: Path)
    requires OnlyBelow(s, s', p) && OnlyBelow(s', s'', p)
    ensures OnlyBelow(s, s'', p)
  {
    assert Open(KeptKey);
  }

  lemma {:induction false} OnlyBelowChild(s: Snap, s': Snap, p: Path, b: bool)
    requires OnlyBelow(s, s', p + [b])
    ensures OnlyBelow(s, s', p) && (p in s ==> s'[p] == s[p])
  {
    assert Open(KeptKey);
    BelowCases(s, p);
    assert p + [b] == if b then p + [true] else p + [false];
  }

  lemma {:induction false} FixedKept(t: Tree, s: Snap, s': Snap, rib: Routes, p: Path)
    requires OnlyBelow(s, s', p) && Fixed(t, s, rib)
    ensures Fixed(t, s', rib)
  {
    assert Open(FixedKey) && Open(KeptKey);
  }

  /** What is known below one child survives changes below the other. */
  lemma {:induction false} SiblingKept(t: Tree, s: Snap, s': Snap, rib: Routes, rib': Routes, v: Path, p: Path, b: bool)
    requires OnlyBelow(s, s', p + [b])
    ensures ExtsBelow(t, s, rib, p + [!b]) ==> ExtsBelow(t, s', rib, p + [!b])
    ensures UnmarkedBelow(s, p + [!b]) ==> UnmarkedBelow(s', p + [!b])
    ensures MarkedBelow(s, rib', v, p + [!b]) ==> MarkedBelow(s', rib', v, p + [!b])
  {
    assert Open(KeptKey) && Open(ExtsKey) && Open(MarksKey);
    BelowCases(s, p);
    if b {
      assert p + [b] == p + [true] && p + [!b] == p + [false];
    } else {
      assert p + [b] == p + [false] && p + [!b] == p + [true];
    }
  }

  /** At a route below v the pass marks the object and stops. */
  lemma {:induction false} Stopped(t: Tree, s: Snap, rib: Routes, v: Path, n: nat, p: Path)
    requires Shape(t, rib[v := n]) && v !in rib && p in rib && |v| < |p| && p in s && Visited(rib, v, p)
    requires ExtsBelow(t, s, rib, p) && UnmarkedBelow(s, p)
    ensures var s' := s[p := s[p].(mark := true)];
            ExtsBelow(t, s', rib[v := n], p) && MarkedBelow(s', rib, v, p) && OnlyBelow(s, s', p)
  {
    assert Open(ExtsKey) && Open(MarksKey) && Open(KeptKey);
    var s' := s[p := s[p].(mark := true)];
    forall x | x in s && Extends(x, p)
      ensures s'[x].ext == ExtOf(t, rib[v := n], x) && (s'[x].mark <==> Visited(rib, v, x))
    {
      StopsAt(t, rib, v, n, p, x);
    }
    assert Extends(p, p);
  }

  /** When only the object at p has changed, what was known below its children still holds. */
  lemma {:induction false} ChildrenKept(t: Tree, s: Snap, rib: Routes, p: Path, o: Fields)
    requires p in s && ExtsBelow(t, s, rib, p) && UnmarkedBelow(s, p)
    ensures var s' := s[p := o];
            && ExtsBelow(t, s', rib, p + [false]) && UnmarkedBelow(s', p + [false])
            && ExtsBelow(t, s', rib, p + [true]) && UnmarkedBelow(s', p + [true])
    ensures o == s[p].(ext := o.ext, mark := o.mark) ==> OnlyBelow(s, s[p := o], p)
  {
    assert Open(ExtsKey) && Open(MarksKey) && Open(KeptKey);
    BelowCases(s, p);
    assert Extends(p, p);
  }

  /** The comparison of lengths tells whether p is a route. */
  lemma {:induction false} LenAt(t: Tree, s: Snap, rib: Routes, v: Path, n: nat, p: Path)
    requires Shape(t, rib[v := n]) && v !in rib && p in t && v in t && Visited(rib, v, p)
    requires Fixed(t, s, rib[v := n]) && ExtsBelow(t, s, rib, p)
    ensures p in s && v in s && t[p].path == p && (p !in rib ==> ExtOf(t, rib[v := n], p) == t[v])
    ensures p in rib ==> |v| < |p|
    ensures s[p].ext != null ==> s[p].ext.path in t && s[p].ext.path in s && t[s[p].ext.path] == s[p].ext
    ensures p in rib <==> s[p].ext != null && s[v].len <= s[s[p].ext.path].len
  {
    ShapeLess(t, rib, v, n);
    FixedAt(t, s, rib[v := n], v);
    FixedAt(t, s, rib[v := n], p);
    assert s[p].ext == ExtOf(t, rib, p) by { assert Open(ExtsKey) && Extends(p, p); }
    if p in rib {
      AddAtRoute(t, rib, v, n, p);
    } else {
      AddAt(t, rib, v, n, p);
      var e := s[p].ext;
      if e != null { FixedAt(t, s, rib[v := n], e.path); }
    }
  }

  /** The object at p itself, and whether the objects below it must be visited. */
  method AddHere(node: RadixNode, ext: RadixNode, ghost t: Tree, ghost rib: Routes, ghost v: Path, ghost n: nat,
                 ghost p: Path)
    returns (down: bool)
    requires Shape(t, rib[v := n]) && v !in rib && p in t && node == t[p] && v in t && ext == t[v]
    requires Visited(rib, v, p)
    requires Fixed(t, View(t), rib[v := n]) && ExtsBelow(t, View(t), rib, p) && UnmarkedBelow(View(t), p)
    modifies node
    ensures OnlyBelow(old(View(t)), View(t), p) && node.mark
    ensures down <==> p !in rib
    ensures down ==> node.ext == ext == ExtOf(t, rib[v := n], p)
    ensures down ==> ExtsBelow(t, View(t), rib, p + [false]) && UnmarkedBelow(View(t), p + [false])
    ensures down ==> ExtsBelow(t, View(t), rib, p + [true]) && UnmarkedBelow(View(t), p + [true])
    ensures !down ==> ExtsBelow(t, View(t), rib[v := n], p) && MarkedBelow(View(t), rib, v, p)
  {
    ghost var s := View(t);
    LenAt(t, s, rib, v, n, p);
    down := true;
    if node.ext != null {
      if ext.len > node.ext.len {
        node.mark := true;
        node.ext := ext;
      } else {
        node.mark := true;
        down := false;
      }
    } else {
      node.mark := true;
      node.ext := ext;
    }
    OneObject(t, rib[v := n], s, p);
    if down {
      ChildrenKept(t, s, rib, p, FieldsOf(node));
    } else {
      Stopped(t, s, rib, v, n, p);
    }
  }

  /** Changing the object at p changes nothing else. */
  lemma {:induction false} OneObject(t: Tree, rib: Routes, s: Snap, p: Path)
    requires Shape(t, rib) && p in t && s.Keys == t.Keys
    requires forall x :: x in t && t[x] != t[p] ==> s[x] == FieldsOf(t[x])
    ensures View(t) == s[p := FieldsOf(t[p])]
  {
    forall x | x in t && x != p ensures t[x] != t[p] {
      assert Open(ShapeKey);
    }
    var s' := s[p := FieldsOf(t[p])];
    assert s'.Keys == View(t).Keys;
    assert forall x :: x in s' ==> View(t)[x] == s'[x];
  }

  /** poptrie_route_add_propagate: the route at v, below which p lies, has been added. */
  method AddPropagate(node: RadixNode, ext: RadixNode, ghost t: Tree, ghost rib: Routes, ghost v: Path, ghost n: nat,
                      ghost p: Path)
    returns (mark: bool)
    requires Shape(t, rib[v := n]) && v !in rib && p in t && node == t[p] && v in t && ext == t[v]
    requires Visited(rib, v, p)
    requires Fixed(t, View(t), rib[v := n]) && ExtsBelow(t, View(t), rib, p) && UnmarkedBelow(View(t), p)
    modifies Sub(t, p)
    ensures OnlyBelow(old(View(t)), View(t), p)
    ensures ExtsBelow(t, View(t), rib[v := n], p) && MarkedBelow(View(t), rib, v, p)
    ensures mark == node.mark
    decreases KEYLENGTH + 1 - |p|, 1
  {
    ghost var s := View(t);
    FixedAt(t, s, rib[v := n], p);
    InSub(t, rib[v := n], p, p);
    SubMonotone(t, p, false);
    SubMonotone(t, p, true);
    var down := AddHere(node, ext, t, rib, v, n, p);
    if !down {
      return node.mark;
    }
    ghost var s1 := View(t);
    FixedKept(t, s, s1, rib[v := n], p);
    AddSide(node, ext, t, rib, v, n, p, false);
    ghost var s2 := View(t);
    AfterLeft(t, s1, s2, rib, v, n, p);
    AddSide(node, ext, t, rib, v, n, p, true);
    AfterRight(t, s2, View(t), rib, v, n, p);
    OnlyBelowTrans(s1, s2, View(t), p);
    OnlyBelowTrans(s, s1, View(t), p);
    return node.mark;
  }

  lemma {:induction false} AfterLeft(t: Tree, s: Snap, s': Snap, rib: Routes, v: Path, n: nat, p: Path)
    requires OnlyBelow(s, s', p + [false]) && Fixed(t, s, rib[v := n])
    requires ExtsBelow(t, s, rib, p + [true]) && UnmarkedBelow(s, p + [true])
    ensures ExtsBelow(t, s', rib, p + [true]) && UnmarkedBelow(s', p + [true])
    ensures Fixed(t, s', rib[v := n]) && OnlyBelow(s, s', p) && (p in s ==> s'[p] == s[p])
  {
    SiblingKept(t, s, s', rib, rib, v, p, false);
    OnlyBelowChild(s, s', p, false);
    FixedKept(t, s, s', rib[v := n], p);
  }

  lemma {:induction false} AfterRight(t: Tree, s: Snap, s': Snap, rib: Routes, v: Path, n: nat, p: Path)
    requires OnlyBelow(s, s', p + [true])
    requires ExtsBelow(t, s, rib[v := n], p + [false]) && MarkedBelow(s, rib, v, p + [false])
    requires ExtsBelow(t, s', rib[v := n], p + [true]) && MarkedBelow(s', rib, v, p + [true])
    requires p in s && s[p].ext == ExtOf(t, rib[v := n], p) && s[p].mark && Visited(rib, v, p)
    ensures ExtsBelow(t, s', rib[v := n], p) && MarkedBelow(s', rib, v, p)
    ensures OnlyBelow(s, s', p) && s'[p] == s[p]
  {
    SiblingKept(t, s, s', rib[v := n], rib, v, p, true);
    OnlyBelowChild(s, s', p, true);
    ExtsJoin(t, s', rib[v := n], p);
    MarkedJoin(s', rib, v, p);
  }

  /** The pass over one of the two subtrees of p. */
  method AddSide(node: RadixNode, ext: RadixNode, ghost t: Tree, ghost rib: Routes, ghost v: Path, ghost n: nat,
                 ghost p: Path, b: bool)
    requires Shape(t, rib[v := n]) && v !in rib && p in t && node == t[p] && v in t && ext == t[v]
    requires Visited(rib, v, p) && p !in rib && node.mark
    requires Fixed(t, View(t), rib[v := n]) && ExtsBelow(t, View(t), rib, p + [b]) && UnmarkedBelow(View(t), p + [b])
    modifies Sub(t, p)
    ensures OnlyBelow(old(View(t)), View(t), p + [b])
    ensures ExtsBelow(t, View(t), rib[v := n], p + [b]) && MarkedBelow(View(t), rib, v, p + [b])
    decreases KEYLENGTH + 1 - |p|, 0
  {
    ghost var s := View(t);
    FixedAt(t, s, rib[v := n], p);
    var child := if b then node.right else node.left;
    if child != null {
      VisitedChild(rib, v, p, b);
      SubMonotone(t, p, b);
      var m := AddPropagate(child, ext, t, rib, v, n, p + [b]);
      OnlyBelowChild(s, View(t), p, b);
      InSub(t, rib[v := n], p, p);
      MarkAgain(node, m, t, rib[v := n], p);
    } else {
      NothingThere(t, s, rib[v := n], rib[v := n], v, p + [b]);
      NothingThere(t, s, rib[v := n], rib, v, p + [b]);
      OnlyBelowRefl(s, p + [b]);
    }
  }

  method MarkAgain(node: RadixNode, m: bool, ghost t: Tree, ghost rib: Routes, ghost p: Path)
    requires Shape(t, rib) && p in t && node == t[p] && node.mark
    modifies node
    ensures View(t) == old(View(t))
  {
    ghost var s := View(t);
    node.mark := node.mark || m;
    OneObject(t, rib, s, p);
    assert View(t) == s;
  }

  lemma {:induction false} OnlyBelowRefl(s: Snap, p: Path)
    ensures OnlyBelow(s, s, p)
  {
    assert Open(KeptKey);
  }
}
