/** Extending the radix tree along the path of a prefix. */
module RibGrow {
  import opened Bits
  import opened Forwarding
  import opened Folding
  import opened Radix

  // ---------- a new leaf of the tree ----------

  /** A new object for c is linked below the one at p. */
  ghost function Linked(s: Snap, p: Path, b: bool, child: RadixNode, o: Fields): Snap
    requires p in s
  {
    s[p := if b then s[p].(right := child) else s[p].(left := child)][p + [b] := o]
  }

  /** The fields of a new object. */
  predicate Fresh(o: Fields, ext: RadixNode?) {
    !o.valid && o.left == null && o.right == null && o.ext == ext && !o.mark
  }

  lemma {:induction false} GrowShape(t: Tree, rib: Routes, p: Path, b: bool, child: RadixNode)
    requires Shape(t, rib) && p in t && p + [b] !in t && child.path == p + [b] && |p| < KEYLENGTH
    ensures Shape(t[p + [b] := child], rib)
  {
    assert Open(ShapeKey);
    var c := p + [b];
    var t' := t[c := child];
    assert c[..|c| - 1] == p;
    forall x | x in t' && x != [] ensures x[..|x| - 1] in t' {
      if x != c { assert x[..|x| - 1] in t; }
    }
  }

  lemma {:induction false} GrowExt(t: Tree, rib: Routes, c: Path, child: RadixNode, x: Path)
    requires Shape(t, rib) && c !in t
    ensures ExtOf(t[c := child], rib, x) == ExtOf(t, rib, x)
  {
    assert Open(ShapeKey);
    if x !in rib && x != [] {
      GrowExt(t, rib, c, child, x[..|x| - 1]);
    }
  }

  lemma {:induction false} GrowLinks(t: Tree, p: Path, b: bool, child: RadixNode, x: Path, o: Fields)
    requires LinksAt(t, x, o) && x != p && p + [b] !in t
    ensures LinksAt(t[p + [b] := child], x, o)
  {
    ChildPath(x, false, p, b);
    ChildPath(x, true, p, b);
  }

  lemma {:induction false} ChildPath(x: Path, d: bool, p: Path, b: bool)
    ensures x + [d] == p + [b] ==> x == p
  {
    assert (x + [d])[..|x|] == x && (p + [b])[..|p|] == p;
  }

  lemma {:induction false} GrowFixed(t: Tree, s: Snap, rib: Routes, p: Path, b: bool, child: RadixNode, o: Fields)
    requires Shape(t, rib) && Fixed(t, s, rib) && p in t && p + [b] !in t && Fresh(o, o.ext)
    ensures p in s && Fixed(t[p + [b] := child], Linked(s, p, b, child, o), rib)
  {
    assert Open(FixedKey);
    var c := p + [b];
    var t', s' := t[c := child], Linked(s, p, b, child, o);
    assert c !in rib by { assert Open(ShapeKey); }
    forall x | x in s' ensures LinksAt(t', x, s'[x]) && RouteAt(rib, x, s'[x]) {
      if x == c {
        NoKidsYet(t, rib, p, b, child);
      } else if x == p {
        PairOfKids(t, p, b, child);
      } else {
        GrowLinks(t, p, b, child, x, s[x]);
      }
    }
  }

  lemma {:induction false} NoKidsYet(t: Tree, rib: Routes, p: Path, b: bool, child: RadixNode)
    requires Shape(t, rib) && p + [b] !in t
    ensures forall d: bool :: p + [b] + [d] !in t[p + [b] := child]
  {
    forall d: bool ensures p + [b] + [d] !in t[p + [b] := child] {
      assert Open(ShapeKey);
      assert (p + [b] + [d])[..|p| + 1] == p + [b];
    }
  }

  lemma {:induction false} PairOfKids(t: Tree, p: Path, b: bool, child: RadixNode)
    ensures forall d: bool :: Child(t[p + [b] := child], p, d) == if d == b then child else Child(t, p, d)
  {
    forall d: bool ensures Child(t[p + [b] := child], p, d) == if d == b then child else Child(t, p, d) {
      assert (p + [d])[|p|] == d && (p + [b])[|p|] == b;
    }
  }

  lemma {:induction false} GrowExts(t: Tree, s: Snap, rib: Routes, p: Path, b: bool, child: RadixNode, o: Fields)
    requires Shape(t, rib) && s.Keys == t.Keys && ExtsBelow(t, s, rib, []) && p in t && p + [b] !in t
        && o.ext == ExtOf(t, rib, p)
    ensures ExtsBelow(t[p + [b] := child], Linked(s, p, b, child, o), rib, [])
  {
    assert Open(ExtsKey);
    var c := p + [b];
    var s' := Linked(s, p, b, child, o);
    forall x | x in s' ensures s'[x].ext == ExtOf(t[c := child], rib, x) {
      GrowExt(t, rib, c, child, x);
      if x == c {
        assert c !in rib by { assert Open(ShapeKey); }
        assert c[..|c| - 1] == p;
      } else {
        assert Extends(x, []);
      }
    }
  }

  lemma {:induction false} GrowMarks(s: Snap, p: Path, b: bool, child: RadixNode, o: Fields)
    requires UnmarkedBelow(s, []) && p in s && !o.mark
    ensures UnmarkedBelow(Linked(s, p, b, child, o), [])
  {
    assert Open(MarksKey);
    var s' := Linked(s, p, b, child, o);
    forall x | x in s' ensures !s'[x].mark {
      if x in s { assert Extends(x, []); }
    }
  }

  /** The tree is right, and nothing is marked. */
  ghost predicate Clean(t: Tree, s: Snap, rib: Routes) {
    Shape(t, rib) && s.Keys == t.Keys && Fixed(t, s, rib) && ExtsBelow(t, s, rib, []) && UnmarkedBelow(s, [])
  }

  lemma {:induction false} GrowClean(t: Tree, s: Snap, rib: Routes, p: Path, b: bool, child: RadixNode, o: Fields)
    requires Clean(t, s, rib) && p in t && p + [b] !in t && child.path == p + [b] && |p| < KEYLENGTH
        && Fresh(o, ExtOf(t, rib, p))
    ensures Clean(t[p + [b] := child], Linked(s, p, b, child, o), rib)
  {
    GrowShape(t, rib, p, b, child);
    GrowFixed(t, s, rib, p, b, child, o);
    GrowExts(t, s, rib, p, b, child, o);
    GrowMarks(s, p, b, child, o);
  }

  /** The view of the extended tree. */
  lemma {:induction false} GrownView(t: Tree, s: Snap, rib: Routes, p: Path, b: bool, child: RadixNode, o: Fields)
    requires Shape(t, rib) && p in t && p + [b] !in t && s.Keys == t.Keys
    requires forall x :: x in t && x != p ==> FieldsOf(t[x]) == s[x]
    requires FieldsOf(t[p]) == if b then s[p].(right := child) else s[p].(left := child)
    requires FieldsOf(child) == o
    ensures View(t[p + [b] := child]) == Linked(s, p, b, child, o)
  {
    var t' := t[p + [b] := child];
    var s' := Linked(s, p, b, child, o);
    assert View(t').Keys == s'.Keys;
    forall x | x in s' ensures View(t')[x] == s'[x] {
    }
  }

  /** Link a new object below the one at p. */
  method NewChild(node: RadixNode, b: bool, ext: RadixNode?, ghost t: Tree, ghost rib: Routes, ghost p: Path)
    returns (child: RadixNode, ghost t': Tree)
    requires Clean(t, View(t), rib) && p in t && node == t[p] && p + [b] !in t && |p| < KEYLENGTH
        && ext == ExtOf(t, rib, p)
    modifies node
    ensures Clean(t', View(t'), rib) && fresh(child) && t' == t[p + [b] := child]
  {
    ghost var s := View(t);
    Distinct(t, rib, p);
    child := new RadixNode(ext, p + [b]);
    t' := t[p + [b] := child];
    if b {
      node.right := child;
    } else {
      node.left := child;
    }
    forall x | x in t && x != p ensures FieldsOf(t[x]) == s[x] {
      assert t[x] != node && t[x] != child;
    }
    assert FieldsOf(node) == if b then s[p].(right := child) else s[p].(left := child);
    GrowClean(t, s, rib, p, b, child, FieldsOf(child));
    GrownView(t, s, rib, p, b, child, FieldsOf(child));
  }

  lemma {:induction false} Distinct(t: Tree, rib: Routes, p: Path)
    requires Shape(t, rib) && p in t
    ensures forall x :: x in t && x != p ==> t[x] != t[p]
  {
    assert Open(ShapeKey);
  }
}
