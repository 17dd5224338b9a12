/** The RIB: a binary radix tree of objects that cache their nearest valid ancestor. */
module Radix {
  import opened Bits
  import opened Forwarding
  import opened Folding

  class RadixNode {
    var valid: bool
    var left: RadixNode?
    var right: RadixNode?
    var len: nat
    var nexthop: nat
    var ext: RadixNode?
    var mark: bool
    ghost const path: Path

    /** len and nexthop are left as they are. */
    constructor (ext: RadixNode?, ghost path: Path)
      ensures !valid && left == null && right == null && this.ext == ext && !mark && this.path == path
    {
      valid, left, right, this.ext, mark := false, null, null, ext, false;
      this.path := path;
    }
  }

  /** The nodes of a radix tree by path. */
  type Tree = map<Path, RadixNode>

  function Child(t: Tree, p: Path, b: bool): RadixNode? {
    if p + [b] in t then t[p + [b]] else null
  }

  /** The nearest valid ancestor-or-self. */
  function ExtOf(t: Tree, rib: Routes, p: Path): RadixNode? {
    if p in rib && p in t then t[p]
    else if p == [] then null
    else ExtOf(t, rib, p[..|p| - 1])
  }

  /** Paths, and that every route has a node. */
  ghost predicate Shape(t: Tree, rib: Routes) {
    forall k: Key :: Open(k) && k.ShapeKey? ==>
      && (forall p :: p in t ==> |p| <= KEYLENGTH && t[p].path == p)
      && (forall p :: p in t && p != [] ==> p[..|p| - 1] in t)
      && (forall p :: p in rib ==> p in t)
  }

  /** The fields of an object. */
  datatype Fields = Fields(valid: bool, left: RadixNode?, right: RadixNode?, len: nat, nexthop: nat, ext: RadixNode?,
      mark: bool)

  type Snap = map<Path, Fields>

  function FieldsOf(x: RadixNode): Fields
    reads x
  {
    Fields(x.valid, x.left, x.right, x.len, x.nexthop, x.ext, x.mark)
  }

  /** The fields of all objects of the tree. */
  ghost function View(t: Tree): (s: Snap)
    reads t.Values
    ensures s.Keys == t.Keys && forall p :: p in t ==> s[p] == FieldsOf(t[p])
  {
    map p | p in t :: FieldsOf(t[p])
  }

  predicate LinksAt(t: Tree, p: Path, o: Fields) {
    o.left == Child(t, p, false) && o.right == Child(t, p, true)
  }

  predicate RouteAt(rib: Routes, p: Path, o: Fields) {
    (o.valid <==> p in rib) && (p in rib ==> o.nexthop == rib[p] && o.len == |p|)
  }

  /** The objects hold the tree and the routes. */
  ghost predicate Fixed(t: Tree, s: Snap, rib: Routes) {
    forall k: Key :: Open(k) && k.FixedKey? ==>
      s.Keys == t.Keys && forall p :: p in s ==> LinksAt(t, p, s[p]) && RouteAt(rib, p, s[p])
  }

  /** The cached ancestors below p are those of the routes rib. */
  ghost predicate ExtsBelow(t: Tree, s: Snap, rib: Routes, p: Path) {
    forall k: Key :: Open(k) && k.ExtsKey? ==>
      forall x :: x in s && Extends(x, p) ==> s[x].ext == ExtOf(t, rib, x)
  }

  ghost predicate UnmarkedBelow(s: Snap, p: Path) {
    forall k: Key :: Open(k) && k.MarksKey? ==>
      forall x :: x in s && Extends(x, p) ==> !s[x].mark
  }

  /** The objects hold the routes and cache the right ancestors. */
  ghost predicate RibOK(t: Tree, rib: Routes)
    reads t.Values
  {
    Shape(t, rib) && Fixed(t, View(t), rib) && ExtsBelow(t, View(t), rib, [])
  }

  /** EXT_NH: the next hop of the cached node, 0 without one. */
  function ExtNh(ext: RadixNode?): nat
    reads ext
  {
    if ext == null then 0 else ext.nexthop
  }

  lemma {:induction false} ExtForwards(t: Tree, rib: Routes, p: Path)
    requires Shape(t, rib) && Fixed(t, View(t), rib)
    ensures ExtNh(ExtOf(t, rib, p)) == Fwd(rib, p)
  {
    assert Open(ShapeKey) && Open(FixedKey);
    if p in rib {
      assert View(t)[p] == FieldsOf(t[p]);
    } else if p != [] {
      ExtForwards(t, rib, p[..|p| - 1]);
    }
  }

  /** The object at p, by its links and routes. */
  lemma {:induction false} FixedAt(t: Tree, s: Snap, rib: Routes, p: Path)
    requires Shape(t, rib) && Fixed(t, s, rib) && p in t
    ensures p in s && |p| <= KEYLENGTH && t[p].path == p && LinksAt(t, p, s[p]) && RouteAt(rib, p, s[p])
  {
    assert Open(ShapeKey) && Open(FixedKey);
  }

  /** What the object at p says. */
  lemma {:induction false} At(t: Tree, rib: Routes, p: Path)
    requires RibOK(t, rib) && p in t
    ensures |p| <= KEYLENGTH && t[p].path == p && (p != [] ==> p[..|p| - 1] in t)
    ensures LinksAt(t, p, FieldsOf(t[p])) && RouteAt(rib, p, FieldsOf(t[p]))
    ensures t[p].ext == ExtOf(t, rib, p) && ExtNh(t[p].ext) == Fwd(rib, p)
  {
    assert Open(ShapeKey) && Open(ExtsKey);
    FixedAt(t, View(t), rib, p);
    ExtForwards(t, rib, p);
    assert Extends(p, []);
  }

  lemma {:induction false} PrefixIn(t: Tree, rib: Routes, p: Path, i: nat)
    requires Shape(t, rib) && p in t && i <= |p|
    ensures p[..i] in t
  {
    assert Open(ShapeKey);
    if i < |p| {
      PrefixIn(t, rib, p[..|p| - 1], i);
      assert p[..|p| - 1][..i] == p[..i];
    } else {
      assert p[..i] == p;
    }
  }

  /** Without a node at p there is no route at or below p. */
  lemma {:induction false} NoNodeNoRoute(t: Tree, rib: Routes, p: Path, w: Path)
    requires Shape(t, rib) && p !in t && w in rib
    ensures !Extends(w, p)
  {
    assert Open(ShapeKey);
    if Extends(w, p) {
      PrefixIn(t, rib, w, |p|);
    }
  }

  /** Below a path without children forwarding is constant. */
  lemma {:induction false} ChildlessConstant(t: Tree, rib: Routes, p: Path)
    requires Shape(t, rib) && |p| <= KEYLENGTH
    requires p + [false] !in t && p + [true] !in t
    ensures Constant(rib, p) && Val(rib, p) == Fwd(rib, p)
  {
    forall w | w in rib && Extends(w, p) ensures w == p {
      if |w| > |p| {
        assert w[..|p| + 1] == p + [w[|p|]];
        assert p + [w[|p|]] == if w[|p|] then p + [true] else p + [false];
        NoNodeNoRoute(t, rib, p + [w[|p|]], w);
      } else {
        assert w == w[..|p|];
      }
    }
    NothingBelow(rib, p);
  }

  function BitAt(a: Path, d: nat): bool {
    d < |a| && a[d]
  }

  /** _rib_lookup. */
  method RibLookup(node: RadixNode?, addr: Path, depth: nat, en: RadixNode?, ghost t: Tree, ghost rib: Routes)
    returns (nh: nat)
    requires RibOK(t, rib) && |addr| == KEYLENGTH && depth <= KEYLENGTH
    requires node == (if addr[..depth] in t then t[addr[..depth]] else null)
    requires node == null ==> t == map[]
    requires en == if depth == 0 then null else ExtOf(t, rib, addr[..depth - 1])
    ensures nh == Fwd(rib, addr)
    decreases KEYLENGTH - depth
  {
    ghost var p := addr[..depth];
    if node == null {
      EmptyTree(t, rib, addr);
      return 0;
    }
    At(t, rib, p);
    var en' := if node.valid then node else en;
    assert en' == ExtOf(t, rib, p) by {
      if depth > 0 { assert p[..depth - 1] == addr[..depth - 1]; }
    }
    var next := if BitAt(addr, depth) then node.right else node.left;
    if next == null {
      NoFurther(t, rib, addr, depth);
      return ExtNh(en');
    }
    NextStep(t, rib, addr, depth);
    nh := RibLookup(next, addr, depth + 1, en', t, rib);
  }

  lemma {:induction false} EmptyTree(t: Tree, rib: Routes, addr: Path)
    requires Shape(t, rib) && t == map[]
    ensures Fwd(rib, addr) == 0
  {
    assert Open(ShapeKey);
    if addr != [] { EmptyTree(t, rib, addr[..|addr| - 1]); }
  }

  lemma {:induction false} NoFurther(t: Tree, rib: Routes, addr: Path, depth: nat)
    requires RibOK(t, rib) && |addr| == KEYLENGTH && depth <= KEYLENGTH
    requires addr[..depth] + [BitAt(addr, depth)] !in t
    ensures ExtNh(ExtOf(t, rib, addr[..depth])) == Fwd(rib, addr)
  {
    ExtForwards(t, rib, addr[..depth]);
    forall w | w in rib && depth < |w| ensures !Extends(addr, w) {
      if Extends(addr, w) {
        assert w[..depth + 1] == addr[..depth] + [addr[depth]];
        NoNodeNoRoute(t, rib, addr[..depth] + [addr[depth]], w);
      }
    }
    FwdSkip(rib, addr[..depth], addr);
  }

  lemma {:induction false} NextStep(t: Tree, rib: Routes, addr: Path, depth: nat)
    requires Shape(t, rib) && |addr| == KEYLENGTH && depth <= KEYLENGTH
    requires addr[..depth] + [BitAt(addr, depth)] in t
    ensures depth < KEYLENGTH && addr[..depth + 1] == addr[..depth] + [BitAt(addr, depth)]
  {
    var p := addr[..depth] + [BitAt(addr, depth)];
    assert |p| <= KEYLENGTH by { assert Open(ShapeKey); }
  }

  lemma {:induction false} NeedsPath(t: Tree, rib: Routes, p: Path, x: Path)
    requires Shape(t, rib) && Extends(x, p)
    ensures x in t ==> p in t
  {
    if x in t { PrefixIn(t, rib, x, |p|); }
  }

  /** _next_block: follow the bits from the node at q. */
  method NextBlock(node: RadixNode?, bits: Path, shift: nat, ghost t: Tree, ghost rib: Routes, ghost q: Path)
    returns (r: RadixNode?)
    requires RibOK(t, rib) && shift <= |bits|
    requires node == if q + bits[..shift] in t then t[q + bits[..shift]] else null
    ensures r == if q + bits in t then t[q + bits] else null
    decreases |bits| - shift
  {
    ghost var p := q + bits[..shift];
    if node == null {
      assert (q + bits)[..|p|] == p;
      NeedsPath(t, rib, p, q + bits);
      return null;
    }
    if shift == |bits| {
      assert bits[..shift] == bits;
      return node;
    }
    At(t, rib, p);
    assert q + bits[..shift + 1] == p + [bits[shift]];
    if bits[shift] {
      assert p + [bits[shift]] == p + [true];
      r := NextBlock(node.right, bits, shift + 1, t, rib, q);
    } else {
      assert p + [bits[shift]] == p + [false];
      r := NextBlock(node.left, bits, shift + 1, t, rib, q);
    }
  }
}
