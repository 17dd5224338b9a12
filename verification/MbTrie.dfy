/** The multi-bit tries of the tree bitmap, with nodes of stride 6. */
module MbTries {
  import opened Bits
  import opened Bitmaps
  import opened Folding
  import opened MbBlocks

  /** A next hop, as the caller's pointer; 0 is NULL. */
  type Hop = nat

  const LENGTH: nat := 32

  /** Nodes and rules are found by the number of their trie and by a path in it. */
  datatype LocWith<P> = Loc(root: nat, path: P)
  type Loc = LocWith<Path>

  /** child_ptr is the block with its rules and children, and the place between them. */
  class MbNode {
    var external: Bitmap
    var internal: Bitmap
    var block: seq<Item<MbNode>>
    var base: nat
    ghost const loc: Loc

    constructor (ghost loc: Loc)
      ensures external == Zeros(WORD) && internal == Zeros(WORD) && block == [] && base == 0 && this.loc == loc
    {
      external, internal, block, base := Zeros(WORD), Zeros(WORD), [], 0;
      this.loc := loc;
    }

    /** Rule number k from the top. */
    function RuleNo(k: nat): (r: Hop)
      requires k < |BodyOf(this).rules|
      reads this
      ensures r == BodyOf(this).rules[k]
    {
      RuleIn(block, base, Count(internal), k);
      RuleOf(block, base, k)
    }

    /** Child number k from the top. */
    function ChildNo(k: nat): (r: MbNode)
      requires k < |BodyOf(this).children|
      reads this
      ensures r == BodyOf(this).children[k]
    {
      ChildIn(block, base, Count(external), k);
      ChildOf(block, base, k)
    }
  }

  /** The bitmaps of a node, its rules and its children. */
  datatype BodyWith<B, R, C> = Body(external: B, internal: B, rules: R, children: C)
  type Body = BodyWith<Bitmap, seq<Hop>, seq<MbNode>>

  type Tree = map<Loc, MbNode>
  type Snap = map<Loc, Body>
  type Rules = map<Loc, Hop>

  function BodyOf(x: MbNode): Body
    reads x
  {
    Body(x.external, x.internal, RulesIn(x.block, x.base, Count(x.internal)),
        ChildrenIn(x.block, x.base, Count(x.external)))
  }

  ghost function View(t: Tree): (s: Snap)
    reads t.Values
    ensures s.Keys == t.Keys && forall l :: l in t ==> s[l] == BodyOf(t[l])
  {
    map l | l in t :: BodyOf(t[l])
  }

  // ---------- depths ----------

  /** The depth of the node that holds the prefixes of length n. */
  function NodeDepth(n: nat): (d: nat)
    ensures d <= n < d + STRIDE
  {
    if n < STRIDE then 0 else STRIDE + NodeDepth(n - STRIDE)
  }

  predicate IsDepth(d: nat) {
    NodeDepth(d) == d
  }

  lemma {:induction false} DepthIs(n: nat, d: nat)
    requires IsDepth(d) && d <= n < d + STRIDE
    ensures NodeDepth(n) == d
  {
    if d >= STRIDE { DepthIs(n - STRIDE, d - STRIDE); }
  }

  lemma {:induction false} DepthsApart(d: nat, e: nat)
    requires IsDepth(d) && IsDepth(e) && d < e
    ensures d + STRIDE <= e
  {
    if d >= STRIDE { DepthsApart(d - STRIDE, e - STRIDE); }
  }

  lemma {:induction false} NodeDepthIs(n: nat)
    ensures IsDepth(NodeDepth(n))
  {
    if n >= STRIDE { NodeDepthIs(n - STRIDE); }
  }

  // ---------- what a node holds ----------

  /** Prefix s within, or below, the node at l. */
  function At(l: Loc, s: Path): Loc {
    Loc(l.root, l.path + s)
  }

  /** The child of the node at l in slot i. */
  function Sub(l: Loc, i: nat): Loc
    requires i < WORD
  {
    assert Pow2(6) == 64;
    At(l, ToBits(i, STRIDE))
  }

  /** The node that holds rule w. */
  function NodeOf(w: Loc): Loc {
    Loc(w.root, w.path[..NodeDepth(|w.path|)])
  }

  ghost function ChildrenOf(t: Tree, l: Loc): (m: map<nat, MbNode>)
    ensures forall i: nat :: i in m <==> i < WORD && Sub(l, i) in t
    ensures forall i: nat :: i in m ==> m[i] == t[Sub(l, i)]
  {
    map i: nat | i < WORD && Sub(l, i) in t :: t[Sub(l, i)]
  }

  ghost function RulesOf(rules: Rules, l: Loc): (m: map<nat, Hop>)
    ensures forall p: nat :: p in m <==> p < WORD - 1 && At(l, PathAt(p)) in rules
    ensures forall p: nat :: p in m ==> m[p] == rules[At(l, PathAt(p))]
  {
    map p: nat | p < WORD - 1 && At(l, PathAt(p)) in rules :: rules[At(l, PathAt(p))]
  }

  /** The bitmaps and packed arrays of the node at l hold its children and its rules. */
  ghost predicate NodeHolds(t: Tree, rules: Rules, l: Loc, b: Body) {
    && |b.external| == |b.internal| == WORD
    && forall k: Key :: Open(k) && k.MbHoldKey? ==>
        Packs(b.external, b.children, ChildrenOf(t, l)) && Packs(b.internal, b.rules, RulesOf(rules, l))
  }

  predicate Empty(b: Body) {
    b.external == Zeros(WORD) && b.internal == Zeros(WORD)
  }

  function Parent(l: Loc): Loc {
    Loc(l.root, if |l.path| >= STRIDE then l.path[..|l.path| - STRIDE] else [])
  }

  /** Where nodes are: at depths that are multiples of the stride, below their parents, wherever a rule
      needs one. */
  ghost predicate Shape(t: Tree, rules: Rules) {
    forall k: Key :: Open(k) && k.MbShapeKey? ==>
      && (forall l :: l in t ==> t[l].loc == l && IsDepth(|l.path|) && |l.path| <= LENGTH)
      && (forall l :: l in t && l.path != [] ==> Parent(l) in t)
      && (forall w :: w in rules ==> NodeOf(w) in t && |w.path| <= LENGTH)
  }

  /** No node but a root or the one at e is empty. */
  ghost predicate Full(s: Snap, e: Loc) {
    forall k: Key :: Open(k) && k.MbFullKey? ==>
      forall l :: l in s && l.path != [] && l != e ==> !Empty(s[l])
  }

  ghost predicate AllHold(t: Tree, s: Snap, rules: Rules) {
    forall k: Key :: Open(k) && k.MbAllKey? ==> s.Keys == t.Keys && forall l :: l in s ==> NodeHolds(t, rules, l, s[l])
  }

  /** The objects of t hold exactly the rules; only the node at e may be empty. */
  ghost predicate TrieOK(t: Tree, s: Snap, rules: Rules, e: Loc) {
    Shape(t, rules) && s.Keys == t.Keys && AllHold(t, s, rules) && Full(s, e)
  }

  // ---------- reading a node ----------

  lemma {:induction false} HoldsAt(t: Tree, s: Snap, rules: Rules, l: Loc)
    requires AllHold(t, s, rules) && l in s
    ensures NodeHolds(t, rules, l, s[l])
  {
    assert Open(MbAllKey);
  }

  /** Slot i of the node at l. */
  lemma {:induction false} ChildAt(t: Tree, rules: Rules, l: Loc, b: Body, i: nat)
    requires NodeHolds(t, rules, l, b) && i < WORD
    ensures b.external[i] <==> Sub(l, i) in t
    ensures b.external[i] ==>
        0 <= CountOnes(b.external, i) < |b.children| && b.children[CountOnes(b.external, i)] == t[Sub(l, i)]
  {
    assert Open(MbHoldKey);
    var m := ChildrenOf(t, l);
    if b.external[i] {
      CountOnesIs(b.external, i);
      var c := m[i];
      assert PackedAt(b.external, b.children, m, i);
    }
  }

  /** The rule for the prefix u within the node at l. */
  lemma {:induction false} RuleAt(t: Tree, rules: Rules, l: Loc, b: Body, u: Path)
    requires NodeHolds(t, rules, l, b) && |u| < STRIDE
    ensures PosOf(u) < WORD - 1
    ensures b.internal[PosOf(u)] <==> At(l, u) in rules
    ensures var p := PosOf(u);
            b.internal[p] ==>
                0 <= CountOnes(b.internal, p) < |b.rules| && b.rules[CountOnes(b.internal, p)] == rules[At(l, u)]
  {
    assert Open(MbHoldKey);
    var m := RulesOf(rules, l);
    PosInNode(u);
    var p := PosOf(u);
    PathAtPos(u);
    if b.internal[p] {
      CountOnesIs(b.internal, p);
      var c := m[p];
      assert PackedAt(b.internal, b.rules, m, p);
    }
  }

  lemma {:induction false} PosInNode(u: Path)
    requires |u| < STRIDE
    ensures PosOf(u) < WORD - 1
  {
    PosRange(u);
    Pow2Monotone(|u| + 1, 6);
    assert Pow2(6) == 64;
  }

  // ---------- longest match ----------

  /** The length of the longest rule of trie r, of length at most n, that is a prefix of key, or -1. */
  function Best(rules: Rules, r: nat, key: Path, n: nat): (b: int)
    requires n <= |key|
    ensures -1 <= b <= n
    ensures b >= 0 ==> Loc(r, key[..b]) in rules
  {
    if Loc(r, key[..n]) in rules then n else if n == 0 then -1 else Best(rules, r, key, n - 1)
  }

  /** The next hop of the longest match, or NULL. */
  function BestHop(rules: Rules, r: nat, key: Path, n: nat): Hop
    requires n <= |key|
  {
    var b := Best(rules, r, key, n);
    if b < 0 then 0 else rules[Loc(r, key[..b])]
  }

  /** Best is the longest-match rule. */
  lemma {:induction false} BestIsLongest(rules: Rules, r: nat, key: Path, n: nat, k: nat)
    requires k <= n <= |key| && Loc(r, key[..k]) in rules
    ensures k <= Best(rules, r, key, n)
  {
    if Loc(r, key[..n]) !in rules { BestIsLongest(rules, r, key, n - 1, k); }
  }

  lemma {:induction false} BestSkip(rules: Rules, r: nat, key: Path, m: nat, n: nat)
    requires m <= n <= |key| && forall k :: m < k <= n ==> Loc(r, key[..k]) !in rules
    ensures Best(rules, r, key, n) == Best(rules, r, key, m)
  {
    if m < n { BestSkip(rules, r, key, m, n - 1); }
  }

  /** The match within the node at depth d. */
  lemma {:induction false} BestWithin(t: Tree, rules: Rules, r: nat, key: Path, d: nat, b: Body, l: nat)
    requires d + STRIDE <= |key| && l < STRIDE && NodeHolds(t, rules, Loc(r, key[..d]), b)
    ensures var k := LongestIn(b.internal, key[d..d + STRIDE], l);
            Best(rules, r, key, d + l) == if k >= 0 then d + k else if d == 0 then -1 else Best(rules, r, key, d - 1)
  {
    var s := key[d..d + STRIDE];
    RuleAt(t, rules, Loc(r, key[..d]), b, s[..l]);
    assert key[..d] + s[..l] == key[..d + l];
    if l > 0 { BestWithin(t, rules, r, key, d, b, l - 1); }
  }

  /** What tree_function finds in the node at depth d. */
  lemma {:induction false} NodeMatch(t: Tree, rules: Rules, r: nat, key: Path, d: nat, b: Body)
    requires d + STRIDE <= |key| && NodeHolds(t, rules, Loc(r, key[..d]), b)
    ensures var p := MatchIn(b.internal, key[d..d + STRIDE]);
            && (p < 0 ==> Best(rules, r, key, d + STRIDE - 1) == if d == 0 then -1 else Best(rules, r, key, d - 1))
            && (p >= 0 ==>
                  && Best(rules, r, key, d + STRIDE - 1) >= d
                  && 0 <= CountOnes(b.internal, p) < |b.rules|
                  && b.rules[CountOnes(b.internal, p)] == BestHop(rules, r, key, d + STRIDE - 1))
  {
    var s := key[d..d + STRIDE];
    var k := LongestIn(b.internal, s, STRIDE - 1);
    BestWithin(t, rules, r, key, d, b, STRIDE - 1);
    if k >= 0 {
      LongestInIs(b.internal, s, STRIDE - 1, k);
      RuleAt(t, rules, Loc(r, key[..d]), b, s[..k]);
      assert key[..d] + s[..k] == key[..d + k];
    }
  }

  lemma {:induction false} ParentIn(t: Tree, rules: Rules, l: Loc, d: nat)
    requires Shape(t, rules) && l in t && IsDepth(d) && d <= |l.path|
    ensures Loc(l.root, l.path[..d]) in t
    decreases |l.path|
  {
    assert Open(MbShapeKey);
    if d < |l.path| {
      DepthsApart(d, |l.path|);
      ParentIn(t, rules, Parent(l), d);
      assert Parent(l).path[..d] == l.path[..d];
    } else {
      assert l.path[..d] == l.path;
    }
  }

  /** Without a child there is no longer match. */
  lemma {:induction false} NothingLonger(t: Tree, rules: Rules, r: nat, key: Path, d: nat, n: nat)
    requires Shape(t, rules) && IsDepth(d) && d + STRIDE - 1 <= n <= |key| && d + STRIDE <= |key|
    requires Loc(r, key[..d + STRIDE]) !in t
    ensures Best(rules, r, key, n) == Best(rules, r, key, d + STRIDE - 1)
  {
    forall k | d + STRIDE - 1 < k <= n ensures Loc(r, key[..k]) !in rules {
      NoRuleBelow(t, rules, r, key, d, k);
    }
    BestSkip(rules, r, key, d + STRIDE - 1, n);
  }

  lemma {:induction false} NoRuleBelow(t: Tree, rules: Rules, r: nat, key: Path, d: nat, k: nat)
    requires Shape(t, rules) && IsDepth(d) && d + STRIDE <= k <= |key| && Loc(r, key[..d + STRIDE]) !in t
    ensures Loc(r, key[..k]) !in rules
  {
    var w := Loc(r, key[..k]);
    var e := NodeDepth(k);
    NodeDepthIs(k);
    DepthIsNext(d);
    DepthFloor(d + STRIDE, k);
    assert key[..k][..e] == key[..e] && key[..e][..d + STRIDE] == key[..d + STRIDE];
    if w in rules {
      assert NodeOf(w) in t by { assert Open(MbShapeKey); }
      ParentIn(t, rules, NodeOf(w), d + STRIDE);
    }
  }

  lemma {:induction false} DepthIsNext(d: nat)
    requires IsDepth(d)
    ensures IsDepth(d + STRIDE)
  {
  }

  lemma {:induction false} DepthFloor(d: nat, k: nat)
    requires IsDepth(d) && d <= k
    ensures d <= NodeDepth(k)
  {
    if d >= STRIDE { DepthFloor(d - STRIDE, k - STRIDE); }
  }
}
