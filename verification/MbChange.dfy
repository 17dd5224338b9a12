/** What the changes of one node mean for the trie. */
module MbChange {
  import opened Bits
  import opened Bitmaps
  import opened Seqs
  import opened Folding
  import opened MbTries

  // ---------- paths ----------

  lemma {:induction false} SubPath(l: Loc, i: nat)
    requires i < WORD
    ensures |Sub(l, i).path| == |l.path| + STRIDE && Parent(Sub(l, i)) == l && Sub(l, i).root == l.root
  {
    assert Pow2(6) == 64;
  }

  /** The children of different nodes, and of different slots, are different. */
  lemma {:induction false} SubDiffer(l: Loc, i: nat, l': Loc, i': nat)
    requires i < WORD && i' < WORD && Sub(l, i) == Sub(l', i')
    ensures l == l' && i == i'
  {
    SubPath(l, i);
    SubPath(l', i');
    assert Pow2(6) == 64;
    var a, b := ToBits(i, STRIDE), ToBits(i', STRIDE);
    assert (l.path + a)[|l.path|..] == a && (l'.path + b)[|l'.path|..] == b;
    ValueToBits(i, STRIDE);
    ValueToBits(i', STRIDE);
  }

  lemma {:induction false} ShortPath(p: nat)
    requires p < WORD - 1
    ensures |PathAt(p)| < STRIDE
  {
    PosOfPath(p);
    PosRange(PathAt(p));
    if |PathAt(p)| >= STRIDE { Pow2Monotone(6, |PathAt(p)|); }
    assert Pow2(6) == 64;
  }

  /** A rule belongs to one node only. */
  lemma {:induction false} RuleNode(l: Loc, u: Path)
    requires IsDepth(|l.path|) && |u| < STRIDE
    ensures NodeOf(At(l, u)) == l
  {
    DepthIs(|l.path| + |u|, |l.path|);
    assert (l.path + u)[..|l.path|] == l.path;
  }

  lemma {:induction false} ShapeAt(t: Tree, rules: Rules, l: Loc)
    requires Shape(t, rules) && l in t
    ensures t[l].loc == l && IsDepth(|l.path|) && |l.path| <= LENGTH && (l.path != [] ==> Parent(l) in t)
  {
    assert Open(MbShapeKey);
  }

  // ---------- rules ----------

  /** A rule of another node changes nothing. */
  lemma {:induction false} OtherRules(rules: Rules, rules': Rules, w: Loc, l: Loc)
    requires (forall x :: x != w ==> (x in rules' <==> x in rules) && (x in rules ==> rules'[x] == rules[x]))
    requires IsDepth(|l.path|) && NodeOf(w) != l
    ensures RulesOf(rules', l) == RulesOf(rules, l)
  {
    forall p: nat | p < WORD - 1 ensures At(l, PathAt(p)) != w {
      ShortPath(p);
      RuleNode(l, PathAt(p));
    }
    var a, b := RulesOf(rules', l), RulesOf(rules, l);
    assert a.Keys == b.Keys;
  }

  lemma {:induction false} RulesSet(rules: Rules, l: Loc, u: Path, h: Hop)
    requires |u| < STRIDE
    ensures RulesOf(rules[At(l, u) := h], l) == RulesOf(rules, l)[PosOf(u) := h]
  {
    PosInNode(u);
    PathAtPos(u);
    forall p: nat | p < WORD - 1 ensures At(l, PathAt(p)) == At(l, u) <==> p == PosOf(u) {
      PosOfPath(p);
      assert (l.path + PathAt(p))[|l.path|..] == PathAt(p) && (l.path + u)[|l.path|..] == u;
    }
    var a, b := RulesOf(rules[At(l, u) := h], l), RulesOf(rules, l)[PosOf(u) := h];
    assert a.Keys == b.Keys;
  }

  lemma {:induction false} RulesCut(rules: Rules, l: Loc, u: Path)
    requires |u| < STRIDE
    ensures RulesOf(rules - {At(l, u)}, l) == RulesOf(rules, l) - {PosOf(u)}
  {
    PosInNode(u);
    PathAtPos(u);
    forall p: nat | p < WORD - 1 ensures At(l, PathAt(p)) == At(l, u) <==> p == PosOf(u) {
      PosOfPath(p);
      assert (l.path + PathAt(p))[|l.path|..] == PathAt(p) && (l.path + u)[|l.path|..] == u;
    }
    var a, b := RulesOf(rules - {At(l, u)}, l), RulesOf(rules, l) - {PosOf(u)};
    assert a.Keys == b.Keys;
  }

  /** The node at l after a rule was set that it did not have. */
  function WithRule(b: Body, p: nat, h: Hop): Body
    requires |b.internal| == WORD && p < WORD && Above(b.internal, p) <= |b.rules|
  {
    b.(internal := b.internal[p := true], rules := InsertAt(b.rules, Above(b.internal, p), h))
  }

  function WithHop(b: Body, p: nat, h: Hop): Body
    requires |b.internal| == WORD && p < WORD && Above(b.internal, p) < |b.rules|
  {
    b.(rules := b.rules[Above(b.internal, p) := h])
  }

  function WithoutRule(b: Body, p: nat): Body
    requires |b.internal| == WORD && p < WORD && Above(b.internal, p) < |b.rules|
  {
    b.(internal := b.internal[p := false], rules := RemoveAt(b.rules, Above(b.internal, p)))
  }

  lemma {:induction false} NodeSet(t: Tree, rules: Rules, l: Loc, b: Body, u: Path, h: Hop)
    requires NodeHolds(t, rules, l, b) && |u| < STRIDE
    ensures PosOf(u) < WORD - 1 && (b.internal[PosOf(u)] <==> At(l, u) in rules)
    ensures !b.internal[PosOf(u)] ==>
              Above(b.internal, PosOf(u)) <= |b.rules|
                  && NodeHolds(t, rules[At(l, u) := h], l, WithRule(b, PosOf(u), h))
    ensures b.internal[PosOf(u)] ==>
              Above(b.internal, PosOf(u)) < |b.rules| && NodeHolds(t, rules[At(l, u) := h], l, WithHop(b, PosOf(u), h))
  {
    assert Open(MbHoldKey);
    RuleAt(t, rules, l, b, u);
    RulesSet(rules, l, u, h);
    var p := PosOf(u);
    if b.internal[p] {
      PackUpdate(b.internal, b.rules, RulesOf(rules, l), p, h);
    } else {
      PackInsert(b.internal, b.rules, RulesOf(rules, l), p, h);
    }
  }

  lemma {:induction false} NodeCut(t: Tree, rules: Rules, l: Loc, b: Body, u: Path)
    requires NodeHolds(t, rules, l, b) && |u| < STRIDE && At(l, u) in rules
    ensures PosOf(u) < WORD - 1 && b.internal[PosOf(u)]
    ensures Above(b.internal, PosOf(u)) < |b.rules| && NodeHolds(t, rules - {At(l, u)}, l, WithoutRule(b, PosOf(u)))
  {
    assert Open(MbHoldKey);
    RuleAt(t, rules, l, b, u);
    RulesCut(rules, l, u);
    PackRemove(b.internal, b.rules, RulesOf(rules, l), PosOf(u));
  }

  /** A node whose rules have not changed. */
  lemma {:induction false} NodeSame(t: Tree, t': Tree, rules: Rules, rules': Rules, l: Loc, b: Body)
    requires NodeHolds(t, rules, l, b) && RulesOf(rules', l) == RulesOf(rules, l)
        && ChildrenOf(t', l) == ChildrenOf(t, l)
    ensures NodeHolds(t', rules', l, b)
  {
    assert Open(MbHoldKey);
  }

  /** Only the node at l and its rule w have changed. */
  lemma {:induction false} OneNode(t: Tree, s: Snap, rules: Rules, rules': Rules, l: Loc, w: Loc, b: Body)
    requires Shape(t, rules) && s.Keys == t.Keys && AllHold(t, s, rules) && l in t && NodeOf(w) == l
        && NodeHolds(t, rules', l, b)
    requires (forall x :: x != w ==> (x in rules' <==> x in rules) && (x in rules ==> rules'[x] == rules[x]))
    ensures AllHold(t, s[l := b], rules')
  {
    forall x | x in s && x != l ensures NodeHolds(t, rules', x, s[x]) {
      ShapeAt(t, rules, x);
      HoldsAt(t, s, rules, x);
      OtherRules(rules, rules', w, x);
      NodeSame(t, t, rules, rules', x, s[x]);
    }
    assert Open(MbAllKey);
  }

  /** Rule u is set in the node at l. */
  lemma {:induction false} RuleSet(t: Tree, s: Snap, rules: Rules, l: Loc, u: Path, h: Hop, e: Loc)
    requires TrieOK(t, s, rules, l) && l in t && |u| < STRIDE && |At(l, u).path| <= LENGTH && e.path == []
    ensures PosOf(u) < WORD - 1 && |s[l].internal| == WORD
    ensures var b, p := s[l], PosOf(u);
            if b.internal[p] then Above(b.internal, p) < |b.rules|
                && TrieOK(t, s[l := WithHop(b, p, h)], rules[At(l, u) := h], e)
            else Above(b.internal, p) <= |b.rules| && TrieOK(t, s[l := WithRule(b, p, h)], rules[At(l, u) := h], e)
  {
    var b, p := s[l], PosOf(u);
    HoldsAt(t, s, rules, l);
    ShapeAt(t, rules, l);
    NodeSet(t, rules, l, b, u, h);
    RuleNode(l, u);
    var rules' := rules[At(l, u) := h];
    var b' := if b.internal[p] then WithHop(b, p, h) else WithRule(b, p, h);
    OneNode(t, s, rules, rules', l, At(l, u), b');
    assert Shape(t, rules') by { assert Open(MbShapeKey); }
    assert b'.internal[p];
    FullAgain(s, l, b', e);
  }

  lemma {:induction false} FullAgain(s: Snap, l: Loc, b: Body, e: Loc)
    requires Full(s, l) && !Empty(b) && e.path == []
    ensures Full(s[l := b], e)
  {
    assert Open(MbFullKey);
  }

  /** Rule u is removed from the node at l, which may be empty now. */
  lemma {:induction false} RuleCut(t: Tree, s: Snap, rules: Rules, l: Loc, u: Path, e: Loc)
    requires TrieOK(t, s, rules, e) && e.path == [] && l in t && |u| < STRIDE && At(l, u) in rules
    ensures PosOf(u) < WORD - 1 && |s[l].internal| == WORD && s[l].internal[PosOf(u)]
    ensures Above(s[l].internal, PosOf(u)) < |s[l].rules|
    ensures TrieOK(t, s[l := WithoutRule(s[l], PosOf(u))], rules - {At(l, u)}, l)
  {
    HoldsAt(t, s, rules, l);
    ShapeAt(t, rules, l);
    NodeCut(t, rules, l, s[l], u);
    RuleNode(l, u);
    var rules' := rules - {At(l, u)};
    OneNode(t, s, rules, rules', l, At(l, u), WithoutRule(s[l], PosOf(u)));
    assert Shape(t, rules') by { assert Open(MbShapeKey); }
    assert Open(MbFullKey);
  }

  // ---------- a new child ----------

  function WithChild(b: Body, i: nat, child: MbNode): Body
    requires |b.external| == WORD && i < WORD && Above(b.external, i) <= |b.children|
  {
    b.(external := b.external[i := true], children := InsertAt(b.children, Above(b.external, i), child))
  }

  function WithoutChild(b: Body, i: nat): Body
    requires |b.external| == WORD && i < WORD && Above(b.external, i) < |b.children|
  {
    b.(external := b.external[i := false], children := RemoveAt(b.children, Above(b.external, i)))
  }

  function Blank(): Body {
    Body(Zeros(WORD), Zeros(WORD), [], [])
  }

  lemma {:induction false} ChildrenGrown(t: Tree, l: Loc, i: nat, child: MbNode, x: Loc)
    requires i < WORD
    ensures ChildrenOf(t[Sub(l, i) := child], x) == if x == l then ChildrenOf(t, l)[i := child] else ChildrenOf(t, x)
  {
    var t' := t[Sub(l, i) := child];
    forall j: nat | j < WORD ensures Sub(x, j) == Sub(l, i) <==> x == l && j == i {
      if Sub(x, j) == Sub(l, i) { SubDiffer(x, j, l, i); }
    }
    var a, b := ChildrenOf(t', x), if x == l then ChildrenOf(t, l)[i := child] else ChildrenOf(t, x);
    assert a.Keys == b.Keys;
  }

  lemma {:induction false} ChildrenDropped(t: Tree, l: Loc, i: nat, x: Loc)
    requires i < WORD
    ensures ChildrenOf(t - {Sub(l, i)}, x) == if x == l then ChildrenOf(t, l) - {i} else ChildrenOf(t, x)
  {
    var t' := t - {Sub(l, i)};
    forall j: nat | j < WORD ensures Sub(x, j) == Sub(l, i) <==> x == l && j == i {
      if Sub(x, j) == Sub(l, i) { SubDiffer(x, j, l, i); }
    }
    var a, b := ChildrenOf(t', x), if x == l then ChildrenOf(t, l) - {i} else ChildrenOf(t, x);
    assert a.Keys == b.Keys;
  }

  /** Where there is no node, there are no rules and no children. */
  lemma {:induction false} NothingThere(t: Tree, rules: Rules, c: Loc)
    requires Shape(t, rules) && c !in t && IsDepth(|c.path|)
    ensures RulesOf(rules, c) == map[] && ChildrenOf(t, c) == map[]
  {
    forall p: nat | p < WORD - 1 ensures At(c, PathAt(p)) !in rules {
      ShortPath(p);
      RuleNode(c, PathAt(p));
      assert Open(MbShapeKey);
    }
    forall i: nat | i < WORD ensures Sub(c, i) !in t {
      SubPath(c, i);
      assert Open(MbShapeKey);
    }
    assert RulesOf(rules, c).Keys == {} && ChildrenOf(t, c).Keys == {};
  }

  lemma {:induction false} CountZeros(n: nat)
    ensures Count(Zeros(n)) == 0
  {
    if n > 0 {
      CountZeros(n - 1);
      assert Zeros(n)[..n - 1] == Zeros(n - 1);
    }
  }

  lemma {:induction false} BlankHolds(t: Tree, rules: Rules, c: Loc)
    requires RulesOf(rules, c) == map[] && ChildrenOf(t, c) == map[]
    ensures NodeHolds(t, rules, c, Blank())
  {
    CountZeros(WORD);
  }

  lemma {:induction false} NodeGrown(t: Tree, rules: Rules, l: Loc, b: Body, i: nat, child: MbNode)
    requires NodeHolds(t, rules, l, b) && i < WORD && !b.external[i]
    ensures Above(b.external, i) <= |b.children| && NodeHolds(t[Sub(l, i) := child], rules, l, WithChild(b, i, child))
  {
    assert Open(MbHoldKey);
    PackInsert(b.external, b.children, ChildrenOf(t, l), i, child);
    ChildrenGrown(t, l, i, child, l);
  }

  lemma {:induction false} NodeShrunk(t: Tree, rules: Rules, l: Loc, b: Body, i: nat)
    requires NodeHolds(t, rules, l, b) && i < WORD && b.external[i]
    ensures Above(b.external, i) < |b.children| && NodeHolds(t - {Sub(l, i)}, rules, l, WithoutChild(b, i))
  {
    assert Open(MbHoldKey);
    PackRemove(b.external, b.children, ChildrenOf(t, l), i);
    ChildrenDropped(t, l, i, l);
  }

  lemma {:induction false} ShapeGrown(t: Tree, rules: Rules, l: Loc, i: nat, child: MbNode)
    requires Shape(t, rules) && l in t && i < WORD && child.loc == Sub(l, i) && |l.path| + STRIDE <= LENGTH
    ensures Shape(t[Sub(l, i) := child], rules) && IsDepth(|Sub(l, i).path|)
  {
    SubPath(l, i);
    ShapeAt(t, rules, l);
    DepthIsNext(|l.path|);
    var t' := t[Sub(l, i) := child];
    forall x | x in t'
      ensures t'[x].loc == x && IsDepth(|x.path|) && |x.path| <= LENGTH && (x.path != [] ==> Parent(x) in t')
    {
      if x != Sub(l, i) { ShapeAt(t, rules, x); }
    }
    forall w | w in rules ensures NodeOf(w) in t' && |w.path| <= LENGTH { assert Open(MbShapeKey); }
  }

  /** The node at l gets a new, empty child in slot i. */
  lemma {:induction false} GrowTrie(t: Tree, s: Snap, rules: Rules, l: Loc, i: nat, child: MbNode)
    requires TrieOK(t, s, rules, l) && l in t && i < WORD && child.loc == Sub(l, i) && |l.path| + STRIDE <= LENGTH
    requires |s[l].external| == WORD && !s[l].external[i]
    ensures Above(s[l].external, i) <= |s[l].children| && Sub(l, i) !in t
    ensures TrieOK(t[Sub(l, i) := child], s[l := WithChild(s[l], i, child)][Sub(l, i) := Blank()], rules, Sub(l, i))
  {
    var c := Sub(l, i);
    HoldsAt(t, s, rules, l);
    ChildAt(t, rules, l, s[l], i);
    NodeGrown(t, rules, l, s[l], i, child);
    var t', b' := t[c := child], WithChild(s[l], i, child);
    ShapeGrown(t, rules, l, i, child);
    NothingThere(t, rules, c);
    SubPath(l, i);
    ChildrenGrown(t, l, i, child, c);
    BlankHolds(t', rules, c);
    var s' := s[l := b'][c := Blank()];
    forall x | x in s' ensures NodeHolds(t', rules, x, s'[x]) {
      if x != l && x != c {
        HoldsAt(t, s, rules, x);
        ChildrenGrown(t, l, i, child, x);
        NodeSame(t, t', rules, rules, x, s[x]);
      }
    }
    assert AllHold(t', s', rules) by { assert Open(MbAllKey); }
    assert b'.external[i];
    assert Full(s', c) by { assert Open(MbFullKey); }
  }

  // ---------- an empty child goes ----------

  /** An empty node has neither rules nor children. */
  lemma {:induction false} EmptyHolds(t: Tree, rules: Rules, c: Loc, b: Body)
    requires NodeHolds(t, rules, c, b) && Empty(b)
    ensures RulesOf(rules, c) == map[] && ChildrenOf(t, c) == map[]
  {
    assert Open(MbHoldKey);
    assert forall p: nat :: p !in RulesOf(rules, c) && p !in ChildrenOf(t, c);
    assert RulesOf(rules, c).Keys == {} && ChildrenOf(t, c).Keys == {};
  }

  lemma {:induction false} ShapeDropped(t: Tree, rules: Rules, c: Loc)
    requires Shape(t, rules) && c in t && RulesOf(rules, c) == map[] && ChildrenOf(t, c) == map[]
    ensures Shape(t - {c}, rules)
  {
    ShapeAt(t, rules, c);
    forall x | x in t && x.path != [] ensures Parent(x) != c {
      NotParent(t, rules, c, x);
    }
    forall w | w in rules ensures NodeOf(w) != c {
      NotNode(rules, c, w);
    }
    assert Open(MbShapeKey);
  }

  lemma {:induction false} NotParent(t: Tree, rules: Rules, c: Loc, x: Loc)
    requires Shape(t, rules) && x in t && x.path != [] && ChildrenOf(t, c) == map[]
    ensures Parent(x) != c
  {
    ShapeAt(t, rules, x);
    DepthsApart(0, |x.path|);
    var s := x.path[|x.path| - STRIDE..];
    assert x.path == Parent(x).path + s;
    ToBitsValue(s);
    assert Pow2(6) == 64;
    assert x == Sub(Parent(x), Value(s));
    assert Parent(x) == c ==> Value(s) in ChildrenOf(t, c);
  }

  lemma {:induction false} NotNode(rules: Rules, c: Loc, w: Loc)
    requires w in rules && RulesOf(rules, c) == map[]
    ensures NodeOf(w) != c
  {
    var d := NodeDepth(|w.path|);
    var u := w.path[d..];
    assert w.path == w.path[..d] + u;
    PosInNode(u);
    PathAtPos(u);
    assert w == At(NodeOf(w), u);
    assert NodeOf(w) == c ==> PosOf(u) in RulesOf(rules, c);
  }

  /** The empty child in slot i of the node at l is dropped. */
  lemma {:induction false} DropTrie(t: Tree, s: Snap, rules: Rules, l: Loc, i: nat)
    requires i < WORD && TrieOK(t, s, rules, Sub(l, i)) && l in t && Sub(l, i) in t && Empty(s[Sub(l, i)])
    ensures |s[l].external| == WORD && s[l].external[i] && Above(s[l].external, i) < |s[l].children|
    ensures TrieOK(t - {Sub(l, i)}, (s - {Sub(l, i)})[l := WithoutChild(s[l], i)], rules, l)
  {
    var c := Sub(l, i);
    HoldsAt(t, s, rules, l);
    HoldsAt(t, s, rules, c);
    ChildAt(t, rules, l, s[l], i);
    NodeShrunk(t, rules, l, s[l], i);
    EmptyHolds(t, rules, c, s[c]);
    ShapeDropped(t, rules, c);
    SubPath(l, i);
    var t', s' := t - {c}, (s - {c})[l := WithoutChild(s[l], i)];
    forall x | x in s' ensures NodeHolds(t', rules, x, s'[x]) {
      if x != l {
        HoldsAt(t, s, rules, x);
        ChildrenDropped(t, l, i, x);
        NodeSame(t, t', rules, rules, x, s[x]);
      }
    }
    assert AllHold(t', s', rules) by { assert Open(MbAllKey); }
    assert Full(s', l) by { assert Open(MbFullKey); }
  }
}
