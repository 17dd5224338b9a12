/** insert_entry, delete_entry with update_nodes, and prefix_exist. */
module MbUpdate {
  import opened Bits
  import opened Bitmaps
  import opened Seqs
  import opened Folding
  import opened MbBlocks
  import opened MbTries
  import opened MbChange

  // ---------- one object ----------

  lemma {:induction false} OneObject(t: Tree, rules: Rules, s: Snap, l: Loc)
    requires Shape(t, rules) && l in t && s.Keys == t.Keys
    requires forall x :: x in t && t[x] != t[l] ==> s[x] == BodyOf(t[x])
    ensures View(t) == s[l := BodyOf(t[l])]
  {
    var s' := s[l := BodyOf(t[l])];
    assert s'.Keys == View(t).Keys;
    ShapeAt(t, rules, l);
    forall x | x in s' ensures View(t)[x] == s'[x] {
      if x != l { ShapeAt(t, rules, x); }
    }
  }

  /** The objects of the larger tree, of which only that at c is new. */
  lemma {:induction false} OneMore(t: Tree, s: Snap, c: Loc, child: MbNode, b: Body)
    requires c !in t && s == View(t) && b == BodyOf(child)
    ensures View(t[c := child]) == s[c := b]
  {
    var t' := t[c := child];
    assert View(t').Keys == s[c := b].Keys;
    assert forall x :: x in s[c := b] ==> View(t')[x] == s[c := b][x];
  }

  lemma {:induction false} OneLess(t: Tree, s: Snap, c: Loc)
    requires s == View(t)
    ensures View(t - {c}) == s - {c}
  {
    assert View(t - {c}).Keys == (s - {c}).Keys;
    assert forall x :: x in s - {c} ==> View(t - {c})[x] == s[x];
  }

  // ---------- the packed arrays ----------

  /** The block of a node, by its bitmaps. */
  lemma {:induction false} BlockOf(t: Tree, rules: Rules, l: Loc, node: MbNode)
    requires NodeHolds(t, rules, l, BodyOf(node))
    ensures |BodyOf(node).rules| == Count(node.internal) && |BodyOf(node).children| == Count(node.external)
    ensures Holds(node.block, node.base, BodyOf(node).rules, BodyOf(node).children)
  {
    assert Open(MbHoldKey);
    HoldsIn(node.block, node.base, Count(node.internal), Count(node.external));
  }

  lemma {:induction false} BlankBody(x: MbNode)
    requires x.external == Zeros(WORD) && x.internal == Zeros(WORD) && x.block == [] && x.base == 0
    ensures BodyOf(x) == Blank()
  {
    CountZeros(WORD);
    assert RulesIn(x.block, x.base, 0) == [] && ChildrenIn(x.block, x.base, 0) == [];
  }

  method SetBlock(node: MbNode, block: seq<Item<MbNode>>, base: nat, ghost rules: seq<Hop>, ghost children: seq<MbNode>)
    requires Holds(block, base, rules, children)
    requires Count(node.internal) == |rules| && Count(node.external) == |children|
    modifies node`block, node`base
    ensures BodyOf(node) == Body(node.external, node.internal, rules, children)
  {
    node.block, node.base := block, base;
    InHolds(block, base, rules, children);
  }

  /** extend_rule: make room for nhi as rule number pos, counted from 1; its bit is set already. */
  method ExtendRule(node: MbNode, pos: nat, nhi: Hop, ghost k: nat, ghost rules: seq<Hop>, ghost children: seq<MbNode>)
    requires Holds(node.block, node.base, rules, children) && k <= |rules| && pos == k + 1
    requires Count(node.internal) == |rules| + 1 && Count(node.external) == |children|
    modifies node`block, node`base
    ensures BodyOf(node) == Body(node.external, node.internal, InsertAt(rules, k, nhi), children)
  {
    var child_num := Count(node.external);
    var rule_num := Count(node.internal) - 1;
    var block, base := InsertRule(node.block, node.base, child_num, rule_num, pos, nhi, rules, children);
    SetBlock(node, block, base, InsertAt(rules, k, nhi), children);
  }

  /** reduce_rule: drop rule number pos, counted from 1; its bit is cleared afterwards. */
  method ReduceRule(node: MbNode, pos: nat, ghost rules: seq<Hop>, ghost children: seq<MbNode>)
    requires Holds(node.block, node.base, rules, children) && 1 <= pos <= |rules|
    requires Count(node.internal) == |rules| && Count(node.external) == |children|
    modifies node`block, node`base
    ensures Holds(node.block, node.base, RemoveAt(rules, pos - 1), children)
  {
    var child_num := Count(node.external);
    var rule_num := Count(node.internal);
    node.block, node.base := RemoveRule(node.block, node.base, child_num, rule_num, pos, rules, children);
  }

  /** extend_child: make room for a new node as child number pos, counted from 0; its bit is set already. */
  method ExtendChild(node: MbNode, pos: nat, ghost loc: Loc, ghost rules: seq<Hop>, ghost children: seq<MbNode>)
    returns (child: MbNode)
    requires Holds(node.block, node.base, rules, children) && pos <= |children|
    requires Count(node.internal) == |rules| && Count(node.external) == |children| + 1
    modifies node`block, node`base
    ensures fresh(child) && BodyOf(child) == Blank() && child.loc == loc
    ensures BodyOf(node) == Body(node.external, node.internal, rules, InsertAt(children, pos, child))
  {
    child := new MbNode(loc);
    BlankBody(child);
    PlaceChild(node, pos, child, rules, children);
  }

  method PlaceChild(node: MbNode, pos: nat, child: MbNode, ghost rules: seq<Hop>, ghost children: seq<MbNode>)
    requires Holds(node.block, node.base, rules, children) && pos <= |children|
    requires Count(node.internal) == |rules| && Count(node.external) == |children| + 1
    modifies node`block, node`base
    ensures BodyOf(node) == Body(node.external, node.internal, rules, InsertAt(children, pos, child))
  {
    var child_num := Count(node.external) - 1;
    var rule_num := Count(node.internal);
    var block, base := InsertChild(node.block, node.base, child_num, rule_num, pos, child, rules, children);
    SetBlock(node, block, base, rules, InsertAt(children, pos, child));
  }

  /** reduce_child: drop child number pos, counted from 0; its bit is cleared afterwards. */
  method ReduceChild(node: MbNode, pos: nat, ghost rules: seq<Hop>, ghost children: seq<MbNode>)
    requires Holds(node.block, node.base, rules, children) && pos < |children|
    requires Count(node.internal) == |rules| && Count(node.external) == |children|
    modifies node`block, node`base
    ensures Holds(node.block, node.base, rules, RemoveAt(children, pos))
  {
    var child_num := Count(node.external);
    var rule_num := Count(node.internal);
    node.block, node.base := RemoveChild(node.block, node.base, child_num, rule_num, pos, rules, children);
  }

  /** Overwrite rule number k, counted from 0. */
  method OverwriteRule(node: MbNode, k: nat, nhi: Hop, ghost rules: seq<Hop>, ghost children: seq<MbNode>)
    requires Holds(node.block, node.base, rules, children) && k < |rules|
    requires Count(node.internal) == |rules| && Count(node.external) == |children|
    modifies node`block
    ensures BodyOf(node) == Body(node.external, node.internal, rules[k := nhi], children)
  {
    var block := node.block[node.base - k - 1 := Rule(nhi)];
    InHolds(block, node.base, rules[k := nhi], children);
    node.block := block;
  }

  // ---------- one node ----------

  /** b is what the node holds. */
  ghost predicate Sound(node: MbNode, b: Body)
    reads node
  {
    && b == BodyOf(node) && Holds(node.block, node.base, b.rules, b.children) && |b.internal| == |b.external| == WORD
    && |b.rules| == Count(b.internal) && |b.children| == Count(b.external)
  }

  lemma {:induction false} SoundNode(t: Tree, s: Snap, rules: Rules, l: Loc, node: MbNode)
    requires AllHold(t, s, rules) && l in s && s[l] == BodyOf(node)
    ensures Sound(node, s[l])
  {
    HoldsAt(t, s, rules, l);
    BlockOf(t, rules, l, node);
  }

  method WriteRule(node: MbNode, pos: nat, nhi: Hop, ghost b: Body)
    requires Sound(node, b) && pos < WORD && b.internal[pos]
    modifies node
    ensures Above(b.internal, pos) < |b.rules| && BodyOf(node) == WithHop(b, pos, nhi)
  {
    CountOnesIs(node.internal, pos);
    OverwriteRule(node, CountOnes(node.internal, pos), nhi, b.rules, b.children);
  }

  method AddRule(node: MbNode, pos: nat, nhi: Hop, ghost b: Body)
    requires Sound(node, b) && pos < WORD && !b.internal[pos]
    modifies node
    ensures Above(b.internal, pos) <= |b.rules| && BodyOf(node) == WithRule(b, pos, nhi)
  {
    var n := SetRuleBit(node, pos, b);
    ExtendRule(node, n + 1, nhi, n, b.rules, b.children);
  }

  method SetRuleBit(node: MbNode, i: nat, ghost b: Body) returns (pos: nat)
    requires Sound(node, b) && i < WORD && !b.internal[i]
    modifies node`internal
    ensures node.internal == b.internal[i := true] && node.external == b.external && pos == Above(b.internal, i)
    ensures Holds(node.block, node.base, b.rules, b.children) && pos <= |b.rules|
    ensures Count(node.internal) == |b.rules| + 1 && Count(node.external) == |b.children|
  {
    NewBit(node.internal, i);
    node.internal := node.internal[i := true];
    pos := CountOnes(node.internal, i);
  }

  method PutRule(node: MbNode, pos: nat, nhi: Hop, ghost b: Body)
    requires Sound(node, b) && pos < WORD
    modifies node
    ensures if b.internal[pos] then Above(b.internal, pos) < |b.rules| && BodyOf(node) == WithHop(b, pos, nhi)
            else Above(b.internal, pos) <= |b.rules| && BodyOf(node) == WithRule(b, pos, nhi)
  {
    if node.internal[pos] {
      WriteRule(node, pos, nhi, b);
    } else {
      AddRule(node, pos, nhi, b);
    }
  }

  method TakeRule(node: MbNode, pos: nat, ghost b: Body)
    requires Sound(node, b) && pos < WORD && b.internal[pos]
    modifies node
    ensures Above(b.internal, pos) < |b.rules| && BodyOf(node) == WithoutRule(b, pos)
  {
    CountOnesIs(node.internal, pos);
    CountSet(node.internal, pos, false);
    ReduceRule(node, CountOnes(node.internal, pos) + 1, b.rules, b.children);
    node.internal := node.internal[pos := false];
    InHolds(node.block, node.base, RemoveAt(b.rules, Above(b.internal, pos)), b.children);
  }

  method AddChild(node: MbNode, i: nat, ghost loc: Loc, ghost b: Body) returns (child: MbNode)
    requires Sound(node, b) && i < WORD && !b.external[i]
    modifies node
    ensures fresh(child) && BodyOf(child) == Blank() && child.loc == loc
    ensures Above(b.external, i) <= |b.children| && BodyOf(node) == WithChild(b, i, child)
  {
    var pos := SetChildBit(node, i, b);
    child := ExtendChild(node, pos, loc, b.rules, b.children);
  }

  method SetChildBit(node: MbNode, i: nat, ghost b: Body) returns (pos: nat)
    requires Sound(node, b) && i < WORD && !b.external[i]
    modifies node`external
    ensures node.external == b.external[i := true] && node.internal == b.internal && pos == Above(b.external, i)
    ensures Holds(node.block, node.base, b.rules, b.children) && pos <= |b.children|
    ensures Count(node.internal) == |b.rules| && Count(node.external) == |b.children| + 1
  {
    NewBit(node.external, i);
    node.external := node.external[i := true];
    pos := CountOnes(node.external, i);
  }

  method TakeChild(node: MbNode, i: nat, ghost b: Body)
    requires Sound(node, b) && i < WORD && b.external[i]
    modifies node
    ensures Above(b.external, i) < |b.children| && BodyOf(node) == WithoutChild(b, i)
  {
    CountOnesIs(node.external, i);
    CountSet(node.external, i, false);
    ReduceChild(node, CountOnes(node.external, i), b.rules, b.children);
    node.external := node.external[i := false];
    InHolds(node.block, node.base, b.rules, RemoveAt(b.children, Above(b.external, i)));
  }

  // ---------- inserting ----------

  lemma {:induction false} SetDone(t: Tree, s: Snap, rules: Rules, l: Loc, u: Path, h: Hop, b': Body)
    requires TrieOK(t, s, rules, l) && l in t && |u| < STRIDE && |At(l, u).path| <= LENGTH
    requires var b, p := s[l], PosOf(u);
             && p < WORD && |b.internal| == WORD
             && if b.internal[p] then Above(b.internal, p) < |b.rules| && b' == WithHop(b, p, h)
                else Above(b.internal, p) <= |b.rules| && b' == WithRule(b, p, h)
    ensures TrieOK(t, s[l := b'], rules[At(l, u) := h], Loc(l.root, []))
  {
    RuleSet(t, s, rules, l, u, h, Loc(l.root, []));
  }

  /** The rule rest is set in the node at l. */
  method SetHere(node: MbNode, rest: Path, nhi: Hop, ghost t: Tree, ghost rules: Rules, ghost l: Loc)
    requires TrieOK(t, View(t), rules, l) && l in t && node == t[l] && |rest| < STRIDE && |l.path + rest| <= LENGTH
    modifies node
    ensures TrieOK(t, View(t), rules[At(l, rest) := nhi], Loc(l.root, []))
  {
    ghost var s := View(t);
    SoundNode(t, s, rules, l, node);
    CountInl(rest);
    PosInWord(rest);
    var stride := Value(rest);
    var pos := Pow2(|rest|) + stride - 1;
    PutRule(node, pos, nhi, s[l]);
    OneObject(t, rules, s, l);
    SetDone(t, s, rules, l, rest, nhi, BodyOf(node));
  }

  /** The search for the node of a prefix has come to the node at l, which alone may be empty. */
  lemma {:induction false} MoveDown(t: Tree, s: Snap, rules: Rules, l: Loc, i: nat)
    requires TrieOK(t, s, rules, l) && l in t && i < WORD && |s[l].external| == WORD && s[l].external[i]
    ensures Sub(l, i) in t && TrieOK(t, s, rules, Sub(l, i))
    ensures var c := CountOnes(s[l].external, i); 0 <= c < |s[l].children| && s[l].children[c] == t[Sub(l, i)]
  {
    HoldsAt(t, s, rules, l);
    ChildAt(t, rules, l, s[l], i);
    assert Full(s, Sub(l, i)) by { assert Open(MbFullKey); }
  }

  ghost predicate SubTree(t: Tree, t': Tree, r: nat) {
    && (forall l :: l in t ==> l in t' && t'[l] == t[l])
    && (forall l :: l in t' && l !in t ==> l.root == r)
  }

  /** The child in slot i of the node at l, created if it is missing. */
  method StepDown(node: MbNode, i: nat, ghost t: Tree, ghost rules: Rules, ghost l: Loc)
    returns (child: MbNode, ghost t': Tree)
    requires TrieOK(t, View(t), rules, l) && l in t && node == t[l] && i < WORD && |l.path| + STRIDE <= LENGTH
    modifies node
    ensures TrieOK(t', View(t'), rules, Sub(l, i)) && Sub(l, i) in t' && child == t'[Sub(l, i)]
    ensures SubTree(t, t', l.root) && fresh(t'.Values - t.Values)
  {
    ghost var s := View(t);
    HoldsAt(t, s, rules, l);
    t' := t;
    if node.external[i] {
      MoveDown(t, s, rules, l, i);
      child := node.ChildNo(CountOnes(node.external, i));
    } else {
      child, t' := Grow(node, i, t, rules, l);
    }
  }

  method Grow(node: MbNode, i: nat, ghost t: Tree, ghost rules: Rules, ghost l: Loc)
    returns (child: MbNode, ghost t': Tree)
    requires TrieOK(t, View(t), rules, l) && l in t && node == t[l] && i < WORD && |l.path| + STRIDE <= LENGTH
    requires |node.external| == WORD && !node.external[i]
    modifies node
    ensures TrieOK(t', View(t'), rules, Sub(l, i)) && Sub(l, i) in t' && child == t'[Sub(l, i)]
    ensures SubTree(t, t', l.root) && fresh(t'.Values - t.Values)
  {
    ghost var s := View(t);
    SoundNode(t, s, rules, l, node);
    child := AddChild(node, i, Sub(l, i), s[l]);
    t' := t[Sub(l, i) := child];
    GrowTrie(t, s, rules, l, i, child);
    OneObject(t, rules, s, l);
    OneMore(t, View(t), Sub(l, i), child, BodyOf(child));
    SubPath(l, i);
    assert t'.Values <= t.Values + {child};
  }

  lemma {:induction false} NextLoc(r: nat, v: Path, d: nat)
    requires d + STRIDE <= |v|
    ensures Value(v[d..][..STRIDE]) < WORD
    ensures Sub(Loc(r, v[..d]), Value(v[d..][..STRIDE])) == Loc(r, v[..d + STRIDE])
        && v[d..][STRIDE..] == v[d + STRIDE..]
  {
    var s := v[d..][..STRIDE];
    assert Pow2(6) == 64;
    ToBitsValue(s);
    assert v[..d] + s == v[..d + STRIDE];
  }

  /** The child on the way to rule v, created if it is missing. */
  method StepTo(node: MbNode, stride: nat, ghost t: Tree, ghost rules: Rules, ghost r: nat, ghost v: Path, ghost d: nat)
    returns (child: MbNode, ghost t': Tree)
    requires d + STRIDE <= |v| <= LENGTH && TrieOK(t, View(t), rules, Loc(r, v[..d])) && Loc(r, v[..d]) in t
    requires node == t[Loc(r, v[..d])] && stride == Value(v[d..][..STRIDE])
    modifies node
    ensures TrieOK(t', View(t'), rules, Loc(r, v[..d + STRIDE])) && Loc(r, v[..d + STRIDE]) in t'
    ensures child == t'[Loc(r, v[..d + STRIDE])] && SubTree(t, t', r) && fresh(t'.Values - t.Values)
  {
    NextLoc(r, v, d);
    child, t' := StepDown(node, stride, t, rules, Loc(r, v[..d]));
  }

  /** insert_entry: set rule v of trie r, whose root is node. */
  method InsertEntry(node: MbNode, v: Path, nhi: Hop, ghost t: Tree, ghost rules: Rules, ghost r: nat)
    returns (ghost t': Tree)
    requires TrieOK(t, View(t), rules, Loc(r, [])) && Loc(r, []) in t && node == t[Loc(r, [])] && |v| <= LENGTH
    modifies t.Values
    ensures TrieOK(t', View(t'), rules[Loc(r, v) := nhi], Loc(r, []))
    ensures SubTree(t, t', r) && fresh(t'.Values - t.Values)
  {
    var cur, rest := node, v;
    ghost var d: nat := 0;
    t' := t;
    assert v[..0] == [];
    while |rest| >= STRIDE
      invariant d <= |v| && rest == v[d..] && Loc(r, v[..d]) in t' && cur == t'[Loc(r, v[..d])]
      invariant TrieOK(t', View(t'), rules, Loc(r, v[..d]))
      invariant SubTree(t, t', r) && fresh(t'.Values - t.Values)
    {
      ghost var t1 := t';
      cur, t' := StepTo(cur, Value(rest[..STRIDE]), t1, rules, r, v, d);
      SubTreeTrans(t, t1, t', r);
      rest := rest[STRIDE..];
      d := d + STRIDE;
    }
    AtEnd(r, v, d);
    SetHere(cur, rest, nhi, t', rules, Loc(r, v[..d]));
  }

  lemma {:induction false} AtEnd(r: nat, v: Path, d: nat)
    requires d <= |v|
    ensures At(Loc(r, v[..d]), v[d..]) == Loc(r, v)
  {
    assert v[..d] + v[d..] == v;
  }

  lemma {:induction false} SubTreeTrans(t: Tree, t1: Tree, t': Tree, r: nat)
    requires SubTree(t, t1, r) && SubTree(t1, t', r)
    ensures SubTree(t, t', r) && t'.Values - t.Values <= (t'.Values - t1.Values) + (t1.Values - t.Values)
  {
  }

  /** prefix_exist. */
  method PrefixExist(node: MbNode, v: Path, ghost t: Tree, ghost rules: Rules, ghost r: nat) returns (found: bool)
    requires TrieOK(t, View(t), rules, Loc(r, [])) && Loc(r, []) in t && node == t[Loc(r, [])] && |v| <= LENGTH
    ensures found <==> Loc(r, v) in rules
  {
    var cur, rest := node, v;
    ghost var d: nat := 0;
    assert v[..0] == [] && IsDepth(0);
    while |rest| >= STRIDE
      invariant d <= |v| && rest == v[d..] && Loc(r, v[..d]) in t && cur == t[Loc(r, v[..d])] && IsDepth(d)
    {
      NextLoc(r, v, d);
      HoldsAt(t, View(t), rules, Loc(r, v[..d]));
      ChildAt(t, rules, Loc(r, v[..d]), BodyOf(cur), Value(rest[..STRIDE]));
      var pos := Value(rest[..STRIDE]);
      if !cur.external[pos] {
        NoRuleBelow(t, rules, r, v, d, |v|);
        assert v[..|v|] == v;
        return false;
      }
      cur := cur.ChildNo(CountOnes(cur.external, pos));
      rest := rest[STRIDE..];
      DepthIsNext(d);
      d := d + STRIDE;
    }
    ghost var l := Loc(r, v[..d]);
    HoldsAt(t, View(t), rules, l);
    RuleAt(t, rules, l, BodyOf(cur), rest);
    assert At(l, rest) == Loc(r, v) by { assert v[..d] + rest == v; }
    CountInl(rest);
    var pos := Pow2(|rest|) + Value(rest) - 1;
    found := cur.internal[pos];
  }

  // ---------- deleting ----------

  /** An entry of trace_node: a node on the way to the prefix and the slot taken there. */
  datatype Trace = Trace(node: MbNode, pos: nat)

  const UPDATE_LEVEL: nat := 16

  /** The entries lead from the root of trie r to depth d along v. */
  ghost predicate Trail(trace: seq<Trace>, t: Tree, r: nat, v: Path, d: nat)
    requires d <= |v|
    decreases |trace|
  {
    if trace == [] then d == 0
    else
      var e := d - STRIDE;
      && e >= 0 && IsDepth(e) && Loc(r, v[..e]) in t && trace[|trace| - 1].node == t[Loc(r, v[..e])]
      && trace[|trace| - 1].pos == Value(v[e..d])
      && Trail(trace[..|trace| - 1], t, r, v, e)
  }

  lemma {:induction false} TrailKept(trace: seq<Trace>, t: Tree, r: nat, v: Path, d: nat, c: Loc)
    requires d <= |v| && Trail(trace, t, r, v, d) && |c.path| >= d
    ensures Trail(trace, t - {c}, r, v, d)
    decreases |trace|
  {
    if trace != [] { TrailKept(trace[..|trace| - 1], t, r, v, d - STRIDE, c); }
  }

  lemma {:induction false} TrailMore(trace: seq<Trace>, t: Tree, r: nat, v: Path, d: nat, node: MbNode, pos: nat)
    requires d + STRIDE <= |v| && Trail(trace, t, r, v, d) && IsDepth(d)
    requires Loc(r, v[..d]) in t && node == t[Loc(r, v[..d])] && pos == Value(v[d..d + STRIDE])
    ensures Trail(trace + [Trace(node, pos)], t, r, v, d + STRIDE)
  {
    assert (trace + [Trace(node, pos)])[..|trace|] == trace;
  }

  lemma {:induction false} TrailDepth(trace: seq<Trace>, t: Tree, r: nat, v: Path, d: nat)
    requires d <= |v| && Trail(trace, t, r, v, d)
    ensures d == |trace| * STRIDE
    decreases |trace|
  {
    if trace != [] { TrailDepth(trace[..|trace| - 1], t, r, v, d - STRIDE); }
  }

  /** Rule rest goes from the node at l. */
  method CutHere(node: MbNode, pos: nat, ghost rest: Path, ghost t: Tree, ghost rules: Rules, ghost l: Loc)
    requires TrieOK(t, View(t), rules, Loc(l.root, [])) && l in t && node == t[l]
    requires |rest| < STRIDE && At(l, rest) in rules && pos == PosOf(rest)
    modifies node
    ensures TrieOK(t, View(t), rules - {At(l, rest)}, l)
  {
    ghost var s := View(t);
    SoundNode(t, s, rules, l, node);
    RuleCut(t, s, rules, l, rest, Loc(l.root, []));
    TakeRule(node, pos, s[l]);
    OneObject(t, rules, s, l);
  }

  /** The empty child in slot i of the node at l goes. */
  method DropChild(node: MbNode, i: nat, ghost t: Tree, ghost rules: Rules, ghost l: Loc) returns (ghost t': Tree)
    requires i < WORD && TrieOK(t, View(t), rules, Sub(l, i)) && l in t && node == t[l]
    requires Sub(l, i) in t && Empty(View(t)[Sub(l, i)])
    modifies node
    ensures t' == t - {Sub(l, i)} && TrieOK(t', View(t'), rules, l)
  {
    ghost var s := View(t);
    SoundNode(t, s, rules, l, node);
    DropTrie(t, s, rules, l, i);
    TakeChild(node, i, s[l]);
    t' := t - {Sub(l, i)};
    OneObject(t, rules, s, l);
    OneLess(t, View(t), Sub(l, i));
    SubPath(l, i);
    assert (s - {Sub(l, i)})[l := WithoutChild(s[l], i)] == s[l := WithoutChild(s[l], i)] - {Sub(l, i)};
  }

  lemma {:induction false} ExemptUp(t: Tree, s: Snap, rules: Rules, c: Loc, l: Loc)
    requires TrieOK(t, s, rules, c) && c in s && !Empty(s[c])
    ensures TrieOK(t, s, rules, l)
  {
    assert Open(MbFullKey);
  }

  /** The step of update_nodes at the node at l. */
  method UpdateNode(node: MbNode, pos: nat, needToDel: bool, ghost t: Tree, ghost rules: Rules, ghost l: Loc)
    returns (ret: bool, ghost t': Tree)
    requires pos < WORD && Sub(l, pos) in t && TrieOK(t, View(t), rules, Sub(l, pos)) && l in t && node == t[l]
    requires needToDel <==> Empty(View(t)[Sub(l, pos)])
    modifies node
    ensures t' == (if needToDel then t - {Sub(l, pos)} else t) && TrieOK(t', View(t'), rules, l)
    ensures l in t' && (ret <==> Empty(View(t')[l]))
  {
    SubPath(l, pos);
    t' := t;
    if needToDel {
      t' := DropChild(node, pos, t, rules, l);
    } else {
      ExemptUp(t, View(t), rules, Sub(l, pos), l);
    }
    ret := node.internal == Zeros(WORD) && node.external == Zeros(WORD);
  }

  /** t' lacks some nodes of t, but no root. */
  ghost predicate Less(t: Tree, t': Tree) {
    && (forall l :: l in t' ==> l in t && t'[l] == t[l])
    && (forall l :: l in t && l.path == [] ==> l in t')
  }

  /** The state of update_nodes: the nodes below depth d are done, the one at depth d alone may be empty, and
      the entries lead to it. */
  ghost predicate Pruning(trace: seq<Trace>, t0: Tree, t: Tree, s: Snap, rules: Rules, r: nat, v: Path, d: nat,
                          ret: bool) {
    && d <= |v|
    && forall k: Key :: Open(k) && k.WorkKey? ==>
        && Trail(trace, t, r, v, d) && Less(t0, t) && Loc(r, v[..d]) in t && TrieOK(t, s, rules, Loc(r, v[..d]))
        && (ret <==> Empty(s[Loc(r, v[..d])]))
  }

  lemma {:induction false} LastEntry(trace: seq<Trace>, t0: Tree, t: Tree, s: Snap, rules: Rules, r: nat, v: Path,
                                     d: nat, ret: bool)
    requires Pruning(trace, t0, t, s, rules, r, v, d, ret) && |trace| > 0
    ensures TrieOK(t, s, rules, Loc(r, v[..d])) && Less(t0, t)
    ensures Loc(r, v[..d]) in s && (ret <==> Empty(s[Loc(r, v[..d])]))
    ensures var e, last := d - STRIDE, trace[|trace| - 1];
            && e >= 0 && Loc(r, v[..e]) in t && last.node == t[Loc(r, v[..e])] && last.pos < WORD
            && Sub(Loc(r, v[..e]), last.pos) == Loc(r, v[..d]) && last.node in t.Values && last.node in t0.Values
            && Trail(trace[..|trace| - 1], t, r, v, e)
            && Trail(trace[..|trace| - 1], t - {Loc(r, v[..d])}, r, v, e)
  {
    assert Open(WorkKey);
    var e: nat := d - STRIDE;
    NextLoc(r, v, e);
    assert v[e..][..STRIDE] == v[e..d];
    TrailKept(trace[..|trace| - 1], t, r, v, e, Loc(r, v[..d]));
  }

  lemma {:induction false} PrunedRoot(t0: Tree, t: Tree, s: Snap, rules: Rules, r: nat, v: Path, d: nat, ret: bool)
    requires Pruning([], t0, t, s, rules, r, v, d, ret)
    ensures TrieOK(t, s, rules, Loc(r, [])) && Less(t0, t) && Loc(r, []) in t && (ret <==> Empty(s[Loc(r, [])]))
  {
    assert Open(WorkKey);
    assert v[..0] == [];
  }

  lemma {:induction false} NextEntry(trace: seq<Trace>, t0: Tree, t: Tree, s: Snap, t': Tree, s': Snap, rules: Rules,
                                     r: nat, v: Path, d: nat, del: bool, ret: bool)
    requires Pruning(trace, t0, t, s, rules, r, v, d, del) && |trace| > 0 && d >= STRIDE
    requires t' == (if del then t - {Loc(r, v[..d])} else t) && TrieOK(t', s', rules, Loc(r, v[..d - STRIDE]))
    requires Loc(r, v[..d - STRIDE]) in t' && (ret <==> Empty(s'[Loc(r, v[..d - STRIDE])]))
    ensures Pruning(trace[..|trace| - 1], t0, t', s', rules, r, v, d - STRIDE, ret)
  {
    LastEntry(trace, t0, t, s, rules, r, v, d, del);
  }

  /** One step of update_nodes above the bottom. */
  method Prune(trace: seq<Trace>, needToDel: bool, ghost t0: Tree, ghost t: Tree, ghost rules: Rules, ghost r: nat,
               ghost v: Path, ghost d: nat)
    returns (ret: bool, rest: seq<Trace>, ghost t': Tree, ghost e: nat)
    requires |trace| > 0 && Pruning(trace, t0, t, View(t), rules, r, v, d, needToDel)
    modifies t0.Values
    ensures |rest| < |trace| && Pruning(rest, t0, t', View(t'), rules, r, v, e, ret)
  {
    ghost var s := View(t);
    LastEntry(trace, t0, t, s, rules, r, v, d, needToDel);
    var last := trace[|trace| - 1];
    rest, e := trace[..|trace| - 1], d - STRIDE;
    ret, t' := UpdateNode(last.node, last.pos, needToDel, t, rules, Loc(r, v[..e]));
    NextEntry(trace, t0, t, s, t', View(t'), rules, r, v, d, needToDel, ret);
  }

  /** update_nodes: take the rule out of the last node, and prune the nodes that become empty.  The result
      says whether the root is empty now. */
  method UpdateNodes(trace: seq<Trace>, ghost t: Tree, ghost rules: Rules, ghost r: nat, ghost v: Path, ghost d0: nat)
    returns (ret: bool, ghost t': Tree)
    requires TrieOK(t, View(t), rules, Loc(r, [])) && Loc(r, v) in rules && |trace| > 0
    requires d0 <= |v| < d0 + STRIDE && Loc(r, v[..d0]) in t && trace[|trace| - 1].node == t[Loc(r, v[..d0])]
    requires trace[|trace| - 1].pos == PosOf(v[d0..]) && Trail(trace[..|trace| - 1], t, r, v, d0)
    modifies t.Values
    ensures TrieOK(t', View(t'), rules - {Loc(r, v)}, Loc(r, [])) && Less(t, t')
    ensures Loc(r, []) in t' && (ret <==> Empty(View(t')[Loc(r, [])]))
  {
    var total := |trace| - 1;
    ghost var rules' := rules - {Loc(r, v)};
    assert At(Loc(r, v[..d0]), v[d0..]) == Loc(r, v) by { assert v[..d0] + v[d0..] == v; }
    CutHere(trace[total].node, trace[total].pos, v[d0..], t, rules, Loc(r, v[..d0]));
    ret := trace[total].node.internal == Zeros(WORD) && trace[total].node.external == Zeros(WORD);
    ret, t' := PruneAll(trace[..total], ret, t, rules', r, v, d0);
  }

  /** The rest of update_nodes. */
  method PruneAll(trace: seq<Trace>, needToDel: bool, ghost t: Tree, ghost rules: Rules, ghost r: nat, ghost v: Path,
                  ghost d0: nat)
    returns (ret: bool, ghost t': Tree)
    requires Pruning(trace, t, t, View(t), rules, r, v, d0, needToDel)
    modifies t.Values
    ensures TrieOK(t', View(t'), rules, Loc(r, [])) && Less(t, t')
    ensures Loc(r, []) in t' && (ret <==> Empty(View(t')[Loc(r, [])]))
  {
    ghost var d: nat := d0;
    ret, t' := needToDel, t;
    var rest := trace;
    while rest != []
      invariant Pruning(rest, t, t', View(t'), rules, r, v, d, ret)
      decreases |rest|
    {
      ret, rest, t', d := Prune(rest, ret, t, t', rules, r, v, d);
    }
    PrunedRoot(t, t', View(t'), rules, r, v, d, ret);
  }

  /** delete_entry: take out rule v of trie r, which must exist. */
  method DeleteEntry(node: MbNode, v: Path, ghost t: Tree, ghost rules: Rules, ghost r: nat)
    returns (ret: bool, ghost t': Tree)
    requires TrieOK(t, View(t), rules, Loc(r, [])) && Loc(r, []) in t && node == t[Loc(r, [])] && Loc(r, v) in rules
    modifies t.Values
    ensures TrieOK(t', View(t'), rules - {Loc(r, v)}, Loc(r, [])) && Less(t, t')
    ensures Loc(r, []) in t' && (ret <==> Empty(View(t')[Loc(r, [])]))
  {
    ghost var d: nat;
    var trace;
    trace, d := TraceTo(node, v, t, rules, r);
    ret, t' := UpdateNodes(trace, t, rules, r, v, d);
  }

  /** The first part of delete_entry: the nodes on the way to the rule.  trace_node is never exceeded. */
  method TraceTo(node: MbNode, v: Path, ghost t: Tree, ghost rules: Rules, ghost r: nat)
    returns (trace: seq<Trace>, ghost d: nat)
    requires TrieOK(t, View(t), rules, Loc(r, [])) && Loc(r, []) in t && node == t[Loc(r, [])] && Loc(r, v) in rules
    ensures 0 < |trace| <= UPDATE_LEVEL && d <= |v| < d + STRIDE && Loc(r, v[..d]) in t
        && trace[|trace| - 1].node == t[Loc(r, v[..d])]
    ensures trace[|trace| - 1].pos == PosOf(v[d..]) && Trail(trace[..|trace| - 1], t, r, v, d)
  {
    var cur, rest := node, v;
    trace := [];
    d := 0;
    assert v[..0] == [] && IsDepth(0);
    assert |v| <= LENGTH by { assert Open(MbShapeKey); }
    while |rest| >= STRIDE
      invariant d <= |v| && rest == v[d..] && Loc(r, v[..d]) in t && cur == t[Loc(r, v[..d])] && IsDepth(d)
      invariant Trail(trace, t, r, v, d)
    {
      var pos := Value(rest[..STRIDE]);
      WayDown(t, View(t), rules, r, v, d, trace, cur);
      trace := trace + [Trace(cur, pos)];
      cur := cur.ChildNo(CountOnes(cur.external, pos));
      rest := rest[STRIDE..];
      d := d + STRIDE;
    }
    CountInl(rest);
    TrailDepth(trace, t, r, v, d);
    var last := Trace(cur, Pow2(|rest|) + Value(rest) - 1);
    assert (trace + [last])[..|trace|] == trace;
    trace := trace + [last];
  }

  /** The next node on the way to an existing rule. */
  lemma {:induction false} WayDown(t: Tree, s: Snap, rules: Rules, r: nat, v: Path, d: nat, trace: seq<Trace>,
                                   cur: MbNode)
    requires Shape(t, rules) && AllHold(t, s, rules) && s.Keys == t.Keys && Loc(r, v) in rules && IsDepth(d)
        && d + STRIDE <= |v|
    requires Loc(r, v[..d]) in t && cur == t[Loc(r, v[..d])] && Trail(trace, t, r, v, d)
    ensures var pos, b := Value(v[d..][..STRIDE]), s[Loc(r, v[..d])];
            && |b.external| == WORD && pos < WORD && b.external[pos]
            && 0 <= CountOnes(b.external, pos) < |b.children|
            && Loc(r, v[..d + STRIDE]) in t && b.children[CountOnes(b.external, pos)] == t[Loc(r, v[..d + STRIDE])]
            && Trail(trace + [Trace(cur, pos)], t, r, v, d + STRIDE)
    ensures IsDepth(d + STRIDE) && v[d..][STRIDE..] == v[d + STRIDE..]
  {
    NextLoc(r, v, d);
    HoldsAt(t, s, rules, Loc(r, v[..d]));
    var pos := Value(v[d..][..STRIDE]);
    OnTheWay(t, rules, r, v, d);
    ChildAt(t, rules, Loc(r, v[..d]), s[Loc(r, v[..d])], pos);
    assert v[d..][..STRIDE] == v[d..d + STRIDE];
    TrailMore(trace, t, r, v, d, cur, pos);
    DepthIsNext(d);
  }

  /** There are nodes on the way to every rule. */
  lemma {:induction false} OnTheWay(t: Tree, rules: Rules, r: nat, v: Path, d: nat)
    requires Shape(t, rules) && Loc(r, v) in rules && IsDepth(d) && d + STRIDE <= |v|
    ensures Loc(r, v[..d + STRIDE]) in t
  {
    assert NodeOf(Loc(r, v)) in t by { assert Open(MbShapeKey); }
    DepthIsNext(d);
    DepthFloor(d + STRIDE, |v|);
    ParentIn(t, rules, NodeOf(Loc(r, v)), d + STRIDE);
    assert v[..NodeDepth(|v|)][..d + STRIDE] == v[..d + STRIDE];
  }
}
