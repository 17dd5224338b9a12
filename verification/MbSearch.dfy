/** The searches in a multi-bit trie: the eager one and the lazy one. */
module MbSearch {
  import opened Bits
  import opened Bitmaps
  import opened Folding
  import opened MbTries

  /** The address followed by the zeros that shifting brings in. */
  function Padded(ip: Path): (key: Path)
    requires |ip| == LENGTH
    ensures |key| == LENGTH + 40 && key[..LENGTH] == ip
  {
    ip + Zeros(40)
  }

  lemma {:induction false} BestPadded(t: Tree, rules: Rules, r: nat, ip: Path)
    requires Shape(t, rules) && |ip| == LENGTH
    ensures BestHop(rules, r, Padded(ip), 40) == BestHop(rules, r, ip, LENGTH)
  {
    var key := Padded(ip);
    forall k | LENGTH < k <= 40 ensures Loc(r, key[..k]) !in rules {
      assert Open(MbShapeKey);
    }
    BestSkip(rules, r, key, LENGTH, 40);
    BestSame(rules, r, key, ip, LENGTH);
  }

  lemma {:induction false} BestSame(rules: Rules, r: nat, key: Path, key': Path, n: nat)
    requires n <= |key| && n <= |key'| && key[..n] == key'[..n]
    ensures Best(rules, r, key, n) == Best(rules, r, key', n)
    ensures BestHop(rules, r, key, n) == BestHop(rules, r, key', n)
  {
    if n > 0 {
      assert key[..n - 1] == key[..n][..n - 1] == key'[..n - 1];
      BestSame(rules, r, key, key', n - 1);
    }
  }

  /** The search has arrived at the node n at depth d. */
  ghost predicate Arrived(t: Tree, rules: Rules, r: nat, key: Path, n: MbNode, ip: Path, d: nat) {
    && |key| == LENGTH + 40 && d <= LENGTH && IsDepth(d) && Loc(r, key[..d]) in t && n == t[Loc(r, key[..d])]
    && ip == key[d..d + LENGTH] && Shape(t, rules)
  }

  /** Nothing but zeros follows the address. */
  ghost predicate ZeroTail(key: Path) {
    forall k: Key :: Open(k) && k.MbShapeKey? ==> forall i :: LENGTH <= i < |key| ==> !key[i]
  }

  /** Shifting the address to the left by one stride. */
  lemma {:induction false} Shifted(key: Path, d: nat)
    requires |key| == LENGTH + 40 && d + STRIDE <= 40
    ensures key[d..d + LENGTH][..STRIDE] == key[d..d + STRIDE]
    ensures d + STRIDE <= LENGTH && ZeroTail(key) ==>
              key[d..d + LENGTH][STRIDE..] + Zeros(STRIDE) == key[d + STRIDE..d + STRIDE + LENGTH]
  {
    assert Open(MbShapeKey);
  }

  lemma {:induction false} PaddedZeros(ip: Path)
    requires |ip| == LENGTH
    ensures ZeroTail(Padded(ip))
    ensures Padded(ip)[0..LENGTH] == ip
  {
  }

  /** The way on from a node: its slot and child. */
  lemma {:induction false} WayOn(t: Tree, rules: Rules, r: nat, key: Path, n: MbNode, ip: Path, d: nat, b: Body)
    requires Arrived(t, rules, r, key, n, ip, d) && NodeHolds(t, rules, Loc(r, key[..d]), b)
    requires ZeroTail(key)
    ensures var i := Value(ip[..STRIDE]);
            && i < WORD && ip[..STRIDE] == key[d..d + STRIDE]
            && (b.external[i] ==>
                  var c := CountOnes(b.external, i);
                  0 <= c < |b.children| && Arrived(t, rules, r, key, b.children[c], ip[STRIDE..] + Zeros(STRIDE),
                      d + STRIDE))
            && (!b.external[i] ==> Loc(r, key[..d + STRIDE]) !in t)
  {
    var s := key[d..d + STRIDE];
    var l, i := Loc(r, key[..d]), Value(s);
    Shifted(key, d);
    assert Pow2(6) == 64;
    ToBitsValue(s);
    ChildAt(t, rules, l, b, i);
    assert key[..d] + s == key[..d + STRIDE];
    if b.external[i] {
      DepthIsNext(d);
      assert |key[..d + STRIDE]| <= LENGTH by { assert Open(MbShapeKey); }
    }
  }

  /** The stride at a node, and the child it leads to. */
  method Follow(n: MbNode, ip: Path, ghost t: Tree, ghost rules: Rules, ghost r: nat, ghost key: Path, ghost d: nat)
    returns (child: MbNode?, stride: nat)
    requires Arrived(t, rules, r, key, n, ip, d) && AllHold(t, View(t), rules) && ZeroTail(key)
    ensures stride == Value(key[d..d + STRIDE]) && NodeHolds(t, rules, Loc(r, key[..d]), BodyOf(n))
    ensures child != null ==> Arrived(t, rules, r, key, child, ip[STRIDE..] + Zeros(STRIDE), d + STRIDE)
    ensures child == null ==> Loc(r, key[..d + STRIDE]) !in t
  {
    HoldsAt(t, View(t), rules, Loc(r, key[..d]));
    WayOn(t, rules, r, key, n, ip, d, BodyOf(n));
    stride := Value(ip[..STRIDE]);
    child := null;
    if n.external[stride] {
      child := n.ChildNo(CountOnes(n.external, stride));
    }
  }

  /** The best match shorter than d. */
  ghost function BestBelow(rules: Rules, r: nat, key: Path, d: nat): Hop
    requires d <= |key|
  {
    if d == 0 then 0 else BestHop(rules, r, key, d - 1)
  }

  /** The match within one node. */
  method LookAt(n: MbNode, stride: nat, fct: seq<Bitmap>, ghost t: Tree, ghost rules: Rules, ghost r: nat,
                ghost key: Path, ghost d: nat)
    returns (found: bool, hop: Hop)
    requires AllHold(t, View(t), rules) && TableOK(fct) && d + STRIDE <= |key|
    requires Loc(r, key[..d]) in t && n == t[Loc(r, key[..d])] && stride == Value(key[d..d + STRIDE])
    ensures BestHop(rules, r, key, d + STRIDE - 1) == if found then hop else BestBelow(rules, r, key, d)
  {
    HoldsAt(t, View(t), rules, Loc(r, key[..d]));
    NodeMatch(t, rules, r, key, d, BodyOf(n));
    var pos := TreeFunction(fct, n.internal, stride, key[d..d + STRIDE]);
    found, hop := pos != -1, 0;
    if found {
      hop := n.RuleNo(CountOnes(n.internal, pos));
    }
  }

  /** do_search: note the match of every node on the way. */
  method DoSearch(node: MbNode, ip0: Path, fct: seq<Bitmap>, ghost t: Tree, ghost rules: Rules, ghost r: nat)
    returns (hop: Hop)
    requires Shape(t, rules) && AllHold(t, View(t), rules) && Loc(r, []) in t && node == t[Loc(r, [])]
    requires |ip0| == LENGTH && TableOK(fct)
    ensures hop == BestHop(rules, r, ip0, LENGTH)
  {
    ghost var key := Padded(ip0);
    ghost var d: nat := 0;
    var n: MbNode, ip := node, ip0;
    hop := 0;
    PaddedZeros(ip0);
    BestPadded(t, rules, r, ip0);
    assert key[..0] == [];
    while true
      invariant Arrived(t, rules, r, key, n, ip, d)
      invariant hop == BestBelow(rules, r, key, d)
      decreases LENGTH - d
    {
      var child, stride := Follow(n, ip, t, rules, r, key, d);
      var found, h := LookAt(n, stride, fct, t, rules, r, key, d);
      if found {
        hop := h;
      }
      if child == null {
        NothingLonger(t, rules, r, key, d, 40);
        break;
      }
      n, ip, d := child, ip[STRIDE..] + Zeros(STRIDE), d + STRIDE;
    }
  }

  // ---------- the lazy search ----------

  /** An entry of lazy_mark: a node that was passed without a look at its rules. */
  datatype Mark = Mark(lazy_p: MbNode, stride: nat)

  const LEVEL: nat := 5

  /** m is the node at depth d. */
  ghost predicate MarkAt(m: Mark, t: Tree, r: nat, key: Path, d: nat) {
    && d + STRIDE <= |key| && IsDepth(d)
    && Loc(r, key[..d]) in t && m.lazy_p == t[Loc(r, key[..d])] && m.stride == Value(key[d..d + STRIDE])
  }

  /** The marks are the nodes on the way to depth d. */
  ghost predicate Marks(marks: seq<Mark>, t: Tree, r: nat, key: Path, d: nat) {
    d == |marks| * STRIDE <= |key| && forall i :: 0 <= i < |marks| ==> MarkAt(marks[i], t, r, key, i * STRIDE)
  }

  lemma {:induction false} PushMark(marks: seq<Mark>, k: nat, t: Tree, r: nat, key: Path, d: nat, m: Mark)
    requires k < |marks| && Marks(marks[..k], t, r, key, d) && MarkAt(m, t, r, key, d)
    ensures Marks(marks[k := m][..k + 1], t, r, key, d + STRIDE)
  {
    var ms := marks[k := m][..k + 1];
    forall i | 0 <= i < |ms| ensures MarkAt(ms[i], t, r, key, i * STRIDE) {
      if i < k { assert marks[..k][i] == ms[i]; }
    }
  }

  lemma {:induction false} PopMark(marks: seq<Mark>, k: nat, t: Tree, r: nat, key: Path, d: nat)
    requires k < |marks| && Marks(marks[..k + 1], t, r, key, d)
    ensures d >= STRIDE && Marks(marks[..k], t, r, key, d - STRIDE) && MarkAt(marks[k], t, r, key, d - STRIDE)
  {
    assert marks[..k + 1][k] == marks[k];
    forall i | 0 <= i < k ensures MarkAt(marks[..k][i], t, r, key, i * STRIDE) {
      assert marks[..k + 1][i] == marks[i];
    }
  }

  /** No rule of trie r is longer than n. */
  ghost predicate AtMost(rules: Rules, r: nat, n: nat) {
    forall w :: w in rules && w.root == r ==> |w.path| <= n
  }

  /** Nodes are no deeper than the longest rule, up to the stride. */
  lemma {:induction false} DeepEnough(t: Tree, s: Snap, rules: Rules, l: Loc, n: nat)
    requires TrieOK(t, s, rules, Loc(l.root, [])) && l in t && AtMost(rules, l.root, n)
    ensures |l.path| <= n
    decreases LENGTH - |l.path|
  {
    assert IsDepth(|l.path|) && |l.path| <= LENGTH by { assert Open(MbShapeKey); }
    if l.path != [] {
      var w := RuleBelow(t, s, rules, l);
    }
  }

  /** Below every node but a root there is a rule. */
  lemma {:induction false} RuleBelow(t: Tree, s: Snap, rules: Rules, l: Loc) returns (w: Loc)
    requires TrieOK(t, s, rules, Loc(l.root, [])) && l in t && l.path != []
    ensures w in rules && w.root == l.root && |w.path| >= |l.path| && w.path[..|l.path|] == l.path
    decreases LENGTH - |l.path|
  {
    assert |l.path| <= LENGTH by { assert Open(MbShapeKey); }
    assert !Empty(s[l]) by { assert Open(MbFullKey); }
    HoldsAt(t, s, rules, l);
    var b := s[l];
    if b.internal != Zeros(WORD) {
      var p :| 0 <= p < WORD && b.internal[p];
      SomeRule(t, rules, l, b, p);
      w := At(l, PathAt(p));
    } else {
      var i :| 0 <= i < WORD && b.external[i];
      ChildAt(t, rules, l, b, i);
      assert |Sub(l, i).path| <= LENGTH by { assert Open(MbShapeKey); }
      w := RuleBelow(t, s, rules, Sub(l, i));
      assert w.path[..|l.path|] == w.path[..|Sub(l, i).path|][..|l.path|];
    }
  }

  lemma {:induction false} SomeRule(t: Tree, rules: Rules, l: Loc, b: Body, p: nat)
    requires NodeHolds(t, rules, l, b) && p < WORD && b.internal[p]
    ensures At(l, PathAt(p)) in rules
  {
    assert Open(MbHoldKey);
    var m := RulesOf(rules, l);
    assert p in m;
  }

  /** The same for rules that are no longer than the 19 bits left by the front array. */
  method Onward(n: MbNode, ip: Path, ghost t: Tree, ghost rules: Rules, ghost r: nat, ghost key: Path, ghost d: nat)
    returns (child: MbNode?, stride: nat)
    requires Arrived(t, rules, r, key, n, ip, d) && TrieOK(t, View(t), rules, Loc(r, [])) && ZeroTail(key)
    requires AtMost(rules, r, 19)
    ensures stride == Value(key[d..d + STRIDE])
    ensures child != null ==>
              d + STRIDE <= 19 && Arrived(t, rules, r, key, child, ip[STRIDE..] + Zeros(STRIDE), d + STRIDE)
    ensures child == null ==> BestHop(rules, r, key, 40) == BestHop(rules, r, key, d + STRIDE - 1)
  {
    child, stride := Follow(n, ip, t, rules, r, key, d);
    if child == null {
      NothingLonger(t, rules, r, key, d, 40);
    } else {
      DeepEnough(t, View(t), rules, Loc(r, key[..d + STRIDE]), 19);
    }
  }

  /** The first loop of do_search_lazy: the way down to the deepest node.  lazy_mark is never exceeded for rules that
      are no longer than the 19 bits left by the front array. */
  method GoDown(node: MbNode, ip0: Path, ghost t: Tree, ghost rules: Rules, ghost r: nat, ghost key: Path)
    returns (n: MbNode, stride: nat, marks: seq<Mark>, ghost d: nat)
    requires TrieOK(t, View(t), rules, Loc(r, [])) && AtMost(rules, r, 19) && ZeroTail(key)
    requires Arrived(t, rules, r, key, node, ip0, 0)
    ensures d + STRIDE <= |key| && Loc(r, key[..d]) in t && n == t[Loc(r, key[..d])]
    ensures stride == Value(key[d..d + STRIDE]) && Marks(marks, t, r, key, d)
    ensures BestHop(rules, r, key, 40) == BestHop(rules, r, key, d + STRIDE - 1)
  {
    d := 0;
    var lazy_mark := seq(LEVEL, _ => Mark(node, 0));
    var travel_depth := -1;
    var ip := ip0;
    n := node;
    while true
      invariant Arrived(t, rules, r, key, n, ip, d) && |lazy_mark| == LEVEL
      invariant -1 <= travel_depth < LEVEL && d == (travel_depth + 1) * STRIDE
      invariant Marks(lazy_mark[..travel_depth + 1], t, r, key, d)
      decreases LENGTH - d
    {
      var child;
      child, stride := Onward(n, ip, t, rules, r, key, d);
      if child == null {
        marks := lazy_mark[..travel_depth + 1];
        return;
      }
      PushMark(lazy_mark, travel_depth + 1, t, r, key, d, Mark(n, stride));
      travel_depth := travel_depth + 1;
      lazy_mark := lazy_mark[travel_depth := Mark(n, stride)];
      n, ip, d := child, ip[STRIDE..] + Zeros(STRIDE), d + STRIDE;
    }
  }

  /** The deepest node, and the way back. */
  method LastNode(n: MbNode, stride: nat, marks: seq<Mark>, fct: seq<Bitmap>, ghost t: Tree, ghost rules: Rules,
                  ghost r: nat, ghost key: Path, ghost d: nat)
    returns (hop: Hop)
    requires AllHold(t, View(t), rules) && TableOK(fct) && d + STRIDE <= |key| && Marks(marks, t, r, key, d)
    requires Loc(r, key[..d]) in t && n == t[Loc(r, key[..d])] && stride == Value(key[d..d + STRIDE])
    ensures hop == BestHop(rules, r, key, d + STRIDE - 1)
  {
    var found;
    found, hop := LookAt(n, stride, fct, t, rules, r, key, d);
    if !found {
      hop := ComeBack(marks, fct, t, rules, r, key, d);
    }
  }

  /** One step back, to the node of a mark. */
  method BackOne(marks: seq<Mark>, k: nat, fct: seq<Bitmap>, ghost t: Tree, ghost rules: Rules, ghost r: nat,
                 ghost key: Path, ghost d: nat)
    returns (found: bool, hop: Hop)
    requires AllHold(t, View(t), rules) && TableOK(fct) && k < |marks| && d <= |key|
        && Marks(marks[..k + 1], t, r, key, d)
    ensures d >= STRIDE && Marks(marks[..k], t, r, key, d - STRIDE)
    ensures BestBelow(rules, r, key, d) == if found then hop else BestBelow(rules, r, key, d - STRIDE)
  {
    PopMark(marks, k, t, r, key, d);
    found, hop := LookAt(marks[k].lazy_p, marks[k].stride, fct, t, rules, r, key, d - STRIDE);
  }

  /** The way back: the first node with a match has the longest one. */
  method ComeBack(lazy_mark: seq<Mark>, fct: seq<Bitmap>, ghost t: Tree, ghost rules: Rules, ghost r: nat,
                  ghost key: Path, ghost d0: nat)
    returns (hop: Hop)
    requires AllHold(t, View(t), rules) && TableOK(fct) && d0 + STRIDE <= |key| && Marks(lazy_mark, t, r, key, d0)
    ensures hop == BestBelow(rules, r, key, d0)
  {
    var travel_depth := |lazy_mark| - 1;
    ghost var d: nat := d0;
    assert lazy_mark[..travel_depth + 1] == lazy_mark;
    while travel_depth >= 0
      invariant -1 <= travel_depth < |lazy_mark| && d <= d0 && Marks(lazy_mark[..travel_depth + 1], t, r, key, d)
      invariant BestBelow(rules, r, key, d0) == BestBelow(rules, r, key, d)
    {
      var found, h := BackOne(lazy_mark, travel_depth, fct, t, rules, r, key, d);
      d := d - STRIDE;
      if found {
        return h;
      }
      travel_depth := travel_depth - 1;
    }
    return 0;
  }

  /** do_search_lazy: go as deep as possible, then come back until a node matches. */
  method DoSearchLazy(node: MbNode, ip0: Path, fct: seq<Bitmap>, ghost t: Tree, ghost rules: Rules, ghost r: nat)
    returns (hop: Hop)
    requires TrieOK(t, View(t), rules, Loc(r, [])) && Loc(r, []) in t && node == t[Loc(r, [])]
    requires |ip0| == LENGTH && TableOK(fct) && AtMost(rules, r, 19)
    ensures hop == BestHop(rules, r, ip0, LENGTH)
  {
    ghost var key := Padded(ip0);
    PaddedZeros(ip0);
    assert key[..0] == [];
    BestPadded(t, rules, r, ip0);
    var n, stride, marks;
    ghost var d;
    n, stride, marks, d := GoDown(node, ip0, t, rules, r, key);
    hop := LastNode(n, stride, marks, fct, t, rules, r, key, d);
  }
}
