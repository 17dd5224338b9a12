/** The form of a trie depends on its rules alone. */
module MbCanon {
  import opened Bits
  import opened Bitmaps
  import opened Folding
  import opened MbTries
  import opened MbChange
  import opened MbSearch
  import opened MbUpdate

  // ---------- packed arrays ----------

  /** Every place of a packed array belongs to a set bit. */
  lemma {:induction false} BitAt(v: Bitmap, n: nat) returns (i: nat)
    requires n < Count(v)
    ensures i < |v| && v[i] && Above(v, i) == n
  {
    i := 0;
    CountSplit(v, 0);
    assert v[0..] == v && v[..0] == [];
    while !(v[i] && Above(v, i) == n)
      invariant i < |v| && n < Count(v[i..])
      decreases |v| - i
    {
      CountSplit(v, i);
      i := i + 1;
    }
  }

  /** A map is packed in one way only. */
  lemma {:induction false} PackedOnce<T>(v: Bitmap, xs: seq<T>, v': Bitmap, xs': seq<T>, m: map<nat, T>)
    requires Packs(v, xs, m) && Packs(v', xs', m) && |v| == |v'|
    ensures v == v' && xs == xs'
  {
    forall i | 0 <= i < |v| ensures v[i] == v'[i] {
      assert i in m <==> v[i];
    }
    assert v == v';
    forall n: nat | n < |xs| ensures xs[n] == xs'[n] {
      var i := BitAt(v, n);
      var x := m[i];
      assert PackedAt(v, xs, m, i) && PackedAt(v', xs', m, i);
    }
  }

  // ---------- nodes ----------

  /** Rule w lies at or below l. */
  predicate Under(w: Loc, l: Loc) {
    w.root == l.root && |l.path| <= |w.path| && w.path[..|l.path|] == l.path
  }

  /** There is a node at a depth below the root exactly when a rule lies there. */
  lemma {:induction false} NodeIff(t: Tree, s: Snap, rules: Rules, l: Loc)
    requires TrieOK(t, s, rules, Loc(l.root, [])) && l.path != []
    ensures l in t <==> IsDepth(|l.path|) && |l.path| <= LENGTH && exists w :: w in rules && Under(w, l)
  {
    if l in t {
      ShapeAt(t, rules, l);
      var w := RuleBelow(t, s, rules, l);
      assert Under(w, l);
    }
    if IsDepth(|l.path|) && exists w :: w in rules && Under(w, l) {
      var w :| w in rules && Under(w, l);
      assert NodeOf(w) in t by { assert Open(MbShapeKey); }
      DepthFloor(|l.path|, |w.path|);
      ParentIn(t, rules, NodeOf(w), |l.path|);
      assert w.path[..NodeDepth(|w.path|)][..|l.path|] == l.path;
    }
  }

  /** A root is empty exactly when its trie has no rules. */
  lemma {:induction false} RootEmpty(t: Tree, s: Snap, rules: Rules, r: nat)
    requires TrieOK(t, s, rules, Loc(r, [])) && Loc(r, []) in t
    ensures Empty(s[Loc(r, [])]) <==> forall w :: w in rules ==> w.root != r
  {
    var l := Loc(r, []);
    var b := s[l];
    HoldsAt(t, s, rules, l);
    if Empty(b) {
      EmptyHolds(t, rules, l, b);
      forall w | w in rules ensures w.root != r {
        if w.root == r { RootHasRule(t, s, rules, r, w); }
      }
    } else if b.internal != Zeros(WORD) {
      var p :| 0 <= p < WORD && b.internal[p];
      SomeRule(t, rules, l, b, p);
    } else {
      var i :| 0 <= i < WORD && b.external[i];
      ChildAt(t, rules, l, b, i);
      SubPath(l, i);
      var w := RuleBelow(t, s, rules, Sub(l, i));
    }
  }

  lemma {:induction false} RootHasRule(t: Tree, s: Snap, rules: Rules, r: nat, w: Loc)
    requires TrieOK(t, s, rules, Loc(r, [])) && w in rules && w.root == r
    ensures RulesOf(rules, Loc(r, [])) != map[] || ChildrenOf(t, Loc(r, [])) != map[]
  {
    var l, d := Loc(r, []), NodeDepth(|w.path|);
    NodeDepthIs(|w.path|);
    if d > 0 {
      DepthsApart(0, d);
      OnTheWay(t, rules, r, w.path, 0);
      NextLoc(r, w.path, 0);
      assert w.path[..0] == [];
      var i := Value(w.path[0..][..STRIDE]);
      assert i in ChildrenOf(t, l);
    } else {
      PosInNode(w.path);
      PathAtPos(w.path);
      assert At(l, w.path) == w by { assert [] + w.path == w.path; }
      assert PosOf(w.path) in RulesOf(rules, l);
    }
  }

  /** Two tries of the same rules with the same roots have nodes at the same places. */
  lemma {:induction false} SameNodes(t: Tree, s: Snap, t': Tree, s': Snap, rules: Rules, r: nat)
    requires TrieOK(t, s, rules, Loc(r, [])) && TrieOK(t', s', rules, Loc(r, []))
    requires forall x :: Loc(x, []) in t <==> Loc(x, []) in t'
    ensures t.Keys == t'.Keys
  {
    forall l: Loc ensures l in t <==> l in t' {
      if l.path != [] {
        AnyRoot(t, s, rules, r, l.root);
        AnyRoot(t', s', rules, r, l.root);
        NodeIff(t, s, rules, l);
        NodeIff(t', s', rules, l);
      } else {
        assert l == Loc(l.root, []);
      }
    }
  }

  /** Roots may be empty in any case. */
  lemma {:induction false} AnyRoot(t: Tree, s: Snap, rules: Rules, r: nat, r': nat)
    requires TrieOK(t, s, rules, Loc(r, []))
    ensures TrieOK(t, s, rules, Loc(r', []))
  {
    assert Open(MbFullKey);
  }

  /** A node is determined by the rules and the nodes. */
  lemma {:induction false} SameNode(t: Tree, rules: Rules, l: Loc, b: Body, b': Body)
    requires NodeHolds(t, rules, l, b) && NodeHolds(t, rules, l, b')
    ensures b == b'
  {
    assert Open(MbHoldKey);
    PackedOnce(b.external, b.children, b'.external, b'.children, ChildrenOf(t, l));
    PackedOnce(b.internal, b.rules, b'.internal, b'.rules, RulesOf(rules, l));
  }

  /** Two tries of the same rules and objects hold the same. */
  lemma {:induction false} SameTries(t: Tree, s: Snap, s': Snap, rules: Rules)
    requires AllHold(t, s, rules) && AllHold(t, s', rules) && s.Keys == s'.Keys == t.Keys
    ensures s == s'
  {
    forall l | l in s ensures s[l] == s'[l] {
      HoldsAt(t, s, rules, l);
      HoldsAt(t, s', rules, l);
      SameNode(t, rules, l, s[l], s'[l]);
    }
  }

  lemma {:induction false} BackToTree(t: Tree, s: Snap, t1: Tree, t2: Tree, s2: Snap, rules: Rules, r: nat)
    requires TrieOK(t, s, rules, Loc(r, [])) && TrieOK(t2, s2, rules, Loc(r, []))
    requires SubTree(t, t1, r) && Less(t1, t2) && Loc(r, []) in t
    ensures t2 == t && s2 == s
  {
    forall x ensures Loc(x, []) in t <==> Loc(x, []) in t2 {
      if Loc(x, []) in t { assert Loc(x, []) in t1; }
      if Loc(x, []) in t2 && x != r { assert Loc(x, []) in t1; }
    }
    SameNodes(t, s, t2, s2, rules, r);
    assert forall l :: l in t ==> t2[l] == t1[l] == t[l];
    assert t2 == t;
    SameTries(t, s, s2, rules);
  }

  /** insert_entry of an absent prefix followed by delete_entry of it restores the trie: the same nodes, with
      the same bitmaps and the same packed arrays. */
  method InsertThenDelete(node: MbNode, v: Path, nhi: Hop, ghost t: Tree, ghost rules: Rules, ghost r: nat)
    returns (ret: bool, ghost t': Tree)
    requires TrieOK(t, View(t), rules, Loc(r, [])) && Loc(r, []) in t && node == t[Loc(r, [])] && |v| <= LENGTH
    requires Loc(r, v) !in rules
    modifies t.Values
    ensures t' == t && View(t') == old(View(t))
  {
    ghost var s := View(t);
    ghost var t1 := InsertEntry(node, v, nhi, t, rules, r);
    assert rules[Loc(r, v) := nhi] - {Loc(r, v)} == rules;
    ret, t' := DeleteEntry(node, v, t1, rules[Loc(r, v) := nhi], r);
    BackToTree(t, s, t1, t', View(t'), rules, r);
  }
}
