/** The entries of the front array against the live prefixes. */
module MbFront {
  // The front array is indexed by the first 13 bits of an address.

  import opened Bits
  import opened Folding
  import opened MbTries

  const INITIAL_BITS: nat := 13

  /** The number of the trie up_aux; tries of entries have smaller numbers. */
  const UP: nat := 8192

  /** The live prefixes and their next hops. */
  type Live = map<Path, Hop>

  /** An entry: the stored length of a prefix, the two flags, and the pointer. */
  datatype EntryOf<N> = Entry(prefix_hi: N, has_child: bool, has_next: bool, ptr: N)
  type Entry = EntryOf<nat>

  // ---------- longest match ----------

  /** The length of the longest live prefix of key, of length at most n, or -1. */
  function Longest(live: Live, key: Path, n: nat): (b: int)
    requires n <= |key|
    ensures -1 <= b <= n
    ensures b >= 0 ==> key[..b] in live
  {
    if key[..n] in live then n else if n == 0 then -1 else Longest(live, key, n - 1)
  }

  /** The next hop of the longest match, or NULL. */
  function LongestHop(live: Live, key: Path, n: nat): Hop
    requires n <= |key|
  {
    var b := Longest(live, key, n);
    if b < 0 then 0 else live[key[..b]]
  }

  lemma {:induction false} NoneBetween(live: Live, key: Path, n: nat, k: nat)
    requires n <= |key| && Longest(live, key, n) < k <= n
    ensures key[..k] !in live
  {
    if k < n { NoneBetween(live, key, n - 1, k); }
  }

  lemma {:induction false} LongestIs(live: Live, key: Path, n: nat, b: int)
    requires n <= |key| && -1 <= b <= n && (b >= 0 ==> key[..b] in live)
    requires forall k :: b < k <= n ==> key[..k] !in live
    ensures Longest(live, key, n) == b
  {
    if b < n && n > 0 { LongestIs(live, key, n - 1, b); }
  }

  /** The same keys up to n have the same longest match. */
  lemma {:induction false} LongestSame(live: Live, key: Path, key': Path, n: nat)
    requires n <= |key| && n <= |key'| && key[..n] == key'[..n]
    ensures Longest(live, key, n) == Longest(live, key', n) && LongestHop(live, key, n) == LongestHop(live, key', n)
  {
    if n > 0 {
      assert key[..n - 1] == key[..n][..n - 1] == key'[..n - 1];
      LongestSame(live, key, key', n - 1);
    }
  }

  /** A prefix that does not match changes nothing. */
  lemma {:induction false} LongestOther(live: Live, live': Live, p: Path, key: Path, n: nat)
    requires n <= |key| && Except(live, live', p) && !(|p| <= n && p == key[..|p|])
    ensures Longest(live', key, n) == Longest(live, key, n) && LongestHop(live', key, n) == LongestHop(live, key, n)
  {
    assert key[..n] != p by { if |p| == n { assert key[..|p|] == key[..n]; } }
    assert key[..n] in live' <==> key[..n] in live;
    if key[..n] !in live && n > 0 { LongestOther(live, live', p, key, n - 1); }
  }

  /** The two differ at p only. */
  ghost predicate Except(live: Live, live': Live, p: Path) {
    forall x: Path :: x != p ==> (x in live' <==> x in live) && (x in live ==> live'[x] == live[x])
  }

  lemma {:induction false} LongestAdd(live: Live, p: Path, h: Hop, key: Path, n: nat)
    requires |p| <= n <= |key| && p == key[..|p|]
    ensures var b, live' := Longest(live, key, n), live[p := h];
            && Longest(live', key, n) == (if b > |p| then b else |p|)
            && LongestHop(live', key, n) == (if b > |p| then LongestHop(live, key, n) else h)
  {
    var b, live' := Longest(live, key, n), live[p := h];
    var b' := if b > |p| then b else |p|;
    forall k | b' < k <= n ensures key[..k] !in live' {
      NoneBetween(live, key, n, k);
      assert |key[..k]| != |p|;
    }
    if b > |p| { assert |key[..b]| != |p|; }
    LongestIs(live', key, n, b');
  }

  lemma {:induction false} LongestCut(live: Live, p: Path, key: Path, n: nat)
    requires 0 < |p| <= n <= |key| && p == key[..|p|] && p in live
    ensures var b, live' := Longest(live, key, n), live - {p};
            && b >= |p|
            && Longest(live', key, n) == (if b > |p| then b else Longest(live, p, |p| - 1))
            && LongestHop(live', key, n) == (if b > |p| then LongestHop(live, key, n) else LongestHop(live, p, |p| - 1))
  {
    var b, live' := Longest(live, key, n), live - {p};
    var near := Longest(live, p, |p| - 1);
    if b < |p| { NoneBetween(live, key, n, |p|); }
    if b > |p| {
      assert |key[..b]| != |p|;
      forall k | b < k <= n ensures key[..k] !in live' { NoneBetween(live, key, n, k); }
      LongestIs(live', key, n, b);
    } else {
      forall k | near < k <= n ensures key[..k] !in live' {
        if k > |p| {
          NoneBetween(live, key, n, k);
        } else if k < |p| {
          NoneBetween(live, p, |p| - 1, k);
          assert p[..k] == key[..k];
        }
      }
      if near >= 0 { assert p[..near] == key[..near]; }
      LongestIs(live', key, n, near);
    }
  }

  // ---------- entries ----------

  /** The stored length: 0 stands for no prefix. */
  function Stored(b: int): (r: nat) {
    if b < 0 then 0 else b
  }

  ghost predicate HasRule(rules: Rules, i: nat) {
    exists w :: w in rules && w.root == i
  }

  /** The rules of trie i below its root rule are the live prefixes that go on from q. */
  ghost predicate Deep(i: nat, q: Path, rules: Rules, live: Live) {
    forall k: Key :: Open(k) && k.MbDeepKey? ==> forall u: Path :: u != [] ==>
        && (Loc(i, u) in rules <==> q + u in live)
        && (Loc(i, u) in rules ==> rules[Loc(i, u)] == live[q + u])
  }

  /** What entry e with its trie i says of the addresses that start with q. */
  ghost predicate Says(e: Entry, i: nat, q: Path, rules: Rules, live: Live)
    requires |q| == INITIAL_BITS
  {
    && e.prefix_hi == Stored(Longest(live, q, INITIAL_BITS))
    && (e.has_next <==> !e.has_child && e.prefix_hi > 0)
    && (e.has_next ==> e.ptr == LongestHop(live, q, INITIAL_BITS))
    && (Loc(i, []) in rules <==> e.has_child && e.prefix_hi > 0)
    && (Loc(i, []) in rules ==> rules[Loc(i, [])] == LongestHop(live, q, INITIAL_BITS))
    && (e.has_child <==> HasRule(rules, i))
    && Deep(i, q, rules, live)
  }

  /** The first bits of the addresses of entry i. */
  function Slot(i: nat): (q: Path)
    requires i < UP
    ensures |q| == INITIAL_BITS
  {
    assert Pow2(13) == 8192;
    ToBits(i, 13)
  }

  /** Entry i is right. */
  ghost predicate SlotOK(e: Entry, i: nat, rules: Rules, live: Live) {
    i < UP && forall k: Key :: Open(k) && k.MbSlotKey? ==> Says(e, i, Slot(i), rules, live)
  }

  /** Prefix p matters to the addresses that start with q. */
  predicate Touches(p: Path, q: Path) {
    if |p| <= |q| then p == q[..|p|] else q == p[..|q|]
  }

  /** The rules of trie i are the same. */
  ghost predicate SameAt(i: nat, rules: Rules, rules': Rules) {
    forall u: Path ::
        (Loc(i, u) in rules' <==> Loc(i, u) in rules) && (Loc(i, u) in rules ==> rules'[Loc(i, u)] == rules[Loc(i, u)])
  }

  lemma {:induction false} HasRuleSame(i: nat, rules: Rules, rules': Rules)
    requires SameAt(i, rules, rules')
    ensures HasRule(rules', i) <==> HasRule(rules, i)
  {
    if HasRule(rules, i) {
      var w :| w in rules && w.root == i;
      assert w == Loc(i, w.path);
      assert w in rules';
    }
    if HasRule(rules', i) {
      var w :| w in rules' && w.root == i;
      assert w == Loc(i, w.path);
      assert w in rules;
    }
  }

  /** The rules of trie i are the same but for its root rule. */
  ghost predicate SameBelow(i: nat, rules: Rules, rules': Rules) {
    forall u: Path :: u != [] ==>
        (Loc(i, u) in rules' <==> Loc(i, u) in rules) && (Loc(i, u) in rules ==> rules'[Loc(i, u)] == rules[Loc(i, u)])
  }

  lemma {:induction false} DeepOther(i: nat, q: Path, rules: Rules, rules': Rules, live: Live, live': Live, p: Path)
    requires Deep(i, q, rules, live) && SameBelow(i, rules, rules') && Except(live, live', p)
    requires |p| <= |q| || q != p[..|q|]
    ensures Deep(i, q, rules', live')
  {
    assert Open(MbDeepKey);
    forall u: Path | u != [] ensures q + u != p {
      assert (q + u)[..|q|] == q;
    }
  }

  lemma {:induction false} DeepSet(i: nat, q: Path, rules: Rules, live: Live, p: Path, h: Hop)
    requires Deep(i, q, rules, live) && |q| < |p| && q == p[..|q|]
    ensures Deep(i, q, rules[Loc(i, p[|q|..]) := h], live[p := h])
  {
    assert Open(MbDeepKey);
    forall u: Path | u != [] ensures q + u == p <==> u == p[|q|..] {
      assert (q + u)[|q|..] == u && q + p[|q|..] == p;
    }
  }

  lemma {:induction false} DeepCut(i: nat, q: Path, rules: Rules, live: Live, p: Path)
    requires Deep(i, q, rules, live) && |q| < |p| && q == p[..|q|]
    ensures Deep(i, q, rules - {Loc(i, p[|q|..])}, live - {p})
    ensures p in live ==> Loc(i, p[|q|..]) in rules
  {
    assert Open(MbDeepKey);
    forall u: Path | u != [] ensures q + u == p <==> u == p[|q|..] {
      assert (q + u)[|q|..] == u && q + p[|q|..] == p;
    }
  }

  /** An entry that p does not touch remains right. */
  lemma {:induction false} SlotOther(e: Entry, i: nat, rules: Rules, rules': Rules, live: Live, live': Live, p: Path)
    requires SlotOK(e, i, rules, live) && SameAt(i, rules, rules') && Except(live, live', p) && !Touches(p, Slot(i))
    ensures SlotOK(e, i, rules', live')
  {
    assert Open(MbSlotKey);
    var q := Slot(i);
    LongestOther(live, live', p, q, INITIAL_BITS);
    DeepOther(i, q, rules, rules', live, live', p);
    HasRuleSame(i, rules, rules');
  }

  lemma {:induction false} SlotSame(e: Entry, i: nat, rules: Rules, rules': Rules, live: Live)
    requires SlotOK(e, i, rules, live) && SameAt(i, rules, rules')
    ensures SlotOK(e, i, rules', live)
  {
    assert Open(MbSlotKey);
    assert Deep(i, Slot(i), rules', live) by { assert Open(MbDeepKey); }
    HasRuleSame(i, rules, rules');
  }

  // ---------- inserting ----------

  /** insert_prefix with at most 13 bits: a longer prefix stays. */
  lemma {:induction false} InsertKept(e: Entry, i: nat, rules: Rules, live: Live, p: Path, h: Hop)
    requires SlotOK(e, i, rules, live) && |p| <= INITIAL_BITS && Touches(p, Slot(i)) && e.prefix_hi > |p|
    ensures SlotOK(e, i, rules, live[p := h])
  {
    assert Open(MbSlotKey);
    LongestAdd(live, p, h, Slot(i), INITIAL_BITS);
    DeepOther(i, Slot(i), rules, rules, live, live[p := h], p);
  }

  lemma {:induction false} InsertInChild(e: Entry, i: nat, rules: Rules, live: Live, p: Path, h: Hop)
    requires SlotOK(e, i, rules, live) && 0 < |p| <= INITIAL_BITS && Touches(p, Slot(i)) && e.prefix_hi <= |p|
        && e.has_child
    ensures SlotOK(Entry(|p|, true, false, e.ptr), i, rules[Loc(i, []) := h], live[p := h])
  {
    assert Open(MbSlotKey);
    LongestAdd(live, p, h, Slot(i), INITIAL_BITS);
    var rules' := rules[Loc(i, []) := h];
    DeepOther(i, Slot(i), rules, rules', live, live[p := h], p);
    assert Loc(i, []) in rules';
  }

  lemma {:induction false} InsertAsNext(e: Entry, i: nat, rules: Rules, live: Live, p: Path, h: Hop)
    requires SlotOK(e, i, rules, live) && 0 < |p| <= INITIAL_BITS && Touches(p, Slot(i)) && e.prefix_hi <= |p|
        && !e.has_child
    ensures SlotOK(Entry(|p|, false, true, h), i, rules, live[p := h])
  {
    assert Open(MbSlotKey);
    LongestAdd(live, p, h, Slot(i), INITIAL_BITS);
    DeepOther(i, Slot(i), rules, rules, live, live[p := h], p);
  }

  /** insert_prefix with more than 13 bits. */
  lemma {:induction false} InsertDeep(e: Entry, i: nat, rules: Rules, live: Live, p: Path, h: Hop, ptr: Hop)
    requires SlotOK(e, i, rules, live) && |p| > INITIAL_BITS && Touches(p, Slot(i))
    ensures e.has_child ==> SlotOK(e, i, rules[Loc(i, p[INITIAL_BITS..]) := h], live[p := h])
    ensures !e.has_child ==>
              var rules1 := if e.prefix_hi > 0 then rules[Loc(i, []) := e.ptr] else rules;
              SlotOK(Entry(e.prefix_hi, true, false, ptr), i, rules1[Loc(i, p[INITIAL_BITS..]) := h], live[p := h])
  {
    assert Open(MbSlotKey);
    var q := Slot(i);
    LongestOther(live, live[p := h], p, q, INITIAL_BITS);
    var rules1 := if !e.has_child && e.prefix_hi > 0 then rules[Loc(i, []) := e.ptr] else rules;
    DeepOther(i, q, rules, rules1, live, live, q);
    DeepSet(i, q, rules1, live, p, h);
    assert Loc(i, p[INITIAL_BITS..]) in rules1[Loc(i, p[INITIAL_BITS..]) := h];
  }

  // ---------- deleting ----------

  /** delete_prefix with at most 13 bits: a longer prefix stays. */
  lemma {:induction false} DeleteKept(e: Entry, i: nat, rules: Rules, live: Live, p: Path)
    requires SlotOK(e, i, rules, live) && 0 < |p| <= INITIAL_BITS && Touches(p, Slot(i)) && e.prefix_hi > |p|
        && p in live
    ensures SlotOK(e, i, rules, live - {p})
  {
    assert Open(MbSlotKey);
    LongestCut(live, p, Slot(i), INITIAL_BITS);
    DeepOther(i, Slot(i), rules, rules, live, live - {p}, p);
  }

  /** The prefix that takes over where p goes. */
  function NearMask(live: Live, p: Path): nat
    requires p != []
  {
    Stored(Longest(live, p, |p| - 1))
  }

  function NearHop(live: Live, p: Path): Hop
    requires p != []
  {
    LongestHop(live, p, |p| - 1)
  }

  lemma {:induction false} DeleteInChild(e: Entry, i: nat, rules: Rules, live: Live, p: Path)
    requires SlotOK(e, i, rules, live) && 0 < |p| <= INITIAL_BITS && Touches(p, Slot(i)) && e.prefix_hi <= |p|
        && p in live && [] !in live
    requires e.has_child
    ensures Loc(i, []) in rules
    ensures NearMask(live, p) == 0 ==>
              var rules' := rules - {Loc(i, [])};
              && (HasRule(rules', i) ==> SlotOK(Entry(0, true, false, e.ptr), i, rules', live - {p}))
              && (!HasRule(rules', i) ==> SlotOK(Entry(0, false, false, 0), i, rules', live - {p}))
    ensures NearMask(live, p) != 0 ==>
              SlotOK(Entry(NearMask(live, p), true, false, e.ptr), i, rules[Loc(i, []) := NearHop(live, p)], live - {p})
  {
    assert Open(MbSlotKey);
    LongestCut(live, p, Slot(i), INITIAL_BITS);
    DeepOther(i, Slot(i), rules, rules - {Loc(i, [])}, live, live - {p}, p);
    DeepOther(i, Slot(i), rules, rules[Loc(i, []) := NearHop(live, p)], live, live - {p}, p);
    assert Loc(i, []) in rules[Loc(i, []) := NearHop(live, p)];
  }

  lemma {:induction false} DeleteAsNext(e: Entry, i: nat, rules: Rules, live: Live, p: Path)
    requires SlotOK(e, i, rules, live) && 0 < |p| <= INITIAL_BITS && Touches(p, Slot(i)) && e.prefix_hi <= |p|
        && p in live && [] !in live
    requires !e.has_child
    ensures NearMask(live, p) == 0 ==> SlotOK(Entry(0, false, false, 0), i, rules, live - {p})
    ensures NearMask(live, p) != 0 ==>
        SlotOK(Entry(NearMask(live, p), false, true, NearHop(live, p)), i, rules, live - {p})
  {
    assert Open(MbSlotKey);
    LongestCut(live, p, Slot(i), INITIAL_BITS);
    DeepOther(i, Slot(i), rules, rules, live, live - {p}, p);
  }

  /** delete_prefix with more than 13 bits: when the trie of the entry is emptied, no shorter prefix is there
      to take over. */
  lemma {:induction false} DeleteDeep(e: Entry, i: nat, rules: Rules, live: Live, p: Path)
    requires SlotOK(e, i, rules, live) && |p| > INITIAL_BITS && Touches(p, Slot(i)) && p in live && [] !in live
    ensures e.has_child && Loc(i, p[INITIAL_BITS..]) in rules
    ensures var rules' := rules - {Loc(i, p[INITIAL_BITS..])};
            && (HasRule(rules', i) ==> SlotOK(e, i, rules', live - {p}))
            && (!HasRule(rules', i) ==>
                  && SlotOK(Entry(0, false, false, 0), i, rules', live - {p})
                  && forall n :: 0 <= n <= INITIAL_BITS ==> p[..n] !in live)
  {
    assert Open(MbSlotKey);
    var q, rules' := Slot(i), rules - {Loc(i, p[INITIAL_BITS..])};
    LongestOther(live, live - {p}, p, q, INITIAL_BITS);
    DeepCut(i, q, rules, live, p);
    if !HasRule(rules', i) {
      assert Loc(i, []) in rules ==> Loc(i, []) in rules';
      forall n | 0 <= n <= INITIAL_BITS ensures p[..n] !in live {
        if n > 0 { NoneBetween(live, q, INITIAL_BITS, n); }
        assert q[..n] == p[..n];
      }
    }
  }
}
