/** All entries of the front array, the trie of all prefixes, and what a search finds. */
module MbSlots {
  import opened Bits
  import opened Folding
  import opened MbTries
  import opened MbSearch
  import opened MbOverlap
  import opened MbFront

  // ---------- which entries a prefix touches ----------

  lemma {:induction false} ValueSplit(p: Path, s: Path)
    ensures Value(p + s) == Value(p + Zeros(|s|)) + Value(s)
  {
    var z := Zeros(|s|);
    if p == [] {
      assert p + s == s && p + z == z;
      ZeroValue(|s|);
    } else {
      ValueSplit(p[1..], s);
      assert (p + s)[1..] == p[1..] + s && (p + z)[1..] == p[1..] + z;
    }
  }

  /** The prefix as an address whose host bits are zero. */
  function Address(p: Path): (ip: Path)
    requires |p| <= LENGTH
    ensures |ip| == LENGTH && ip[..|p|] == p
  {
    p + Zeros(LENGTH - |p|)
  }

  /** The entry of an address. */
  function Index(ip: Path): (i: nat)
    requires |ip| == LENGTH
    ensures i < UP
  {
    assert Pow2(13) == 8192;
    Value(ip[..INITIAL_BITS])
  }

  lemma {:induction false} SlotOfIndex(ip: Path)
    requires |ip| == LENGTH
    ensures Slot(Index(ip)) == ip[..INITIAL_BITS]
  {
    ToBitsValue(ip[..INITIAL_BITS]);
  }

  lemma {:induction false} TouchedIn(p: Path, i: nat)
    requires |p| <= INITIAL_BITS && i < UP && Touches(p, Slot(i))
    ensures var a := Index(Address(p)); a <= i < a + Pow2(INITIAL_BITS - |p|)
  {
    assert Pow2(13) == 8192;
    var q := Slot(i);
    assert Address(p)[..INITIAL_BITS] == p + Zeros(INITIAL_BITS - |p|);
    ValueToBits(i, INITIAL_BITS);
    var s := q[|p|..];
    assert q == p + s;
    ValueSplit(p, s);
  }

  lemma {:induction false} InTouched(p: Path, k: nat)
    requires |p| <= INITIAL_BITS && k < Pow2(INITIAL_BITS - |p|)
    ensures var i := Index(Address(p)) + k; i < UP && Touches(p, Slot(i))
  {
    assert Pow2(13) == 8192;
    var m := INITIAL_BITS - |p|;
    assert Address(p)[..INITIAL_BITS] == p + Zeros(m);
    var s := ToBits(k, m);
    ValueToBits(k, m);
    ValueSplit(p, s);
    ToBitsValue(p + s);
  }

  /** A prefix of at most 13 bits touches a run of 2^(13 - cidr) entries. */
  lemma {:induction false} TouchRange(p: Path, i: nat)
    requires |p| <= INITIAL_BITS && i < UP
    ensures var a := Index(Address(p));
            Touches(p, Slot(i)) <==> a <= i < a + Pow2(INITIAL_BITS - |p|)
  {
    var a := Index(Address(p));
    if Touches(p, Slot(i)) { TouchedIn(p, i); }
    if a <= i < a + Pow2(INITIAL_BITS - |p|) { InTouched(p, i - a); }
  }

  /** A longer prefix touches one entry. */
  lemma {:induction false} TouchOne(p: Path, i: nat)
    requires INITIAL_BITS < |p| <= LENGTH && i < UP
    ensures Touches(p, Slot(i)) <==> i == Index(Address(p))
  {
    assert Pow2(13) == 8192;
    assert Address(p)[..INITIAL_BITS] == p[..INITIAL_BITS];
    ValueToBits(i, INITIAL_BITS);
    ToBitsValue(p[..INITIAL_BITS]);
  }

  lemma {:induction false} RangeFits(p: Path)
    requires |p| <= INITIAL_BITS
    ensures Index(Address(p)) + Pow2(INITIAL_BITS - |p|) <= UP
  {
    InTouched(p, Pow2(INITIAL_BITS - |p|) - 1);
  }

  // ---------- all entries ----------

  /** The entries from a to b are right for live', the others for live. */
  ghost predicate Ranged(es: seq<Entry>, rules: Rules, live: Live, live': Live, a: nat, b: nat) {
    |es| == UP && forall k: Key :: Open(k) && k.MbRootsKey? ==>
        forall i: nat :: i < UP ==> SlotOK(es[i], i, rules, if a <= i < b then live' else live)
  }

  /** Every entry is right. */
  ghost predicate AllSlots(es: seq<Entry>, rules: Rules, live: Live) {
    Ranged(es, rules, live, live, 0, 0)
  }

  /** Only the rules of trie j have changed. */
  ghost predicate OnlyAt(j: nat, rules: Rules, rules': Rules) {
    forall i: nat :: i != j ==> SameAt(i, rules, rules')
  }

  lemma {:induction false} OnlySet(j: nat, rules: Rules, rules1: Rules, u: Path, h: Hop)
    requires OnlyAt(j, rules, rules1)
    ensures OnlyAt(j, rules, rules1[Loc(j, u) := h])
  {
    var rules' := rules1[Loc(j, u) := h];
    forall i: nat | i != j ensures SameAt(i, rules, rules') {
      assert SameAt(i, rules, rules1);
    }
  }

  lemma {:induction false} SlotAt(es: seq<Entry>, rules: Rules, live: Live, live': Live, a: nat, b: nat, i: nat)
    requires Ranged(es, rules, live, live', a, b) && i < UP
    ensures SlotOK(es[i], i, rules, if a <= i < b then live' else live)
  {
    assert Open(MbRootsKey);
  }

  lemma {:induction false} RangeStart(es: seq<Entry>, rules: Rules, live: Live, live': Live, a: nat)
    requires AllSlots(es, rules, live)
    ensures Ranged(es, rules, live, live', a, a)
  {
    assert Open(MbRootsKey);
  }

  lemma {:induction false} RangeStep(es: seq<Entry>, e: Entry, rules: Rules, rules': Rules, live: Live, live': Live,
                                     a: nat, j: nat)
    requires Ranged(es, rules, live, live', a, j) && a <= j < UP && OnlyAt(j, rules, rules')
        && SlotOK(e, j, rules', live')
    ensures Ranged(es[j := e], rules', live, live', a, j + 1)
  {
    var es' := es[j := e];
    forall i: nat | i < UP ensures SlotOK(es'[i], i, rules', if a <= i < j + 1 then live' else live) {
      if i != j {
        SlotAt(es, rules, live, live', a, j, i);
        SlotSame(es[i], i, rules, rules', if a <= i < j then live' else live);
      }
    }
    assert Open(MbRootsKey);
  }

  lemma {:induction false} RangeDone(es: seq<Entry>, rules: Rules, live: Live, live': Live, p: Path)
    requires |p| <= INITIAL_BITS && Except(live, live', p)
    requires Ranged(es, rules, live, live', Index(Address(p)), Index(Address(p)) + Pow2(INITIAL_BITS - |p|))
    ensures AllSlots(es, rules, live')
  {
    var a, b := Index(Address(p)), Index(Address(p)) + Pow2(INITIAL_BITS - |p|);
    forall i: nat | i < UP ensures SlotOK(es[i], i, rules, live') {
      SlotAt(es, rules, live, live', a, b, i);
      TouchRange(p, i);
      if !(a <= i < b) { SlotOther(es[i], i, rules, rules, live, live', p); }
    }
    assert Open(MbRootsKey);
  }

  /** Only entry j has changed, and only it is touched by p. */
  lemma {:induction false} OneSlot(es: seq<Entry>, e: Entry, rules: Rules, rules': Rules, live: Live, live': Live,
                                   p: Path)
    requires INITIAL_BITS < |p| <= LENGTH && Except(live, live', p) && AllSlots(es, rules, live)
    requires OnlyAt(Index(Address(p)), rules, rules') && SlotOK(e, Index(Address(p)), rules', live')
    ensures AllSlots(es[Index(Address(p)) := e], rules', live')
  {
    var j := Index(Address(p));
    var es' := es[j := e];
    forall i: nat | i < UP ensures SlotOK(es'[i], i, rules', live') {
      if i != j {
        SlotAt(es, rules, live, live, 0, 0, i);
        TouchOne(p, i);
        SlotOther(es[i], i, rules, rules', live, live', p);
      }
    }
    assert Open(MbRootsKey);
  }

  lemma {:induction false} SlotsSame(es: seq<Entry>, rules: Rules, rules': Rules, live: Live)
    requires AllSlots(es, rules, live) && OnlyAt(UP, rules, rules')
    ensures AllSlots(es, rules', live)
  {
    forall i: nat | i < UP ensures SlotOK(es[i], i, rules', live) {
      SlotAt(es, rules, live, live, 0, 0, i);
      SlotSame(es[i], i, rules, rules', live);
    }
    assert Open(MbRootsKey);
  }

  // ---------- the trie of all prefixes ----------

  /** up_aux holds the live prefixes. */
  ghost predicate UpOK(rules: Rules, live: Live) {
    forall k: Key :: Open(k) && k.MbUpKey? ==> forall p: Path ::
        (Loc(UP, p) in rules <==> p in live) && (p in live ==> rules[Loc(UP, p)] == live[p])
  }

  ghost predicate LiveOK(live: Live) {
    forall p :: p in live ==> 0 < |p| <= LENGTH
  }

  lemma {:induction false} UpSame(rules: Rules, rules': Rules, live: Live, j: nat)
    requires UpOK(rules, live) && OnlyAt(j, rules, rules') && j != UP
    ensures UpOK(rules', live)
  {
    assert SameAt(UP, rules, rules');
    assert Open(MbUpKey);
  }

  lemma {:induction false} UpSet(rules: Rules, live: Live, p: Path, h: Hop)
    requires UpOK(rules, live)
    ensures UpOK(rules[Loc(UP, p) := h], live[p := h]) && OnlyAt(UP, rules, rules[Loc(UP, p) := h])
  {
    assert Open(MbUpKey);
  }

  lemma {:induction false} UpCut(rules: Rules, live: Live, p: Path)
    requires UpOK(rules, live)
    ensures UpOK(rules - {Loc(UP, p)}, live - {p}) && OnlyAt(UP, rules, rules - {Loc(UP, p)})
  {
    assert Open(MbUpKey);
  }

  lemma {:induction false} BestUp(rules: Rules, live: Live, key: Path, n: nat)
    requires UpOK(rules, live) && n <= |key|
    ensures Best(rules, UP, key, n) == Longest(live, key, n) && BestHop(rules, UP, key, n) == LongestHop(live, key, n)
  {
    assert Open(MbUpKey);
    if n > 0 { BestUp(rules, live, key, n - 1); }
  }

  /** What detect_overlap finds for a prefix of at most 13 bits. */
  lemma {:induction false} FoundNear(rules: Rules, live: Live, p: Path, mask: nat, hop: Hop)
    requires UpOK(rules, live) && 0 < |p| <= INITIAL_BITS
    requires Found(rules, UP, Address(p), Min(|p|, INITIAL_BITS), mask, hop)
    ensures mask == NearMask(live, p) && (mask > 0 ==> hop == NearHop(live, p))
  {
    var n := |p| - 1;
    BestUp(rules, live, Address(p), n);
    assert Address(p)[..n] == p[..n];
    LongestSame(live, Address(p), p, n);
  }

  /** What detect_overlap finds for a longer prefix none of whose beginnings is live. */
  lemma {:induction false} FoundNone(rules: Rules, live: Live, p: Path, mask: nat, hop: Hop)
    requires UpOK(rules, live) && INITIAL_BITS < |p| <= LENGTH
    requires Found(rules, UP, Address(p), Min(|p|, INITIAL_BITS), mask, hop)
    requires forall n :: 0 <= n <= INITIAL_BITS ==> p[..n] !in live
    ensures mask == 0
  {
    var n := INITIAL_BITS - 1;
    BestUp(rules, live, Address(p), n);
    forall b | 0 <= b <= n ensures Address(p)[..b] == p[..b] {
    }
    LongestIs(live, Address(p), n, -1);
  }

  // ---------- what a search finds ----------

  /** The address without its first 13 bits. */
  function Rest(ip: Path): (k: Path)
    requires |ip| == LENGTH
    ensures |k| == LENGTH
  {
    ip[INITIAL_BITS..] + Zeros(INITIAL_BITS)
  }

  lemma {:induction false} RestPrefix(ip: Path, n: nat)
    requires |ip| == LENGTH && n <= LENGTH - INITIAL_BITS
    ensures ip[..INITIAL_BITS] + Rest(ip)[..n] == ip[..INITIAL_BITS + n]
  {
  }

  /** The rules of an entry have at most 19 bits. */
  lemma {:induction false} SlotAtMost(e: Entry, i: nat, rules: Rules, live: Live)
    requires SlotOK(e, i, rules, live) && LiveOK(live)
    ensures AtMost(rules, i, 19)
  {
    assert Open(MbSlotKey) && Open(MbDeepKey);
    forall w | w in rules && w.root == i ensures |w.path| <= 19 {
      if w.path != [] {
        assert w == Loc(i, w.path);
        assert Slot(i) + w.path in live;
      }
    }
  }

  /** The longest match of n further bits. */
  lemma {:induction false} DeepMatch(i: nat, rules: Rules, live: Live, ip: Path, n: nat)
    requires |ip| == LENGTH && n <= LENGTH - INITIAL_BITS && Deep(i, ip[..INITIAL_BITS], rules, live)
    ensures var b := Best(rules, i, Rest(ip), n);
            && (b > 0 ==> LongestHop(live, ip, INITIAL_BITS + n) == BestHop(rules, i, Rest(ip), n))
            && (b <= 0 ==> Longest(live, ip, INITIAL_BITS + n) == Longest(live, ip, INITIAL_BITS))
  {
    if n > 0 {
      var u := Rest(ip)[..n];
      RestPrefix(ip, n);
      assert u != [];
      assert (Loc(i, u) in rules <==> ip[..INITIAL_BITS] + u in live)
          && (Loc(i, u) in rules ==> rules[Loc(i, u)] == live[ip[..INITIAL_BITS] + u]) by { assert Open(MbDeepKey); }
      DeepMatch(i, rules, live, ip, n - 1);
    }
  }

  /** The search in the trie of an entry finds the longest match. */
  lemma {:induction false} SearchChild(e: Entry, rules: Rules, live: Live, ip: Path)
    requires |ip| == LENGTH && SlotOK(e, Index(ip), rules, live) && LiveOK(live) && e.has_child
    ensures BestHop(rules, Index(ip), Rest(ip), LENGTH) == LongestHop(live, ip, LENGTH)
  {
    var i, q, k := Index(ip), ip[..INITIAL_BITS], Rest(ip);
    SlotOfIndex(ip);
    assert Says(e, i, q, rules, live) by { assert Open(MbSlotKey); }
    SlotAtMost(e, i, rules, live);
    forall n | 19 < n <= LENGTH ensures Loc(i, k[..n]) !in rules {
    }
    BestSkip(rules, i, k, 19, LENGTH);
    DeepMatch(i, rules, live, ip, 19);
    LongestSame(live, ip, q, INITIAL_BITS);
    RootBest(rules, i, k, 19);
  }

  lemma {:induction false} RootBest(rules: Rules, i: nat, k: Path, n: nat)
    requires n <= |k|
    ensures Best(rules, i, k, n) == 0 ==> Loc(i, []) in rules && BestHop(rules, i, k, n) == rules[Loc(i, [])]
    ensures Best(rules, i, k, n) < 0 ==> Loc(i, []) !in rules
  {
    assert k[..0] == [];
    if n > 0 { RootBest(rules, i, k, n - 1); }
  }

  lemma {:induction false} NoBest(rules: Rules, i: nat, k: Path, n: nat)
    requires n <= |k| && !HasRule(rules, i)
    ensures Best(rules, i, k, n) == -1
  {
    if n > 0 { NoBest(rules, i, k, n - 1); }
  }

  /** Without a trie, the pointer is the longest match. */
  lemma {:induction false} SearchEntry(e: Entry, rules: Rules, live: Live, ip: Path)
    requires |ip| == LENGTH && SlotOK(e, Index(ip), rules, live) && LiveOK(live) && !e.has_child
    ensures LongestHop(live, ip, LENGTH) == if e.has_next then e.ptr else 0
  {
    var i, q := Index(ip), ip[..INITIAL_BITS];
    SlotOfIndex(ip);
    assert Says(e, i, q, rules, live) by { assert Open(MbSlotKey); }
    var k := Rest(ip);
    DeepMatch(i, rules, live, ip, 19);
    NoBest(rules, i, k, 19);
    LongestSame(live, ip, q, INITIAL_BITS);
  }
}
