/** The lookup trie of the tree bitmap. */
module TreeBitmap {
  // It has the front array, the tries of its entries, and the trie up_aux of all prefixes.

  import opened Bits
  import opened Bitmaps
  import opened Folding
  import opened MbTries
  import opened MbChange
  import opened MbSearch
  import opened MbUpdate
  import opened MbCanon
  import opened MbOverlap
  import opened MbFront
  import opened MbSlots

  // ---------- the roots ----------

  /** The nodes of the entries and up_aux are the roots of their tries. */
  ghost predicate RootsOK(t: Tree, nodes: seq<MbNode>, up: MbNode) {
    |nodes| == UP && forall k: Key :: Open(k) && k.MbTreesKey? ==>
        && (forall i: nat :: i < UP ==> Loc(i, []) in t && t[Loc(i, [])] == nodes[i])
        && Loc(UP, []) in t && t[Loc(UP, [])] == up
  }

  /** The objects of t hold the rules. */
  ghost predicate Ready(t: Tree, s: Snap, rules: Rules, nodes: seq<MbNode>, up: MbNode) {
    TrieOK(t, s, rules, Loc(UP, [])) && RootsOK(t, nodes, up)
  }

  /** node is the root of trie i. */
  predicate IsRoot(node: MbNode, i: nat, nodes: seq<MbNode>, up: MbNode)
    requires |nodes| == UP
  {
    if i < UP then node == nodes[i] else i == UP && node == up
  }

  lemma {:induction false} RootIs(t: Tree, s: Snap, rules: Rules, nodes: seq<MbNode>, up: MbNode, node: MbNode, i: nat)
    requires Ready(t, s, rules, nodes, up) && IsRoot(node, i, nodes, up)
    ensures Loc(i, []) in t && node == t[Loc(i, [])] && TrieOK(t, s, rules, Loc(i, []))
  {
    assert Open(MbTreesKey);
    AnyRoot(t, s, rules, UP, i);
  }

  lemma {:induction false} ReadyAgain(t: Tree, t': Tree, s': Snap, rules': Rules, nodes: seq<MbNode>, up: MbNode,
                                      i: nat)
    requires RootsOK(t, nodes, up) && TrieOK(t', s', rules', Loc(i, [])) && (SubTree(t, t', i) || Less(t, t'))
    ensures Ready(t', s', rules', nodes, up)
  {
    assert Open(MbTreesKey);
    AnyRoot(t', s', rules', i, UP);
  }

  /** insert_entry in trie i. */
  method SetRule(node: MbNode, u: Path, nhi: Hop, ghost t: Tree, ghost rules: Rules, ghost i: nat,
                 ghost nodes: seq<MbNode>, ghost up: MbNode)
    returns (ghost t': Tree)
    requires Ready(t, View(t), rules, nodes, up) && IsRoot(node, i, nodes, up) && |u| <= LENGTH
    modifies t.Values
    ensures Ready(t', View(t'), rules[Loc(i, u) := nhi], nodes, up) && fresh(t'.Values - t.Values)
  {
    RootIs(t, View(t), rules, nodes, up, node, i);
    t' := InsertEntry(node, u, nhi, t, rules, i);
    ReadyAgain(t, t', View(t'), rules[Loc(i, u) := nhi], nodes, up, i);
  }

  /** delete_entry in trie i. */
  method CutRule(node: MbNode, u: Path, ghost t: Tree, ghost rules: Rules, ghost i: nat, ghost nodes: seq<MbNode>,
                 ghost up: MbNode)
    returns (ret: bool, ghost t': Tree)
    requires Ready(t, View(t), rules, nodes, up) && IsRoot(node, i, nodes, up) && Loc(i, u) in rules
    modifies t.Values
    ensures Ready(t', View(t'), rules - {Loc(i, u)}, nodes, up) && t'.Values <= t.Values
    ensures ret <==> !HasRule(rules - {Loc(i, u)}, i)
  {
    RootIs(t, View(t), rules, nodes, up, node, i);
    ret, t' := DeleteEntry(node, u, t, rules, i);
    RootEmpty(t', View(t'), rules - {Loc(i, u)}, i);
    ReadyAgain(t, t', View(t'), rules - {Loc(i, u)}, nodes, up, i);
  }

  /** traverse_trie with overlap_nhi for the empty prefix: replace the next hop of the root rule. */
  method OverlapNhi(node: MbNode, nhi_near: Hop, ghost t: Tree, ghost rules: Rules, ghost i: nat,
                    ghost nodes: seq<MbNode>, ghost up: MbNode)
    requires Ready(t, View(t), rules, nodes, up) && IsRoot(node, i, nodes, up) && Loc(i, []) in rules
    modifies node
    ensures Ready(t, View(t), rules[Loc(i, []) := nhi_near], nodes, up)
  {
    ghost var s, l := View(t), Loc(i, []);
    RootIs(t, s, rules, nodes, up, node, i);
    HoldsAt(t, s, rules, l);
    SoundNode(t, s, rules, l, node);
    assert At(l, []) == l by { assert l.path + [] == l.path; }
    RuleAt(t, rules, l, s[l], []);
    RuleSet(t, s, rules, l, [], nhi_near, l);
    assert PosOf([]) == 0;
    WriteRule(node, 0, nhi_near, s[l]);
    OneObject(t, rules, s, l);
    ReadyAgain(t, t, View(t), rules[l := nhi_near], nodes, up, i);
  }

  // ---------- the start ----------

  /** The tries 0 to n are single blank nodes. */
  ghost predicate Fresh(t: Tree, nodes: seq<MbNode>, n: nat)
    reads t.Values
  {
    && |nodes| == n
    && (forall l :: l in t <==> l.root < n && l.path == [])
    && (forall i: nat :: i < n ==> t[Loc(i, [])] == nodes[i])
    && (forall l :: l in t ==> t[l].loc == l && BodyOf(t[l]) == Blank())
  }

  method MakeNodes() returns (nodes: seq<MbNode>, ghost t: Tree)
    ensures Fresh(t, nodes, UP + 1) && fresh(t.Values)
  {
    nodes, t := [], map[];
    var i := 0;
    while i < UP + 1
      invariant i <= UP + 1 && Fresh(t, nodes, i) && fresh(t.Values)
    {
      ghost var t0 := t;
      var n := new MbNode(Loc(i, []));
      assert Fresh(t0, nodes, i);
      nodes, t := nodes + [n], t0[Loc(i, []) := n];
      assert t.Values <= t0.Values + {n};
      BlankBody(n);
      i := i + 1;
    }
  }

  method MakeTable() returns (table: seq<Bitmap>)
    ensures TableOK(table)
  {
    var fct := new Bitmap[Pow2(STRIDE - 1)](_ => Zeros(WORD));
    FastTableInit(fct);
    table := fct[..];
  }

  lemma {:induction false} BlankTrie(t: Tree, nodes: seq<MbNode>)
    requires Fresh(t, nodes, UP + 1)
    ensures Ready(t, View(t), map[], nodes[..UP], nodes[UP])
  {
    forall l | l in t ensures NodeHolds(t, map[], l, Blank()) {
      assert l == Loc(l.root, []);
      assert RulesOf(map[], l).Keys == {};
      forall i: nat | i < WORD ensures Sub(l, i) !in t { SubPath(l, i); }
      assert ChildrenOf(t, l).Keys == {};
      BlankHolds(t, map[], l);
    }
    assert AllHold(t, View(t), map[]) by { assert Open(MbAllKey); }
    assert Shape(t, map[]) by { assert Open(MbShapeKey) && IsDepth(0); }
    assert Full(View(t), Loc(UP, [])) by { assert Open(MbFullKey); }
    assert Open(MbTreesKey);
  }

  const UNUSED: Entry := Entry(0, false, false, 0)

  lemma {:induction false} BlankEntries(es: seq<Entry>)
    requires |es| == UP && forall i :: 0 <= i < UP ==> es[i] == UNUSED
    ensures AllSlots(es, map[], map[])
  {
    forall i: nat | i < UP ensures SlotOK(es[i], i, map[], map[]) {
      LongestIs(map[], Slot(i), INITIAL_BITS, -1);
      assert Open(MbSlotKey);
    }
    assert Open(MbRootsKey);
  }

  method MakeRoots() returns (nodes: seq<MbNode>, up_aux: MbNode, ghost t: Tree)
    ensures Ready(t, View(t), map[], nodes, up_aux) && fresh(t.Values)
  {
    var roots;
    roots, t := MakeNodes();
    BlankTrie(t, roots);
    nodes, up_aux := roots[..UP], roots[UP];
  }

  method MakeEntries() returns (init: array<Entry>)
    ensures init.Length == UP && fresh(init) && AllSlots(init[..], map[], map[]) && UpOK(map[], map[])
  {
    init := new Entry[UP](_ => UNUSED);
    BlankEntries(init[..]);
  }

  // ---------- the lookup trie ----------

  class LookupTrie {
    const init: array<Entry>
    const nodes: seq<MbNode>
    const up_aux: MbNode
    const fct: seq<Bitmap>
    ghost var t: Tree
    ghost var rules: Rules
    ghost var live: Live

    ghost predicate Valid()
      reads this, init, t.Values
    {
      && init.Length == UP && TableOK(fct) && Ready(t, View(t), rules, nodes, up_aux)
      && AllSlots(init[..], rules, live) && UpOK(rules, live) && LiveOK(live)
    }

    /** init_lookup_trie. */
    constructor ()
      ensures Valid() && fresh(init) && fresh(t.Values) && live == map[]
    {
      var table := MakeTable();
      var entries := MakeEntries();
      var roots, up;
      ghost var tree;
      roots, up, tree := MakeRoots();
      fct, nodes, up_aux, init := table, roots, up, entries;
      t, rules, live := tree, map[], map[];
      new;
      assert View(t) == View(tree);
    }

    /** search, with the lazy search. */
    method Search(ip: Path) returns (hop: Hop)
      requires Valid() && |ip| == LENGTH
      ensures hop == LongestHop(live, ip, LENGTH)
    {
      var i := Index(ip);
      SlotAt(init[..], rules, live, live, 0, 0, i);
      if init[i].has_child {
        RootIs(t, View(t), rules, nodes, up_aux, nodes[i], i);
        SlotAtMost(init[i], i, rules, live);
        hop := DoSearchLazy(nodes[i], Rest(ip), fct, t, rules, i);
        SearchChild(init[i], rules, live, ip);
      } else {
        SearchEntry(init[i], rules, live, ip);
        if init[i].has_next {
          hop := init[i].ptr;
        } else {
          hop := 0;
        }
      }
    }

    /** search, with the eager search. */
    method SearchEager(ip: Path) returns (hop: Hop)
      requires Valid() && |ip| == LENGTH
      ensures hop == LongestHop(live, ip, LENGTH)
    {
      var i := Index(ip);
      SlotAt(init[..], rules, live, live, 0, 0, i);
      if init[i].has_child {
        RootIs(t, View(t), rules, nodes, up_aux, nodes[i], i);
        hop := DoSearch(nodes[i], Rest(ip), fct, t, rules, i);
        SearchChild(init[i], rules, live, ip);
      } else {
        SearchEntry(init[i], rules, live, ip);
        if init[i].has_next {
          hop := init[i].ptr;
        } else {
          hop := 0;
        }
      }
    }

    /** prefix_exist. */
    method Exists(p: Path) returns (found: bool)
      requires Valid() && |p| <= LENGTH
      ensures found <==> p in live
    {
      RootIs(t, View(t), rules, nodes, up_aux, up_aux, UP);
      found := PrefixExist(up_aux, p, t, rules, UP);
      assert Open(MbUpKey);
    }

    // ---------- inserting ----------

    /** Entry j is written; the tries are not. */
    method SetEntry(j: nat, e: Entry, ghost t: Tree)
      requires j < init.Length
      modifies init
      ensures init[..] == old(init[..])[j := e] && View(t) == old(View(t))
    {
      ghost var s := View(t);
      init[j] := e;
      assert View(t) == s;
    }

    /** insert_prefix for one of the entries of a prefix of at most 13 bits. */
    method InsertEntryAt(j: nat, p: Path, nhi: Hop, ghost t: Tree, ghost rules: Rules, ghost live: Live)
      returns (ghost t': Tree, ghost rules': Rules)
      requires init.Length == UP && j < UP && Ready(t, View(t), rules, nodes, up_aux) && SlotOK(init[j], j, rules, live)
      requires 0 < |p| <= INITIAL_BITS && Touches(p, Slot(j))
      modifies init, t.Values
      ensures Ready(t', View(t'), rules', nodes, up_aux) && fresh(t'.Values - t.Values) && OnlyAt(j, rules, rules')
      ensures SlotOK(init[j], j, rules', live[p := nhi]) && init[..] == old(init[..])[j := init[j]]
    {
      t', rules' := t, rules;
      if init[j].has_child {
        if init[j].prefix_hi > |p| {
          InsertKept(init[j], j, rules, live, p, nhi);
        } else {
          InsertInChild(init[j], j, rules, live, p, nhi);
          SetEntry(j, Entry(|p|, true, false, init[j].ptr), t');
          rules' := rules[Loc(j, []) := nhi];
          t' := SetRule(nodes[j], [], nhi, t, rules, j, nodes, up_aux);
        }
      } else {
        if init[j].prefix_hi > |p| {
          InsertKept(init[j], j, rules, live, p, nhi);
        } else {
          InsertAsNext(init[j], j, rules, live, p, nhi);
          SetEntry(j, Entry(|p|, false, true, nhi), t');
        }
      }
    }

    /** insert_prefix with at most 13 bits: all the entries of the prefix. */
    method InsertShort(p: Path, nhi: Hop, ghost t: Tree, ghost rules: Rules, ghost live: Live)
      returns (ghost t': Tree, ghost rules': Rules)
      requires init.Length == UP && Ready(t, View(t), rules, nodes, up_aux) && AllSlots(init[..], rules, live)
          && UpOK(rules, live)
      requires 0 < |p| <= INITIAL_BITS
      modifies init, t.Values
      ensures Ready(t', View(t'), rules', nodes, up_aux) && fresh(t'.Values - t.Values)
      ensures AllSlots(init[..], rules', live[p := nhi]) && UpOK(rules', live)
    {
      var index := Index(Address(p));
      t', rules' := t, rules;
      RangeStart(init[..], rules, live, live[p := nhi], index);
      RangeFits(p);
      var i := 0;
      while i < Pow2(INITIAL_BITS - |p|)
        invariant i <= Pow2(INITIAL_BITS - |p|)
        invariant Ready(t', View(t'), rules', nodes, up_aux) && fresh(t'.Values - t.Values)
        invariant Ranged(init[..], rules', live, live[p := nhi], index, index + i) && UpOK(rules', live)
      {
        ghost var es, rules1 := init[..], rules';
        SlotAt(es, rules1, live, live[p := nhi], index, index + i, index + i);
        TouchRange(p, index + i);
        t', rules' := InsertEntryAt(index + i, p, nhi, t', rules1, live);
        RangeStep(es, init[index + i], rules1, rules', live, live[p := nhi], index, index + i);
        UpSame(rules1, rules', live, index + i);
        i := i + 1;
      }
      RangeDone(init[..], rules', live, live[p := nhi], p);
    }

    /** The part of insert_prefix that makes an entry without a trie one with a trie. */
    method ToChild(j: nat, ghost t: Tree, ghost rules: Rules) returns (ghost t': Tree, ghost rules': Rules)
      requires init.Length == UP && j < UP && Ready(t, View(t), rules, nodes, up_aux)
      requires !init[j].has_child && (init[j].has_next <==> init[j].prefix_hi > 0)
      modifies init, t.Values
      ensures Ready(t', View(t'), rules', nodes, up_aux) && fresh(t'.Values - t.Values)
      ensures rules' == if old(init[j]).prefix_hi > 0 then rules[Loc(j, []) := old(init[j]).ptr] else rules
      ensures init[j] == Entry(old(init[j]).prefix_hi, true, false, init[j].ptr)
          && init[..] == old(init[..])[j := init[j]]
    {
      t', rules' := t, rules;
      if init[j].prefix_hi > 0 {
        var info := init[j].ptr;
        SetEntry(j, init[j].(ptr := 0, has_next := false), t');
        rules' := rules[Loc(j, []) := info];
        t' := SetRule(nodes[j], [], info, t, rules, j, nodes, up_aux);
      }
      SetEntry(j, init[j].(has_child := true), t');
    }

    /** The entry of a prefix of more than 13 bits has a trie, in which the rule is missing only. */
    method MakeDeep(j: nat, p: Path, nhi: Hop, ghost t: Tree, ghost rules: Rules, ghost live: Live)
      returns (ghost t': Tree, ghost rules': Rules)
      requires init.Length == UP && j < UP && Ready(t, View(t), rules, nodes, up_aux) && SlotOK(init[j], j, rules, live)
      requires INITIAL_BITS < |p| <= LENGTH && Touches(p, Slot(j))
      modifies init, t.Values
      ensures Ready(t', View(t'), rules', nodes, up_aux) && fresh(t'.Values - t.Values) && OnlyAt(j, rules, rules')
      ensures SlotOK(init[j], j, rules'[Loc(j, p[INITIAL_BITS..]) := nhi], live[p := nhi])
      ensures init[..] == old(init[..])[j := init[j]]
    {
      t', rules' := t, rules;
      ghost var e := init[j];
      if !init[j].has_child {
        assert e.has_next <==> e.prefix_hi > 0 by { assert Open(MbSlotKey); }
        t', rules' := ToChild(j, t, rules);
      }
      InsertDeep(e, j, rules, live, p, nhi, init[j].ptr);
    }

    /** insert_prefix with more than 13 bits: the entry of the prefix. */
    method InsertLongAt(j: nat, p: Path, nhi: Hop, ghost t: Tree, ghost rules: Rules, ghost live: Live)
      returns (ghost t': Tree, ghost rules': Rules)
      requires init.Length == UP && j < UP && Ready(t, View(t), rules, nodes, up_aux) && SlotOK(init[j], j, rules, live)
      requires INITIAL_BITS < |p| <= LENGTH && Touches(p, Slot(j))
      modifies init, t.Values
      ensures Ready(t', View(t'), rules', nodes, up_aux) && fresh(t'.Values - t.Values) && OnlyAt(j, rules, rules')
      ensures SlotOK(init[j], j, rules', live[p := nhi]) && init[..] == old(init[..])[j := init[j]]
    {
      ghost var t1, rules1 := MakeDeep(j, p, nhi, t, rules, live);
      rules' := rules1[Loc(j, p[INITIAL_BITS..]) := nhi];
      t' := SetRule(nodes[j], p[INITIAL_BITS..], nhi, t1, rules1, j, nodes, up_aux);
      OnlySet(j, rules, rules1, p[INITIAL_BITS..], nhi);
    }

    method InsertLong(p: Path, nhi: Hop, ghost t: Tree, ghost rules: Rules, ghost live: Live)
      returns (ghost t': Tree, ghost rules': Rules)
      requires init.Length == UP && Ready(t, View(t), rules, nodes, up_aux) && AllSlots(init[..], rules, live)
          && UpOK(rules, live)
      requires INITIAL_BITS < |p| <= LENGTH
      modifies init, t.Values
      ensures Ready(t', View(t'), rules', nodes, up_aux) && fresh(t'.Values - t.Values)
      ensures AllSlots(init[..], rules', live[p := nhi]) && UpOK(rules', live)
    {
      var index := Index(Address(p));
      ghost var es := init[..];
      SlotAt(es, rules, live, live, 0, 0, index);
      TouchOne(p, index);
      t', rules' := InsertLongAt(index, p, nhi, t, rules, live);
      OneSlot(es, init[index], rules, rules', live, live[p := nhi], p);
      UpSame(rules, rules', live, index);
    }

    ghost method Become(t': Tree, rules': Rules, live': Live)
      requires init.Length == UP && TableOK(fct) && Ready(t', View(t'), rules', nodes, up_aux)
      requires AllSlots(init[..], rules', live') && UpOK(rules', live') && LiveOK(live')
      modifies this
      ensures Valid() && t == t' && live == live'
    {
      ghost var s := View(t');
      t, rules, live := t', rules', live';
      assert View(t') == s;
    }

    /** The first part of insert_prefix: the front array with the tries of its entries. */
    method InsertFront(p: Path, nhi: Hop, ghost t: Tree, ghost rules: Rules, ghost live: Live)
      returns (ghost t': Tree, ghost rules': Rules)
      requires init.Length == UP && Ready(t, View(t), rules, nodes, up_aux) && AllSlots(init[..], rules, live)
          && UpOK(rules, live)
      requires 0 < |p| <= LENGTH
      modifies init, t.Values
      ensures Ready(t', View(t'), rules', nodes, up_aux) && fresh(t'.Values - t.Values)
      ensures AllSlots(init[..], rules', live[p := nhi]) && UpOK(rules', live)
    {
      if |p| <= INITIAL_BITS {
        t', rules' := InsertShort(p, nhi, t, rules, live);
      } else {
        t', rules' := InsertLong(p, nhi, t, rules, live);
      }
    }

    /** insert_prefix: the front array with the tries of its entries first, up_aux last.  A prefix of no bits is
        refused. */
    method InsertPrefix(p: Path, nhi: Hop)
      requires Valid() && |p| <= LENGTH
      modifies this, init, t.Values
      ensures Valid() && live == (if p == [] then old(live) else old(live)[p := nhi])
      ensures fresh(t.Values - old(t.Values))
    {
      if |p| == 0 {
        return;
      }
      ghost var t1, rules1 := InsertFront(p, nhi, t, rules, live);
      ghost var t2 := SetRule(up_aux, p, nhi, t1, rules1, UP, nodes, up_aux);
      ghost var rules2 := rules1[Loc(UP, p) := nhi];
      UpSet(rules1, live, p, nhi);
      SlotsSame(init[..], rules1, rules2, live[p := nhi]);
      Become(t2, rules2, live[p := nhi]);
    }

    // ---------- deleting ----------

    /** delete_prefix for an entry with a trie whose root rule is the prefix. */
    method DeleteInTrie(j: nat, p: Path, prefix_near: nat, nhi_near: Hop, ghost t: Tree, ghost rules: Rules,
                        ghost live: Live)
      returns (ghost t': Tree, ghost rules': Rules)
      requires init.Length == UP && j < UP && Ready(t, View(t), rules, nodes, up_aux) && SlotOK(init[j], j, rules, live)
      requires 0 < |p| <= INITIAL_BITS && Touches(p, Slot(j)) && p in live && [] !in live
      requires prefix_near == NearMask(live, p) && (prefix_near > 0 ==> nhi_near == NearHop(live, p))
      requires init[j].has_child && init[j].prefix_hi <= |p|
      modifies init, t.Values
      ensures Ready(t', View(t'), rules', nodes, up_aux) && t'.Values <= t.Values && OnlyAt(j, rules, rules')
      ensures SlotOK(init[j], j, rules', live - {p}) && init[..] == old(init[..])[j := init[j]]
    {
      t', rules' := t, rules;
      DeleteInChild(init[j], j, rules, live, p);
      if prefix_near == 0 {
        var ret;
        rules' := rules - {Loc(j, [])};
        ret, t' := CutRule(nodes[j], [], t, rules, j, nodes, up_aux);
        if !ret {
          SetEntry(j, Entry(0, true, false, init[j].ptr), t');
        } else {
          SetEntry(j, Entry(0, false, false, 0), t');
        }
      } else {
        SetEntry(j, Entry(prefix_near, true, false, init[j].ptr), t');
        rules' := rules[Loc(j, []) := nhi_near];
        RootIs(t, View(t), rules, nodes, up_aux, nodes[j], j);
        OverlapNhi(nodes[j], nhi_near, t, rules, j, nodes, up_aux);
      }
    }

    /** delete_prefix for one of the entries of a prefix of at most 13 bits. */
    method DeleteEntryAt(j: nat, p: Path, prefix_near: nat, nhi_near: Hop, ghost t: Tree, ghost rules: Rules,
                         ghost live: Live)
      returns (ghost t': Tree, ghost rules': Rules)
      requires init.Length == UP && j < UP && Ready(t, View(t), rules, nodes, up_aux) && SlotOK(init[j], j, rules, live)
      requires 0 < |p| <= INITIAL_BITS && Touches(p, Slot(j)) && p in live && [] !in live
      requires prefix_near == NearMask(live, p) && (prefix_near > 0 ==> nhi_near == NearHop(live, p))
      modifies init, t.Values
      ensures Ready(t', View(t'), rules', nodes, up_aux) && t'.Values <= t.Values && OnlyAt(j, rules, rules')
      ensures SlotOK(init[j], j, rules', live - {p}) && init[..] == old(init[..])[j := init[j]]
    {
      t', rules' := t, rules;
      var prefix := init[j].prefix_hi;
      if prefix > |p| {
        DeleteKept(init[j], j, rules, live, p);
      } else if init[j].has_child {
        t', rules' := DeleteInTrie(j, p, prefix_near, nhi_near, t, rules, live);
      } else {
        DeleteAsNext(init[j], j, rules, live, p);
        if prefix_near == 0 {
          SetEntry(j, Entry(0, false, false, 0), t');
        } else {
          SetEntry(j, Entry(prefix_near, false, true, nhi_near), t');
        }
      }
    }

    /** One turn of the loop over the entries from a on. */
    method DeleteEntryOf(a: nat, j: nat, p: Path, prefix_near: nat, nhi_near: Hop, ghost t: Tree, ghost rules: Rules,
                         ghost live: Live)
      returns (ghost t': Tree, ghost rules': Rules)
      requires init.Length == UP && a <= j < UP && Ready(t, View(t), rules, nodes, up_aux)
      requires Ranged(init[..], rules, live, live - {p}, a, j) && UpOK(rules, live)
      requires 0 < |p| <= INITIAL_BITS && Touches(p, Slot(j)) && p in live && [] !in live
      requires prefix_near == NearMask(live, p) && (prefix_near > 0 ==> nhi_near == NearHop(live, p))
      modifies init, t.Values
      ensures Ready(t', View(t'), rules', nodes, up_aux) && t'.Values <= t.Values
      ensures Ranged(init[..], rules', live, live - {p}, a, j + 1) && UpOK(rules', live)
    {
      ghost var es := init[..];
      SlotAt(es, rules, live, live - {p}, a, j, j);
      t', rules' := DeleteEntryAt(j, p, prefix_near, nhi_near, t, rules, live);
      RangeStep(es, init[j], rules, rules', live, live - {p}, a, j);
      UpSame(rules, rules', live, j);
    }

    /** delete_prefix with at most 13 bits: all the entries of the prefix. */
    method DeleteShort(p: Path, ghost t: Tree, ghost rules: Rules, ghost live: Live)
      returns (ghost t': Tree, ghost rules': Rules)
      requires init.Length == UP && Ready(t, View(t), rules, nodes, up_aux) && AllSlots(init[..], rules, live)
          && UpOK(rules, live)
      requires 0 < |p| <= INITIAL_BITS && p in live && LiveOK(live)
      modifies init, t.Values
      ensures Ready(t', View(t'), rules', nodes, up_aux) && t'.Values <= t.Values
      ensures AllSlots(init[..], rules', live - {p}) && UpOK(rules', live)
    {
      var index := Index(Address(p));
      RootIs(t, View(t), rules, nodes, up_aux, up_aux, UP);
      var prefix_near, nhi_near := DetectOverlap(up_aux, Address(p), |p|, INITIAL_BITS, t, rules, UP);
      FoundNear(rules, live, p, prefix_near, nhi_near);
      t', rules' := t, rules;
      RangeStart(init[..], rules, live, live - {p}, index);
      RangeFits(p);
      var i := 0;
      while i < Pow2(INITIAL_BITS - |p|)
        invariant i <= Pow2(INITIAL_BITS - |p|)
        invariant Ready(t', View(t'), rules', nodes, up_aux) && t'.Values <= t.Values
        invariant Ranged(init[..], rules', live, live - {p}, index, index + i) && UpOK(rules', live)
      {
        TouchRange(p, index + i);
        t', rules' := DeleteEntryOf(index, index + i, p, prefix_near, nhi_near, t', rules', live);
        i := i + 1;
      }
      RangeDone(init[..], rules', live, live - {p}, p);
    }

    /** delete_prefix with more than 13 bits: the entry of the prefix.  When its trie becomes empty, no shorter
        prefix is found to take over. */
    method DeleteLongAt(j: nat, p: Path, ghost t: Tree, ghost rules: Rules, ghost live: Live)
      returns (ghost t': Tree, ghost rules': Rules)
      requires init.Length == UP && j < UP && Ready(t, View(t), rules, nodes, up_aux) && SlotOK(init[j], j, rules, live)
          && UpOK(rules, live)
      requires INITIAL_BITS < |p| <= LENGTH && Touches(p, Slot(j)) && p in live && LiveOK(live)
      modifies init, t.Values
      ensures Ready(t', View(t'), rules', nodes, up_aux) && t'.Values <= t.Values && OnlyAt(j, rules, rules')
      ensures SlotOK(init[j], j, rules', live - {p}) && init[..] == old(init[..])[j := init[j]]
    {
      DeleteDeep(init[j], j, rules, live, p);
      assert init[j].has_child;
      var ret;
      rules' := rules - {Loc(j, p[INITIAL_BITS..])};
      ret, t' := CutRule(nodes[j], p[INITIAL_BITS..], t, rules, j, nodes, up_aux);
      if ret {
        UpSame(rules, rules', live, j);
        RootIs(t', View(t'), rules', nodes, up_aux, up_aux, UP);
        var prefix_near, nhi_near := DetectOverlap(up_aux, Address(p), |p|, INITIAL_BITS, t', rules', UP);
        FoundNone(rules', live, p, prefix_near, nhi_near);
        assert prefix_near == 0;
        SetEntry(j, Entry(0, false, false, 0), t');
      }
    }

    method DeleteLong(p: Path, ghost t: Tree, ghost rules: Rules, ghost live: Live)
      returns (ghost t': Tree, ghost rules': Rules)
      requires init.Length == UP && Ready(t, View(t), rules, nodes, up_aux) && AllSlots(init[..], rules, live)
          && UpOK(rules, live)
      requires INITIAL_BITS < |p| <= LENGTH && p in live && LiveOK(live)
      modifies init, t.Values
      ensures Ready(t', View(t'), rules', nodes, up_aux) && t'.Values <= t.Values
      ensures AllSlots(init[..], rules', live - {p}) && UpOK(rules', live)
    {
      var index := Index(Address(p));
      ghost var es := init[..];
      SlotAt(es, rules, live, live, 0, 0, index);
      TouchOne(p, index);
      t', rules' := DeleteLongAt(index, p, t, rules, live);
      OneSlot(es, init[index], rules, rules', live, live - {p}, p);
      UpSame(rules, rules', live, index);
    }

    /** delete_prefix of a live prefix: the front array with the tries of its entries first, up_aux last. */
    method DeletePrefix(p: Path)
      requires Valid() && (p == [] || p in live)
      modifies this, init, t.Values
      ensures Valid() && live == old(live) - {p} && t.Values <= old(t.Values)
    {
      if |p| == 0 {
        assert live - {p} == live;
        return;
      }
      ghost var t1, rules1;
      if |p| <= INITIAL_BITS {
        t1, rules1 := DeleteShort(p, t, rules, live);
      } else {
        t1, rules1 := DeleteLong(p, t, rules, live);
      }
      assert Loc(UP, p) in rules1 by { assert Open(MbUpKey); }
      ghost var t2;
      var ret;
      ret, t2 := CutRule(up_aux, p, t1, rules1, UP, nodes, up_aux);
      ghost var rules2 := rules1 - {Loc(UP, p)};
      UpCut(rules1, live, p);
      SlotsSame(init[..], rules1, rules2, live - {p});
      Become(t2, rules2, live - {p});
    }
  }
}
