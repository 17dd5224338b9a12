/** The FIB mapping table: next hops by FIB index, with reference counts. */
module Fibs {
  import opened Bits
  import opened Forwarding
  import opened Folding

  /** A next hop, as the caller's pointer; 0 is NULL. */
  type Hop = nat

  /** The live routes that name slot i. */
  ghost function Naming(rib: Routes, i: nat): (a: set<Path>)
    ensures a <= rib.Keys
  {
    set p | p in rib && rib[p] == i
  }

  ghost function Uses(rib: Routes, i: nat): nat {
    |Naming(rib, i)|
  }

  /** Slot 0 is the default route's and is never free. */
  function Floor(i: nat): nat {
    if i == 0 then 1 else 0
  }

  /** How many references to each slot are never given back. */
  type Keeping = seq<nat>

  /** A slot is referenced once for every live route that names it, and for what is kept. */
  ghost predicate Counted(refs: seq<int>, rib: Routes, kept: Keeping) {
    |kept| == |refs| && forall i :: 0 <= i < |refs| ==> refs[i] == Uses(rib, i) + Floor(i) + kept[i]
  }

  /** The slot of a live route holds the next hop last given for it. */
  ghost predicate Holds(entries: seq<Hop>, rib: Routes, given: map<Path, Hop>) {
    && given.Keys == rib.Keys
    && forall p :: p in rib ==> rib[p] < |entries| && entries[rib[p]] == given[p]
  }

  // ---------- counting ----------

  lemma {:induction false} UsesAdd(rib: Routes, v: Path, n: nat, i: nat)
    requires v !in rib
    ensures Uses(rib[v := n], i) == Uses(rib, i) + if i == n then 1 else 0
  {
    var rib' := rib[v := n];
    assert Naming(rib', i) == if i == n then Naming(rib, i) + {v} else Naming(rib, i);
  }

  lemma {:induction false} UsesDelete(rib: Routes, v: Path, i: nat)
    requires v in rib
    ensures Uses(rib, i) == Uses(rib - {v}, i) + if i == rib[v] then 1 else 0
  {
    UsesAdd(rib - {v}, v, rib[v], i);
    assert (rib - {v})[v := rib[v]] == rib;
  }

  lemma {:induction false} UsesChange(rib: Routes, v: Path, n: nat, i: nat)
    requires v in rib
    ensures Uses(rib[v := n], i) + (if i == rib[v] then 1 else 0) == Uses(rib, i) + (if i == n then 1 else 0)
  {
    UsesDelete(rib, v, i);
    UsesAdd(rib - {v}, v, n, i);
    assert (rib - {v})[v := n] == rib[v := n];
  }

  /** A slot that nothing refers to is named by no live route. */
  lemma {:induction false} FreeSlot(refs: seq<int>, rib: Routes, kept: Keeping, i: nat, p: Path)
    requires Counted(refs, rib, kept) && i < |refs| && refs[i] <= 0 && p in rib
    ensures rib[p] != i && i > 0
  {
    assert refs[i] == Uses(rib, i) + Floor(i) + kept[i];
    UsesNone(rib, i, p);
  }

  lemma {:induction false} UsesNone(rib: Routes, i: nat, p: Path)
    requires p in rib
    ensures Uses(rib, i) == 0 ==> rib[p] != i
  {
    assert rib[p] == i ==> p in Naming(rib, i);
  }

  /** One reference to slot n more than is accounted for. */
  ghost predicate Spare(refs: seq<int>, rib: Routes, n: nat, kept: Keeping) {
    && |kept| == |refs|
    && forall i :: 0 <= i < |refs| ==> refs[i] == Uses(rib, i) + Floor(i) + kept[i] + if i == n then 1 else 0
  }

  lemma {:induction false} SpareAdded(refs: seq<int>, rib: Routes, v: Path, n: nat, kept: Keeping)
    requires Spare(refs, rib, n, kept) && v !in rib
    ensures Counted(refs, rib[v := n], kept)
  {
    forall i | 0 <= i < |refs| ensures refs[i] == Uses(rib[v := n], i) + Floor(i) + kept[i] {
      UsesAdd(rib, v, n, i);
    }
  }

  /** After a change the old slot has a reference to spare. */
  lemma {:induction false} SpareChanged(refs: seq<int>, rib: Routes, v: Path, n: nat, kept: Keeping)
    requires Spare(refs, rib, n, kept) && v in rib
    ensures Spare(refs, rib[v := n], rib[v], kept)
  {
    forall i | 0 <= i < |refs| ensures
        refs[i] == Uses(rib[v := n], i) + Floor(i) + kept[i] + if i == rib[v] then 1 else 0 {
      UsesChange(rib, v, n, i);
    }
  }

  lemma {:induction false} SpareDeleted(refs: seq<int>, rib: Routes, v: Path, kept: Keeping)
    requires Counted(refs, rib, kept) && v in rib
    ensures Spare(refs, rib - {v}, rib[v], kept)
  {
    forall i | 0 <= i < |refs| ensures
        refs[i] == Uses(rib - {v}, i) + Floor(i) + kept[i] + if i == rib[v] then 1 else 0 {
      UsesDelete(rib, v, i);
    }
  }

  /** One more reference to slot n is kept. */
  function KeptAt(kept: Keeping, n: nat): (k: Keeping)
    ensures |k| == |kept|
  {
    if n < |kept| then kept[n := kept[n] + 1] else kept
  }

  function NoneKept(sz: nat): (k: Keeping)
    ensures |k| == sz && forall i :: 0 <= i < sz ==> k[i] == 0
  {
    seq(sz, _ => 0)
  }

  // ---------- the table ----------

  /** The first slot that holds hop, or the length of the table. */
  function FirstOf(entries: seq<Hop>, hop: Hop): (i: nat)
    ensures i <= |entries| && (i < |entries| ==> entries[i] == hop)
    ensures forall j :: 0 <= j < i ==> entries[j] != hop
  {
    if entries == [] || entries[0] == hop then 0 else 1 + FirstOf(entries[1..], hop)
  }

  lemma {:induction false} FirstIs(entries: seq<Hop>, hop: Hop, i: nat)
    requires i <= |entries| && (i < |entries| ==> entries[i] == hop) && forall j :: 0 <= j < i ==> entries[j] != hop
    ensures FirstOf(entries, hop) == i
  {
    var k := FirstOf(entries, hop);
    assert k < |entries| ==> entries[k] == hop;
  }

  /** A slot that no live route names can be taken over by hop. */
  lemma {:induction false} TakeOver(entries: seq<Hop>, refs: seq<int>, rib: Routes, given: map<Path, Hop>,
                                    kept: Keeping, n: nat, hop: Hop)
    requires |entries| == |refs| && Counted(refs, rib, kept) && Holds(entries, rib, given) && n < |refs| && refs[n] <= 0
    ensures Spare(refs[n := 1], rib, n, kept) && Holds(entries[n := hop], rib, given) && n > 0
  {
    assert refs[n] == Uses(rib, n) + Floor(n) + kept[n];
    forall p | p in rib ensures rib[p] != n {
      FreeSlot(refs, rib, kept, n, p);
    }
  }

  class Fib {
    const entries: array<Hop>
    const refs: array<int>

    /** There is a slot for hop. */
    ghost predicate Room(hop: Hop)
      reads entries, refs
    {
      hop in entries[..] || exists i :: 0 <= i < refs.Length && refs[i] <= 0
    }

    ghost predicate Shaped()
      reads entries
    {
      entries.Length == refs.Length > 0 && entries[0] == 0
    }

    /** The table serves the routes rib, whose next hops are given. */
    ghost predicate Serves(rib: Routes, given: map<Path, Hop>, kept: Keeping)
      reads entries, refs
    {
      forall k: Key :: Open(k) && k.KeptKey? ==>
        Shaped() && Counted(refs[..], rib, kept) && Holds(entries[..], rib, given)
    }

    /** The same, with a reference to slot n to spare. */
    ghost predicate Prepared(rib: Routes, given: map<Path, Hop>, kept: Keeping, n: nat)
      reads entries, refs
    {
      forall k: Key :: Open(k) && k.KeptKey? ==>
        n < entries.Length && Shaped() && Spare(refs[..], rib, n, kept) && Holds(entries[..], rib, given)
    }

    /** Slot n is the first that holds hop. */
    ghost predicate First(n: nat, hop: Hop)
      reads entries
    {
      n < entries.Length && n == FirstOf(entries[..], hop)
    }

    /** The route v, in slot n, has been added. */
    lemma {:induction false} RouteAdded(rib: Routes, given: map<Path, Hop>, kept: Keeping, v: Path, n: nat, hop: Hop)
      requires Prepared(rib, given, kept, n) && First(n, hop) && v !in rib
      ensures Serves(rib[v := n], given[v := hop], kept)
    {
      assert Open(KeptKey);
      SpareAdded(refs[..], rib, v, n, kept);
    }

    /** The route v has been moved to slot n. */
    lemma {:induction false} RouteChanged(rib: Routes, given: map<Path, Hop>, kept: Keeping, v: Path, n: nat, hop: Hop)
      requires Prepared(rib, given, kept, n) && First(n, hop) && v in rib
      ensures Prepared(rib[v := n], given[v := hop], kept, rib[v])
    {
      assert Open(KeptKey);
      SpareChanged(refs[..], rib, v, n, kept);
    }

    /** The route v has been deleted. */
    lemma {:induction false} RouteDeleted(rib: Routes, given: map<Path, Hop>, kept: Keeping, v: Path)
      requires Serves(rib, given, kept) && v in rib
      ensures Prepared(rib - {v}, given - {v}, kept, rib[v])
    {
      assert Open(KeptKey);
      SpareDeleted(refs[..], rib, v, kept);
    }

    /** A reference that is not given back is kept. */
    lemma {:induction false} StillServes(rib: Routes, given: map<Path, Hop>, kept: Keeping, n: nat)
      requires Prepared(rib, given, kept, n)
      ensures Serves(rib, given, KeptAt(kept, n))
    {
      assert Open(KeptKey);
    }

    /** There is a slot for every next hop exactly when some slot but that of the default route is named by no live
        route and no reference to it is kept. */
    lemma {:induction false} RoomIff(rib: Routes, given: map<Path, Hop>, kept: Keeping, hop: Hop)
      requires Serves(rib, given, kept)
      ensures |kept| == entries.Length == refs.Length
      ensures Room(hop) <==>
                hop in entries[..] || exists i :: 0 < i < |kept| && kept[i] == 0 && Naming(rib, i) == {}
    {
      assert Open(KeptKey);
      forall i | 0 <= i < refs.Length ensures refs[i] <= 0 <==> 0 < i && kept[i] == 0 && Naming(rib, i) == {} {
        assert refs[..][i] == Uses(rib, i) + Floor(i) + kept[i];
      }
    }

    constructor (sz: nat)
      requires sz > 0
      ensures Serves(map[], map[], NoneKept(sz)) && fresh(entries) && fresh(refs) && entries.Length == sz
    {
      entries := new Hop[sz](_ => 0);
      refs := new int[sz](i => if i == 0 then 1 else 0);
      new;
      forall i | 0 <= i < sz ensures Uses(map[], i) == 0 {
        NoUses(i);
      }
    }

    method Find(hop: Hop) returns (i: nat)
      ensures i == FirstOf(entries[..], hop)
    {
      i := 0;
      while i < entries.Length && entries[i] != hop
        invariant i <= entries.Length && forall j :: 0 <= j < i ==> entries[j] != hop
      {
        i := i + 1;
      }
      FirstIs(entries[..], hop, i);
    }

    /** poptrie_fib_ref: the slot of hop, which is taken over from a free one if hop has none. */
    method Ref(hop: Hop, ghost rib: Routes, ghost given: map<Path, Hop>, ghost kept: Keeping) returns (n: int)
      requires Serves(rib, given, kept)
      modifies entries, refs
      ensures n == -1 <==> !old(Room(hop))
      ensures n == -1 ==> entries[..] == old(entries[..]) && refs[..] == old(refs[..])
      ensures n != -1 ==> 0 <= n < entries.Length == refs.Length && First(n, hop) && Prepared(rib, given, kept, n)
      ensures n != -1 ==>
                entries[..] == if hop in old(entries[..]) then old(entries[..]) else old(entries[..])[n := hop]
      ensures n != -1 && hop !in old(entries[..]) ==> forall j :: 0 <= j < n ==> old(refs[j]) > 0
    {
      assert Open(KeptKey);
      var m := Find(hop);
      if m < entries.Length {
        assert hop in entries[..];
        refs[m] := refs[m] + 1;
        return m;
      }
      assert hop !in entries[..];
      var i := 0;
      while i < refs.Length && refs[i] > 0
        invariant i <= refs.Length && forall j :: 0 <= j < i ==> refs[j] > 0
      {
        i := i + 1;
      }
      if i == refs.Length {
        return -1;
      }
      n := TakeSlot(i, hop, rib, given, kept);
    }

    method TakeSlot(i: nat, hop: Hop, ghost rib: Routes, ghost given: map<Path, Hop>, ghost kept: Keeping)
      returns (n: int)
      requires Serves(rib, given, kept) && i < refs.Length && refs[i] <= 0 && hop !in entries[..]
      modifies entries, refs
      ensures n == i && First(i, hop) && Prepared(rib, given, kept, i) && entries[..] == old(entries[..])[i := hop]
    {
      assert Open(KeptKey);
      TakeOver(entries[..], refs[..], rib, given, kept, i, hop);
      ghost var e, r := entries[..], refs[..];
      entries[i] := hop;
      refs[i] := 1;
      assert entries[..] == e[i := hop] && refs[..] == r[i := 1];
      forall j | 0 <= j < i ensures entries[j] != hop {
        assert e[j] in e;
      }
      FirstIs(entries[..], hop, i);
      n := i;
    }

    /** poptrie_fib_deref: give the spare reference of hop back. */
    method Deref(hop: Hop, ghost rib: Routes, ghost given: map<Path, Hop>, ghost kept: Keeping, ghost n: nat)
      requires Prepared(rib, given, kept, n) && First(n, hop)
      modifies refs
      ensures Serves(rib, given, kept)
    {
      assert Open(KeptKey);
      var m := Find(hop);
      if m < entries.Length {
        refs[m] := refs[m] - 1;
      }
    }

    /** Give a spare reference to slot n back. */
    method Release(n: nat, ghost rib: Routes, ghost given: map<Path, Hop>, ghost kept: Keeping)
      requires Prepared(rib, given, kept, n)
      modifies refs
      ensures Serves(rib, given, kept)
    {
      assert Open(KeptKey);
      refs[n] := refs[n] - 1;
    }
  }

  lemma {:induction false} NoUses(i: nat)
    ensures Uses(map[], i) == 0
  {
    assert Naming(map[], i) <= {};
  }
}
