/** The RIB together with the FIB mapping table. */
module Tables {
  // The four route operations and the lookup are as the caller sees them, with next hops instead of FIB indices.

  import opened Bits
  import opened Forwarding
  import opened Folding
  import opened Ribs
  import opened Fibs

  /** hop is the next hop of the longest of the given routes that is a prefix of addr; without one it is
      NULL. */
  ghost predicate BestHop(rib: Routes, given: map<Path, Hop>, addr: Path, hop: Hop) {
    && given.Keys == rib.Keys
    && (forall p :: LongestMatch(rib, addr, p) ==> hop == given[p])
    && (NoMatch(rib, addr) ==> hop == 0)
  }

  lemma {:induction false} Found(entries: seq<Hop>, rib: Routes, given: map<Path, Hop>, addr: Path)
    requires Holds(entries, rib, given) && |entries| > 0 && entries[0] == 0
    ensures Fwd(rib, addr) < |entries| && BestHop(rib, given, addr, entries[Fwd(rib, addr)])
  {
    FwdIsLongestMatch(rib, addr);
    FwdInRange(entries, rib, given, addr);
  }

  lemma {:induction false} FwdInRange(entries: seq<Hop>, rib: Routes, given: map<Path, Hop>, addr: Path)
    requires Holds(entries, rib, given) && |entries| > 0
    ensures Fwd(rib, addr) < |entries|
  {
    if addr !in rib && addr != [] {
      FwdInRange(entries, rib, given, addr[..|addr| - 1]);
    }
  }

  class Table {
    const rib: Rib
    const fib: Fib

    /** The live routes with their next hops. */
    ghost var given: map<Path, Hop>

    /** The references that changes of absent routes have taken. */
    ghost var kept: Keeping

    ghost predicate Valid()
      reads this, rib, rib.Repr(), fib.entries, fib.refs
    {
      rib.Valid() && fib.Serves(rib.now.routes, given, kept)
    }

    constructor (sz: nat)
      requires sz > 0
      ensures Valid() && given == map[] && kept == NoneKept(sz) && fib.entries.Length == sz
      ensures fresh(rib.Repr()) && fresh(fib.entries) && fresh(fib.refs)
    {
      rib := new Rib();
      fib := new Fib(sz);
      given, kept := map[], NoneKept(sz);
    }

    ghost method Give(g: map<Path, Hop>, k: Keeping)
      requires rib.Valid() && fib.Serves(rib.now.routes, g, k)
      modifies this
      ensures Valid() && given == g && kept == k
    {
      given, kept := g, k;
    }

    /** poptrie_rib_lookup. */
    method Lookup(addr: Path) returns (hop: Hop)
      requires Valid() && |addr| == KEYLENGTH
      ensures BestHop(rib.now.routes, given, addr, hop)
    {
      assert Open(KeptKey);
      Found(fib.entries[..], rib.now.routes, given, addr);
      var n := rib.Lookup(addr);
      hop := fib.entries[n];
    }

    /** poptrie_route_add, as far as RIB and FIB go. */
    method Add(prefix: Path, hop: Hop) returns (ret: int)
      requires Valid() && |prefix| <= KEYLENGTH && fib.Room(hop)
      modifies this, rib.Repr(), fib.entries, fib.refs
      ensures Valid() && ret == (if prefix in old(rib.now.routes) then -1 else 0)
      ensures given == (if ret == 0 then old(given)[prefix := hop] else old(given)) && kept == old(kept)
    {
      var n := fib.Ref(hop, rib.now.routes, given, kept);
      ret := AddTo(prefix, hop, n);
    }

    method AddTo(prefix: Path, hop: Hop, n: nat) returns (ret: int)
      requires rib.Valid() && fib.Prepared(rib.now.routes, given, kept, n) && fib.First(n, hop) && |prefix| <= KEYLENGTH
      modifies this, rib.Repr(), fib.refs
      ensures Valid() && ret == (if prefix in old(rib.now.routes) then -1 else 0)
      ensures given == (if ret == 0 then old(given)[prefix := hop] else old(given)) && kept == old(kept)
    {
      ghost var routes := rib.now.routes;
      ret := rib.Add(prefix, n);
      if ret < 0 {
        fib.Deref(hop, routes, given, kept, n);
      } else {
        fib.RouteAdded(routes, given, kept, prefix, n, hop);
        Give(given[prefix := hop], kept);
      }
    }

    /** poptrie_route_change, as far as RIB and FIB go.  If the route does not exist, the reference is not
        given back. */
    method Change(prefix: Path, hop: Hop) returns (ret: int)
      requires Valid() && |prefix| <= KEYLENGTH && fib.Room(hop)
      modifies this, rib.Repr(), fib.entries, fib.refs
      ensures Valid() && ret == (if prefix in old(rib.now.routes) then 0 else -1)
      ensures given == if ret == 0 then old(given)[prefix := hop] else old(given)
      ensures fib.First(FirstOf(fib.entries[..], hop), hop)
      ensures kept == if ret == 0 then old(kept) else KeptAt(old(kept), FirstOf(fib.entries[..], hop))
    {
      var n := fib.Ref(hop, rib.now.routes, given, kept);
      ret := ChangeTo(prefix, hop, n);
    }

    /** The route has got slot n instead of slot was, whose reference is given back. */
    method Changed(prefix: Path, hop: Hop, n: nat, was: nat, ghost routes: Routes)
      requires rib.Valid() && fib.Prepared(routes, given, kept, n) && fib.First(n, hop) && prefix in routes
          && was == routes[prefix]
      requires rib.now.routes == routes[prefix := n]
      modifies this, fib.refs
      ensures Valid() && given == old(given)[prefix := hop] && kept == old(kept)
    {
      fib.RouteChanged(routes, given, kept, prefix, n, hop);
      fib.Release(was, routes[prefix := n], given[prefix := hop], kept);
      Give(given[prefix := hop], kept);
    }

    method ChangeTo(prefix: Path, hop: Hop, n: nat) returns (ret: int)
      requires rib.Valid() && fib.Prepared(rib.now.routes, given, kept, n) && fib.First(n, hop) && |prefix| <= KEYLENGTH
      modifies this, rib.Repr(), fib.refs
      ensures Valid() && ret == (if prefix in old(rib.now.routes) then 0 else -1)
      ensures given == if ret == 0 then old(given)[prefix := hop] else old(given)
      ensures kept == if ret == 0 then old(kept) else KeptAt(old(kept), n)
    {
      ghost var routes := rib.now.routes;
      var was;
      ret, was := rib.Change(prefix, n);
      if ret == 0 {
        Changed(prefix, hop, n, was, routes);
      } else {
        fib.StillServes(routes, given, kept, n);
        Give(given, KeptAt(kept, n));
      }
    }

    /** poptrie_route_update, as far as RIB and FIB go. */
    method Update(prefix: Path, hop: Hop)
      requires Valid() && |prefix| <= KEYLENGTH && fib.Room(hop)
      modifies this, rib.Repr(), fib.entries, fib.refs
      ensures Valid() && given == old(given)[prefix := hop] && kept == old(kept)
    {
      var n := fib.Ref(hop, rib.now.routes, given, kept);
      UpdateTo(prefix, hop, n);
    }

    method UpdateTo(prefix: Path, hop: Hop, n: nat)
      requires rib.Valid() && fib.Prepared(rib.now.routes, given, kept, n) && fib.First(n, hop) && |prefix| <= KEYLENGTH
      modifies this, rib.Repr(), fib.refs
      ensures Valid() && given == old(given)[prefix := hop] && kept == old(kept)
    {
      ghost var routes := rib.now.routes;
      var existed, was := rib.Update(prefix, n);
      if existed {
        Changed(prefix, hop, n, was, routes);
      } else {
        fib.RouteAdded(routes, given, kept, prefix, n, hop);
        Give(given[prefix := hop], kept);
      }
    }

    /** poptrie_route_del, as far as RIB and FIB go. */
    method Delete(prefix: Path) returns (ret: int)
      requires Valid() && |prefix| <= KEYLENGTH
      modifies this, rib.Repr(), fib.refs
      ensures Valid() && ret == (if prefix in old(rib.now.routes) then 0 else -1)
      ensures given == (if ret == 0 then old(given) - {prefix} else old(given)) && kept == old(kept)
    {
      ghost var routes := rib.now.routes;
      var was;
      ret, was := rib.Delete(prefix);
      if ret == 0 {
        fib.RouteDeleted(routes, given, kept, prefix);
        fib.Release(was, routes - {prefix}, given - {prefix}, kept);
        Give(given - {prefix}, kept);
      }
    }
  }
}
