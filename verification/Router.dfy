/** The poptrie with its FIB mapping table: adding routes and the two lookups, with next hops. */
module Routers {
  import opened Bits
  import opened Forwarding
  import opened Folding
  import opened Memory
  import opened Fibs
  import opened Tables
  import opened Requests
  import opened Poptries

  class Router {
    const poptrie: Poptrie
    const fib: Fib

    /** The live routes with their next hops. */
    ghost var given: map<Path, Hop>

    /** The references that are never given back. */
    ghost var kept: Keeping

    ghost predicate Valid()
      reads this, poptrie, poptrie.radix, poptrie.Repr(), fib.entries, fib.refs
    {
      Aside() && poptrie.Valid() && fib.Serves(poptrie.radix.now.routes, given, kept)
    }

    constructor (poptrie: Poptrie, fib: Fib)
      requires poptrie.Valid() && poptrie.radix.now.routes == map[]
      requires fib.Serves(map[], map[], NoneKept(fib.entries.Length))
      requires fib.entries !in poptrie.Repr() && fib.refs !in poptrie.Repr()
      ensures Valid() && given == map[] && kept == NoneKept(fib.entries.Length)
    {
      this.poptrie, this.fib := poptrie, fib;
      given, kept := map[], NoneKept(fib.entries.Length);
    }

    /** The FIB entry for addr. */
    ghost function Answer(addr: Path): (hop: Hop)
      requires Valid()
      reads this, poptrie, poptrie.radix, poptrie.Repr(), fib.entries, fib.refs
      ensures BestHop(poptrie.radix.now.routes, given, addr, hop)
    {
      assert Open(KeptKey);
      Found(fib.entries[..], poptrie.radix.now.routes, given, addr);
      fib.entries[Fwd(poptrie.radix.now.routes, addr)]
    }

    /** poptrie_lookup. */
    method Lookup(addr: Path) returns (hop: Hop)
      requires Valid() && |addr| == KEYLENGTH
      ensures hop == Answer(addr)
    {
      assert Open(KeptKey);
      Found(fib.entries[..], poptrie.radix.now.routes, given, addr);
      poptrie.ValidIsSound();
      var n, k := poptrie.Lookup(addr);
      hop := fib.entries[n];
    }

    /** poptrie_rib_lookup: the same answer. */
    method RibLookup(addr: Path) returns (hop: Hop)
      requires Valid() && |addr| == KEYLENGTH
      ensures hop == Answer(addr)
    {
      assert Open(KeptKey);
      Found(fib.entries[..], poptrie.radix.now.routes, given, addr);
      poptrie.ValidIsSound();
      var n := poptrie.RibLookup(addr);
      hop := fib.entries[n];
    }

    /** poptrie_route_add. */
    method Add(prefix: Path, hop: Hop) returns (ret: int)
      requires Valid() && |prefix| <= KEYLENGTH && fib.Room(hop)
      modifies this, poptrie.Repr(), fib.entries, fib.refs
      ensures kept == old(kept) && -1 <= ret <= 0 && poptrie.Refusals() >= old(poptrie.Refusals())
      ensures prefix in old(given) ==> ret == -1 && Valid() && given == old(given)
      ensures prefix !in old(given) && poptrie.Refusals() == old(poptrie.Refusals()) ==>
                ret == 0 && Valid() && given == old(given)[prefix := hop]
      ensures prefix !in old(given) ==>
                Told(old(poptrie.pool.log.notes), poptrie.pool.log.notes, poptrie.Refusals() == old(poptrie.Refusals()),
                    poptrie.pool, old(poptrie.pool.View()),
                    old(poptrie.radix.now.routes)[prefix := FirstOf(fib.entries[..], hop)], [])
      ensures old(poptrie.Spacious()) ==> poptrie.Refusals() == old(poptrie.Refusals())
      ensures |prefix| >= TOP ==> (ret == 0 <==> prefix !in old(given) && poptrie.Refusals() == old(poptrie.Refusals()))
    {
      assert prefix in given <==> prefix in poptrie.radix.now.routes by { assert Open(KeptKey); }
      var n := RefFib(hop);
      ret := AddTo(prefix, hop, n);
    }

    ghost method Give(g: map<Path, Hop>)
      requires Aside()
      modifies this
      ensures given == g && kept == old(kept) && Aside()
      ensures fib.entries[..] == old(fib.entries[..]) && poptrie.pool.log.notes == old(poptrie.pool.log.notes)
      ensures old(poptrie.Valid() && fib.Serves(poptrie.radix.now.routes, g, kept)) ==> Valid()
    {
      assert Open(TopKey);
      given := g;
    }

    method RefFib(hop: Hop) returns (n: nat)
      requires Valid() && fib.Room(hop)
      modifies fib.entries, fib.refs
      ensures poptrie.Valid() && Aside() && fib.Prepared(poptrie.radix.now.routes, given, kept, n) && fib.First(n, hop)
      ensures poptrie.radix.now == old(poptrie.radix.now) && poptrie.pool.log.notes == old(poptrie.pool.log.notes)
      ensures poptrie.pool.View() == old(poptrie.pool.View()) && poptrie.Spacious() == old(poptrie.Spacious())
    {
      assert Open(TopKey);
      ghost var m := poptrie.pool.View();
      n := fib.Ref(hop, poptrie.radix.now.routes, given, kept);
      assert poptrie.pool.View() == m;
    }

    /** The arrays of the table stay apart from the poptrie. */
    ghost predicate Aside()
      reads this, poptrie, poptrie.radix
    {
      forall k: Key :: Open(k) && k.TopKey? ==>
        fib.entries !in poptrie.Repr() && fib.refs !in poptrie.Repr() && this !in poptrie.Repr()
    }

    method AddTo(prefix: Path, hop: Hop, n: nat) returns (ret: int)
      requires poptrie.Valid() && fib.Prepared(poptrie.radix.now.routes, given, kept, n) && fib.First(n, hop)
          && |prefix| <= KEYLENGTH
      requires Aside()
      modifies this, poptrie.Repr(), fib.refs
      ensures fib.First(n, hop) && kept == old(kept) && -1 <= ret <= 0 && poptrie.Refusals() >= old(poptrie.Refusals())
      ensures prefix in old(poptrie.radix.now.routes) ==>
                ret == -1 && poptrie.Refusals() == old(poptrie.Refusals()) && Valid() && given == old(given)
      ensures prefix !in old(poptrie.radix.now.routes) && poptrie.Refusals() == old(poptrie.Refusals()) ==>
                ret == 0 && Valid() && given == old(given)[prefix := hop]
      ensures prefix !in old(poptrie.radix.now.routes) ==>
                Told(old(poptrie.pool.log.notes), poptrie.pool.log.notes, poptrie.Refusals() == old(poptrie.Refusals()),
                    poptrie.pool, old(poptrie.pool.View()), old(poptrie.radix.now.routes)[prefix := n], [])
      ensures old(poptrie.Spacious()) ==> poptrie.Refusals() == old(poptrie.Refusals())
      ensures |prefix| >= TOP ==>
                (ret == 0 <==>
                    prefix !in old(poptrie.radix.now.routes) && poptrie.Refusals() == old(poptrie.Refusals()))
    {
      ghost var rib := poptrie.radix.now.routes;
      ret := RouteAdd(prefix, n);
      SettleFib(ret, prefix, hop, n, rib);
      Give(if ret < 0 then given else given[prefix := hop]);
    }

    /** The end of poptrie_route_add: without success the reference is given back. */
    method SettleFib(ret: int, ghost prefix: Path, hop: Hop, ghost n: nat, ghost rib: Routes)
      requires fib.Prepared(rib, given, kept, n) && fib.First(n, hop) && (ret >= 0 ==> prefix !in rib) && Aside()
      modifies fib.refs
      ensures if ret < 0 then fib.Serves(rib, given, kept) else fib.Serves(rib[prefix := n], given[prefix := hop], kept)
      ensures fib.First(n, hop) && Aside()
      ensures poptrie.pool.log.notes == old(poptrie.pool.log.notes) && poptrie.radix.now == old(poptrie.radix.now)
      ensures old(poptrie.Valid()) ==> poptrie.Valid()
    {
      if ret < 0 {
        fib.Deref(hop, rib, given, kept, n);
      } else {
        fib.RouteAdded(rib, given, kept, prefix, n, hop);
      }
    }

    method RouteAdd(prefix: Path, n: nat) returns (ret: int)
      requires poptrie.Valid() && |prefix| <= KEYLENGTH && Aside()
      modifies poptrie.Repr()
      ensures -1 <= ret <= 0 && poptrie.Refusals() >= old(poptrie.Refusals()) && Aside()
      ensures fib.entries[..] == old(fib.entries[..]) && fib.refs[..] == old(fib.refs[..])
      ensures given == old(given) && kept == old(kept)
      ensures prefix in old(poptrie.radix.now.routes) ==>
                && ret == -1 && poptrie.Refusals() == old(poptrie.Refusals())
                && poptrie.Valid() && poptrie.radix.now.routes == old(poptrie.radix.now.routes)
      ensures prefix !in old(poptrie.radix.now.routes) && poptrie.Refusals() == old(poptrie.Refusals()) ==>
                ret == 0 && poptrie.Valid() && poptrie.radix.now.routes == old(poptrie.radix.now.routes)[prefix := n]
      ensures prefix !in old(poptrie.radix.now.routes) ==>
                Told(old(poptrie.pool.log.notes), poptrie.pool.log.notes, poptrie.Refusals() == old(poptrie.Refusals()),
                    poptrie.pool, old(poptrie.pool.View()), old(poptrie.radix.now.routes)[prefix := n], [])
      ensures old(poptrie.Spacious()) ==> poptrie.Refusals() == old(poptrie.Refusals())
      ensures |prefix| >= TOP ==>
                (ret == 0 <==>
                    prefix !in old(poptrie.radix.now.routes) && poptrie.Refusals() == old(poptrie.Refusals()))
    {
      assert Open(TopKey);
      ret := poptrie.RouteAdd(prefix, n);
      ghost var more := poptrie.Repr() - old(poptrie.Repr());
      assert fib.entries !in more && fib.refs !in more && this !in more;
    }
  }
}
