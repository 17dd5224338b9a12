/** The poptrie: the RIB, the compiled trie, and the direct pointing array. */
module Poptries {
  import opened Bits
  import opened Tiling
  import opened Forwarding
  import opened Nodes
  import opened Folding
  import opened Memory
  import opened Compile
  import opened Radix
  import opened RibGrow
  import opened RadixPasses
  import opened RibOps
  import opened Ribs
  import opened Marking
  import opened Inodes
  import opened Versions
  import opened Succession
  import opened Roots
  import opened TopEntries
  import opened Subtree
  import opened Lagging
  import opened Capacity
  import opened Pools
  import opened Requests
  import opened FreeLists

  // ---------- lookup ----------

  /** The node at the d bits of addr, if any, decides the next six bits. */
  lemma {:induction false} LookupStep(m: Mem, o: Version, addr: Path, d: nat)
    requires Trie(m, o) && |addr| == KEYLENGTH && d <= KEYLENGTH && addr[..d] in o.ix
    ensures d + STRIDE <= KEYLENGTH
    ensures var q, i := addr[..d], SlotOf(addr, d);
            && q in o.val && o.ix[q] < |m.N| && m.N[o.ix[q]] == o.val[q]
            && var n := o.val[q];
               && |n.vector| == |n.leafvec| == SLOTS
               && (n.vector[i] ==>
                   addr[..d + STRIDE] in o.ix && o.ix[addr[..d + STRIDE]] == n.base1 + Rank(n.vector, i) - 1)
               && (!n.vector[i] ==>
                     var c := n.base0 + Rank(n.leafvec, i) - 1; 0 <= c < |m.L| && m.L[c] == Fwd(o.rib, addr))
  {
    var q := addr[..d];
    TrieParts(m, o);
    StoredAt(m, o.val, o.ix, q);
    NotConstant(m, o.rib, o.val, o.ix, q);
    WayOn(addr, d);
    var i := SlotOf(addr, d);
    OldChild(m, o, q, o.ix[q], i);
    OldLeaf(m, o, q, o.ix[q], i);
  }

  lemma {:induction false} WayOn(addr: Path, d: nat)
    requires d + STRIDE <= |addr|
    ensures Slot(addr[..d], SlotOf(addr, d)) == addr[..d + STRIDE] && Extends(addr, addr[..d + STRIDE])
  {
    var p := addr[..d];
    SlotUnder(addr, p, SlotOf(addr, d));
    assert addr[..|Slot(p, SlotOf(addr, d))|] == addr[..d + STRIDE];
  }

  /** The entry for an address. */
  lemma {:induction false} LookupEntry(dir: seq<nat>, o: Version, addr: Path)
    requires DirOK(dir, o) && |addr| == KEYLENGTH
    ensures var i := FirstEntry(addr[..TOP]);
            && i < ENTRIES
            && (dir[i] >= LEAF ==> dir[i] - LEAF == Fwd(o.rib, addr))
            && (dir[i] < LEAF ==> addr[..TOP] in o.ix && o.ix[addr[..TOP]] == dir[i])
  {
    EntryOfTop(addr[..TOP]);
    assert Under(addr, addr[..TOP]);
  }

  ghost predicate LateIn(o: Version, s: Snap, t: Tree, v: Path, a: Path) {
    v in t && forall k: Key :: Open(k) && k.KeptKey? ==> LateFor(o, s, t[v], v, a)
  }

  ghost predicate GapIn(o: Version, s: Snap, t: Tree, v: Path) {
    v in t && forall k: Key :: Open(k) && k.KeptKey? ==> Gap(o.rib, s, o, t[v], v)
  }

  lemma {:induction false} GapInIs(o: Version, s: Snap, t: Tree, v: Path)
    requires v in t
    ensures GapIn(o, s, t, v) <==> Gap(o.rib, s, o, t[v], v)
  {
    assert Open(KeptKey);
  }

  class Poptrie {
    const pool: Pool
    const radix: Rib
    var dir: array<nat>
    var altdir: array<nat>

    /** The version of the compiled trie. */
    ghost var trie: Version

    ghost function Repr(): set<object>
      reads this, radix
    {
      {this, dir, altdir, pool.log} + pool.Repr() + radix.Repr()
    }

    ghost predicate Apart()
      reads this, radix
    {
      && pool.nodes.Length <= LEAF && dir.Length == altdir.Length == ENTRIES && dir != altdir
      && dir !in pool.Repr() && altdir !in pool.Repr() && this !in pool.Repr()
      && radix.Repr() !! pool.Repr() && dir !in radix.Repr() && altdir !in radix.Repr() && this !in radix.Repr()
      && pool.log !in radix.Repr()
    }

    /** How often the allocators have refused a request. */
    ghost function Refusals(): nat
      reads pool.log
    {
      |pool.log.notes|
    }

    /** The memory is so large for the number of routes that no update is refused. */
    ghost predicate Spacious()
      reads radix
    {
      Roomy(pool, 20 + 12 * |radix.now.routes|)
    }

    ghost predicate Compiled()
      reads this, dir, pool, pool.nodes, pool.leaves, pool.cnodes, pool.cleaves
    {
      Trie(pool.View(), trie) && DirOK(dir[..], trie)
    }

    /** The compiled trie, canonical and with no block but its own, is that of the routes in the RIB. */
    ghost predicate Valid()
      reads Repr()
    {
      forall k: Key :: Open(k) && k.TopKey? ==>
        Apart() && pool.Valid() && radix.Valid() && Compiled() && trie.rib == radix.now.routes
    }

    /** The compiled trie is that of some routes, trie.rib, which may lag behind those in the RIB. */
    ghost predicate Sound()
      reads Repr()
    {
      forall k: Key :: Open(k) && k.TopKey? ==> Apart() && pool.Valid() && radix.Valid() && Compiled()
    }

    lemma {:induction false} Started()
      requires Apart() && pool.Valid() && radix.Valid() && Compiled() && trie.rib == radix.now.routes
      ensures Valid()
    {
      assert Open(TopKey);
    }

    lemma {:induction false} ValidIsSound()
      ensures Valid() <==> Sound() && trie.rib == radix.now.routes
    {
      assert Open(TopKey);
    }

    constructor (pool: Pool, radix: Rib, dir: array<nat>, altdir: array<nat>)
      ensures this.pool == pool && this.radix == radix && this.dir == dir && this.altdir == altdir
      ensures trie == Version(map[], map[], map[])
    {
      this.pool, this.radix, this.dir, this.altdir := pool, radix, dir, altdir;
      trie := Version(map[], map[], map[]);
    }

    /** poptrie_lookup: the FIB index for addr, found in at most five nodes. */
    method Lookup(addr: Path) returns (nh: nat, ghost reads': nat)
      requires Sound() && |addr| == KEYLENGTH
      ensures nh == Fwd(trie.rib, addr) && reads' <= 5
    {
      assert Open(TopKey);
      ghost var m := pool.View();
      pool.Sound();
      LookupEntry(dir[..], trie, addr);
      var e := dir[FirstEntry(addr[..TOP])];
      reads' := 0;
      if e >= LEAF {
        return e - LEAF, reads';
      }
      var base := e;
      var pos := TOP;
      while true
        invariant TOP <= pos <= KEYLENGTH && addr[..pos] in trie.ix && trie.ix[addr[..pos]] == base
        invariant reads' * STRIDE == pos - TOP
        decreases KEYLENGTH - pos
      {
        LookupStep(m, trie, addr, pos);
        reads' := reads' + 1;
        var node := pool.nodes[base];
        var idx := SlotOf(addr, pos);
        if node.vector[idx] {
          base := node.base1 + Rank(node.vector, idx) - 1;
          pos := pos + STRIDE;
        } else {
          return pool.leaves[node.base0 + Rank(node.leafvec, idx) - 1], reads';
        }
      }
    }

    /** poptrie_rib_lookup. */
    method RibLookup(addr: Path) returns (nh: nat)
      requires Sound() && |addr| == KEYLENGTH
      ensures nh == Fwd(radix.now.routes, addr)
    {
      assert Open(TopKey);
      nh := radix.Lookup(addr);
    }

    /** The RIB has changed below prefix; the compiled trie is still the old one. */
    ghost predicate Behind(prefix: Path)
      reads Repr()
    {
      forall k: Key :: Open(k) && k.TopKey? ==>
        && Apart() && pool.Valid() && radix.Rooted() && RibOK(radix.now.tree, radix.now.routes)
        && Stale(pool.View(), dir[..], trie, radix.now.routes, radix.now.tree, prefix)
    }

    /** The compiled trie is that of the version o below the slots that the marks in s allow to be copied, and that of
        the RIB elsewhere. */
    ghost predicate Current(s: Snap, o: Version, d: nat)
      reads Repr()
    {
      forall k: Key :: Open(k) && k.TopKey? ==>
        Apart() && pool.Valid() && Compiled() && Follows(s, o, radix.now.routes, d, trie.rib)
    }

    // ---------- _update_subtree ----------

    /** _update_subtree up to the clearing of the marks.  ok says whether every request for memory was granted.
        For a prefix above the direct pointing level the result alone does not tell. */
    method UpdateSubtree(prefix: Path, ghost s: Snap, ghost o: Version) returns (ret: int, ok: bool)
      requires Behind(prefix) && s == View(radix.now.tree) && o == trie
      modifies this, dir, altdir, pool.Repr(), pool.log
      ensures -1 <= ret <= 0 && {dir, altdir} == old({dir, altdir})
      ensures Refusals() >= old(Refusals()) && (ok <==> Refusals() == old(Refusals()))
      ensures Told(old(pool.log.notes), pool.log.notes, ok, pool, old(pool.View()),
                Blend(s, o, old(radix.now.routes), |prefix|), [])
      ensures ok ==> ret == 0 && Current(s, o, |prefix|)
      ensures |prefix| >= TOP ==> (ret == 0 <==> ok)
    {
      ghost var rib := Blend(s, o, radix.now.routes, |prefix|);
      Tell(prefix, s, o, rib);
      if |prefix| < TOP {
        ret, ok := UpdateSwap(prefix, s, o, rib);
      } else {
        ret := UpdateDeep(prefix, s, o, rib);
        ok := ret == 0;
      }
    }

    /** The marks tell how to get to rib. */
    ghost predicate Headed(prefix: Path, s: Snap, o: Version, rib: Routes)
      reads Repr()
    {
      forall k: Key :: Open(k) && k.TopKey? ==>
        && Apart() && pool.Valid() && radix.Rooted() && o == trie
        && Source(radix.now.tree, radix.now.routes, rib, o, |prefix|)
        && Stale(pool.View(), dir[..], o, rib, radix.now.tree, prefix)
        && Follows(s, o, radix.now.routes, |prefix|, rib)
    }

    lemma {:induction false} Tell(prefix: Path, s: Snap, o: Version, rib: Routes)
      requires Behind(prefix) && s == View(radix.now.tree) && o == trie
          && rib == Blend(s, o, radix.now.routes, |prefix|)
      ensures Headed(prefix, s, o, rib)
    {
      assert Open(TopKey);
      BlendFollows(s, o, radix.now.routes, |prefix|);
      FollowsTells(radix.now.tree, s, o, radix.now.routes, rib, |prefix|);
      FollowsUnder(s, o, radix.now.routes, |prefix|, rib, prefix);
    }

    method UpdateDeep(prefix: Path, ghost s: Snap, ghost o: Version, ghost rib: Routes) returns (ret: int)
      requires Headed(prefix, s, o, rib) && |prefix| >= TOP
      modifies this, dir, pool.Repr(), pool.log
      ensures -1 <= ret <= 0 && dir == old(dir) && altdir == old(altdir)
      ensures Refusals() == old(Refusals()) + if ret < 0 then 1 else 0
      ensures Told(old(pool.log.notes), pool.log.notes, ret >= 0, pool, old(pool.View()), rib, [])
      ensures ret == 0 ==> Current(s, o, |prefix|)
    {
      assert Open(TopKey);
      ghost var o';
      ret, o' := UpdateOne(pool, dir, radix.root, prefix, radix.now.tree, o, radix.now.routes, rib);
      ToldWider(old(pool.log.notes), pool.log.notes, ret >= 0, pool, old(pool.View()), rib, prefix[..TOP], []);
      if ret == 0 {
        SetTrie(s, o, |prefix|, o');
      }
    }

    ghost method SetTrie(s: Snap, o: Version, d: nat, o': Version)
      requires Apart() && pool.Valid() && Trie(pool.View(), o') && DirOK(dir[..], o')
          && Follows(s, o, radix.now.routes, d, o'.rib)
      modifies this
      ensures Current(s, o, d) && dir == old(dir) && altdir == old(altdir)
    {
      trie := o';
    }

    /** The update of a prefix above the direct pointing level.  After a refused request the source goes on and
        swaps the arrays all the same; the model stops there. */
    method UpdateSwap(prefix: Path, ghost s: Snap, ghost o: Version, ghost rib: Routes) returns (ret: int, ok: bool)
      requires Headed(prefix, s, o, rib) && |prefix| < TOP
      modifies this, dir, altdir, pool.Repr(), pool.log
      ensures -1 <= ret <= 0 && {dir, altdir} == old({dir, altdir})
      ensures Refusals() >= old(Refusals()) && (ok <==> Refusals() == old(Refusals()))
      ensures Told(old(pool.log.notes), pool.log.notes, ok, pool, old(pool.View()), rib, [])
      ensures ok ==> ret == 0 && Current(s, o, |prefix|)
    {
      assert Open(TopKey);
      ghost var nv, ni;
      ret, ok, nv, ni := UpdateMany(pool, dir, altdir, radix.root, prefix, radix.now.tree, o, radix.now.routes, rib);
      ToldWider(old(pool.log.notes), pool.log.notes, ok, pool, old(pool.View()), rib, prefix, []);
      if !ok {
        return;
      }
      Swap(prefix, s, o, rib, nv, ni);
    }

    method Swap(prefix: Path, ghost s: Snap, ghost o: Version, ghost rib: Routes, ghost nv: NodeMap, ghost ni: Cells)
      requires Apart() && pool.Valid() && |prefix| < TOP && Follows(s, o, radix.now.routes, |prefix|, rib)
      requires Ready(pool.View(), o, rib, prefix, nv, ni) && Replaced(altdir[..], dir[..], o, rib, prefix, nv, ni)
      requires DirOK(altdir[..], Next(o, rib, prefix, nv, ni))
      modifies this, pool.Repr()
      ensures Current(s, o, |prefix|) && {dir, altdir} == old({dir, altdir})
    {
      dir, altdir, trie := altdir, dir, Next(o, rib, prefix, nv, ni);
      CleanMany(pool, dir, altdir, prefix, o, rib, nv, ni);
    }

    // ---------- the end of every update ----------

    /** The RIB has been changed and marked; s are its objects. */
    ghost predicate Marked(prefix: Path, node: RadixNode, s: Snap)
      reads radix, radix.Repr()
    {
      forall k: Key :: Open(k) && k.WorkKey? ==>
        && radix.Rooted() && |prefix| <= KEYLENGTH && prefix in radix.now.tree && node == radix.now.tree[prefix]
        && PassDone(radix.now.tree, View(radix.now.tree), radix.now.routes, prefix) && s == View(radix.now.tree)
    }

    /** _update_subtree: update the compiled trie and clear the marks. */
    method Finish(node: RadixNode, prefix: Path, ghost s: Snap, ghost o: Version) returns (ret: int, ok: bool)
      requires Behind(prefix) && Marked(prefix, node, s) && o == trie
      modifies Repr()
      ensures -1 <= ret <= 0 && Repr() == old(Repr()) && radix.now == old(radix.now)
      ensures Refusals() >= old(Refusals()) && (ok <==> Refusals() == old(Refusals()))
      ensures Told(old(pool.log.notes), pool.log.notes, ok, pool, old(pool.View()),
                Blend(s, o, old(radix.now.routes), |prefix|), [])
      ensures ok ==> ret == 0 && Sound() && Follows(s, o, radix.now.routes, |prefix|, trie.rib)
      ensures |prefix| >= TOP ==> (ret == 0 <==> ok)
    {
      ret, ok := UpdateTrie(node, prefix, s, o);
      if ok {
        Unmark(node, prefix, s, o);
      }
    }

    /** UpdateSubtree leaves the RIB alone. */
    method UpdateTrie(ghost node: RadixNode, prefix: Path, ghost s: Snap, ghost o: Version) returns (ret: int, ok: bool)
      requires Behind(prefix) && Marked(prefix, node, s) && o == trie
      modifies this, dir, altdir, pool.Repr(), pool.log
      ensures -1 <= ret <= 0 && Repr() == old(Repr()) && Marked(prefix, node, s) && radix.now == old(radix.now)
      ensures Refusals() >= old(Refusals()) && (ok <==> Refusals() == old(Refusals()))
      ensures Told(old(pool.log.notes), pool.log.notes, ok, pool, old(pool.View()),
                Blend(s, o, old(radix.now.routes), |prefix|), [])
      ensures ok ==> ret == 0 && Current(s, o, |prefix|)
      ensures |prefix| >= TOP ==> (ret == 0 <==> ok)
    {
      Disjoint(prefix, node, s);
      ghost var changing: set<object> := {this, dir, altdir, pool.log} + pool.Repr();
      assert changing !! {radix} + radix.Repr();
      ret, ok := UpdateSubtree(prefix, s, o);
    }

    lemma {:induction false} Disjoint(prefix: Path, node: RadixNode, s: Snap)
      requires Behind(prefix) && Marked(prefix, node, s)
      ensures Apart() && s == View(radix.now.tree)
    {
      assert Open(TopKey) && Open(WorkKey);
    }

    /** The end of _update_subtree. */
    method Unmark(node: RadixNode, ghost prefix: Path, ghost s: Snap, ghost o: Version)
      requires Current(s, o, |prefix|) && Marked(prefix, node, s)
      modifies radix.now.tree.Values
      ensures Sound() && radix.now == old(radix.now) && Repr() == old(Repr()) && pool.log.notes == old(pool.log.notes)
      ensures Follows(s, o, radix.now.routes, |prefix|, trie.rib)
    {
      assert Open(TopKey) && Open(WorkKey);
      radix.EndUpdate(node, prefix);
    }

    /** The compiled trie forwards like the RIB. */
    ghost method Settle()
      requires Sound() && Alike(trie.rib, radix.now.routes)
      modifies this
      ensures Valid() && radix.now == old(radix.now) && Repr() == old(Repr())
    {
      assert Open(TopKey);
      TrieAlike(pool.View(), dir[..], trie, radix.now.routes);
      trie := Version(radix.now.routes, trie.val, trie.ix);
    }

    ghost method SettleIf(alike: bool)
      requires Sound() && (Alike(trie.rib, radix.now.routes) <==> alike)
      modifies this
      ensures Sound() && (Valid() <==> alike) && radix.now == old(radix.now) && Repr() == old(Repr())
      ensures trie.rib == if alike then radix.now.routes else old(trie.rib)
    {
      if alike {
        Settle();
      }
      ValidIsSound();
    }

    // ---------- adding ----------

    /** poptrie_route_add for FIB index n.  As long as no request for memory is refused, the add succeeds exactly
        when the route is new, and afterwards the poptrie is that of the new routes.  A route that was there
        before leaves everything as it was.  From the direct pointing level on, success also means that nothing
        was refused; above it, the result is that of the right half of the entries only. */
    method RouteAdd(prefix: Path, n: nat) returns (ret: int)
      requires Valid() && |prefix| <= KEYLENGTH
      modifies Repr()
      ensures -1 <= ret <= 0 && fresh(Repr() - old(Repr())) && Refusals() >= old(Refusals())
      ensures prefix in old(radix.now.routes) ==>
                ret == -1 && Valid() && radix.now.routes == old(radix.now.routes) && Refusals() == old(Refusals())
      ensures prefix !in old(radix.now.routes) && Refusals() == old(Refusals()) ==>
                ret == 0 && Valid() && radix.now.routes == old(radix.now.routes)[prefix := n]
      ensures prefix !in old(radix.now.routes) ==>
                Told(old(pool.log.notes), pool.log.notes, Refusals() == old(Refusals()), pool, old(pool.View()),
                old(radix.now.routes)[prefix := n], [])
      ensures old(Spacious()) ==> Refusals() == old(Refusals())
      ensures |prefix| >= TOP ==> (ret == 0 <==> prefix !in old(radix.now.routes) && Refusals() == old(Refusals()))
    {
      ghost var o := trie;
      Parts();
      var node;
      ghost var s;
      ret, node, s := BeginAdd(prefix, n);
      if ret == 0 {
        ret := FinishAdd(node, prefix, n, s, o);
        RoomToAdd(old(pool.log.notes), pool.log.notes, Refusals() == old(Refusals()), pool, old(pool.View()), o, prefix,
            n);
      }
    }

    method FinishAdd(node: RadixNode, prefix: Path, ghost n: nat, ghost s: Snap, ghost o: Version) returns (ret: int)
      requires Behind(prefix) && Marked(prefix, node, s) && o == trie && prefix !in o.rib
      requires radix.now.routes == o.rib[prefix := n] && Added(radix.now.tree, s, o.rib, prefix, n)
      modifies Repr()
      ensures -1 <= ret <= 0 && Repr() == old(Repr()) && Refusals() >= old(Refusals())
      ensures radix.now.routes == old(radix.now.routes)
      ensures Told(old(pool.log.notes), pool.log.notes, Refusals() == old(Refusals()), pool, old(pool.View()),
                radix.now.routes, [])
      ensures Refusals() == old(Refusals()) ==> ret == 0 && Valid()
      ensures |prefix| >= TOP ==> (ret == 0 <==> Refusals() == old(Refusals()))
    {
      ghost var aim := Blend(s, o, radix.now.routes, |prefix|);
      BlendFollows(s, o, radix.now.routes, |prefix|);
      AddAlike(radix.now.tree, s, o, prefix, n, aim);
      var ok;
      ret, ok := Finish(node, prefix, s, o);
      ToldSame(old(pool.log.notes), pool.log.notes, ok, pool, old(pool.View()), aim, radix.now.routes, []);
      if ok {
        AddAlike(radix.now.tree, s, o, prefix, n, trie.rib);
        Settle();
      }
    }

    method AddToRib(prefix: Path, n: nat) returns (ret: int, node: RadixNode)
      requires Apart() && pool.Valid() && radix.Valid() && Compiled() && |prefix| <= KEYLENGTH
      modifies radix.Repr()
      ensures Apart() && pool.Valid() && pool.View() == old(pool.View()) && dir[..] == old(dir[..]) && Compiled()
      ensures pool.log.notes == old(pool.log.notes) && fresh(radix.Repr() - old(radix.Repr()))
      ensures ret == if prefix in old(radix.now.routes) then -1 else 0
      ensures ret == -1 ==> radix.Valid() && radix.now.routes == old(radix.now.routes)
      ensures ret == 0 ==>
                && radix.Rooted() && radix.now.routes == old(radix.now.routes)[prefix := n]
                && prefix in radix.now.tree && node == radix.now.tree[prefix]
                && Added(radix.now.tree, View(radix.now.tree), old(radix.now.routes), prefix, n)
    {
      ghost var m, r := pool.View(), radix.Repr();
      ret, node := radix.BeginAdd(prefix, n);
      assert pool.View() == m;
      assert pool.Repr() !! (radix.Repr() - r);
    }

    /** The RIB part of adding a route. */
    method BeginAdd(prefix: Path, n: nat) returns (ret: int, node: RadixNode, ghost s: Snap)
      requires Valid() && |prefix| <= KEYLENGTH
      modifies Repr()
      ensures ret == (if prefix in old(radix.now.routes) then -1 else 0) && fresh(Repr() - old(Repr()))
      ensures pool.log.notes == old(pool.log.notes) && pool.View() == old(pool.View()) && trie == old(trie)
      ensures ret == -1 ==> Valid() && radix.now.routes == old(radix.now.routes)
      ensures ret == 0 ==>
                && Behind(prefix) && Marked(prefix, node, s) && trie.rib == old(radix.now.routes)
                && radix.now.routes == trie.rib[prefix := n] && Added(radix.now.tree, s, trie.rib, prefix, n)
    {
      assert Open(TopKey);
      ghost var rib := radix.now.routes;
      ret, node := AddToRib(prefix, n);
      s := View(radix.now.tree);
      if ret == 0 {
        AddedDone(radix.now.tree, s, rib, prefix, n);
        AddOnlyUnder(rib, prefix, n, prefix);
      }
    }

    // ---------- changing and deleting ----------

    /** Slot x of the compiled trie covers a and lags behind when the route is changed or deleted. */
    ghost predicate LagsFor(prefix: Path, a: Path)
      reads Repr()
    {
      LateIn(trie, View(radix.now.tree), radix.now.tree, prefix, a)
    }

    ghost predicate Lags(prefix: Path)
      reads Repr()
    {
      GapIn(trie, View(radix.now.tree), radix.now.tree, prefix)
    }

    /** poptrie_route_change for FIB index n.  Unless a request for memory is refused, the compiled trie becomes that of
        the new routes exactly when no slot lags behind; in those that do, addresses are forwarded as before. */
    method RouteChange(prefix: Path, n: nat) returns (ret: int)
      requires Valid() && |prefix| <= KEYLENGTH
      modifies Repr()
      ensures -1 <= ret <= 0 && Repr() == old(Repr()) && Refusals() >= old(Refusals())
      ensures prefix !in old(radix.now.routes) ==>
                ret == -1 && Valid() && radix.now.routes == old(radix.now.routes) && Refusals() == old(Refusals())
      ensures prefix in old(radix.now.routes) && old(radix.now.routes)[prefix] == n ==>
                ret == 0 && Valid() && radix.now.routes == old(radix.now.routes) && Refusals() == old(Refusals())
      ensures prefix in old(radix.now.routes) && old(radix.now.routes)[prefix] != n && Refusals() == old(Refusals()) ==>
                && ret == 0 && Sound() && radix.now.routes == old(radix.now.routes)[prefix := n]
                && (Valid() <==> !old(Lags(prefix)))
                && forall a :: |a| == KEYLENGTH ==>
                    Fwd(trie.rib, a) == Fwd(if old(LagsFor(prefix, a)) then old(radix.now.routes) else radix.now.routes,
                        a)
      ensures prefix in old(radix.now.routes) && old(radix.now.routes)[prefix] != n ==>
                ToldMoved(old(pool.log.notes), pool.log.notes, Refusals() == old(Refusals()), pool, old(pool.View()),
                old(trie), old(View(radix.now.tree)), old(radix.now.tree), prefix, radix.now.routes)
      ensures old(Spacious()) ==> Refusals() == old(Refusals())
      ensures |prefix| >= TOP ==> (ret == 0 <==> prefix in old(radix.now.routes) && Refusals() == old(Refusals()))
    {
      var node, ext := Existing(prefix);
      if node == null {
        return -1;
      }
      if node.nexthop != n {
        ret := ChangeTo(node, prefix, n);
        assert Open(KeptKey);
      } else {
        ret := 0;
      }
    }

    /** The object of a route in the RIB, and the next shorter one. */
    method Existing(prefix: Path) returns (node: RadixNode?, ext: RadixNode?)
      requires Valid() && |prefix| <= KEYLENGTH
      ensures Sound() && trie.rib == radix.now.routes && (node != null <==> prefix in radix.now.routes)
      ensures Valid() && View(radix.now.tree) == old(View(radix.now.tree)) && pool.View() == old(pool.View())
      ensures node != null ==>
                && prefix in radix.now.tree && node == radix.now.tree[prefix]
                && node.nexthop == radix.now.routes[prefix]
                && ext == ExtAbove(radix.now.tree, radix.now.routes, prefix)
    {
      Parts();
      ValidIsSound();
      node, ext := radix.Find(prefix);
    }

    lemma {:induction false} Parts()
      requires Valid()
      ensures radix.Valid() && trie.rib == radix.now.routes && Trie(pool.View(), trie)
    {
      assert Open(TopKey);
    }

    method ChangeTo(node: RadixNode, prefix: Path, n: nat) returns (ret: int)
      requires Valid() && prefix in radix.now.routes && prefix in radix.now.tree && node == radix.now.tree[prefix]
      requires radix.now.routes[prefix] != n
      modifies Repr()
      ensures -1 <= ret <= 0 && Repr() == old(Repr()) && Refusals() >= old(Refusals())
      ensures radix.now.routes == old(radix.now.routes)[prefix := n]
      ensures Refusals() == old(Refusals()) ==>
                && ret == 0 && Sound() && (Valid() <==> !old(Lags(prefix)))
                && Mended(old(trie), old(View(radix.now.tree)), node, prefix, n, radix.now.routes, trie.rib)
      ensures ToldMoved(old(pool.log.notes), pool.log.notes, Refusals() == old(Refusals()), pool, old(pool.View()),
                old(trie), old(View(radix.now.tree)), old(radix.now.tree), prefix, radix.now.routes)
      ensures old(Spacious()) ==> Refusals() == old(Refusals())
      ensures |prefix| >= TOP ==> (ret == 0 <==> Refusals() == old(Refusals()))
    {
      Parts();
      ghost var o, s0 := trie, View(radix.now.tree);
      GapInIs(o, s0, radix.now.tree, prefix);
      ghost var s := BeginChange(node, prefix, n);
      ret := FinishMove(node, prefix, n, s0, s, o);
      RoomToMove(old(pool.log.notes), pool.log.notes, Refusals() == old(Refusals()), pool, old(pool.View()), o, s0,
          radix.now.tree, prefix, radix.now.routes);
    }

    method ChangeInRib(node: RadixNode, prefix: Path, n: nat)
      requires Apart() && pool.Valid() && radix.Valid() && Compiled() && prefix in radix.now.routes
      requires prefix in radix.now.tree && node == radix.now.tree[prefix]
      modifies radix, radix.now.tree.Values
      ensures Apart() && pool.Valid() && pool.View() == old(pool.View()) && dir[..] == old(dir[..]) && Compiled()
      ensures pool.log.notes == old(pool.log.notes) && radix.Repr() == old(radix.Repr()) && radix.Rooted()
      ensures radix.now.tree == old(radix.now.tree) && radix.now.routes == old(radix.now.routes)[prefix := n]
      ensures PassDone(radix.now.tree, View(radix.now.tree), radix.now.routes, prefix)
      ensures PassMarks(old(View(radix.now.tree)), View(radix.now.tree), node, prefix)
    {
      ghost var m := pool.View();
      radix.Replace(node, prefix, n);
      assert pool.View() == m;
    }

    /** The RIB part of changing a route. */
    method BeginChange(node: RadixNode, prefix: Path, n: nat) returns (ghost s: Snap)
      requires Valid() && prefix in radix.now.routes && prefix in radix.now.tree && node == radix.now.tree[prefix]
      modifies Repr()
      ensures Repr() == old(Repr()) && trie == old(trie)
      ensures pool.log.notes == old(pool.log.notes) && pool.View() == old(pool.View())
      ensures radix.now.routes == old(radix.now.routes)[prefix := n] && Behind(prefix) && Marked(prefix, node, s)
      ensures Moving(node, prefix, n, old(View(radix.now.tree)), s, trie)
    {
      assert Apart() && pool.Valid() && radix.Valid() && Compiled() && trie.rib == radix.now.routes by {
        assert Open(TopKey);
      }
      ghost var rib := radix.now.routes;
      radix.Sound();
      radix.Object(prefix);
      ChangeInRib(node, prefix, n);
      s := View(radix.now.tree);
      MovedByChange(rib, prefix, n);
      MovedUnder(rib, radix.now.routes, prefix, n);
    }

    /** poptrie_route_update for FIB index n: add the route if it is not there, change it if it is.  The source makes
        one descent of it. */
    method RouteUpdate(prefix: Path, n: nat) returns (ret: int)
      requires Valid() && |prefix| <= KEYLENGTH
      modifies Repr()
      ensures -1 <= ret <= 0 && fresh(Repr() - old(Repr())) && Refusals() >= old(Refusals())
      ensures prefix !in old(radix.now.routes) && Refusals() == old(Refusals()) ==>
                ret == 0 && Valid() && radix.now.routes == old(radix.now.routes)[prefix := n]
      ensures prefix in old(radix.now.routes) && old(radix.now.routes)[prefix] == n ==>
                ret == 0 && Valid() && radix.now.routes == old(radix.now.routes) && Refusals() == old(Refusals())
      ensures prefix in old(radix.now.routes) && old(radix.now.routes)[prefix] != n && Refusals() == old(Refusals()) ==>
                && ret == 0 && Sound() && radix.now.routes == old(radix.now.routes)[prefix := n]
                && (Valid() <==> !old(Lags(prefix)))
                && forall a :: |a| == KEYLENGTH ==>
                    Fwd(trie.rib, a) == Fwd(if old(LagsFor(prefix, a)) then old(radix.now.routes) else radix.now.routes,
                        a)
      ensures prefix !in old(radix.now.routes) ==>
                Told(old(pool.log.notes), pool.log.notes, Refusals() == old(Refusals()), pool, old(pool.View()),
                old(radix.now.routes)[prefix := n], [])
      ensures prefix in old(radix.now.routes) && old(radix.now.routes)[prefix] != n ==>
                ToldMoved(old(pool.log.notes), pool.log.notes, Refusals() == old(Refusals()), pool, old(pool.View()),
                old(trie), old(View(radix.now.tree)), old(radix.now.tree), prefix, radix.now.routes)
      ensures old(Spacious()) ==> Refusals() == old(Refusals())
      ensures |prefix| >= TOP ==> (ret == 0 <==> Refusals() == old(Refusals()))
    {
      var node, ext := Existing(prefix);
      if node == null {
        ret := RouteAdd(prefix, n);
      } else {
        ret := RouteChange(prefix, n);
      }
    }

    /** poptrie_route_del.  What the route owned goes to the next shorter one. */
    method RouteDelete(prefix: Path) returns (ret: int)
      requires Valid() && |prefix| <= KEYLENGTH
      modifies Repr()
      ensures -1 <= ret <= 0 && Repr() == old(Repr()) && Refusals() >= old(Refusals())
      ensures prefix !in old(radix.now.routes) ==>
                ret == -1 && Valid() && radix.now.routes == old(radix.now.routes) && Refusals() == old(Refusals())
      ensures prefix in old(radix.now.routes) && Refusals() == old(Refusals()) ==>
                && ret == 0 && Sound() && radix.now.routes == old(radix.now.routes) - {prefix}
                && (Valid() <==> Fwd(radix.now.routes, prefix) == old(radix.now.routes)[prefix] || !old(Lags(prefix)))
                && forall a :: |a| == KEYLENGTH ==>
                    Fwd(trie.rib, a) == Fwd(if old(LagsFor(prefix, a)) then old(radix.now.routes) else radix.now.routes,
                        a)
      ensures prefix in old(radix.now.routes) ==>
                ToldMoved(old(pool.log.notes), pool.log.notes, Refusals() == old(Refusals()), pool, old(pool.View()),
                old(trie), old(View(radix.now.tree)), old(radix.now.tree), prefix, radix.now.routes)
      ensures old(Spacious()) ==> Refusals() == old(Refusals())
      ensures |prefix| >= TOP ==> (ret == 0 <==> prefix in old(radix.now.routes) && Refusals() == old(Refusals()))
    {
      var node, ext := Existing(prefix);
      if node == null {
        return -1;
      }
      ghost var o, s0 := trie, View(radix.now.tree);
      ret := DeleteAt(node, ext, prefix);
      if Refusals() == old(Refusals()) {
        assert Open(KeptKey);
        LateIsLagging(o, s0, node, prefix, Fwd(radix.now.routes, prefix), radix.now.routes, trie.rib);
      }
    }

    method DeleteAt(node: RadixNode, ext: RadixNode?, prefix: Path) returns (ret: int)
      requires Valid() && prefix in radix.now.routes && prefix in radix.now.tree && node == radix.now.tree[prefix]
      requires ext == ExtAbove(radix.now.tree, radix.now.routes, prefix)
      modifies Repr()
      ensures -1 <= ret <= 0 && Repr() == old(Repr()) && Refusals() >= old(Refusals())
      ensures radix.now.routes == old(radix.now.routes) - {prefix}
      ensures Refusals() == old(Refusals()) ==>
                && ret == 0 && Sound()
                && (Valid() <==> Fwd(radix.now.routes, prefix) == old(radix.now.routes)[prefix] || !old(Lags(prefix)))
                && Mended(old(trie), old(View(radix.now.tree)), node, prefix, Fwd(radix.now.routes, prefix),
                    radix.now.routes, trie.rib)
                && Moved(old(radix.now.routes), radix.now.routes, prefix, Fwd(radix.now.routes, prefix))
      ensures ToldMoved(old(pool.log.notes), pool.log.notes, Refusals() == old(Refusals()), pool, old(pool.View()),
                old(trie), old(View(radix.now.tree)), old(radix.now.tree), prefix, radix.now.routes)
      ensures old(Spacious()) ==> Refusals() == old(Refusals())
      ensures |prefix| >= TOP ==> (ret == 0 <==> Refusals() == old(Refusals()))
    {
      Parts();
      ghost var o, s0 := trie, View(radix.now.tree);
      GapInIs(o, s0, radix.now.tree, prefix);
      ghost var s := BeginDelete(node, ext, prefix);
      ret := FinishMove(node, prefix, Fwd(radix.now.routes, prefix), s0, s, o);
      RoomToMove(old(pool.log.notes), pool.log.notes, Refusals() == old(Refusals()), pool, old(pool.View()), o, s0,
          radix.now.tree, prefix, radix.now.routes);
    }

    method DeleteInRib(node: RadixNode, ext: RadixNode?, prefix: Path)
      requires Apart() && pool.Valid() && radix.Valid() && Compiled() && prefix in radix.now.routes
      requires prefix in radix.now.tree && node == radix.now.tree[prefix]
      requires ext == ExtAbove(radix.now.tree, radix.now.routes, prefix)
      modifies radix, radix.now.tree.Values
      ensures Apart() && pool.Valid() && pool.View() == old(pool.View()) && dir[..] == old(dir[..]) && Compiled()
      ensures pool.log.notes == old(pool.log.notes) && radix.Repr() == old(radix.Repr()) && radix.Rooted()
      ensures radix.now.tree == old(radix.now.tree) && radix.now.routes == old(radix.now.routes) - {prefix}
      ensures PassDone(radix.now.tree, View(radix.now.tree), radix.now.routes, prefix)
      ensures PassMarks(old(View(radix.now.tree)), View(radix.now.tree), node, prefix)
    {
      ghost var m := pool.View();
      radix.Withdraw(node, ext, prefix);
      assert pool.View() == m;
    }

    /** The RIB part of deleting a route. */
    method BeginDelete(node: RadixNode, ext: RadixNode?, prefix: Path) returns (ghost s: Snap)
      requires Valid() && prefix in radix.now.routes && prefix in radix.now.tree && node == radix.now.tree[prefix]
      requires ext == ExtAbove(radix.now.tree, radix.now.routes, prefix)
      modifies Repr()
      ensures Repr() == old(Repr()) && trie == old(trie)
      ensures pool.log.notes == old(pool.log.notes) && pool.View() == old(pool.View())
      ensures radix.now.routes == old(radix.now.routes) - {prefix} && Behind(prefix) && Marked(prefix, node, s)
      ensures Moving(node, prefix, Fwd(radix.now.routes, prefix), old(View(radix.now.tree)), s, trie)
    {
      assert Apart() && pool.Valid() && radix.Valid() && Compiled() && trie.rib == radix.now.routes by {
        assert Open(TopKey);
      }
      ghost var rib := radix.now.routes;
      radix.Sound();
      radix.Object(prefix);
      DeleteInRib(node, ext, prefix);
      s := View(radix.now.tree);
      MovedByDelete(rib, prefix);
      MovedUnder(rib, radix.now.routes, prefix, Fwd(rib - {prefix}, prefix));
    }

    /** The route at prefix has been taken out or changed: what it owned is now forwarded to n. */
    ghost predicate Moving(node: RadixNode, prefix: Path, n: nat, s0: Snap, s: Snap, o: Version)
      reads radix
    {
      && Clean(radix.now.tree, s0, o.rib) && prefix in o.rib && prefix in radix.now.tree
          && node == radix.now.tree[prefix]
      && Moved(o.rib, radix.now.routes, prefix, n) && PassMarks(s0, s, node, prefix)
    }

    /** Bring the compiled trie up to date, as far as the marks tell. */
    method FinishMove(node: RadixNode, prefix: Path, ghost n: nat, ghost s0: Snap, ghost s: Snap, ghost o: Version)
      returns (ret: int)
      requires Behind(prefix) && Marked(prefix, node, s) && o == trie && Moving(node, prefix, n, s0, s, o)
      modifies Repr()
      ensures -1 <= ret <= 0 && Repr() == old(Repr()) && Refusals() >= old(Refusals()) && radix.now == old(radix.now)
      ensures Refusals() == old(Refusals()) ==>
                && ret == 0 && Sound() && (Valid() <==> n == o.rib[prefix] || !Gap(o.rib, s0, o, node, prefix))
                && Mended(o, s0, node, prefix, n, radix.now.routes, trie.rib)
      ensures ToldMoved(old(pool.log.notes), pool.log.notes, Refusals() == old(Refusals()), pool, old(pool.View()),
                o, s0, radix.now.tree, prefix, radix.now.routes)
      ensures |prefix| >= TOP ==> (ret == 0 <==> Refusals() == old(Refusals()))
    {
      ghost var aim := Blend(s, o, radix.now.routes, |prefix|);
      ghost var goal := Mixed(o.rib, radix.now.routes, iset a: Path | LateFor(o, s0, node, prefix, a), []);
      MovedMixed(radix.now.tree, s0, s, o, prefix, n, radix.now.routes);
      var ok;
      ret, ok := Finish(node, prefix, s, o);
      ToldSame(old(pool.log.notes), pool.log.notes, ok, pool, old(pool.View()), aim, goal, []);
      if ok {
        MovedResult(radix.now.tree, s0, s, o, prefix, n, radix.now.routes, trie.rib);
        if Alike(trie.rib, radix.now.routes) {
          MendedAlike(o, s0, node, prefix, n, radix.now.routes, trie.rib, radix.now.routes);
        }
        SettleIf(n == o.rib[prefix] || !Gap(o.rib, s0, o, node, prefix));
      }
    }
  }

  /** The direct pointing arrays. */
  method NewArrays() returns (dir: array<nat>, altdir: array<nat>)
    ensures fresh(dir) && fresh(altdir) && dir != altdir && dir.Length == altdir.Length == ENTRIES
    ensures forall i :: 0 <= i < ENTRIES ==> dir[i] == LEAF
  {
    dir := new nat[ENTRIES](_ => LEAF);
    altdir := new nat[ENTRIES];
  }

  /** The parts of a poptrie. */
  method NewParts(sz1: nat, sz0: nat) returns (pool: Pool, radix: Rib, dir: array<nat>, altdir: array<nat>)
    requires 0 < sz1 && 0 < sz0 && Pow2(sz1) <= LEAF && Pow2(sz0) <= EOL
    ensures pool.Valid() && fresh(pool.Repr()) && fresh(pool.log) && pool.nodes.Length <= LEAF
        && pool.log !in radix.Repr()
    ensures radix.Valid() && fresh(radix.Repr()) && radix.now.routes == map[]
    ensures fresh(dir) && fresh(altdir) && dir != altdir && dir.Length == altdir.Length == ENTRIES
    ensures dir !in pool.Repr() && altdir !in pool.Repr() && radix.Repr() !! pool.Repr() && dir !in radix.Repr()
        && altdir !in radix.Repr()
    ensures Trie(pool.View(), Version(map[], map[], map[])) && DirOK(dir[..], Version(map[], map[], map[]))
    ensures pool.Sized(sz1, sz0) && pool.View().AN == pool.View().AL == map[]
  {
    dir, altdir := NewArrays();
    radix := new Rib();
    ghost var before := radix.Repr() + {dir, altdir};
    pool := new Pool(sz1, sz0);
    assert before !! pool.Repr();
    pool.Sound();
    EmptyTrie(pool.View(), dir[..]);
  }

  /** poptrie_init: a poptrie of the given sizes without routes, with all its memory free. */
  method Init(sz1: nat, sz0: nat) returns (p: Poptrie)
    requires 0 < sz1 && 0 < sz0 && Pow2(sz1) <= LEAF && Pow2(sz0) <= EOL
    ensures p.Valid() && fresh(p.Repr()) && p.radix.now.routes == map[]
    ensures p.pool.Sized(sz1, sz0) && p.pool.View().AN == p.pool.View().AL == map[]
  {
    var pool, radix, dir, altdir := NewParts(sz1, sz0);
    ghost var m, d := pool.View(), dir[..];
    p := new Poptrie(pool, radix, dir, altdir);
    assert pool.View() == m && dir[..] == d;
    p.Started();
  }

  /** A first route is added to a new poptrie with at least 2^12 nodes and 2^12 leaves. */
  method FirstRoute(sz1: nat, sz0: nat, prefix: Path, n: nat) returns (p: Poptrie, ret: int)
    requires 12 <= sz1 && 12 <= sz0 && Pow2(sz1) <= LEAF && Pow2(sz0) <= EOL && |prefix| <= KEYLENGTH
    ensures ret == 0 && p.Valid() && p.radix.now.routes == map[prefix := n]
  {
    p := Init(sz1, sz0);
    RoomAtFirst(p.pool, sz1, sz0);
    ret := p.RouteAdd(prefix, n);
  }

  lemma {:induction false} EmptyTrie(m: Mem, dir: seq<nat>)
    requires MemOK(m) && m.AN == map[] && m.AL == map[] && |dir| == ENTRIES && forall i :: 0 <= i < ENTRIES ==>
        dir[i] == LEAF
    ensures Trie(m, Version(map[], map[], map[])) && DirOK(dir, Version(map[], map[], map[]))
  {
    var o: Version := Version(map[], map[], map[]);
    EmptyForest(m, map[]);
    ForestParts0(m);
    assert Old(m, o) by { assert Open(VersionKey) && Open(ParentKey); }
    assert Open(TrieKey);
    forall i | 0 <= i < ENTRIES ensures EntryOK(dir[i], o, TopOf(i)) {
      NothingBelow(map[], TopOf(i));
      NoRoutes(TopOf(i));
    }
  }

  lemma {:induction false} ForestParts0(m: Mem)
    requires Forest(m, m, map[], map[], map[])
    ensures Stored(m, map[], map[]) && Trees(m, map[], map[], map[])
  {
    assert Open(ForestKey);
  }

  lemma {:induction false} NoRoutes(p: Path)
    ensures Fwd(map[], p) == 0
  {
    if p != [] { NoRoutes(p[..|p| - 1]); }
  }
}
