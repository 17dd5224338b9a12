/** _update_subtree: follow a change of the radix tree below a prefix. */
module Subtree {
  import opened Bits
  import opened Forwarding
  import opened Nodes
  import opened Folding
  import opened Memory
  import opened Radix
  import opened Inodes
  import opened Versions
  import opened Succession
  import opened Exchange
  import opened Updates
  import opened Roots
  import opened Direct
  import opened TopEntries
  import opened Pools
  import opened Requests

  // ---------- the other entries ----------

  /** An entry beside v belongs to the new version as it did to the old one. */
  lemma {:induction false} OtherEntry(e: nat, o: Version, o': Version, rib: Routes, v: Path, p: Path, top: Path)
    requires EntryOK(e, o, top) && Exchanged(o, o', rib, p) && OnlyUnder(o.rib, rib, v) && |top| <= KEYLENGTH
    requires !Extends(top, p) && !Extends(top, v) && !Extends(v, top)
    ensures EntryOK(e, o', top)
  {
    OutsideAt(o.val, o'.val, p, top);
    OutsideAt(o.ix, o'.ix, p, top);
    SameBeside(o.rib, rib, v, top);
    SameConstant(o.rib, rib, top);
  }

  lemma {:induction false} OutsideAt<V>(a: map<Path, V>, b: map<Path, V>, p: Path, x: Path)
    requires Outside(b, p) == Outside(a, p) && !Extends(x, p)
    ensures x in a <==> x in b
    ensures x in a ==> a[x] == b[x]
  {
    assert x in Outside(a, p) <==> x in a;
    assert x in Outside(b, p) <==> x in b;
  }

  /** After entry i has been updated for a prefix v below it, all entries are right. */
  lemma {:induction false} OneUpdated(m: Mem, dir: seq<nat>, dir': seq<nat>, o: Version, o': Version, rib: Routes,
                                      v: Path, i: nat)
    requires DirOK(dir, o) && i < ENTRIES && |v| >= TOP && TopOf(i) == v[..TOP] && OnlyUnder(o.rib, rib, v)
    requires |dir'| == ENTRIES && dir' == dir[i := dir'[i]] && Updated(m, o, o', rib, v[..TOP], dir'[i])
    ensures DirOK(dir', o')
  {
    forall k | 0 <= k < ENTRIES ensures EntryOK(dir'[k], o', TopOf(k)) {
      if k != i {
        TopsDiffer(i, k, v);
        OtherEntry(dir[k], o, o', rib, v, v[..TOP], TopOf(k));
      }
    }
  }

  lemma {:induction false} TopsDiffer(i: nat, k: nat, v: Path)
    requires i < ENTRIES && k < ENTRIES && i != k && |v| >= TOP && TopOf(i) == v[..TOP]
    ensures !Extends(TopOf(k), v[..TOP]) && !Extends(TopOf(k), v) && !Extends(v, TopOf(k))
  {
    TopsApart(i, k, v);
    TopsApart(i, k, TopOf(k));
    assert Extends(v, v[..TOP]) && Extends(TopOf(k), TopOf(k));
    if Extends(TopOf(k), v) { ExtendsTrans(TopOf(k), v, v[..TOP]); }
  }

  /** After all entries below v have been replaced, all entries are right. */
  lemma {:induction false} AllUpdated(dir: seq<nat>, dir': seq<nat>, o: Version, rib: Routes, v: Path, nv: NodeMap,
                                      ni: Cells)
    requires DirOK(dir, o) && |v| <= TOP && OnlyUnder(o.rib, rib, v) && OthersKept(dir, dir', v)
        && EntriesNew(dir', rib, v, nv, ni)
    requires (forall x :: x in nv ==> Extends(x, v)) && ni.Keys <= nv.Keys
    ensures DirOK(dir', Next(o, rib, v, nv, ni))
  {
    NextExchanged(o, rib, v, nv, ni);
    forall k | 0 <= k < ENTRIES ensures EntryOK(dir'[k], Next(o, rib, v, nv, ni), TopOf(k)) {
      if Extends(TopOf(k), v) {
        NextEntry(o, rib, v, nv, ni, TopOf(k), dir'[k]);
      } else {
        ExtendsShort(v, TopOf(k));
        assert Extends(TopOf(k), TopOf(k));
        OtherEntry(dir[k], o, Next(o, rib, v, nv, ni), rib, v, v, TopOf(k));
      }
    }
  }

  // ---------- one entry ----------

  /** The radix tree has changed below v; the trie still holds the old version. */
  ghost predicate Stale(m: Mem, dir: seq<nat>, o: Version, rib: Routes, t: Tree, v: Path) {
    Trie(m, o) && DirOK(dir, o) && OnlyUnder(o.rib, rib, v) && v in t && |v| <= KEYLENGTH
  }

  lemma {:induction false} StartHere(m: Mem, dir: seq<nat>, o: Version, src: Routes, rib: Routes, t: Tree, v: Path)
    requires Stale(m, dir, o, rib, t, v) && |v| >= TOP && Shape(t, src)
    ensures var i := FirstEntry(v[..TOP]);
            && i < ENTRIES && TopOf(i) == v[..TOP] && EntryOK(dir[i], o, v[..TOP]) && v[..TOP] in t
            && Here(m, t, o, rib, v, TOP, t[v[..TOP]], if dir[i] >= LEAF then -1 else dir[i], [Frame(-1, -1)])
  {
    EntryOfTop(v[..TOP]);
    PrefixIn(t, src, v, TOP);
    TrieParts(m, o);
    var e := dir[FirstEntry(v[..TOP])];
    if e < LEAF { StoredAt(m, o.val, o.ix, v[..TOP]); }
  }

  /** The update of a prefix at or below the direct pointing level. */
  method UpdateOne(pool: Pool, dir: array<nat>, radix: RadixNode?, prefix: Path, ghost t: Tree, ghost o: Version,
                   ghost src: Routes, ghost rib: Routes)
    returns (ret: int, ghost o': Version)
    requires pool.Valid() && pool.nodes.Length <= LEAF && dir !in pool.Repr() && dir.Length == ENTRIES
    requires Source(t, src, rib, o, |prefix|) && t.Values !! pool.Repr()
    requires Stale(pool.View(), dir[..], o, rib, t, prefix) && |prefix| >= TOP
    requires radix == if [] in t then t[[]] else null
    modifies pool.Repr(), pool.log, dir
    ensures pool.Valid() && -1 <= ret <= 0
    ensures |pool.log.notes| == old(|pool.log.notes|) + if ret < 0 then 1 else 0
    ensures Told(old(pool.log.notes), pool.log.notes, ret >= 0, pool, old(pool.View()), rib, prefix[..TOP])
    ensures ret == 0 ==> Trie(pool.View(), o') && o'.rib == rib && DirOK(dir[..], o')
  {
    ghost var d0 := dir[..];
    var bits := prefix[..TOP];
    var idx := FirstEntry(bits);
    StartHere(pool.View(), dir[..], o, src, rib, t, prefix);
    assert [] + bits[..0] == [] && [] + bits == bits;
    var ntnode := NextBlock(radix, bits, 0, t, src, []);
    var inode := if dir[idx] >= LEAF then -1 else dir[idx];
    if |prefix| == TOP {
      assert prefix == bits;
      ret, o' := UpdatePart(pool, dir, idx, ntnode, inode, [Frame(-1, -1)], t, o, src, rib, prefix, TOP);
    } else {
      ret, o' := DescendAndUpdate(pool, dir, idx, ntnode, inode, [Frame(-1, -1)], prefix, |prefix|, TOP, t, o, src,
          rib);
    }
    if ret == 0 {
      OneUpdated(pool.View(), d0, dir[..], o, o', rib, prefix, idx);
    }
  }

  // ---------- several entries ----------

  method CopyEntries(dir: array<nat>, altdir: array<nat>)
    requires dir.Length == altdir.Length == ENTRIES && dir != altdir
    modifies altdir
    ensures altdir[..] == dir[..]
  {
    for i := 0 to ENTRIES
      invariant forall k :: 0 <= k < i ==> altdir[k] == dir[k]
    {
      altdir[i] := dir[i];
    }
  }

  lemma {:induction false} ManyReady(m0: Mem, m: Mem, dir: seq<nat>, altdir: seq<nat>, t: Tree, o: Version, rib: Routes,
                                     v: Path, nv: NodeMap, ni: Cells)
    requires Stale(m0, dir, o, rib, t, v) && |v| < TOP && Shoots(m0, m, rib, v, nv, ni)
    requires EntriesNew(altdir, rib, v, nv, ni) && OthersKept(dir, altdir, v)
    ensures Ready(m, o, rib, v, nv, ni) && Replaced(altdir, dir, o, rib, v, nv, ni)
        && DirOK(altdir, Next(o, rib, v, nv, ni))
  {
    ReplaceTops(m0, m, o, rib, v, nv, ni);
    ShootParts(m0, m, rib, v, nv, ni);
    AllUpdated(dir, altdir, o, rib, v, nv, ni);
  }

  /** The radix node at prefix. */
  method BlockAt(radix: RadixNode?, prefix: Path, ghost t: Tree, ghost src: Routes) returns (node: RadixNode?)
    requires RibOK(t, src) && radix == if [] in t then t[[]] else null
    ensures node == if prefix in t then t[prefix] else null
  {
    assert [] + prefix[..0] == [] && [] + prefix == prefix;
    node := NextBlock(radix, prefix, 0, t, src, []);
  }

  /** The update of a prefix above the direct pointing level, up to the point where the arrays are swapped. */
  method UpdateMany(pool: Pool, dir: array<nat>, altdir: array<nat>, radix: RadixNode?, prefix: Path,
                    ghost t: Tree, ghost o: Version, ghost src: Routes, ghost rib: Routes)
    returns (ret: int, ok: bool, ghost nv: NodeMap, ghost ni: Cells)
    requires pool.Valid() && pool.nodes.Length <= LEAF && dir !in pool.Repr() && altdir !in pool.Repr() && dir != altdir
    requires dir.Length == altdir.Length == ENTRIES && |prefix| < TOP
    requires Source(t, src, rib, o, |prefix|) && t.Values !! pool.Repr()
    requires Stale(pool.View(), dir[..], o, rib, t, prefix)
    requires radix == if [] in t then t[[]] else null
    modifies pool.Repr(), pool.log, altdir
    ensures pool.Valid() && -1 <= ret <= 0
    ensures |pool.log.notes| >= old(|pool.log.notes|) && (ok <==> |pool.log.notes| == old(|pool.log.notes|))
    ensures Told(old(pool.log.notes), pool.log.notes, ok, pool, old(pool.View()), rib, prefix)
    ensures ok ==>
              && ret == 0
              && Ready(pool.View(), o, rib, prefix, nv, ni)
              && Replaced(altdir[..], dir[..], o, rib, prefix, nv, ni)
              && DirOK(altdir[..], Next(o, rib, prefix, nv, ni))
  {
    CopyEntries(dir, altdir);
    ret, ok, nv, ni := CompileMany(pool, dir, altdir, radix, prefix, t, o, src, rib);
  }

  method CompileMany(pool: Pool, dir: array<nat>, altdir: array<nat>, radix: RadixNode?, prefix: Path,
                    ghost t: Tree, ghost o: Version, ghost src: Routes, ghost rib: Routes)
    returns (ret: int, ok: bool, ghost nv: NodeMap, ghost ni: Cells)
    requires pool.Valid() && pool.nodes.Length <= LEAF && dir !in pool.Repr() && altdir !in pool.Repr() && dir != altdir
    requires dir.Length == altdir.Length == ENTRIES && |prefix| < TOP && altdir[..] == dir[..]
    requires Source(t, src, rib, o, |prefix|) && t.Values !! pool.Repr()
    requires Stale(pool.View(), dir[..], o, rib, t, prefix)
    requires radix == if [] in t then t[[]] else null
    modifies pool.Repr(), pool.log, altdir
    ensures pool.Valid() && -1 <= ret <= 0
    ensures |pool.log.notes| >= old(|pool.log.notes|) && (ok <==> |pool.log.notes| == old(|pool.log.notes|))
    ensures Told(old(pool.log.notes), pool.log.notes, ok, pool, old(pool.View()), rib, prefix)
    ensures ok ==>
              && ret == 0
              && Ready(pool.View(), o, rib, prefix, nv, ni)
              && Replaced(altdir[..], dir[..], o, rib, prefix, nv, ni)
              && DirOK(altdir[..], Next(o, rib, prefix, nv, ni))
  {
    ghost var m0 := pool.View();
    assert Old(m0, o) by { assert Open(TrieKey); }
    var node := BlockAt(radix, prefix, t, src);
    ret, ok, nv, ni := UpdateDp2(pool, dir, altdir, node, prefix, t, o, src, rib, |prefix|);
    if ok {
      ManyReady(m0, pool.View(), dir[..], altdir[..], t, o, rib, prefix, nv, ni);
    }
  }

  /** The old entries are cleaned after the swap. */
  method CleanMany(pool: Pool, dir: array<nat>, altdir: array<nat>, prefix: Path, ghost o: Version, ghost rib: Routes,
                   ghost nv: NodeMap, ghost ni: Cells)
    requires pool.Valid() && dir !in pool.Repr() && altdir !in pool.Repr() && |prefix| < TOP
    requires Ready(pool.View(), o, rib, prefix, nv, ni)
    requires Replaced(dir[..], altdir[..], o, rib, prefix, nv, ni)
    modifies pool.Repr()
    ensures pool.Valid() && Trie(pool.View(), Next(o, rib, prefix, nv, ni))
  {
    ghost var m := pool.View();
    var idx, n := FirstEntry(prefix), Pow2(TOP - |prefix|);
    Succeeds(m, o, rib, prefix, nv, ni);
    CleanEntries(pool, dir[..], altdir[..], idx, n, prefix, m, o, rib, nv, ni);
  }
}
