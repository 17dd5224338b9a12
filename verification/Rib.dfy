/** The RIB with its four operations. */
module Ribs {
  // Each of them leaves the cached ancestors right and all marks clear.

  import opened Bits
  import opened Forwarding
  import opened Folding
  import opened Radix
  import opened RadixUpdate
  import opened RibGrow
  import opened RibOps
  import opened Marking

  datatype ContentsWith<T, R> = Contents(tree: T, routes: R)

  class Rib {
    var root: RadixNode?

    /** The objects by path, and the live routes. */
    ghost var now: ContentsWith<Tree, Routes>

    ghost function Repr(): set<object>
      reads this
    {
      {this} + now.tree.Values
    }

    ghost predicate Rooted()
      reads this
    {
      && root == (if [] in now.tree then now.tree[[]] else null)
      && (root == null ==> now.tree == map[])
    }

    ghost predicate Valid()
      reads Repr()
    {
      forall k: Key :: Open(k) && k.RibKey? ==> Rooted() && Clean(now.tree, View(now.tree), now.routes)
    }

    lemma {:induction false} Sound()
      requires Valid()
      ensures Rooted() && Clean(now.tree, View(now.tree), now.routes)
    {
      assert Open(RibKey);
    }

    /** What the object at p says. */
    lemma {:induction false} Object(p: Path)
      requires Valid() && p in now.tree
      ensures |p| <= KEYLENGTH && RouteAt(now.routes, p, FieldsOf(now.tree[p]))
    {
      Sound();
      CleanAt(now.tree, now.routes, p);
    }

    constructor ()
      ensures Valid() && fresh(Repr()) && now.routes == map[]
    {
      root := null;
      now := Contents(map[], map[]);
      new;
      NoTree(View(map[]));
    }

    ghost method SetTree(t: Tree)
      modifies this
      ensures root == old(root) && now == old(now).(tree := t) && View(t) == old(View(t))
    {
      now := now.(tree := t);
    }

    ghost method SetRoutes(r: Routes)
      modifies this
      ensures root == old(root) && now == old(now).(routes := r) && View(now.tree) == old(View(now.tree))
    {
      now := now.(routes := r);
    }

    /** poptrie_rib_lookup: the FIB index of the longest match. */
    method Lookup(addr: Path) returns (nh: nat)
      requires Valid() && |addr| == KEYLENGTH
      ensures nh == Fwd(now.routes, addr)
    {
      Sound();
      assert addr[..0] == [];
      nh := RibLookup(root, addr, 0, null, now.tree, now.routes);
    }

    /** The first object of the tree. */
    method EnsureRoot()
      requires Valid()
      modifies this
      ensures Valid() && root != null && now.routes == old(now.routes) && fresh(Repr() - old(Repr()))
      ensures SubTree(old(now.tree), now.tree)
    {
      Sound();
      if root == null {
        var node := new RadixNode(null, []);
        ghost var t: Tree := map[[] := node];
        FirstNode(t, View(t), now.routes);
        root := node;
        now := now.(tree := t);
        assert View(t) == map[[] := FieldsOf(node)];
      }
    }

    /** The object at prefix, created with those on the way to it if need be. */
    method Locate(prefix: Path) returns (node: RadixNode, ext: RadixNode?)
      requires Valid() && |prefix| <= KEYLENGTH
      modifies Repr()
      ensures Valid() && now.routes == old(now.routes) && fresh(Repr() - old(Repr()))
      ensures prefix in now.tree && node == now.tree[prefix] && ext == ExtAbove(now.tree, now.routes, prefix)
      ensures SubTree(old(now.tree), now.tree)
    {
      Sound();
      EnsureRoot();
      node, ext := LocateFrom(prefix);
    }

    method LocateFrom(prefix: Path) returns (node: RadixNode, ext: RadixNode?)
      requires Valid() && root != null && |prefix| <= KEYLENGTH
      modifies Repr()
      ensures Valid() && now.routes == old(now.routes) && fresh(Repr() - old(Repr()))
      ensures prefix in now.tree && node == now.tree[prefix] && ext == ExtAbove(now.tree, now.routes, prefix)
      ensures SubTree(old(now.tree), now.tree)
    {
      Sound();
      assert prefix[..0] == [];
      ghost var t;
      node, ext, t := Reach(root, prefix, 0, null, now.tree, now.routes);
      SetTree(t);
    }

    // ---------- adding ----------

    /** _route_add up to the update of the compiled trie: create the object, make it a route, and mark. */
    method BeginAdd(prefix: Path, n: nat) returns (ret: int, node: RadixNode)
      requires Valid() && |prefix| <= KEYLENGTH
      modifies Repr()
      ensures ret == (if prefix in old(now.routes) then -1 else 0) && fresh(Repr() - old(Repr()))
      ensures ret == -1 ==> Valid() && now.routes == old(now.routes)
      ensures ret == 0 ==>
                && Rooted() && now.routes == old(now.routes)[prefix := n] && prefix in now.tree
                    && node == now.tree[prefix]
                && Added(now.tree, View(now.tree), old(now.routes), prefix, n)
    {
      ghost var rib := now.routes;
      var ext;
      node, ext := Locate(prefix);
      Object(prefix);
      if node.valid {
        return -1, node;
      }
      AddAt(node, prefix, n);
      ret := 0;
    }

    method AddAt(node: RadixNode, prefix: Path, n: nat)
      requires Valid() && prefix in now.tree && node == now.tree[prefix] && prefix !in now.routes
      modifies this, now.tree.Values
      ensures Rooted() && now.tree == old(now.tree) && now.routes == old(now.routes)[prefix := n]
      ensures Added(now.tree, View(now.tree), old(now.routes), prefix, n)
    {
      Sound();
      AddAtNode(node, now.tree, now.routes, prefix, n);
      SetRoutes(now.routes[prefix := n]);
    }

    /** _clear_mark, after which the next update can begin. */
    method EndUpdate(node: RadixNode, ghost prefix: Path)
      requires Rooted() && PassDone(now.tree, View(now.tree), now.routes, prefix) && node == now.tree[prefix]
      modifies now.tree.Values
      ensures Valid() && now == old(now)
    {
      ClearAll(node, now.tree, now.routes, prefix);
    }

    /** Add a route; -1 if it exists. */
    method Add(prefix: Path, n: nat) returns (ret: int)
      requires Valid() && |prefix| <= KEYLENGTH
      modifies Repr()
      ensures Valid() && fresh(Repr() - old(Repr()))
      ensures ret == (if prefix in old(now.routes) then -1 else 0)
      ensures now.routes == if ret == 0 then old(now.routes)[prefix := n] else old(now.routes)
    {
      Sound();
      ghost var rib := now.routes;
      var node;
      ret, node := BeginAdd(prefix, n);
      if ret == 0 {
        AddedDone(now.tree, View(now.tree), rib, prefix, n);
        EndUpdate(node, prefix);
      }
    }

    // ---------- changing ----------

    method ChangeAt(node: RadixNode, prefix: Path, n: nat)
      requires Valid() && prefix in now.tree && node == now.tree[prefix] && prefix in now.routes
      modifies this, now.tree.Values
      ensures Valid() && now.tree == old(now.tree) && now.routes == old(now.routes)[prefix := n]
    {
      Object(prefix);
      if node.nexthop != n {
        Replace(node, prefix, n);
        EndUpdate(node, prefix);
      } else {
        assert now.routes[prefix := n] == now.routes;
      }
    }

    method Replace(node: RadixNode, prefix: Path, n: nat)
      requires Valid() && prefix in now.tree && node == now.tree[prefix] && prefix in now.routes
      modifies this, now.tree.Values
      ensures Rooted() && now.tree == old(now.tree) && now.routes == old(now.routes)[prefix := n]
      ensures PassDone(now.tree, View(now.tree), now.routes, prefix)
      ensures PassMarks(old(View(now.tree)), View(now.tree), now.tree[prefix], prefix)
    {
      Sound();
      MarkChanged(node, now.tree, now.routes, prefix, n);
      SetRoutes(now.routes[prefix := n]);
    }

    /** The search of _route_change and _route_del: the object of a route, and the route above it. */
    method Find(prefix: Path) returns (node: RadixNode?, ext: RadixNode?)
      requires Valid() && |prefix| <= KEYLENGTH
      ensures node != null <==> prefix in now.routes
      ensures node != null ==>
                && prefix in now.tree && node == now.tree[prefix] && node.nexthop == now.routes[prefix]
                && ext == ExtAbove(now.tree, now.routes, prefix)
    {
      Sound();
      assert prefix[..0] == [];
      node, ext := Seek(root, prefix, 0, null, now.tree, now.routes);
      RoutesHaveNodes(now.tree, now.routes, prefix);
      if node != null {
        CleanAt(now.tree, now.routes, prefix);
        if !node.valid {
          node := null;
        }
      }
    }

    /** Change a route, returning its old FIB index; -1 if it does not exist. */
    method Change(prefix: Path, n: nat) returns (ret: int, was: nat)
      requires Valid() && |prefix| <= KEYLENGTH
      modifies Repr()
      ensures Valid() && now.tree == old(now.tree)
      ensures ret == (if prefix in old(now.routes) then 0 else -1) && (ret == 0 ==> was == old(now.routes)[prefix])
      ensures now.routes == if ret == 0 then old(now.routes)[prefix := n] else old(now.routes)
    {
      var node, ext := Find(prefix);
      if node == null {
        return -1, 0;
      }
      was := node.nexthop;
      ChangeAt(node, prefix, n);
      ret := 0;
    }

    /** Add or change a route, returning its old FIB index if there was one. */
    method Update(prefix: Path, n: nat) returns (existed: bool, was: nat)
      requires Valid() && |prefix| <= KEYLENGTH
      modifies Repr()
      ensures Valid() && fresh(Repr() - old(Repr()))
      ensures existed == (prefix in old(now.routes)) && (existed ==> was == old(now.routes)[prefix])
      ensures now.routes == old(now.routes)[prefix := n]
    {
      ghost var rib := now.routes;
      var node, ext := Locate(prefix);
      Object(prefix);
      existed, was := node.valid, node.nexthop;
      if existed {
        ChangeAt(node, prefix, n);
      } else {
        AddAt(node, prefix, n);
        AddedDone(now.tree, View(now.tree), rib, prefix, n);
        EndUpdate(node, prefix);
      }
    }

    // ---------- deleting ----------

    /** Delete a route, returning its FIB index; -1 if it does not exist. */
    method Delete(prefix: Path) returns (ret: int, was: nat)
      requires Valid() && |prefix| <= KEYLENGTH
      modifies Repr()
      ensures Valid() && now.tree == old(now.tree)
      ensures ret == (if prefix in old(now.routes) then 0 else -1) && (ret == 0 ==> was == old(now.routes)[prefix])
      ensures now.routes == if ret == 0 then old(now.routes) - {prefix} else old(now.routes)
    {
      var node, ext := Find(prefix);
      if node == null {
        return -1, 0;
      }
      was := node.nexthop;
      DeleteAt(node, ext, prefix);
      ret := 0;
    }

    method DeleteAt(node: RadixNode, ext: RadixNode?, prefix: Path)
      requires Valid() && prefix in now.tree && node == now.tree[prefix] && prefix in now.routes
      requires ext == ExtAbove(now.tree, now.routes, prefix)
      modifies this, now.tree.Values
      ensures Valid() && now.tree == old(now.tree) && now.routes == old(now.routes) - {prefix}
    {
      Withdraw(node, ext, prefix);
      EndUpdate(node, prefix);
    }

    method Withdraw(node: RadixNode, ext: RadixNode?, prefix: Path)
      requires Valid() && prefix in now.tree && node == now.tree[prefix] && prefix in now.routes
      requires ext == ExtAbove(now.tree, now.routes, prefix)
      modifies this, now.tree.Values
      ensures Rooted() && now.tree == old(now.tree) && now.routes == old(now.routes) - {prefix}
      ensures PassDone(now.tree, View(now.tree), now.routes, prefix)
      ensures PassMarks(old(View(now.tree)), View(now.tree), now.tree[prefix], prefix)
    {
      Sound();
      MarkDeleted(node, ext, now.tree, now.routes, prefix);
      SetRoutes(now.routes - {prefix});
    }
  }

  lemma {:induction false} AddedDone(t: Tree, s: Snap, rib: Routes, v: Path, n: nat)
    requires Added(t, s, rib, v, n)
    ensures PassDone(t, s, rib[v := n], v)
  {
    AddMarksConnected(t, s, rib, rib[v := n], v);
  }

  lemma {:induction false} RoutesHaveNodes(t: Tree, rib: Routes, p: Path)
    requires Shape(t, rib)
    ensures p in rib ==> p in t
  {
    assert Open(ShapeKey);
  }

  lemma {:induction false} NoTree(s: Snap)
    requires s == map[]
    ensures Clean(map[], s, map[])
  {
  }

  /** A tree of one object. */
  lemma {:induction false} FirstNode(t: Tree, s: Snap, rib: Routes)
    requires t.Keys == {[]} && s.Keys == {[]} && t[[]].path == [] && Fresh(s[[]], null)
    requires Shape(map[], rib)
    ensures Clean(t, s, rib)
  {
    assert rib == map[] by { assert Open(ShapeKey); }
  }
}
