/** The node and leaf arrays with the allocators that manage them. */
module Pools {
  import opened Bits
  import opened Tiling
  import opened Nodes
  import opened Folding
  import opened Memory
  import opened Compile
  import opened FreeLists
  import B = Buddies

  datatype Labels<O> = Labels(ON: O, OL: O)

  /** A refused request for a block of some order, in the node array or in the leaf array, and the memory then. */
  datatype NoteWith<M> = Note(mem: M, order: nat, nodes: bool)
  type Note = NoteWith<Mem>

  /** The requests for memory that the allocators have refused so far. */
  class Log {
    ghost var notes: seq<Note>

    constructor ()
      ensures notes == []
    {
      notes := [];
    }
  }

  /** There is no room for a block of order k. */
  ghost predicate NoRoom(taken: Ranges, buddy: B.Buddy, k: nat) {
    k >= buddy.level || forall a: nat :: !Available(taken, buddy.sz, a, k)
  }

  /** Taking more makes no room. */
  lemma {:induction false} NoRoomLater(m: Mem, m': Mem, buddy: B.Buddy, k: nat)
    requires Grown(m, m') && NoRoom(m.AN, buddy, k)
    ensures NoRoom(m'.AN, buddy, k)
  {
    assert Open(GrownKey);
    forall a: nat | Available(m'.AN, buddy.sz, a, k) ensures Available(m.AN, buddy.sz, a, k) {
    }
  }

  method NewBuddies(sz1: nat, sz0: nat) returns (cnodes: B.Buddy, cleaves: B.Buddy)
    requires 0 < sz1 && 0 < sz0 && Pow2(sz1) <= EOL && Pow2(sz0) <= EOL
    ensures cnodes.Valid() && cleaves.Valid() && fresh(cnodes.Repr()) && fresh(cleaves.Repr())
    ensures cnodes.Repr() !! cleaves.Repr() && cnodes.sz == cnodes.level == sz1 && cleaves.sz == cleaves.level == sz0
    ensures cnodes.Allocated() == cleaves.Allocated() == map[]
  {
    cnodes := new B.Buddy.New(sz1, sz1);
    cleaves := new B.Buddy.New(sz0, sz0);
  }

  class Pool {
    const nodes: array<Node>
    const leaves: array<nat>
    const cnodes: B.Buddy
    const cleaves: B.Buddy
    const log: Log

    /** What each allocated block is used for. */
    ghost var labels: Labels<Owners>

    ghost function Repr(): (r: set<object>)
      ensures log !in r
    {
      {this, nodes, leaves} + cnodes.Repr() + cleaves.Repr()
    }

    ghost predicate Apart() {
      && cnodes.Repr() !! cleaves.Repr() && leaves !in cnodes.Repr() + cleaves.Repr()
      && nodes.Length == Pow2(cnodes.sz) && leaves.Length == Pow2(cleaves.sz)
    }

    ghost function View(): Mem
      reads this, nodes, leaves, cnodes, cleaves
    {
      Mem(nodes[..], leaves[..], cnodes.Allocated(), cleaves.Allocated(), labels.ON, labels.OL)
    }

    ghost predicate Valid()
      reads Repr()
    {
      forall k: Key :: Open(k) && k.PoolKey? ==> Apart() && cnodes.Valid() && cleaves.Valid() && MemOK(View())
    }

    /** There are 2^sz1 node cells and 2^sz0 leaf cells, with allocators of all orders below. */
    ghost predicate Sized(sz1: nat, sz0: nat) {
      && nodes.Length == Pow2(sz1) && cnodes.sz == cnodes.level == sz1
      && leaves.Length == Pow2(sz0) && cleaves.sz == cleaves.level == sz0
    }

    constructor (sz1: nat, sz0: nat)
      requires 0 < sz1 && 0 < sz0 && Pow2(sz1) <= EOL && Pow2(sz0) <= EOL
      ensures Valid() && fresh(Repr()) && fresh(log) && Sized(sz1, sz0)
      ensures View().AN == View().AL == map[]
    {
      var b1, b0 := NewBuddies(sz1, sz0);
      cnodes, cleaves := b1, b0;
      nodes := new Node[Pow2(sz1)](_ => Node([], [], -1, -1));
      leaves := new nat[Pow2(sz0)];
      log := new Log();
      labels := Labels(map[], map[]);
      new;
      assert fresh(cnodes.Repr()) && fresh(cleaves.Repr()) && fresh({this, nodes, leaves});
      Starts();
    }

    lemma {:induction false} Starts()
      requires Apart() && cnodes.Valid() && cleaves.Valid() && View().AN == View().AL == map[]
          && labels == Labels(map[], map[])
      ensures Valid()
    {
      NoBlocks(View());
    }

    lemma {:induction false} Sound()
      requires Valid()
      ensures MemOK(View()) && |View().N| == nodes.Length && |View().L| == leaves.Length
    {
      assert Open(PoolKey);
    }

    /** Write over the cell of a node. */
    method SetNode(c: nat, n: Node)
      requires Valid() && c < nodes.Length
      modifies nodes
      ensures Valid() && c < |old(View()).N| && View() == old(View()).(N := old(View()).N[c := n])
    {
      assert Open(PoolKey);
      ghost var m := View();
      nodes[c] := n;
      assert View() == m.(N := m.N[c := n]);
      assert MemOK(View()) by { assert Open(MemOKKey); }
    }

    /** buddy_alloc2 on the node array. */
    method AllocNodes(k: nat, ghost o: Owner) returns (b: int)
      requires Valid() && (o.Root? ==> k == 0 && |o.p| == TOP)
      modifies Repr(), log
      ensures Valid() && b >= -1
      ensures b < 0 <==> NoRoom(old(View()).AN, cnodes, k)
      ensures log.notes == old(log.notes) + if b < 0 then [Note(old(View()), k, true)] else []
      ensures b < 0 ==> View() == old(View()) && MemOK(View())
      ensures b >= 0 ==> FreeBlock(old(View()).AN, |old(View()).N|, b, k)
      ensures b >= 0 ==> View() == TakenN(old(View()), b, k, o)
    {
      assert Open(PoolKey);
      ghost var m := View();
      b := cnodes.Alloc(k);
      if b < 0 {
        assert View() == m;
        log.notes := log.notes + [Note(m, k, true)];
      } else {
        TakeN(m, cnodes.sz, b, k, o);
        labels := labels.(ON := labels.ON[b := o]);
        assert View() == TakenN(m, b, k, o);
      }
    }

    /** buddy_alloc2 on the leaf array. */
    method AllocLeaves(k: nat, ghost o: Owner) returns (b: int)
      requires Valid()
      modifies Repr(), log
      ensures Valid() && b >= -1
      ensures b < 0 <==> NoRoom(old(View()).AL, cleaves, k)
      ensures log.notes == old(log.notes) + if b < 0 then [Note(old(View()), k, false)] else []
      ensures b < 0 ==> View() == old(View()) && MemOK(View())
      ensures b >= 0 ==> FreeBlock(old(View()).AL, |old(View()).L|, b, k)
      ensures b >= 0 ==> View() == TakenL(old(View()), b, k, o)
    {
      assert Open(PoolKey);
      ghost var m := View();
      b := cleaves.Alloc(k);
      if b < 0 {
        assert View() == m;
        log.notes := log.notes + [Note(m, k, false)];
      } else {
        TakeL(m, cleaves.sz, b, k, o);
        labels := labels.(OL := labels.OL[b := o]);
        assert View() == TakenL(m, b, k, o);
      }
    }

    /** buddy_free2 on the node array. */
    method FreeNodes(b: nat)
      requires Valid() && b in View().AN
      modifies Repr()
      ensures Valid() && View() == DropN(old(View()), b)
    {
      assert Open(PoolKey);
      ghost var m := View();
      cnodes.Free(b);
      DropOK(m, b);
      labels := labels.(ON := labels.ON - {b});
      assert View() == DropN(m, b);
    }

    /** buddy_free2 on the leaf array. */
    method FreeLeaves(b: nat)
      requires Valid() && b in View().AL
      modifies Repr()
      ensures Valid() && View() == DropL(old(View()), b)
    {
      assert Open(PoolKey);
      ghost var m := View();
      cleaves.Free(b);
      DropOK(m, b);
      labels := labels.(OL := labels.OL - {b});
      assert View() == DropL(m, b);
    }

    /** Copy the children of the slots whose bit is set to the cells from b on. */
    method PutChildren(b: int, vec: Vec, kids: seq<Node>)
      requires Valid() && |vec| == |kids| && (Count(vec) > 0 ==> 0 <= b && b + Count(vec) <= nodes.Length)
      modifies nodes
      ensures Valid()
      ensures View() == if Count(vec) == 0 then old(View())
          else old(View()).(N := Write(old(View()).N, b, Pick(vec, kids)))
    {
      assert Open(PoolKey);
      ghost var m := View();
      PutLoop(b, vec, kids);
      if Count(vec) == 0 {
        assert View() == m;
      } else {
        var m' := m.(N := Write(m.N, b, Pick(vec, kids)));
        assert View() == m';
        assert MemOK(m') by { assert Open(MemOKKey); }
      }
    }

    method PutLoop(b: int, vec: Vec, kids: seq<Node>)
      requires |vec| == |kids| && (Count(vec) > 0 ==> 0 <= b && b + Count(vec) <= nodes.Length)
      modifies nodes
      ensures Count(vec) == 0 ==> nodes[..] == old(nodes[..])
      ensures Count(vec) > 0 ==> nodes[..] == Write(old(nodes[..]), b, Pick(vec, kids))
    {
      ghost var s := nodes[..];
      var num := 0;
      for i := 0 to |vec|
        invariant num == Count(vec[..i]) <= Count(vec)
        invariant num == 0 ==> nodes[..] == s
        invariant num > 0 ==> nodes[..] == Write(s, b, Pick(vec[..i], kids[..i]))
      {
        PickStep(vec, kids, i);
        if vec[i] {
          WriteMore(s, b, Pick(vec[..i], kids[..i]), kids[i]);
          nodes[b + num] := kids[i];
          num := num + 1;
        }
      }
      assert vec[..|vec|] == vec && kids[..|vec|] == kids;
    }

    method PutLeaves(b: int, xs: seq<nat>)
      requires Valid() && (xs != [] ==> 0 <= b && b + |xs| <= leaves.Length)
      modifies leaves
      ensures Valid()
      ensures View() == if xs == [] then old(View()) else old(View()).(L := Write(old(View()).L, b, xs))
    {
      assert Open(PoolKey);
      ghost var m := View();
      for i := 0 to |xs|
        invariant i == 0 ==> leaves[..] == m.L
        invariant i > 0 ==> leaves[..] == Write(m.L, b, xs[..i])
      {
        WriteMore(m.L, b, xs[..i], xs[i]);
        assert xs[..i] + [xs[i]] == xs[..i + 1];
        leaves[b + i] := xs[i];
      }
      assert xs[..|xs|] == xs;
      if xs == [] {
        assert View() == m;
      } else {
        var m' := m.(L := Write(m.L, b, xs));
        assert View() == m';
        assert MemOK(m') by { assert Open(MemOKKey); }
      }
    }
  }

  lemma {:induction false} WriteMore<T>(s: seq<T>, b: nat, xs: seq<T>, x: T)
    requires b + |xs| < |s|
    ensures Write(s, b, xs + [x]) == Write(s, b, xs)[b + |xs| := x]
    ensures xs == [] ==> Write(s, b, xs) == s
  {
    var r, r' := Write(s, b, xs), Write(s, b, xs + [x]);
    forall c | 0 <= c < |s| ensures r'[c] == r[b + |xs| := x][c] {
      if b <= c < b + |xs| {
        assert r[b..b + |xs|][c - b] == r[c] && r'[b..b + |xs| + 1][c - b] == r'[c];
      } else if c == b + |xs| {
        assert r'[b..b + |xs| + 1][c - b] == r'[c];
      }
    }
  }

  lemma {:induction false} PickStep(vec: Vec, kids: seq<Node>, i: nat)
    requires |vec| == |kids| && i < |vec|
    ensures Count(vec[..i + 1]) == Count(vec[..i]) + (if vec[i] then 1 else 0) <= Count(vec)
    ensures Pick(vec[..i + 1], kids[..i + 1]) == Pick(vec[..i], kids[..i]) + if vec[i] then [kids[i]] else []
  {
    CountPrefix(vec, i);
    CountMonotone(vec, i + 1, |vec|);
    assert vec[..|vec|] == vec;
    assert vec[..i + 1][..i] == vec[..i] && kids[..i + 1][..i] == kids[..i];
  }

  ghost function DropN(m: Mem, b: nat): Mem {
    m.(AN := m.AN - {b}, ON := m.ON - {b})
  }

  lemma {:induction false} DropOK(m: Mem, b: nat)
    requires MemOK(m)
    ensures MemOK(DropN(m, b)) && MemOK(DropL(m, b))
  {
    assert Open(MemOKKey);
  }

  ghost function TakenL(m: Mem, b: nat, k: nat, o: Owner): Mem {
    m.(AL := m.AL[b := k], OL := m.OL[b := o])
  }

  lemma {:induction false} TakeL(m: Mem, sz: nat, b: nat, k: nat, o: Owner)
    requires MemOK(m) && Available(m.AL, sz, b, k) && |m.L| == Pow2(sz)
    ensures FreeBlock(m.AL, |m.L|, b, k) && MemOK(TakenL(m, b, k, o))
  {
    assert Open(MemOKKey);
    FreeBlockOK(m.AL, |m.L|, b, k);
  }

  lemma {:induction false} NoBlocks(m: Mem)
    requires m.AN == map[] && m.AL == map[] && m.ON == map[] && m.OL == map[]
    ensures MemOK(m)
  {
  }

  ghost function TakenN(m: Mem, b: nat, k: nat, o: Owner): Mem {
    m.(AN := m.AN[b := k], ON := m.ON[b := o])
  }

  lemma {:induction false} TakeN(m: Mem, sz: nat, b: nat, k: nat, o: Owner)
    requires MemOK(m) && Available(m.AN, sz, b, k) && |m.N| == Pow2(sz) && (o.Root? ==> k == 0 && |o.p| == TOP)
    ensures FreeBlock(m.AN, |m.N|, b, k) && MemOK(TakenN(m, b, k, o))
  {
    assert FreeBlock(m.AN, |m.N|, b, k);
    TakenOK(m, b, k, o);
  }

  lemma {:induction false} TakenOK(m: Mem, b: nat, k: nat, o: Owner)
    requires MemOK(m) && FreeBlock(m.AN, |m.N|, b, k) && (o.Root? ==> k == 0 && |o.p| == TOP)
    ensures MemOK(TakenN(m, b, k, o))
  {
    WithKidsOK(m, b, k, o, []);
    assert Write(m.N, b, []) == m.N;
    assert WithKids(m, b, k, o, []) == TakenN(m, b, k, o);
  }
}
