/** The node and leaf arrays of the poptrie, and what it means for them to hold nodes. */
module Memory {
  import opened Bits
  import opened Tiling
  import opened Forwarding
  import opened Nodes
  import opened Folding

  /** The use of an allocated block: the node at a top-level path itself, or what the node at p points
      to (its children in the node array, its leaves in the leaf array). */
  datatype OwnerWith<P> = Root(p: P) | Kids(p: P)
  type Owner = OwnerWith<Path>
  type Owners = map<nat, Owner>

  /** The node array, the leaf array, the blocks allocated in each, and what they are used for. */
  datatype MemWith<A, B, R, O> = Mem(N: A, L: B, AN: R, AL: R, ON: O, OL: O)
  type Mem = MemWith<seq<Node>, seq<nat>, Ranges, Owners>

  /** A set of nodes by path, and the cells of those that are stored. */
  type NodeMap = map<Path, Node>
  type Cells = map<Path, nat>

  /** The depth at which the paths of nodes start: the bits resolved by direct pointing. */
  const TOP: nat := 2

  ghost predicate BlocksOK(a: Ranges, size: nat) {
    Disjoint(a) && forall x :: x in a ==> x + Pow2(a[x]) <= size
  }

  ghost predicate MemOK(m: Mem) {
    forall k: Key :: Open(k) && k.MemOKKey? ==>
      && BlocksOK(m.AN, |m.N|) && BlocksOK(m.AL, |m.L|)
      && m.ON.Keys == m.AN.Keys && m.OL.Keys == m.AL.Keys
      && forall b :: b in m.ON && m.ON[b].Root? ==> b in m.AN && m.AN[b] == 0 && |m.ON[b].p| == TOP
  }

  // ---------- one node ----------

  /** The slots of the node at q that need a child. */
  ghost function VecOf(rib: Routes, q: Path): (v: Vec)
    requires |q| + STRIDE <= KEYLENGTH
    ensures |v| == SLOTS && forall i :: 0 <= i < SLOTS ==> (v[i] <==> !Constant(rib, Slot(q, i)))
  {
    seq(SLOTS, i requires 0 <= i < SLOTS => !Constant(rib, Slot(q, i)))
  }

  ghost function ValsOf(rib: Routes, q: Path): (v: seq<nat>)
    requires |q| + STRIDE <= KEYLENGTH
    ensures |v| == SLOTS && forall i :: 0 <= i < SLOTS ==> v[i] == Val(rib, Slot(q, i))
  {
    seq(SLOTS, i requires 0 <= i < SLOTS => Val(rib, Slot(q, i)))
  }

  /** b is an allocated block of the order that n entries need, or -1 for none. */
  predicate Block(a: Ranges, b: int, n: nat) {
    if n == 0 then b == -1 else b >= 0 && b in a && LeastOrder(n, a[b])
  }

  predicate LeavesAt(l: seq<nat>, b: int, xs: seq<nat>) {
    xs == [] || (0 <= b && b + |xs| <= |l| && l[b..b + |xs|] == xs)
  }

  /** The children of the node at q are stored from cell b on. */
  ghost predicate KidsAt(ix: Cells, q: Path, vec: Vec, b: int) {
    forall i :: 0 <= i < SLOTS && i < |vec| && vec[i] ==> Slot(q, i) in ix && ix[Slot(q, i)] == b + Rank(vec, i) - 1
  }

  /** n is the node at q for these routes. */
  ghost predicate Good(m: Mem, rib: Routes, ix: Cells, q: Path, n: Node) {
    forall k: Key :: Open(k) && k.GoodKey? ==>
      && |q| + STRIDE <= KEYLENGTH
      && n.vector == VecOf(rib, q)
      && n.leafvec == RunVec(n.vector, ValsOf(rib, q))
      && Block(m.AN, n.base1, Count(n.vector))
      && Block(m.AL, n.base0, Count(n.leafvec))
      && LeavesAt(m.L, n.base0, RunLeaves(n.vector, ValsOf(rib, q)))
      && KidsAt(ix, q, n.vector, n.base1)
  }

  /** The blocks of n are marked as belonging to the node at p. */
  predicate Labelled(m: Mem, p: Path, n: Node) {
    && (n.base1 >= 0 ==> n.base1 in m.ON && m.ON[n.base1] == Kids(p))
    && (n.base0 >= 0 ==> n.base0 in m.OL && m.OL[n.base0] == Kids(p))
  }

  // ---------- many nodes ----------

  ghost predicate Stored(m: Mem, val: NodeMap, ix: Cells) {
    forall k: Key :: Open(k) && k.StoredKey? ==>
      forall p :: p in ix ==> p in val && ix[p] < |m.N| && IsCovered(m.AN, ix[p]) && m.N[ix[p]] == val[p]
  }

  predicate AtNode(p: Path) {
    TOP <= |p| && |p| + STRIDE <= KEYLENGTH && (|p| - TOP) % STRIDE == 0
  }

  /** All nodes lie at depth d or have their parent among the nodes. */
  ghost predicate Parented(val: NodeMap, d: nat) {
    forall k: Key :: Open(k) && k.ParentKey? ==>
      forall x :: x in val ==> |x| == d || (d + STRIDE <= |x| && x[..|x| - STRIDE] in val)
  }

  ghost predicate NodeOK(m: Mem, rib: Routes, ix: Cells, p: Path, n: Node) {
    && AtNode(p) && (|p| == TOP || !Constant(rib, p))
    && Good(m, rib, ix, p, n) && Labelled(m, p, n)
  }

  /** Every node of val is right for its path. */
  ghost predicate Trees(m: Mem, rib: Routes, val: NodeMap, ix: Cells) {
    forall k: Key :: Open(k) && k.TreesKey? ==>
      forall p :: p in val ==> NodeOK(m, rib, ix, p, val[p])
  }

  predicate UsedN(m: Mem, val: NodeMap, ix: Cells, b: nat) {
    b in m.ON &&
    match m.ON[b]
    case Root(t) => t in ix && ix[t] == b
    case Kids(p) => p in val && val[p].base1 == b
  }

  predicate UsedL(m: Mem, val: NodeMap, b: nat) {
    b in m.OL && m.OL[b].Kids? && m.OL[b].p in val && val[m.OL[b].p].base0 == b
  }

  /** All blocks are old or used by val. */
  ghost predicate Accounted(m0: Mem, m: Mem, val: NodeMap, ix: Cells) {
    forall k: Key :: Open(k) && k.AccountedKey? ==>
      && (forall b :: b in m.AN ==> b in m0.AN || UsedN(m, val, ix, b))
      && (forall b :: b in m.AL ==> b in m0.AL || UsedL(m, val, b))
  }

  // ---------- memory that grows ----------

  ghost predicate KeptBlocks(a: Ranges, a': Ranges, o: Owners, o': Owners) {
    && (forall b :: b in a ==> b in a' && a'[b] == a[b])
    && (forall b :: b in o ==> b in o' && o'[b] == o[b])
  }

  /** Nothing that was allocated has changed. */
  ghost predicate Grown(m: Mem, m': Mem) {
    forall k: Key :: Open(k) && k.GrownKey? ==>
      && |m'.N| == |m.N| && |m'.L| == |m.L|
      && KeptBlocks(m.AN, m'.AN, m.ON, m'.ON) && KeptBlocks(m.AL, m'.AL, m.OL, m'.OL)
      && (forall c :: 0 <= c < |m.N| && IsCovered(m.AN, c) ==> m'.N[c] == m.N[c])
      && (forall c :: 0 <= c < |m.L| && IsCovered(m.AL, c) ==> m'.L[c] == m.L[c])
  }

  lemma {:induction false} CoveredGrows(a: Ranges, a': Ranges, c: nat)
    requires IsCovered(a, c) && forall b :: b in a ==> b in a' && a'[b] == a[b]
    ensures IsCovered(a', c)
  {
    var x: nat :| Covers(a, x, c);
    assert Covers(a', x, c);
  }

  lemma {:induction false} GrownTrans(m: Mem, m': Mem, m'': Mem)
    requires Grown(m, m') && Grown(m', m'')
    ensures Grown(m, m'')
  {
    assert Open(GrownKey);
    forall c | 0 <= c < |m.N| && IsCovered(m.AN, c) ensures m''.N[c] == m.N[c] {
      CoveredGrows(m.AN, m'.AN, c);
    }
    forall c | 0 <= c < |m.L| && IsCovered(m.AL, c) ensures m''.L[c] == m.L[c] {
      CoveredGrows(m.AL, m'.AL, c);
    }
  }

  /** The entries of a block are covered. */
  lemma {:induction false} BlockCovered(a: Ranges, b: nat, n: nat, c: nat)
    requires b in a && n <= Pow2(a[b]) && b <= c < b + n
    ensures IsCovered(a, c)
  {
    assert Covers(a, b, c);
  }

  lemma {:induction false} LeavesGrown(m: Mem, m': Mem, b: int, xs: seq<nat>)
    requires Grown(m, m') && Block(m.AL, b, |xs|) && LeavesAt(m.L, b, xs)
    ensures LeavesAt(m'.L, b, xs)
  {
    assert Open(GrownKey);
    if xs != [] {
      forall c | b <= c < b + |xs| ensures m'.L[c] == m.L[c] {
        BlockCovered(m.AL, b, |xs|, c);
      }
      assert m'.L[b..b + |xs|] == m.L[b..b + |xs|];
    }
  }

  lemma {:induction false} GoodGrown(m: Mem, m': Mem, rib: Routes, ix: Cells, q: Path, n: Node)
    requires Grown(m, m') && Good(m, rib, ix, q, n)
    ensures Good(m', rib, ix, q, n)
  {
    assert Open(GoodKey) && Open(GrownKey);
    RunCount(n.vector, ValsOf(rib, q));
    LeavesGrown(m, m', n.base0, RunLeaves(n.vector, ValsOf(rib, q)));
  }

  lemma {:induction false} TreesGrown(m: Mem, m': Mem, rib: Routes, val: NodeMap, ix: Cells)
    requires Grown(m, m') && Trees(m, rib, val, ix)
    ensures Trees(m', rib, val, ix)
  {
    assert Open(TreesKey) && Open(GrownKey);
    forall p | p in val ensures NodeOK(m', rib, ix, p, val[p]) {
      assert NodeOK(m, rib, ix, p, val[p]);
      GoodGrown(m, m', rib, ix, p, val[p]);
    }
  }

  lemma {:induction false} StoredGrown(m: Mem, m': Mem, val: NodeMap, ix: Cells)
    requires Grown(m, m') && Stored(m, val, ix)
    ensures Stored(m', val, ix)
  {
    assert Open(StoredKey) && Open(GrownKey);
    forall p | p in ix ensures IsCovered(m'.AN, ix[p]) {
      CoveredGrows(m.AN, m'.AN, ix[p]);
    }
  }

  // ---------- more nodes ----------

  ghost predicate SubMap<K, V>(a: map<K, V>, b: map<K, V>) {
    forall k :: k in a ==> k in b && b[k] == a[k]
  }

  lemma {:induction false} GoodMore(m: Mem, rib: Routes, ix: Cells, ix': Cells, q: Path, n: Node)
    requires SubMap(ix, ix') && Good(m, rib, ix, q, n)
    ensures Good(m, rib, ix', q, n)
  {
    assert Open(GoodKey);
  }

  lemma {:induction false} TreesMore(m: Mem, rib: Routes, val: NodeMap, ix: Cells, ix': Cells)
    requires SubMap(ix, ix') && Trees(m, rib, val, ix)
    ensures Trees(m, rib, val, ix')
  {
    assert Open(TreesKey);
    forall p | p in val ensures NodeOK(m, rib, ix', p, val[p]) {
      assert NodeOK(m, rib, ix, p, val[p]);
      GoodMore(m, rib, ix, ix', p, val[p]);
    }
  }

  lemma {:induction false} TreesUnion(m: Mem, rib: Routes, val: NodeMap, ix: Cells, val': NodeMap, ix': Cells)
    requires Trees(m, rib, val, ix) && Trees(m, rib, val', ix')
    requires val.Keys !! val'.Keys && ix.Keys <= val.Keys && ix'.Keys <= val'.Keys
    ensures Trees(m, rib, val + val', ix + ix')
  {
    assert Open(TreesKey);
    TreesMore(m, rib, val, ix, ix + ix');
    TreesMore(m, rib, val', ix', ix + ix');
  }

  lemma {:induction false} StoredUnion(m: Mem, val: NodeMap, ix: Cells, val': NodeMap, ix': Cells)
    requires Stored(m, val, ix) && Stored(m, val', ix') && val.Keys !! val'.Keys
    ensures Stored(m, val + val', ix + ix')
  {
    assert Open(StoredKey);
  }

  /** Blocks of the first step used by val, of the second by val'. */
  lemma {:induction false} AccountedUnion(m0: Mem, m: Mem, m': Mem, val: NodeMap, ix: Cells, val': NodeMap, ix': Cells)
    requires Grown(m, m') && MemOK(m) && Accounted(m0, m, val, ix) && Accounted(m, m', val', ix')
    requires val.Keys !! val'.Keys && ix.Keys <= val.Keys && ix'.Keys <= val'.Keys
    ensures Accounted(m0, m', val + val', ix + ix')
  {
    assert Open(AccountedKey) && Open(GrownKey) && Open(MemOKKey);
    forall b | b in m'.AN && b !in m0.AN ensures UsedN(m', val + val', ix + ix', b) {
      if b in m.AN { assert UsedN(m, val, ix, b); } else { assert UsedN(m', val', ix', b); }
    }
    forall b | b in m'.AL && b !in m0.AL ensures UsedL(m', val + val', b) {
      if b in m.AL { assert UsedL(m, val, b); } else { assert UsedL(m', val', b); }
    }
  }

  // ---------- forests ----------

  /** val is a set of right nodes, those in ix stored, and every block allocated since m0 belongs to one
      of them. */
  ghost predicate Forest(m0: Mem, m: Mem, rib: Routes, val: NodeMap, ix: Cells) {
    forall k: Key :: Open(k) && k.ForestKey? ==>
      && Grown(m0, m) && MemOK(m) && ix.Keys <= val.Keys
      && Stored(m, val, ix) && Trees(m, rib, val, ix) && Accounted(m0, m, val, ix)
  }

  lemma {:induction false} GrownRefl(m: Mem)
    ensures Grown(m, m)
  {
    assert Open(GrownKey);
  }

  lemma {:induction false} EmptyForest(m: Mem, rib: Routes)
    requires MemOK(m)
    ensures Forest(m, m, rib, map[], map[])
  {
    assert Open(ForestKey) && Open(StoredKey) && Open(TreesKey) && Open(AccountedKey);
    GrownRefl(m);
  }

  /** Two forests over different paths, built one after the other. */
  lemma {:induction false} ForestUnion(m0: Mem, m: Mem, m': Mem, rib: Routes, val: NodeMap, ix: Cells, val': NodeMap,
                                       ix': Cells)
    requires Forest(m0, m, rib, val, ix) && Forest(m, m', rib, val', ix')
    requires val.Keys !! val'.Keys
    ensures Forest(m0, m', rib, val + val', ix + ix')
  {
    assert Open(ForestKey);
    GrownTrans(m0, m, m');
    TreesGrown(m, m', rib, val, ix);
    StoredGrown(m, m', val, ix);
    TreesUnion(m', rib, val, ix, val', ix');
    StoredUnion(m', val, ix, val', ix');
    AccountedUnion(m0, m, m', val, ix, val', ix');
  }

  // ---------- reusing old nodes ----------

  /** The part of a path-indexed map under p. */
  function Part<V>(val: map<Path, V>, p: Path): map<Path, V> {
    map q | q in val && Extends(q, p) :: val[q]
  }

  lemma {:induction false} SameVec(rib: Routes, rib': Routes, q: Path)
    requires |q| + STRIDE <= KEYLENGTH && Same(rib, rib', q)
    ensures VecOf(rib, q) == VecOf(rib', q) && ValsOf(rib, q) == ValsOf(rib', q)
  {
    forall i | 0 <= i < SLOTS
      ensures (Constant(rib, Slot(q, i)) <==> Constant(rib', Slot(q, i)))
          && Val(rib, Slot(q, i)) == Val(rib', Slot(q, i))
    {
      SameBelow(rib, rib', q, ToBits(i, STRIDE));
      SameConstant(rib, rib', Slot(q, i));
    }
  }

  lemma {:induction false} PartGood(m: Mem, rib: Routes, rib': Routes, ix: Cells, p: Path, q: Path, n: Node)
    requires Good(m, rib, ix, q, n) && Extends(q, p) && Same(rib, rib', q)
    ensures Good(m, rib', Part(ix, p) - {p}, q, n)
  {
    assert Open(GoodKey);
    SameVec(rib, rib', q);
    forall i | 0 <= i < SLOTS && n.vector[i]
      ensures Slot(q, i) in Part(ix, p) - {p} && (Part(ix, p) - {p})[Slot(q, i)] == ix[Slot(q, i)]
    {
      SlotExtends(q, i);
      ExtendsTrans(Slot(q, i), q, p);
    }
  }

  lemma {:induction false} PartNode(m: Mem, rib: Routes, rib': Routes, ix: Cells, p: Path, q: Path, n: Node)
    requires NodeOK(m, rib, ix, q, n) && Extends(q, p) && Same(rib, rib', p)
    ensures NodeOK(m, rib', Part(ix, p) - {p}, q, n)
  {
    assert q == p + q[|p|..];
    SameBelow(rib, rib', p, q[|p|..]);
    PartGood(m, rib, rib', ix, p, q, n);
    SameConstant(rib, rib', q);
  }

  lemma {:induction false} PartTrees(m: Mem, rib: Routes, rib': Routes, val: NodeMap, ix: Cells, p: Path)
    requires Trees(m, rib, val, ix) && Same(rib, rib', p)
    ensures Trees(m, rib', Part(val, p), Part(ix, p) - {p})
  {
    assert Open(TreesKey);
    forall q | q in Part(val, p) ensures NodeOK(m, rib', Part(ix, p) - {p}, q, Part(val, p)[q]) {
      assert NodeOK(m, rib, ix, q, val[q]);
      PartNode(m, rib, rib', ix, p, q, val[q]);
    }
  }

  lemma {:induction false} PartStored(m: Mem, val: NodeMap, ix: Cells, p: Path)
    requires ix.Keys <= val.Keys && Stored(m, val, ix)
    ensures (Part(ix, p) - {p}).Keys <= Part(val, p).Keys && Stored(m, Part(val, p), Part(ix, p) - {p})
  {
    assert Open(StoredKey);
  }

  /** Where forwarding has not changed, old nodes can be used again, under a new root. */
  lemma {:induction false} PartForest(m: Mem, rib: Routes, rib': Routes, val: NodeMap, ix: Cells, p: Path)
    requires MemOK(m) && ix.Keys <= val.Keys && Stored(m, val, ix) && Trees(m, rib, val, ix)
    requires Same(rib, rib', p)
    ensures Forest(m, m, rib', Part(val, p), Part(ix, p) - {p})
  {
    assert Open(ForestKey) && Open(AccountedKey);
    GrownRefl(m);
    PartTrees(m, rib, rib', val, ix, p);
    PartStored(m, val, ix, p);
  }

  // ---------- allocating and writing ----------

  function Write<T>(s: seq<T>, b: nat, xs: seq<T>): (r: seq<T>)
    requires b + |xs| <= |s|
    ensures |r| == |s|
    ensures forall c :: 0 <= c < |s| && (c < b || b + |xs| <= c) ==> r[c] == s[c]
    ensures r[b..b + |xs|] == xs
  {
    var r := s[..b] + xs + s[b + |xs|..];
    assert r[b..b + |xs|] == xs;
    r
  }

  /** A newly allocated node block at b, filled with the nodes xs. */
  ghost function WithKids(m: Mem, b: nat, k: nat, o: Owner, xs: seq<Node>): Mem
    requires b + |xs| <= |m.N|
  {
    m.(N := Write(m.N, b, xs), AN := m.AN[b := k], ON := m.ON[b := o])
  }

  ghost function WithLeaves(m: Mem, b: nat, k: nat, o: Owner, xs: seq<nat>): Mem
    requires b + |xs| <= |m.L|
  {
    m.(L := Write(m.L, b, xs), AL := m.AL[b := k], OL := m.OL[b := o])
  }

  /** The range of order k at b meets no block. */
  ghost predicate FreeBlock(a: Ranges, size: nat, b: nat, k: nat) {
    && b !in a && b + Pow2(k) <= size
    && forall x :: x in a ==> x + Pow2(a[x]) <= b || b + Pow2(k) <= x
  }

  lemma {:induction false} FreeBlockOK(a: Ranges, size: nat, b: nat, k: nat)
    requires BlocksOK(a, size) && FreeBlock(a, size, b, k)
    ensures BlocksOK(a[b := k], size)
    ensures forall c: nat :: IsCovered(a, c) ==> c < b || b + Pow2(k) <= c
  {
    forall c: nat | IsCovered(a, c) ensures c < b || b + Pow2(k) <= c {
      var x: nat :| Covers(a, x, c);
    }
  }

  lemma {:induction false} WithKidsOK(m: Mem, b: nat, k: nat, o: Owner, xs: seq<Node>)
    requires MemOK(m) && FreeBlock(m.AN, |m.N|, b, k) && |xs| <= Pow2(k) && (o.Root? ==> k == 0 && |o.p| == TOP)
    ensures MemOK(WithKids(m, b, k, o, xs))
  {
    assert Open(MemOKKey);
    FreeBlockOK(m.AN, |m.N|, b, k);
  }

  lemma {:induction false} WithKidsGrown(m: Mem, b: nat, k: nat, o: Owner, xs: seq<Node>)
    requires MemOK(m) && FreeBlock(m.AN, |m.N|, b, k) && |xs| <= Pow2(k) && (o.Root? ==> k == 0 && |o.p| == TOP)
    ensures Grown(m, WithKids(m, b, k, o, xs)) && MemOK(WithKids(m, b, k, o, xs))
  {
    WithKidsOK(m, b, k, o, xs);
    OnlyFreshCells(m, b, k);
    assert Open(GrownKey);
  }

  lemma {:induction false} OnlyFreshCells(m: Mem, b: nat, k: nat)
    requires MemOK(m)
    ensures FreeBlock(m.AN, |m.N|, b, k) ==> b !in m.ON && forall c: nat :: IsCovered(m.AN, c) ==>
        c < b || b + Pow2(k) <= c
    ensures FreeBlock(m.AL, |m.L|, b, k) ==> b !in m.OL && forall c: nat :: IsCovered(m.AL, c) ==>
        c < b || b + Pow2(k) <= c
  {
    assert Open(MemOKKey);
    if FreeBlock(m.AN, |m.N|, b, k) { FreeBlockOK(m.AN, |m.N|, b, k); }
    if FreeBlock(m.AL, |m.L|, b, k) { FreeBlockOK(m.AL, |m.L|, b, k); }
  }

  lemma {:induction false} WithLeavesOK(m: Mem, b: nat, k: nat, o: Owner, xs: seq<nat>)
    requires MemOK(m) && FreeBlock(m.AL, |m.L|, b, k) && |xs| <= Pow2(k)
    ensures MemOK(WithLeaves(m, b, k, o, xs))
  {
    assert Open(MemOKKey);
    FreeBlockOK(m.AL, |m.L|, b, k);
  }

  lemma {:induction false} WithLeavesGrown(m: Mem, b: nat, k: nat, o: Owner, xs: seq<nat>)
    requires MemOK(m) && FreeBlock(m.AL, |m.L|, b, k) && |xs| <= Pow2(k)
    ensures Grown(m, WithLeaves(m, b, k, o, xs)) && MemOK(WithLeaves(m, b, k, o, xs))
  {
    WithLeavesOK(m, b, k, o, xs);
    OnlyFreshCells(m, b, k);
    assert Open(GrownKey);
  }

  // ---------- storing the children of a node ----------

  lemma {:induction false} SlotOfSlot(q: Path, i: nat)
    requires i < SLOTS
    ensures SlotOf(Slot(q, i), |q|) == i
  {
    SlotExtends(q, i);
    SlotUnder(Slot(q, i), q, i);
  }

  ghost function KidSet(q: Path, vec: Vec): set<Path>
    requires |vec| == SLOTS
  {
    set i | 0 <= i < SLOTS && vec[i] :: Slot(q, i)
  }

  ghost function KidCells(q: Path, vec: Vec, b: int): (r: map<Path, nat>)
    requires |vec| == SLOTS && (Count(vec) > 0 ==> b >= 0)
    ensures forall i :: 0 <= i < SLOTS && vec[i] ==> Slot(q, i) in r && r[Slot(q, i)] == b + Rank(vec, i) - 1
    ensures r.Keys == KidSet(q, vec)
  {
    KidRanks(q, vec);
    map p | p in KidSet(q, vec) :: b + Rank(vec, SlotOf(p, |q|)) - 1
  }

  lemma {:induction false} KidRanks(q: Path, vec: Vec)
    requires |vec| == SLOTS
    ensures forall i :: 0 <= i < SLOTS && vec[i] ==> 1 <= Rank(vec, i) <= Count(vec) && SlotOf(Slot(q, i), |q|) == i
  {
    forall i | 0 <= i < SLOTS && vec[i] ensures 1 <= Rank(vec, i) <= Count(vec) && SlotOf(Slot(q, i), |q|) == i {
      RankBounds(vec, i);
      SlotOfSlot(q, i);
    }
  }

  lemma {:induction false} KidStored(m: Mem, q: Path, vec: Vec, kids: seq<Node>, b: int, i: nat)
    requires |vec| == |kids| == SLOTS && i < SLOTS && vec[i] && Block(m.AN, b, Count(vec))
    requires Count(vec) > 0 ==> b + Count(vec) <= |m.N| && m.N[b..b + Count(vec)] == Pick(vec, kids)
    ensures var c := b + Rank(vec, i) - 1; 0 <= c < |m.N| && IsCovered(m.AN, c) && m.N[c] == kids[i]
  {
    PickAt(vec, kids, i);
    var c := b + Rank(vec, i) - 1;
    assert m.N[b..b + Count(vec)][Rank(vec, i) - 1] == m.N[c];
    BlockCovered(m.AN, b, Count(vec), c);
  }

  lemma {:induction false} KidsStored(m: Mem, val: NodeMap, q: Path, vec: Vec, kids: seq<Node>, b: int)
    requires |vec| == |kids| == SLOTS && Block(m.AN, b, Count(vec))
    requires forall i :: 0 <= i < SLOTS && vec[i] ==> Slot(q, i) in val && val[Slot(q, i)] == kids[i]
    requires Count(vec) > 0 ==> b + Count(vec) <= |m.N| && m.N[b..b + Count(vec)] == Pick(vec, kids)
    ensures Stored(m, val, KidCells(q, vec, b))
  {
    assert Open(StoredKey);
    var cells := KidCells(q, vec, b);
    forall p | p in cells
      ensures p in val && cells[p] < |m.N| && IsCovered(m.AN, cells[p]) && m.N[cells[p]] == val[p]
    {
      var i :| 0 <= i < SLOTS && vec[i] && p == Slot(q, i);
      KidStored(m, q, vec, kids, b, i);
    }
  }

  /** The pending nodes in the slots of q, packed into a block from b on, are stored. */
  lemma {:induction false} StoreKids(m: Mem, rib: Routes, val: NodeMap, ix: Cells, q: Path, vec: Vec, kids: seq<Node>,
                                     b: int)
    requires Trees(m, rib, val, ix) && Stored(m, val, ix)
    requires |vec| == |kids| == SLOTS && KidSet(q, vec) !! ix.Keys && Block(m.AN, b, Count(vec))
    requires forall i :: 0 <= i < SLOTS && vec[i] ==> Slot(q, i) in val && val[Slot(q, i)] == kids[i]
    requires Count(vec) > 0 ==> b + Count(vec) <= |m.N| && m.N[b..b + Count(vec)] == Pick(vec, kids)
    ensures var ix' := ix + KidCells(q, vec, b);
            Stored(m, val, ix') && Trees(m, rib, val, ix') && KidsAt(ix', q, vec, b)
  {
    var cells := KidCells(q, vec, b);
    KidsStored(m, val, q, vec, kids, b);
    StoredBoth(m, val, ix, cells);
    TreesMore(m, rib, val, ix, ix + cells);
    assert KidsAt(cells, q, vec, b);
    KidsAtMore(ix, cells, q, vec, b);
  }

  lemma {:induction false} StoredBoth(m: Mem, val: NodeMap, ix: Cells, ix': Cells)
    requires Stored(m, val, ix) && Stored(m, val, ix')
    ensures Stored(m, val, ix + ix')
  {
    assert Open(StoredKey);
  }

  lemma {:induction false} KidsAtMore(ix: Cells, ix': Cells, q: Path, vec: Vec, b: int)
    requires KidsAt(ix', q, vec, b)
    ensures KidsAt(ix + ix', q, vec, b)
  {
  }
}
