/** _parse_triangle: the 64 slots of a node, read from the radix tree. */
module Triangles {
  import opened Bits
  import opened Forwarding
  import opened Radix

  /** o is what the radix tree says about path p: the object there, or, where there is none, a copy of the
      last object on the way with its links removed. */
  ghost predicate CopyOf(t: Tree, rib: Routes, p: Path, o: Fields) {
    o.left == Child(t, p, false) && o.right == Child(t, p, true) && o.ext == ExtOf(t, rib, p)
  }

  lemma {:induction false} ObjectIsCopy(t: Tree, rib: Routes, p: Path)
    requires RibOK(t, rib) && p in t
    ensures CopyOf(t, rib, p, FieldsOf(t[p]))
  {
    At(t, rib, p);
  }

  /** Past a missing node nothing changes any more. */
  lemma {:induction false} ExtMissing(t: Tree, rib: Routes, p: Path, b: bool, x: Path)
    requires Shape(t, rib) && p + [b] !in t && Extends(x, p + [b])
    ensures x !in t && ExtOf(t, rib, x) == ExtOf(t, rib, p)
    decreases |x|
  {
    if x in t {
      PrefixIn(t, rib, x, |p| + 1);
      assert false;
    }
    if |x| > |p| + 1 {
      assert Extends(x[..|x| - 1], p + [b]);
      ExtMissing(t, rib, p, b, x[..|x| - 1]);
    } else {
      assert x == p + [b] && x[..|x| - 1] == p;
    }
  }

  lemma {:induction false} MissingIsCopy(t: Tree, rib: Routes, p: Path, b: bool, x: Path, o: Fields)
    requires Shape(t, rib) && p + [b] !in t && Extends(x, p + [b]) && CopyOf(t, rib, p, o)
    ensures CopyOf(t, rib, x, o.(left := null, right := null))
  {
    ExtMissing(t, rib, p, b, x);
    forall c | c in {false, true} ensures x + [c] !in t {
      assert (x + [c])[..|p| + 1] == x[..|p| + 1];
      ExtMissing(t, rib, p, b, x + [c]);
    }
  }

  // ---------- positions ----------

  /** The first of the slots whose path begins with y. */
  function First(y: Path): (r: nat)
    requires |y| <= STRIDE
    ensures r + Pow2(STRIDE - |y|) <= SLOTS
  {
    FirstBound(y);
    Value(y + Zeros(STRIDE - |y|))
  }

  lemma {:induction false} ValueZeros(y: Path, n: nat)
    ensures Value(y + Zeros(n)) + Pow2(n) <= Pow2(|y| + n)
  {
    if y == [] {
      ZeroValue(n);
      assert y + Zeros(n) == Zeros(n);
    } else {
      ValueZeros(y[1..], n);
      assert (y + Zeros(n))[1..] == y[1..] + Zeros(n);
    }
  }

  lemma {:induction false} FirstBound(y: Path)
    requires |y| <= STRIDE
    ensures Value(y + Zeros(STRIDE - |y|)) + Pow2(STRIDE - |y|) <= SLOTS
  {
    ValueZeros(y, STRIDE - |y|);
    assert Pow2(6) == 64;
  }

  lemma {:induction false} ValueHalves(y: Path, n: nat)
    ensures Value(y + [false] + Zeros(n)) == Value(y + Zeros(n + 1))
    ensures Value(y + [true] + Zeros(n)) == Value(y + Zeros(n + 1)) + Pow2(n)
  {
    if y == [] {
      assert y + [false] + Zeros(n) == Zeros(n + 1) && y + Zeros(n + 1) == Zeros(n + 1);
      assert y + [true] + Zeros(n) == [true] + Zeros(n);
      assert ([true] + Zeros(n))[1..] == Zeros(n);
      ZeroValue(n);
      ZeroValue(n + 1);
    } else {
      ValueHalves(y[1..], n);
      assert (y + [false] + Zeros(n))[1..] == y[1..] + [false] + Zeros(n);
      assert (y + [true] + Zeros(n))[1..] == y[1..] + [true] + Zeros(n);
      assert (y + Zeros(n + 1))[1..] == y[1..] + Zeros(n + 1);
    }
  }

  lemma {:induction false} FirstHalves(y: Path)
    requires |y| < STRIDE
    ensures First(y + [false]) == First(y) && First(y + [true]) == First(y) + Pow2(STRIDE - |y| - 1)
  {
    ValueHalves(y, STRIDE - |y| - 1);
  }

  lemma {:induction false} ValueAppend(y: Path, s: Path)
    ensures Value(y + s) == Value(y + Zeros(|s|)) + Value(s)
  {
    if y == [] {
      ZeroValue(|s|);
      assert y + s == s && y + Zeros(|s|) == Zeros(|s|);
    } else {
      ValueAppend(y[1..], s);
      assert (y + s)[1..] == y[1..] + s && (y + Zeros(|s|))[1..] == y[1..] + Zeros(|s|);
    }
  }

  lemma {:induction false} BitsFrom(y: Path, n: nat, i: nat)
    requires Value(y + Zeros(n)) <= i < Value(y + Zeros(n)) + Pow2(n)
    ensures i < Pow2(|y| + n) && Extends(ToBits(i, |y| + n), y)
  {
    var s := ToBits(i - Value(y + Zeros(n)), n);
    ValueToBits(i - Value(y + Zeros(n)), n);
    ValueAppend(y, s);
    ToBitsValue(y + s);
  }

  /** The slots from First(y) on are those whose path begins with y. */
  lemma {:induction false} SlotsFrom(q: Path, y: Path, i: nat)
    requires |y| <= STRIDE && First(y) <= i < First(y) + Pow2(STRIDE - |y|)
    ensures i < SLOTS && Extends(Slot(q, i), q + y)
  {
    BitsFrom(y, STRIDE - |y|, i);
    assert Slot(q, i)[..|q + y|] == q + ToBits(i, STRIDE)[..|y|];
  }

  lemma {:induction false} SlotHere(q: Path, y: Path)
    requires |y| == STRIDE
    ensures First(y) < SLOTS && Slot(q, First(y)) == q + y
  {
    assert y + Zeros(0) == y;
    ToBitsValue(y);
  }

  // ---------- the triangle ----------

  ghost predicate SlotParsed(t: Tree, rib: Routes, q: Path, vec: seq<bool>, nodes: seq<Fields>, i: nat)
    requires |vec| == |nodes| == SLOTS && i < SLOTS
  {
    CopyOf(t, rib, Slot(q, i), nodes[i]) && (vec[i] <==> nodes[i].left != null || nodes[i].right != null)
  }

  /** Only the slots from First(y) on have been parsed. */
  ghost predicate Parsed(t: Tree, rib: Routes, q: Path, y: Path, vec: seq<bool>, nodes: seq<Fields>, vec': seq<bool>,
                         nodes': seq<Fields>)
    requires |y| <= STRIDE
  {
    && |vec| == |nodes| == |vec'| == |nodes'| == SLOTS
    && (forall i :: First(y) <= i < First(y) + Pow2(STRIDE - |y|) ==> SlotParsed(t, rib, q, vec', nodes', i))
    && (forall i :: 0 <= i < SLOTS && (i < First(y) || First(y) + Pow2(STRIDE - |y|) <= i) ==>
          vec'[i] == vec[i] && nodes'[i] == nodes[i])
  }

  ghost predicate ClearFrom(vec: seq<bool>, y: Path)
    requires |y| <= STRIDE
  {
    |vec| == SLOTS && forall i :: First(y) <= i < First(y) + Pow2(STRIDE - |y|) ==> !vec[i]
  }

  /** _parse_triangle. */
  method ParseTriangle(node: Fields, vector: seq<bool>, nodes: seq<Fields>, pos: nat, depth: nat,
                       ghost t: Tree, ghost rib: Routes, ghost q: Path, ghost y: Path)
    returns (vector': seq<bool>, nodes': seq<Fields>)
    requires |nodes| == SLOTS && |y| == depth <= STRIDE && pos == First(y) && ClearFrom(vector, y)
    requires RibOK(t, rib) && CopyOf(t, rib, q + y, node)
    ensures Parsed(t, rib, q, y, vector, nodes, vector', nodes')
    decreases STRIDE - depth, 1
  {
    if depth == STRIDE {
      SlotHere(q, y);
      nodes' := nodes[pos := node];
      vector' := if node.left != null || node.right != null then vector[pos := true] else vector;
      return;
    }
    FirstHalves(y);
    var v1, n1 := ParseSide(node, node.left, vector, nodes, pos, depth, false, t, rib, q, y);
    vector', nodes' := ParseSide(node, node.right, v1, n1, pos + Pow2(STRIDE - depth - 1), depth, true, t, rib, q, y);
    ParsedBoth(t, rib, q, y, vector, nodes, v1, n1, vector', nodes');
  }

  lemma {:induction false} ParsedBoth(t: Tree, rib: Routes, q: Path, y: Path, vec: seq<bool>, nodes: seq<Fields>,
                                      v1: seq<bool>, n1: seq<Fields>, v2: seq<bool>, n2: seq<Fields>)
    requires |y| < STRIDE
    requires Parsed(t, rib, q, y + [false], vec, nodes, v1, n1) && Parsed(t, rib, q, y + [true], v1, n1, v2, n2)
    ensures Parsed(t, rib, q, y, vec, nodes, v2, n2)
  {
    FirstHalves(y);
    forall i | First(y) <= i < First(y) + Pow2(STRIDE - |y|) ensures SlotParsed(t, rib, q, v2, n2, i) {
      if i < First(y + [true]) {
        assert SlotParsed(t, rib, q, v1, n1, i);
      }
    }
  }

  /** One half of the triangle: follow the link, or fill the slots with copies. */
  method ParseSide(node: Fields, child: RadixNode?, vector: seq<bool>, nodes: seq<Fields>, pos: nat, depth: nat,
                   b: bool,
                   ghost t: Tree, ghost rib: Routes, ghost q: Path, ghost y: Path)
    returns (vector': seq<bool>, nodes': seq<Fields>)
    requires |nodes| == SLOTS && |y| == depth < STRIDE && pos == First(y + [b]) && ClearFrom(vector, y + [b])
    requires RibOK(t, rib) && CopyOf(t, rib, q + y, node) && child == if b then node.right else node.left
    ensures Parsed(t, rib, q, y + [b], vector, nodes, vector', nodes')
    decreases STRIDE - depth, 0
  {
    assert q + y + [b] == q + (y + [b]);
    if child != null {
      ObjectIsCopy(t, rib, q + (y + [b]));
      vector', nodes' := ParseTriangle(FieldsOf(child), vector, nodes, pos, depth + 1, t, rib, q, y + [b]);
    } else {
      vector', nodes' := vector, nodes;
      for i := pos to pos + Pow2(STRIDE - depth - 1)
        invariant |nodes'| == SLOTS
        invariant forall j :: 0 <= j < SLOTS ==>
                    nodes'[j] == if pos <= j < i then node.(left := null, right := null) else nodes[j]
      {
        nodes' := nodes'[i := node.(left := null, right := null)];
      }
      forall i | First(y + [b]) <= i < First(y + [b]) + Pow2(STRIDE - |y + [b]|)
        ensures SlotParsed(t, rib, q, vector', nodes', i)
      {
        SlotsFrom(q, y + [b], i);
        MissingIsCopy(t, rib, q + y, b, Slot(q, i), node);
      }
    }
  }
}
