/** Bitmaps of 64 bits, the arrays that are packed by them, and the match within a node. */
module Bitmaps {
  import opened Bits
  import opened Seqs

  /** Bit i of the word is entry i. */
  type Bitmap = seq<bool>

  const WORD: nat := 64
  const STRIDE: nat := 6

  // ---------- ranks from the top ----------

  /** The number of set bits above bit i. */
  function Above(v: Bitmap, i: nat): nat
    requires i < |v|
  {
    Count(v[i + 1..])
  }

  /** count_ones: the set bits from bit i on, less one. */
  function CountOnes(v: Bitmap, i: nat): int
    requires i < |v|
  {
    Count(v[i..]) - 1
  }

  lemma {:induction false} CountSplit(v: Bitmap, i: nat)
    requires i < |v|
    ensures Count(v[i..]) == (if v[i] then 1 else 0) + Above(v, i)
    ensures Count(v) == Count(v[..i]) + Count(v[i..])
  {
    CountAppend([v[i]], v[i + 1..]);
    assert [v[i]] + v[i + 1..] == v[i..];
    assert Count([v[i]]) == if v[i] then 1 else 0 by { assert [v[i]][..0] == []; }
    CountAppend(v[..i], v[i..]);
    assert v[..i] + v[i..] == v;
  }

  /** For a set bit, count_ones is its rank from the top. */
  lemma {:induction false} CountOnesIs(v: Bitmap, i: nat)
    requires i < |v| && v[i]
    ensures CountOnes(v, i) == Above(v, i) < Count(v)
  {
    CountSplit(v, i);
  }

  lemma {:induction false} AboveOrder(v: Bitmap, i: nat, j: nat)
    requires i < j < |v| && v[j]
    ensures Above(v, j) < Above(v, i)
  {
    var w := v[i + 1..];
    CountSplit(w, j - i - 1);
    assert w[j - i - 1..] == v[j..];
    CountSplit(v, j);
  }

  lemma {:induction false} AboveSet(v: Bitmap, i: nat, b: bool, j: nat)
    requires i < |v| && j < |v| && v[i] == !b
    ensures j >= i ==> Above(v[i := b], j) == Above(v, j)
    ensures j < i ==> Above(v[i := b], j) == Above(v, j) + if b then 1 else -1
  {
    var v' := v[i := b];
    if j >= i {
      assert v'[j + 1..] == v[j + 1..];
    } else {
      var w, w' := v[j + 1..], v'[j + 1..];
      var k := i - j - 1;
      CountSplit(w, k);
      CountSplit(w', k);
      assert w'[..k] == w[..k] && w'[k + 1..] == w[k + 1..];
    }
  }

  lemma {:induction false} CountSet(v: Bitmap, i: nat, b: bool)
    requires i < |v| && v[i] == !b
    ensures Count(v[i := b]) == Count(v) + if b then 1 else -1
  {
    var v' := v[i := b];
    CountSplit(v, i);
    CountSplit(v', i);
    assert v'[..i] == v[..i] && v'[i + 1..] == v[i + 1..];
  }

  // ---------- packed arrays ----------

  ghost predicate PackedAt<T>(v: Bitmap, xs: seq<T>, m: map<nat, T>, i: nat) {
    i in m && i < |v| && Above(v, i) < |xs| && xs[Above(v, i)] == m[i]
  }

  /** xs holds the values of the set bits, the highest bit first. */
  ghost predicate Packs<T>(v: Bitmap, xs: seq<T>, m: map<nat, T>) {
    && |xs| == Count(v)
    && (forall i: nat :: i in m <==> i < |v| && v[i])
    && (forall i: nat {:trigger m[i]} :: i in m ==> PackedAt(v, xs, m, i))
  }

  lemma {:induction false} InsertedAt<T>(v: Bitmap, xs: seq<T>, m: map<nat, T>, i: nat, x: T, j: nat)
    requires Packs(v, xs, m) && i < |v| && !v[i] && Above(v, i) <= |xs| && j in m[i := x]
    ensures PackedAt(v[i := true], InsertAt(xs, Above(v, i), x), m[i := x], j)
  {
    AboveSet(v, i, true, j);
    if j != i {
      assert PackedAt(v, xs, m, j);
      BehindNew(v, i, j);
    }
  }

  /** A new set bit moves the lower ones to the next place. */
  lemma {:induction false} BehindNew(v: Bitmap, i: nat, j: nat)
    requires i < |v| && !v[i] && j < |v| && v[j]
    ensures j < i ==> Above(v[i := true], j) > Above(v, i)
    ensures j > i ==> Above(v, j) < Above(v, i)
  {
    if j > i {
      AboveOrder(v, i, j);
    } else {
      AboveOrder(v[i := true], j, i);
      AboveSet(v, i, true, i);
    }
  }

  /** A bit that is set newly. */
  lemma {:induction false} NewBit(v: Bitmap, i: nat)
    requires i < |v| && !v[i]
    ensures Count(v[i := true]) == Count(v) + 1 && CountOnes(v[i := true], i) == Above(v, i) <= Count(v)
  {
    AboveSet(v, i, true, i);
    CountSet(v, i, true);
    CountOnesIs(v[i := true], i);
  }

  lemma {:induction false} PackInsert<T>(v: Bitmap, xs: seq<T>, m: map<nat, T>, i: nat, x: T)
    requires Packs(v, xs, m) && i < |v| && !v[i]
    ensures Above(v, i) <= |xs| && Packs(v[i := true], InsertAt(xs, Above(v, i), x), m[i := x])
  {
    CountSplit(v, i);
    CountSet(v, i, true);
    var m' := m[i := x];
    forall j | j in m' ensures PackedAt(v[i := true], InsertAt(xs, Above(v, i), x), m', j) {
      InsertedAt(v, xs, m, i, x, j);
    }
  }

  lemma {:induction false} RemovedAt<T>(v: Bitmap, xs: seq<T>, m: map<nat, T>, i: nat, j: nat)
    requires Packs(v, xs, m) && i < |v| && v[i] && Above(v, i) < |xs| && j in m - {i}
    ensures PackedAt(v[i := false], RemoveAt(xs, Above(v, i)), m - {i}, j)
  {
    var v' := v[i := false];
    var y := m[j];
    assert PackedAt(v, xs, m, j);
    AboveSet(v, i, false, j);
    if j > i { AboveOrder(v, i, j); } else { AboveOrder(v, j, i); }
    var k, n := Above(v, i), Above(v', j);
    assert n == if j > i then Above(v, j) else Above(v, j) - 1;
    assert RemoveAt(xs, k)[n] == y;
  }

  lemma {:induction false} PackRemove<T>(v: Bitmap, xs: seq<T>, m: map<nat, T>, i: nat)
    requires Packs(v, xs, m) && i < |v| && v[i]
    ensures Above(v, i) < |xs| && Packs(v[i := false], RemoveAt(xs, Above(v, i)), m - {i})
  {
    CountOnesIs(v, i);
    CountSet(v, i, false);
    var m' := m - {i};
    forall j | j in m' ensures PackedAt(v[i := false], RemoveAt(xs, Above(v, i)), m', j) {
      RemovedAt(v, xs, m, i, j);
    }
  }

  lemma {:induction false} PackUpdate<T>(v: Bitmap, xs: seq<T>, m: map<nat, T>, i: nat, x: T)
    requires Packs(v, xs, m) && i < |v| && v[i]
    ensures Above(v, i) < |xs| && Packs(v, xs[Above(v, i) := x], m[i := x])
  {
    CountOnesIs(v, i);
    var m' := m[i := x];
    forall j | j in m' ensures PackedAt(v, xs[Above(v, i) := x], m', j) {
      if j != i {
        var y := m[j];
        assert PackedAt(v, xs, m, j);
        if j > i { AboveOrder(v, i, j); } else { AboveOrder(v, j, i); }
      }
    }
  }

  // ---------- positions in the internal bitmap ----------

  /** The bit for the prefix s within a node. */
  function PosOf(s: Path): (r: nat) {
    if s == [] then 0 else 2 * PosOf(s[..|s| - 1]) + 1 + if s[|s| - 1] then 1 else 0
  }

  /** The prefix for a bit. */
  function PathAt(p: nat): Path {
    if p == 0 then [] else PathAt((p - 1) / 2) + [(p - 1) % 2 == 1]
  }

  lemma {:induction false} PathAtPos(s: Path)
    ensures PathAt(PosOf(s)) == s
  {
    if s != [] {
      var p, q := PosOf(s), PosOf(s[..|s| - 1]);
      PathAtPos(s[..|s| - 1]);
      assert p - 1 == 2 * q + if s[|s| - 1] then 1 else 0;
      assert s == s[..|s| - 1] + [s[|s| - 1]];
    }
  }

  lemma {:induction false} PosOfPath(p: nat)
    ensures PosOf(PathAt(p)) == p
  {
    if p > 0 {
      PosOfPath((p - 1) / 2);
      var s := PathAt((p - 1) / 2);
      assert PathAt(p)[..|PathAt(p)| - 1] == s;
    }
  }

  lemma {:induction false} PosRange(s: Path)
    ensures Pow2(|s|) - 1 <= PosOf(s) < Pow2(|s| + 1) - 1
  {
    if s != [] { PosRange(s[..|s| - 1]); }
  }

  /** count_inl_bitmap: the source's way to compute the position. */
  lemma {:induction false} CountInl(s: Path)
    ensures PosOf(s) == Pow2(|s|) + Value(s) - 1
  {
    if s != [] {
      CountInl(s[..|s| - 1]);
      ValueLast(s);
    }
  }

  lemma {:induction false} ValueLast(s: Path)
    requires s != []
    ensures Value(s) == 2 * Value(s[..|s| - 1]) + if s[|s| - 1] then 1 else 0
  {
    if |s| > 1 {
      ValueLast(s[1..]);
      assert s[1..][..|s| - 2] == s[..|s| - 1][1..];
      assert Pow2(|s| - 1) == 2 * Pow2(|s| - 2);
    }
  }

  lemma {:induction false} PosInWord(s: Path)
    requires |s| < STRIDE
    ensures PosOf(s) < WORD
  {
    PosRange(s);
    Pow2Monotone(|s| + 1, 6);
    assert Pow2(6) == 64;
  }

  /** A longer prefix has a higher position. */
  lemma {:induction false} PosOrder(s: Path, u: Path)
    requires |s| < |u|
    ensures PosOf(s) < PosOf(u)
  {
    PosRange(s);
    PosRange(u);
    Pow2Monotone(|s| + 1, |u|);
  }

  // ---------- the match within a node ----------

  /** The length of the longest prefix of s, of length at most l, whose bit is set, or -1. */
  function LongestIn(v: Bitmap, s: Path, l: nat): (r: int)
    requires |v| == WORD && l <= |s| && l < STRIDE
    ensures -1 <= r <= l
  {
    PosInWord(s[..l]);
    if v[PosOf(s[..l])] then l else if l == 0 then -1 else LongestIn(v, s, l - 1)
  }

  lemma {:induction false} LongestInIs(v: Bitmap, s: Path, l: nat, k: nat)
    requires |v| == WORD && k <= l <= |s| && l < STRIDE
    ensures PosOf(s[..k]) < WORD
    ensures LongestIn(v, s, l) < k ==> !v[PosOf(s[..k])]
    ensures LongestIn(v, s, l) == k ==> v[PosOf(s[..k])]
  {
    PosInWord(s[..k]);
    PosInWord(s[..l]);
    if k < l && !v[PosOf(s[..l])] { LongestInIs(v, s, l - 1, k); }
  }

  /** The position of the longest match in a node, or -1. */
  function MatchIn(v: Bitmap, s: Path): (r: int)
    requires |v| == WORD && |s| >= STRIDE - 1
    ensures -1 <= r < WORD
  {
    var l := LongestIn(v, s, STRIDE - 1);
    if l < 0 then -1 else (PosInWord(s[..l]); PosOf(s[..l]))
  }

  /** tree_function without the table: try the prefixes of the stride, the longest first. */
  method TreeFunctionLoop(bitmap: Bitmap, stride: nat, ghost s: Path) returns (r: int)
    requires |bitmap| == WORD && |s| == STRIDE && stride == Value(s)
    ensures r == MatchIn(bitmap, s)
  {
    var st := stride;
    var i := STRIDE - 1;
    ghost var l := LongestIn(bitmap, s, STRIDE - 1);
    assert s[..STRIDE] == s;
    while i >= 0
      invariant -1 <= i < STRIDE && st == Value(s[..i + 1])
      invariant l <= i
    {
      ValueLast(s[..i + 1]);
      assert s[..i + 1][..i] == s[..i];
      st := st / 2;
      var pos := Pow2(i) + st - 1;
      CountInl(s[..i]);
      LongestInIs(bitmap, s, STRIDE - 1, i);
      if bitmap[pos] {
        return pos;
      }
      i := i - 1;
    }
    return -1;
  }

  // ---------- the table ----------

  /** The positions of the prefixes of s. */
  function Mask(s: Path): (v: Bitmap)
    ensures |v| == WORD && forall p :: 0 <= p < WORD ==> (v[p] <==> PathAt(p) <= s)
  {
    seq(WORD, p requires 0 <= p < WORD => PathAt(p) <= s)
  }

  function And(u: Bitmap, v: Bitmap): (w: Bitmap)
    requires |u| == |v|
    ensures |w| == |u| && forall p :: 0 <= p < |u| ==> (w[p] <==> u[p] && v[p])
  {
    seq(|u|, p requires 0 <= p < |u| => u[p] && v[p])
  }

  /** 63 - __builtin_clzll: the highest set bit, or -1. */
  function TopBit(v: Bitmap): (r: int)
    ensures -1 <= r < |v|
    ensures r >= 0 ==> v[r]
    ensures forall p :: r < p < |v| ==> !v[p]
  {
    if v == [] then -1 else if v[|v| - 1] then |v| - 1 else TopBit(v[..|v| - 1])
  }

  /** tree_function with the table. */
  method TreeFunction(fct: seq<Bitmap>, bitmap: Bitmap, stride: nat, ghost s: Path) returns (r: int)
    requires TableOK(fct) && |bitmap| == WORD && |s| == STRIDE && stride == Value(s)
    ensures r == MatchIn(bitmap, s)
  {
    ValueLast(s);
    var u := s[..STRIDE - 1];
    TableAt(fct, u);
    var ret := And(fct[stride / 2], bitmap);
    HighestIsLongest(bitmap, s, u);
    r := TopBit(ret);
  }

  /** The table that fast_table_init builds. */
  ghost predicate TableOK(fct: seq<Bitmap>) {
    |fct| == Pow2(STRIDE - 1) && forall i :: 0 <= i < |fct| ==> fct[i] == Mask(ToBits(i, STRIDE - 1))
  }

  lemma {:induction false} TableAt(fct: seq<Bitmap>, u: Path)
    requires TableOK(fct) && |u| == STRIDE - 1
    ensures Value(u) < |fct| && fct[Value(u)] == Mask(u)
  {
    ToBitsValue(u);
  }

  /** The highest masked bit is the longest matching prefix. */
  lemma {:induction false} HighestIsLongest(bitmap: Bitmap, s: Path, u: Path)
    requires |bitmap| == WORD && |s| == STRIDE && u == s[..STRIDE - 1]
    ensures TopBit(And(Mask(u), bitmap)) == MatchIn(bitmap, s)
  {
    var w := And(Mask(u), bitmap);
    var t, l := TopBit(w), LongestIn(bitmap, s, STRIDE - 1);
    if l >= 0 {
      LongestInIs(bitmap, s, STRIDE - 1, l);
      PathAtPos(s[..l]);
      assert s[..l] <= u;
      assert w[PosOf(s[..l])];
    }
    if t >= 0 {
      var k := |PathAt(t)|;
      PosOfPath(t);
      assert PathAt(t) == s[..k];
      LongestInIs(bitmap, s, STRIDE - 1, k);
      assert k <= l;
      if k < l { PosOrder(s[..k], s[..l]); }
    }
  }

  /** fast_table_init. */
  method FastTableInit(fct: array<Bitmap>)
    requires fct.Length == Pow2(STRIDE - 1) && forall i :: 0 <= i < fct.Length ==> fct[i] == Zeros(WORD)
    modifies fct
    ensures TableOK(fct[..])
  {
    for i := 0 to fct.Length
      invariant forall k :: 0 <= k < i ==> fct[k] == Mask(ToBits(k, STRIDE - 1))
      invariant forall k :: i <= k < fct.Length ==> fct[k] == Zeros(WORD)
    {
      fct[i] := AncestorBits(fct[i], i);
    }
  }

  lemma {:induction false} OnePosition(s: Path, j: nat)
    requires j <= |s|
    ensures forall p: nat :: PathAt(p) <= s && |PathAt(p)| == j <==> p == PosOf(s[..j])
  {
    forall p: nat ensures PathAt(p) <= s && |PathAt(p)| == j <==> p == PosOf(s[..j]) {
      PosOfPath(p);
      PathAtPos(s[..j]);
      assert PathAt(p) <= s && |PathAt(p)| == j ==> PathAt(p) == s[..j];
    }
  }

  /** The inner loop of fast_table_init: the positions of all prefixes of the stride i. */
  method AncestorBits(v0: Bitmap, i: nat) returns (v: Bitmap)
    requires v0 == Zeros(WORD) && i < Pow2(STRIDE - 1)
    ensures v == Mask(ToBits(i, STRIDE - 1))
  {
    ghost var s := ToBits(i, STRIDE - 1);
    ValueToBits(i, STRIDE - 1);
    assert s[..STRIDE - 1] == s;
    v := v0;
    var stride := i;
    var j := STRIDE - 1;
    while j >= 0
      invariant -1 <= j < STRIDE && |v| == WORD && (j >= 0 ==> stride == Value(s[..j]))
      invariant forall p :: 0 <= p < WORD ==> (v[p] <==> PathAt(p) <= s && |PathAt(p)| > j)
    {
      CountInl(s[..j]);
      PosInWord(s[..j]);
      var pos := Pow2(j) + stride - 1;
      OnePosition(s, j);
      v := v[pos := true];
      if j > 0 {
        ValueLast(s[..j]);
        assert s[..j][..j - 1] == s[..j - 1];
      }
      stride := stride / 2;
      j := j - 1;
    }
  }
}
