/** find_overlap_in_node and detect_overlap: the longest rule that is shorter than a limit. */
module MbOverlap {
  import opened Bits
  import opened Bitmaps
  import opened MbTries
  import opened MbSearch

  /** x >> k */
  function Shr(x: nat, k: nat): nat {
    if k == 0 then x else Shr(x / 2, k - 1)
  }

  lemma {:induction false} ShiftRight(s: Path, k: nat)
    requires k <= |s|
    ensures Shr(Value(s), k) == Value(s[..|s| - k])
  {
    if k == 0 {
      assert s[..|s|] == s;
    } else {
      var u := s[..|s| - 1];
      ValueLast(s);
      ShiftRight(u, k - 1);
      assert u[..|u| - (k - 1)] == s[..|s| - k];
    }
  }

  ghost predicate IsLongest(bitmap: Bitmap, s: Path, n: nat, l: int)
    requires |bitmap| == WORD && |s| == STRIDE && n < STRIDE
  {
    l == LongestIn(bitmap, s, n)
  }

  /** One turn of the loop: the prefix of length i. */
  lemma {:induction false} TryPrefix(bitmap: Bitmap, s: Path, n: nat, i: nat, l: int)
    requires |bitmap| == WORD && |s| == STRIDE && i <= n < STRIDE && IsLongest(bitmap, s, n, l) && l <= i
    ensures Value(s[..i + 1]) / 2 == Value(s[..i])
    ensures PosOf(s[..i]) == Pow2(i) + Value(s[..i]) - 1 < WORD
    ensures if bitmap[PosOf(s[..i])] then l == i else l <= i - 1
  {
    ValueLast(s[..i + 1]);
    assert s[..i + 1][..i] == s[..i];
    CountInl(s[..i]);
    LongestInIs(bitmap, s, n, i);
  }

  lemma {:induction false} NoneSet(bitmap: Bitmap, s: Path, n: nat)
    requires bitmap == Zeros(WORD) && |s| == STRIDE && n < STRIDE
    ensures LongestIn(bitmap, s, n) == -1
  {
    var l := LongestIn(bitmap, s, n);
    if l >= 0 { LongestInIs(bitmap, s, n, l); }
  }

  /** find_overlap_in_node: the longest match within a node that is shorter than limit_inside, and its length. */
  method FindOverlapInNode(bitmap: Bitmap, stride: nat, limit_inside: nat, ghost s: Path) returns (r: int, mask: nat)
    requires |bitmap| == WORD && |s| == STRIDE && stride == Value(s) && 1 <= limit_inside <= STRIDE
    ensures var k := LongestIn(bitmap, s, limit_inside - 1);
            if k < 0 then r == -1 else r == PosOf(s[..k]) && mask == k
  {
    r, mask := -1, 0;
    if bitmap == Zeros(WORD) {
      NoneSet(bitmap, s, limit_inside - 1);
      return;
    }
    ShiftRight(s, STRIDE - limit_inside);
    r, mask := TryPrefixes(bitmap, Shr(stride, STRIDE - limit_inside), limit_inside, s,
        LongestIn(bitmap, s, limit_inside - 1));
  }

  /** The loop of find_overlap_in_node. */
  method TryPrefixes(bitmap: Bitmap, stride: nat, limit_inside: nat, ghost s: Path, ghost l: int)
    returns (r: int, mask: nat)
    requires |bitmap| == WORD && |s| == STRIDE && 1 <= limit_inside <= STRIDE && stride == Value(s[..limit_inside])
    requires IsLongest(bitmap, s, limit_inside - 1, l) && l < limit_inside
    ensures if l < 0 then r == -1 else l <= STRIDE && r == PosOf(s[..l]) && mask == l
  {
    r, mask := -1, 0;
    var st := stride;
    var i := limit_inside - 1;
    while i >= 0
      invariant -1 <= i < limit_inside && st == Value(s[..i + 1]) && l <= i
    {
      TryPrefix(bitmap, s, limit_inside - 1, i, l);
      st := st / 2;
      mask := i;
      var pos := Pow2(i) + st - 1;
      if bitmap[pos] {
        return pos, mask;
      }
      i := i - 1;
    }
  }

  /** mask and longest stand for the best match shorter than m. */
  ghost predicate Found(rules: Rules, r: nat, key: Path, m: nat, mask: nat, longest: Hop)
    requires m <= |key|
  {
    var b := if m == 0 then -1 else Best(rules, r, key, m - 1);
    && mask == (if b < 0 then 0 else b)
    && (b > 0 ==> longest == BestHop(rules, r, key, m - 1))
  }

  function Min(a: int, b: int): int {
    if a < b then a else b
  }

  /** What the node at depth d adds. */
  lemma {:induction false} FoundHere(t: Tree, rules: Rules, r: nat, key: Path, d: nat, b: Body, l: nat, mask: nat,
                                     longest: Hop)
    requires d + STRIDE <= |key| && l < STRIDE && NodeHolds(t, rules, Loc(r, key[..d]), b)
    requires Found(rules, r, key, d, mask, longest)
    ensures var k := LongestIn(b.internal, key[d..d + STRIDE], l);
            if k < 0 then Found(rules, r, key, d + l + 1, mask, longest)
            else
              var p := PosOf(key[d..d + STRIDE][..k]);
              && p < WORD && 0 <= CountOnes(b.internal, p) < |b.rules|
              && Found(rules, r, key, d + l + 1, d + k, b.rules[CountOnes(b.internal, p)])
  {
    var s := key[d..d + STRIDE];
    var k := LongestIn(b.internal, s, l);
    BestWithin(t, rules, r, key, d, b, l);
    if k >= 0 {
      LongestInIs(b.internal, s, l, k);
      RuleAt(t, rules, Loc(r, key[..d]), b, s[..k]);
      assert key[..d] + s[..k] == key[..d + k];
    }
  }

  /** Where the way ends, nothing longer is left. */
  lemma {:induction false} FoundAll(t: Tree, rules: Rules, r: nat, key: Path, d: nat, m: nat, mask: nat, longest: Hop)
    requires Shape(t, rules) && IsDepth(d) && d + STRIDE <= m <= |key| && Loc(r, key[..d + STRIDE]) !in t
    requires Found(rules, r, key, d + STRIDE, mask, longest)
    ensures Found(rules, r, key, m, mask, longest)
  {
    NothingLonger(t, rules, r, key, d, m - 1);
  }

  /** The look into one node. */
  method Look(n: MbNode, stride: nat, step: nat, limit: nat, org_limit: nat, mask0: nat, longest0: Hop,
              ghost t: Tree, ghost rules: Rules, ghost r: nat, ghost key: Path, ghost d: nat)
    returns (final_mask: nat, longest: Hop)
    requires d + STRIDE <= |key| && Loc(r, key[..d]) in t && n == t[Loc(r, key[..d])]
        && NodeHolds(t, rules, Loc(r, key[..d]), BodyOf(n))
    requires stride == Value(key[d..d + STRIDE]) && d == step * STRIDE && limit == org_limit - d && limit > 0
    requires Found(rules, r, key, d, mask0, longest0)
    ensures Found(rules, r, key, Min(d + STRIDE, org_limit), final_mask, longest)
  {
    final_mask, longest := mask0, longest0;
    var limit_inside := if limit > STRIDE then STRIDE else limit;
    FoundHere(t, rules, r, key, d, BodyOf(n), limit_inside - 1, mask0, longest0);
    var pos, mask := FindOverlapInNode(n.internal, stride, limit_inside, key[d..d + STRIDE]);
    if pos != -1 {
      var curr_mask := step * STRIDE + mask;
      if curr_mask < org_limit {
        final_mask := curr_mask;
        longest := n.RuleNo(CountOnes(n.internal, pos));
      }
    }
  }

  /** One turn of the loop: the look into the node, and the child on the way on. */
  method Turn(n: MbNode, ip: Path, step: nat, limit: nat, org_limit: nat, mask0: nat, longest0: Hop,
              ghost t: Tree, ghost rules: Rules, ghost r: nat, ghost key: Path, ghost d: nat)
    returns (child: MbNode?, final_mask: nat, longest: Hop)
    requires Arrived(t, rules, r, key, n, ip, d) && AllHold(t, View(t), rules) && ZeroTail(key)
    requires d == step * STRIDE && limit == org_limit - d && limit > 0 && org_limit <= LENGTH
    requires Found(rules, r, key, d, mask0, longest0)
    ensures child != null ==>
              && Arrived(t, rules, r, key, child, ip[STRIDE..] + Zeros(STRIDE), d + STRIDE)
              && Found(rules, r, key, Min(d + STRIDE, org_limit), final_mask, longest)
    ensures child == null ==> Found(rules, r, key, org_limit, final_mask, longest)
  {
    var stride;
    child, stride := Follow(n, ip, t, rules, r, key, d);
    final_mask, longest :=
      Look(n, stride, step, limit, org_limit, mask0, longest0, t, rules, r, key, d);
    if child == null && d + STRIDE <= org_limit {
      FoundAll(t, rules, r, key, d, org_limit, final_mask, longest);
    }
  }

  /** detect_overlap: the longest rule shorter than the prefix and than the bits of the front array. */
  method DetectOverlap(node: MbNode, ip0: Path, cidr: nat, leaf_pushing_bits: nat, ghost t: Tree, ghost rules: Rules,
                       ghost r: nat)
    returns (final_mask: nat, nhi_over: Hop)
    requires Shape(t, rules) && AllHold(t, View(t), rules) && Loc(r, []) in t && node == t[Loc(r, [])]
    requires |ip0| == LENGTH && 0 < cidr && 0 < leaf_pushing_bits <= LENGTH
    ensures Found(rules, r, ip0, Min(cidr, leaf_pushing_bits), final_mask, nhi_over)
  {
    ghost var key := Padded(ip0);
    ghost var d: nat := 0;
    PaddedZeros(ip0);
    assert key[..0] == [];
    var n: MbNode, ip, step := node, ip0, 0;
    final_mask, nhi_over := 0, 0;
    var limit := if cidr > leaf_pushing_bits then leaf_pushing_bits else cidr;
    var org_limit := limit;
    while limit > 0
      invariant Arrived(t, rules, r, key, n, ip, d) && d == step * STRIDE && limit == org_limit - d
      invariant Found(rules, r, key, Min(d, org_limit), final_mask, nhi_over)
    {
      var child;
      child, final_mask, nhi_over := Turn(n, ip, step, limit, org_limit, final_mask, nhi_over, t, rules, r, key, d);
      limit := limit - STRIDE;
      step := step + 1;
      if child != null {
        n := child;
        ip := ip[STRIDE..] + Zeros(STRIDE);
        d := d + STRIDE;
      } else {
        break;
      }
    }
    FoundSame(rules, r, ip0, org_limit, final_mask, nhi_over);
  }

  lemma {:induction false} FoundSame(rules: Rules, r: nat, ip: Path, m: nat, mask: nat, longest: Hop)
    requires |ip| == LENGTH && 0 < m <= LENGTH && Found(rules, r, Padded(ip), m, mask, longest)
    ensures Found(rules, r, ip, m, mask, longest)
  {
    assert Padded(ip)[..m - 1] == ip[..m - 1] by { assert Padded(ip)[..LENGTH][..m - 1] == ip[..m - 1]; }
    BestSame(rules, r, Padded(ip), ip, m - 1);
  }
}
