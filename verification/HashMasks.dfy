/** Hash values, masks and buckets of the hash map. */
module HashMasks {
  import opened Bits

  /** The width of size_t. */
  const SIZE: nat := 64

  function Band(a: Path, b: Path): (r: Path)
    requires |a| == |b|
    ensures |r| == |a| && forall i :: 0 <= i < |a| ==> (r[i] <==> a[i] && b[i])
  {
    seq(|a|, i requires 0 <= i < |a| => a[i] && b[i])
  }

  function Bor(a: Path, b: Path): (r: Path)
    requires |a| == |b|
    ensures |r| == |a| && forall i :: 0 <= i < |a| ==> (r[i] <==> a[i] || b[i])
  {
    seq(|a|, i requires 0 <= i < |a| => a[i] || b[i])
  }

  /** v >> k */
  function Shifted(v: Path, k: nat): (r: Path)
    requires k <= |v|
    ensures |r| == |v| && forall i :: 0 <= i < |v| ==> (r[i] <==> i >= k && v[i - k])
  {
    Zeros(k) + v[..|v| - k]
  }

  lemma {:induction false} BandAtMost(a: Path, b: Path)
    requires |a| == |b|
    ensures Value(Band(a, b)) <= Value(b)
  {
    if a != [] {
      BandAtMost(a[1..], b[1..]);
      assert Band(a, b)[1..] == Band(a[1..], b[1..]);
    }
  }

  /** hash & mask */
  function Bucket(hash: Path, mask: nat): (r: nat)
    requires |hash| == SIZE && mask < Pow2(SIZE)
    ensures r <= mask
  {
    BandAtMost(hash, ToBits(mask, SIZE));
    ValueToBits(mask, SIZE);
    Value(Band(hash, ToBits(mask, SIZE)))
  }

  // ---------- calc_mask ----------

  /** 0, or 2^k - 1 for some k from 2 on. */
  ghost predicate IsMask(mask: nat) {
    mask == 0 || exists k: nat :: 2 <= k < SIZE && mask == Pow2(k) - 1
  }

  /** Bit i of v says whether one of the w bits of u that end at bit i is set. */
  ghost predicate Smeared(u: Path, v: Path, w: nat) {
    |v| == |u| && forall i :: 0 <= i < |u| ==> (v[i] <==> Within(u, i, w))
  }

  ghost predicate Within(u: Path, i: nat, w: nat)
    requires i < |u|
  {
    exists j :: i - w < j <= i && 0 <= j && u[j]
  }

  lemma {:induction false} SmearStep(u: Path, v: Path, w: nat)
    requires Smeared(u, v, w) && 0 < w <= |u|
    ensures Smeared(u, Bor(v, Shifted(v, w)), w + w)
  {
    var v' := Bor(v, Shifted(v, w));
    forall i | 0 <= i < |u| ensures v'[i] <==> Within(u, i, w + w) {
      if v[i] {
        var j :| i - w < j <= i && 0 <= j && u[j];
        assert Within(u, i, w + w);
      }
      if i >= w && v[i - w] {
        var j :| i - w - w < j <= i - w && 0 <= j && u[j];
        assert Within(u, i, w + w);
      }
      if Within(u, i, w + w) {
        var j :| i - (w + w) < j <= i && 0 <= j && u[j];
        if j > i - w { assert Within(u, i, w); } else { assert Within(u, i - w, w); }
      }
    }
  }

  function Ones(n: nat): (s: Path)
    ensures |s| == n && forall i :: 0 <= i < n ==> s[i]
  {
    seq(n, _ => true)
  }

  lemma {:induction false} ValueOnes(a: nat, k: nat)
    ensures Value(Zeros(a) + Ones(k)) == Pow2(k) - 1
  {
    var s := Zeros(a) + Ones(k);
    if a > 0 {
      ValueOnes(a - 1, k);
      assert s[1..] == Zeros(a - 1) + Ones(k);
    } else if k > 0 {
      ValueOnes(0, k - 1);
      assert s[1..] == Zeros(0) + Ones(k - 1);
    }
  }

  /** The number of leading zeros. */
  function Leading(u: Path): (a: nat)
    ensures a <= |u| && (forall i :: 0 <= i < a ==> !u[i]) && (a < |u| ==> u[a])
  {
    if u == [] || u[0] then 0 else Leading(u[1..]) + 1
  }

  lemma {:induction false} LeadingRange(u: Path)
    ensures Value(u) < Pow2(|u| - Leading(u))
    ensures Leading(u) < |u| ==> Value(u) >= Pow2(|u| - Leading(u) - 1)
  {
    if u != [] && !u[0] { LeadingRange(u[1..]); }
  }

  /** When all bits are smeared, ones follow the leading zeros. */
  lemma {:induction false} SmearedAll(u: Path, v: Path, w: nat)
    requires Smeared(u, v, w) && w >= |u|
    ensures v == Zeros(Leading(u)) + Ones(|u| - Leading(u))
  {
    var a := Leading(u);
    forall i | 0 <= i < |u| ensures v[i] <==> i >= a {
      if i >= a { assert u[a]; assert Within(u, i, w); }
    }
  }

  /** mask |= mask >> 1, 2, 4, 8, 16, 32 */
  method Smear(u: Path) returns (v: Path)
    requires |u| == SIZE
    ensures v == Zeros(Leading(u)) + Ones(SIZE - Leading(u))
  {
    v := u;
    assert Smeared(u, v, 1);
    SmearStep(u, v, 1);
    v := Bor(v, Shifted(v, 1));
    SmearStep(u, v, 2);
    v := Bor(v, Shifted(v, 2));
    SmearStep(u, v, 4);
    v := Bor(v, Shifted(v, 4));
    SmearStep(u, v, 8);
    v := Bor(v, Shifted(v, 8));
    SmearStep(u, v, 16);
    v := Bor(v, Shifted(v, 16));
    SmearStep(u, v, 32);
    v := Bor(v, Shifted(v, 32));
    SmearedAll(u, v, SIZE);
  }

  /** mask is the least one that is at least h. */
  ghost predicate IsLeast(mask: nat, h: nat) {
    IsMask(mask) && h <= mask && forall m: nat :: IsMask(m) && h <= m ==> mask <= m
  }

  /** The least mask from h on. */
  ghost function LeastMask(h: nat): (m: nat)
    requires h < Pow2(SIZE - 1)
    ensures IsLeast(m, h)
  {
    if h == 0 then 0 else MaskFrom(h, 2)
  }

  /** The least mask from h on with at least k ones. */
  ghost function MaskFrom(h: nat, k: nat): (m: nat)
    requires 0 < h < Pow2(SIZE - 1) && 2 <= k < SIZE && forall j: nat :: 2 <= j < k ==> Pow2(j) - 1 < h
    ensures IsLeast(m, h)
    decreases SIZE - k
  {
    if h < Pow2(k) then
      FirstMask(h, k);
      Pow2(k) - 1
    else
      MaskFrom(h, k + 1)
  }

  lemma {:induction false} FirstMask(h: nat, k: nat)
    requires 0 < h < Pow2(k) && 2 <= k < SIZE && forall j: nat :: 2 <= j < k ==> Pow2(j) - 1 < h
    ensures IsLeast(Pow2(k) - 1, h)
  {
    forall m: nat | IsMask(m) && h <= m ensures Pow2(k) - 1 <= m {
      var j: nat :| 2 <= j < SIZE && m == Pow2(j) - 1;
      Pow2Monotone(k, j);
    }
  }

  lemma {:induction false} MaskOrder(k: nat, j: nat)
    requires 2 <= k && 2 <= j
    ensures Pow2(k) - 1 == 2 * (Pow2(k - 1) - 1) + 1
    ensures (j < k ==> Pow2(j) <= Pow2(k - 1)) && (k <= j ==> Pow2(k) <= Pow2(j))
  {
    if j < k { Pow2Monotone(j, k - 1); } else { Pow2Monotone(k, j); }
  }

  /** When half of it will not do, a mask is the least one. */
  lemma {:induction false} LeastIs(mask: nat, h: nat)
    requires IsMask(mask) && h <= mask && (mask == 0 <==> h == 0) && (mask > 3 ==> mask / 2 < h) && h < Pow2(SIZE - 1)
    ensures mask == LeastMask(h)
  {
    var m := LeastMask(h);
    if m > 0 {
      var k: nat :| 2 <= k < SIZE && mask == Pow2(k) - 1;
      var j: nat :| 2 <= j < SIZE && m == Pow2(j) - 1;
      MaskOrder(k, j);
      MaskOrder(j, 2);
      assert Pow2(2) == 4;
    }
  }

  /** calc_mask: the smallest mask for the capacity. */
  method CalcMask(capacity: nat) returns (mask: nat)
    requires capacity < Pow2(SIZE)
    ensures capacity / 2 < Pow2(SIZE - 1) && mask == LeastMask(capacity / 2)
  {
    mask := Rounded(capacity);
    assert Pow2(SIZE) == 2 * Pow2(SIZE - 1);
    LeastIs(mask, capacity / 2);
  }

  method Rounded(capacity: nat) returns (mask: nat)
    requires capacity < Pow2(SIZE)
    ensures IsMask(mask) && capacity / 2 <= mask && (mask == 0 <==> capacity / 2 == 0)
    ensures mask > 3 ==> mask / 2 < capacity / 2
  {
    var u := ToBits(capacity / 2, SIZE);
    ValueToBits(capacity / 2, SIZE);
    var v := Smear(u);
    LeadingRange(u);
    ghost var k := SIZE - Leading(u);
    assert !u[0] by { assert Pow2(SIZE) == 2 * Pow2(SIZE - 1); }
    var w := v[SIZE - 1];
    v := Bor(v, Zeros(SIZE - 2) + [w, false]);
    MaskValue(v, k);
    mask := Value(v);
  }

  /** The last step makes at least two ones of one. */
  lemma {:induction false} MaskValue(v: Path, k: nat)
    requires |v| == SIZE && k < SIZE
    requires v == Bor(Zeros(SIZE - k) + Ones(k), Zeros(SIZE - 2) + [k > 0, false])
    ensures Value(v) == Pow2(if k == 1 then 2 else k) - 1 && IsMask(Value(v))
  {
    var k' := if k == 1 then 2 else k;
    assert v == Zeros(SIZE - k') + Ones(k');
    ValueOnes(SIZE - k', k');
  }

  // ---------- buckets ----------

  lemma {:induction false} BandOnes(h: Path, k: nat)
    requires k <= |h|
    ensures Value(Band(h, Zeros(|h| - k) + Ones(k))) == Value(h[|h| - k..])
  {
    var m := Zeros(|h| - k) + Ones(k);
    if k == |h| {
      assert Band(h, m) == h && h[0..] == h;
    } else {
      BandOnes(h[1..], k);
      assert m[1..] == Zeros(|h| - 1 - k) + Ones(k);
      assert Band(h, m)[1..] == Band(h[1..], m[1..]);
      assert h[1..][|h| - 1 - k..] == h[|h| - k..];
    }
  }

  lemma {:induction false} PowMod(n: nat, k: nat)
    requires k <= n
    ensures Pow2(n) == Pow2(n - k) * Pow2(k)
  {
    if n > k { PowMod(n - 1, k); }
  }

  /** The last k bits are the remainder. */
  lemma {:induction false} ValueParts(h: Path, k: nat) returns (q: nat)
    requires k <= |h|
    ensures Value(h) == q * Pow2(k) + Value(h[|h| - k..])
  {
    if k == |h| {
      q := 0;
      assert h[0..] == h;
    } else {
      var r := ValueParts(h[1..], k);
      assert h[1..][|h| - 1 - k..] == h[|h| - k..];
      PowMod(|h| - 1, k);
      var p := Pow2(|h| - 1 - k);
      q := r + if h[0] then p else 0;
      assert (r + p) * Pow2(k) == r * Pow2(k) + p * Pow2(k);
    }
  }

  lemma {:induction false} MulSign(d: int, m: nat)
    requires 0 < m
    ensures d > 0 ==> d * m >= m
    ensures d < 0 ==> d * m + m <= 0
  {
  }

  lemma {:induction false} Remainder(x: nat, q: nat, m: nat, r: nat)
    requires 0 < m && r < m && x == q * m + r
    ensures x % m == r
  {
    var d: int := q - x / m;
    assert x == (x / m) * m + x % m;
    assert d * m == x % m - r;
    MulSign(d, m);
  }

  /** hash & mask is the remainder of the hash. */
  lemma {:induction false} BucketIs(hash: Path, mask: nat)
    requires |hash| == SIZE && IsMask(mask)
    ensures mask < Pow2(SIZE) && Bucket(hash, mask) == Value(hash) % (mask + 1)
  {
    if mask == 0 {
      BucketOnes(hash, 0);
    } else {
      var k: nat :| 2 <= k < SIZE && mask == Pow2(k) - 1;
      BucketOnes(hash, k);
    }
  }

  lemma {:induction false} BucketOnes(hash: Path, k: nat)
    requires |hash| == SIZE && k < SIZE
    ensures var mask := Pow2(k) - 1; mask < Pow2(SIZE) && Bucket(hash, mask) == Value(hash) % (mask + 1)
  {
    Pow2Monotone(k, SIZE);
    OnesBits(k);
    BandOnes(hash, k);
    var q := ValueParts(hash, k);
    Remainder(Value(hash), q, Pow2(k), Value(hash[SIZE - k..]));
  }

  lemma {:induction false} OnesBits(k: nat)
    requires k < SIZE
    ensures Pow2(k) - 1 < Pow2(SIZE) && ToBits(Pow2(k) - 1, SIZE) == Zeros(SIZE - k) + Ones(k)
  {
    ValueOnes(SIZE - k, k);
    ToBitsValue(Zeros(SIZE - k) + Ones(k));
  }
}
