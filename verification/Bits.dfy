/** Bit strings. */
module Bits {
  // A key or a prefix is a sequence of bits, most significant bit first; a bitmap is a sequence of bits indexed by
  // bit number.

  type Path = seq<bool>

  function Pow2(n: nat): (r: nat)
    ensures r >= 1
  {
    if n == 0 then 1 else 2 * Pow2(n - 1)
  }

  /** The n-bit big-endian representation of i. */
  function ToBits(i: nat, n: nat): (s: Path)
    requires i < Pow2(n)
    ensures |s| == n
  {
    if n == 0 then []
    else if i < Pow2(n - 1) then [false] + ToBits(i, n - 1)
    else [true] + ToBits(i - Pow2(n - 1), n - 1)
  }

  /** The number a bit string denotes. */
  function Value(s: Path): (r: nat)
    ensures r < Pow2(|s|)
  {
    if s == [] then 0
    else (if s[0] then Pow2(|s| - 1) else 0) + Value(s[1..])
  }

  lemma {:induction false} ValueToBits(i: nat, n: nat)
    requires i < Pow2(n)
    ensures Value(ToBits(i, n)) == i
  {
    if n == 0 {
    } else if i < Pow2(n - 1) {
      ValueToBits(i, n - 1);
      assert ToBits(i, n)[1..] == ToBits(i, n - 1);
    } else {
      ValueToBits(i - Pow2(n - 1), n - 1);
      assert ToBits(i, n)[1..] == ToBits(i - Pow2(n - 1), n - 1);
    }
  }

  lemma {:induction false} ToBitsValue(s: Path)
    ensures ToBits(Value(s), |s|) == s
  {
    if s == [] {
    } else {
      ToBitsValue(s[1..]);
      assert s == [s[0]] + s[1..];
    }
  }

  lemma {:induction false} Pow2Monotone(m: nat, n: nat)
    requires m <= n
    ensures Pow2(m) <= Pow2(n)
  {
    if m < n {
      Pow2Monotone(m, n - 1);
    }
  }

  function Zeros(n: nat): (s: Path)
    ensures |s| == n && forall i :: 0 <= i < n ==> !s[i]
  {
    seq(n, _ => false)
  }

  /** popcnt: the number of set bits of a bitmap. */
  function Count(v: seq<bool>): (r: nat)
    ensures r <= |v|
  {
    if v == [] then 0
    else Count(v[..|v| - 1]) + (if v[|v| - 1] then 1 else 0)
  }

  lemma {:induction false} CountAppend(u: seq<bool>, v: seq<bool>)
    ensures Count(u + v) == Count(u) + Count(v)
  {
    if v == [] {
      assert u + v == u;
    } else {
      CountAppend(u, v[..|v| - 1]);
      assert (u + v)[..|u + v| - 1] == u + v[..|v| - 1];
    }
  }

  lemma {:induction false} CountPrefix(v: seq<bool>, i: nat)
    requires i < |v|
    ensures Count(v[..i + 1]) == Count(v[..i]) + (if v[i] then 1 else 0)
  {
    assert v[..i + 1][..i] == v[..i];
  }

  lemma {:induction false} CountMonotone(v: seq<bool>, i: nat, j: nat)
    requires i <= j <= |v|
    ensures Count(v[..i]) <= Count(v[..j])
  {
    CountAppend(v[..i], v[i..j]);
    assert v[..j] == v[..i] + v[i..j];
  }

  lemma {:induction false} ZeroValue(n: nat)
    ensures Value(Zeros(n)) == 0
  {
    if n > 0 {
      ZeroValue(n - 1);
      assert Zeros(n)[1..] == Zeros(n - 1);
    }
  }
}
