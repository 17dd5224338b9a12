/** Longest-prefix-match forwarding over a set of routes. */
module Forwarding {
  // The rule is that of section 5.2.4.3 of RFC 1812; what matters besides is where forwarding is constant.

  import opened Bits

  const KEYLENGTH: nat := 32
  const STRIDE: nat := 6
  const SLOTS: nat := 64

  /** The live routes: prefix |-> FIB index. */
  type Routes = map<Path, nat>

  predicate Extends(a: Path, p: Path) {
    |p| <= |a| && a[..|p|] == p
  }

  /** The FIB index of the longest route that is a prefix of a, or 0. */
  function Fwd(rib: Routes, a: Path): nat {
    if a in rib then rib[a]
    else if a == [] then 0
    else Fwd(rib, a[..|a| - 1])
  }

  /** p is the longest route that is a prefix of a. */
  ghost predicate LongestMatch(rib: Routes, a: Path, p: Path) {
    && p in rib && Extends(a, p)
    && forall w :: w in rib && Extends(a, w) ==> |w| <= |p|
  }

  ghost predicate NoMatch(rib: Routes, a: Path) {
    forall w :: w in rib ==> !Extends(a, w)
  }

  /** Fwd is the longest-match rule. */
  lemma {:induction false} FwdIsLongestMatch(rib: Routes, a: Path)
    ensures forall p :: LongestMatch(rib, a, p) ==> Fwd(rib, a) == rib[p]
    ensures NoMatch(rib, a) ==> Fwd(rib, a) == 0
  {
    if a in rib {
      assert Extends(a, a);
      forall p | LongestMatch(rib, a, p) ensures p == a {
      }
    } else if a != [] {
      var b := a[..|a| - 1];
      FwdIsLongestMatch(rib, b);
      assert forall w :: Extends(b, w) ==> Extends(a, w);
      forall p | LongestMatch(rib, a, p) ensures LongestMatch(rib, b, p) {
        assert p != a;
        assert Extends(b, p);
      }
    }
  }

  /** No route strictly below p is a prefix of a. */
  ghost predicate NoneBetween(rib: Routes, p: Path, a: Path) {
    forall w :: w in rib && |p| < |w| ==> !Extends(a, w)
  }

  lemma {:induction false} FwdSkip(rib: Routes, p: Path, a: Path)
    requires Extends(a, p) && NoneBetween(rib, p, a)
    ensures Fwd(rib, a) == Fwd(rib, p)
  {
    if |a| > |p| {
      assert Extends(a, a);
      var b := a[..|a| - 1];
      forall w | w in rib && |p| < |w| ensures !Extends(b, w) {
        assert Extends(b, w) ==> Extends(a, w);
      }
      FwdSkip(rib, p, b);
    } else {
      assert a == p;
    }
  }

  // ---------- adding a route ----------

  /** Of the routes that cover a, none is strictly more specific than v, and v covers a. */
  ghost predicate Owns(rib: Routes, v: Path, a: Path) {
    Extends(a, v) && NoneBetween(rib, v, a)
  }

  /** A new route v takes over exactly the addresses it covers and no more specific route covers. */
  lemma {:induction false} FwdAdd(rib: Routes, v: Path, n: nat, a: Path)
    requires v !in rib
    ensures Fwd(rib[v := n], a) == if Owns(rib, v, a) then n else Fwd(rib, a)
  {
    var rib' := rib[v := n];
    if Extends(a, v) {
      if NoneBetween(rib, v, a) {
        FwdSkip(rib', v, a);
      } else {
        var w :| w in rib && |v| < |w| && Extends(a, w);
        FwdAddBelow(rib, v, n, w, a);
      }
    } else {
      FwdAddOther(rib, v, n, a);
    }
  }

  lemma {:induction false} FwdAddOther(rib: Routes, v: Path, n: nat, a: Path)
    requires v !in rib && !Extends(a, v)
    ensures Fwd(rib[v := n], a) == Fwd(rib, a)
  {
    assert a != v;
    if a !in rib && a != [] {
      assert Extends(a[..|a| - 1], v) ==> Extends(a, v);
      FwdAddOther(rib, v, n, a[..|a| - 1]);
    }
  }

  lemma {:induction false} FwdAddBelow(rib: Routes, v: Path, n: nat, w: Path, a: Path)
    requires v !in rib && w in rib && |v| < |w| && Extends(a, w)
    ensures Fwd(rib[v := n], a) == Fwd(rib, a)
  {
    assert a != v;
    if a !in rib {
      assert a != w;
      assert Extends(a[..|a| - 1], w);
      FwdAddBelow(rib, v, n, w, a[..|a| - 1]);
    }
  }

  // ---------- constant parts of the address space ----------

  function Last(p: Path): (a: Path)
    requires |p| <= KEYLENGTH
    ensures |a| == KEYLENGTH
  {
    p + Zeros(KEYLENGTH - |p|)
  }

  /** The next hop of the lowest address under p. */
  function Val(rib: Routes, p: Path): nat
    requires |p| <= KEYLENGTH
  {
    Fwd(rib, Last(p))
  }

  /** a is an address under p. */
  predicate Under(a: Path, p: Path) {
    |a| == KEYLENGTH && Extends(a, p)
  }

  /** Every address under p has the same next hop. */
  ghost predicate Constant(rib: Routes, p: Path)
    requires |p| <= KEYLENGTH
  {
    forall a :: Under(a, p) ==> Fwd(rib, a) == Val(rib, p)
  }

  /** Both route sets forward every address under p alike. */
  ghost predicate Same(rib: Routes, rib': Routes, p: Path) {
    forall a :: Under(a, p) ==> Fwd(rib, a) == Fwd(rib', a)
  }

  lemma {:induction false} LastUnder(p: Path)
    requires |p| <= KEYLENGTH
    ensures Under(Last(p), p)
  {
  }

  lemma {:induction false} SameConstant(rib: Routes, rib': Routes, p: Path)
    requires |p| <= KEYLENGTH && Same(rib, rib', p)
    ensures Constant(rib, p) <==> Constant(rib', p)
    ensures Val(rib, p) == Val(rib', p)
  {
    LastUnder(p);
  }

  lemma {:induction false} SameBelow(rib: Routes, rib': Routes, p: Path, s: Path)
    requires Same(rib, rib', p)
    ensures Same(rib, rib', p + s)
  {
    forall a | Under(a, p + s) ensures Under(a, p) {
      UnderBelow(a, p, s);
    }
  }

  lemma {:induction false} UnderBelow(a: Path, p: Path, s: Path)
    requires Under(a, p + s)
    ensures Under(a, p)
  {
    assert a[..|p|] == a[..|p + s|][..|p|] == p;
  }

  lemma {:induction false} ConstantBelow(rib: Routes, p: Path, s: Path)
    requires |p + s| <= KEYLENGTH && Constant(rib, p)
    ensures Constant(rib, p + s) && Val(rib, p + s) == Val(rib, p)
  {
    LastUnder(p + s);
    UnderBelow(Last(p + s), p, s);
    forall a | Under(a, p + s) ensures Fwd(rib, a) == Val(rib, p) {
      UnderBelow(a, p, s);
    }
  }

  /** Two prefixes of one key are prefixes of each other. */
  lemma {:induction false} PrefixesNested(a: Path, p: Path, w: Path)
    ensures Extends(a, p) && Extends(a, w) && |p| <= |w| ==> Extends(w, p)
  {
    if Extends(a, p) && Extends(a, w) && |p| <= |w| {
      assert a[..|w|][..|p|] == a[..|p|];
    }
  }

  /** Without routes strictly below p, the next hop under p is that of p. */
  lemma {:induction false} NothingBelow(rib: Routes, p: Path)
    requires |p| <= KEYLENGTH
    requires forall w :: w in rib && Extends(w, p) ==> w == p
    ensures Constant(rib, p) && Val(rib, p) == Fwd(rib, p)
  {
    forall a | Under(a, p) ensures Fwd(rib, a) == Fwd(rib, p) {
      forall w | w in rib && |p| < |w| ensures !Extends(a, w) {
        PrefixesNested(a, p, w);
      }
      FwdSkip(rib, p, a);
    }
    LastUnder(p);
  }

  // ---------- the 64 slots of a node ----------

  /** The path of slot i of the node at p. */
  function Slot(p: Path, i: nat): (q: Path)
    requires i < SLOTS
    ensures |q| == |p| + STRIDE
  {
    assert Pow2(6) == 64;
    p + ToBits(i, STRIDE)
  }

  /** The slot of the node at p through which a is reached. */
  function SlotOf(a: Path, d: nat): (i: nat)
    requires d + STRIDE <= |a|
    ensures i < SLOTS
  {
    assert Pow2(6) == 64;
    Value(a[d..d + STRIDE])
  }

  lemma {:induction false} SlotUnder(a: Path, p: Path, i: nat)
    requires i < SLOTS && Extends(a, p) && |p| + STRIDE <= |a|
    ensures Extends(a, Slot(p, i)) <==> i == SlotOf(a, |p|)
  {
    var s := a[|p|..|p| + STRIDE];
    assert a[..|p| + STRIDE] == p + s;
    ToBitsValue(s);
    ValueToBits(i, STRIDE);
    if Extends(a, Slot(p, i)) {
      assert (p + ToBits(i, STRIDE))[|p|..] == ToBits(i, STRIDE);
      assert (p + s)[|p|..] == s;
    }
  }

  lemma {:induction false} SlotExtends(p: Path, i: nat)
    requires i < SLOTS
    ensures Extends(Slot(p, i), p)
  {
  }

  lemma {:induction false} ExtendsTrans(a: Path, b: Path, c: Path)
    requires Extends(a, b) && Extends(b, c)
    ensures Extends(a, c)
  {
    assert a[..|c|] == a[..|b|][..|c|];
  }

  /** p is constant exactly when all its slots are, with one value. */
  lemma {:induction false} SlotsConstant(rib: Routes, p: Path)
    requires |p| + STRIDE <= KEYLENGTH
    ensures Constant(rib, p) <==>
            forall i :: 0 <= i < SLOTS ==> Constant(rib, Slot(p, i)) && Val(rib, Slot(p, i)) == Val(rib, Slot(p, 0))
    ensures Constant(rib, p) ==> forall i :: 0 <= i < SLOTS ==> Val(rib, Slot(p, i)) == Val(rib, p)
  {
    if Constant(rib, p) {
      forall i | 0 <= i < SLOTS ensures Constant(rib, Slot(p, i)) && Val(rib, Slot(p, i)) == Val(rib, p) {
        ConstantBelow(rib, p, ToBits(i, STRIDE));
      }
    }
    if forall i :: 0 <= i < SLOTS ==> Constant(rib, Slot(p, i)) && Val(rib, Slot(p, i)) == Val(rib, Slot(p, 0)) {
      forall a | Under(a, p) ensures Fwd(rib, a) == Val(rib, Slot(p, 0)) {
        SlotUnder(a, p, SlotOf(a, |p|));
        assert Under(a, Slot(p, SlotOf(a, |p|)));
      }
      LastUnder(p);
    }
  }
}
