/**
 * Limb arithmetic shared by every part of the bignum engine: the base
 * 2^24, powers, and the abstraction function `Eval` that reads a
 * little-endian sequence of limbs as the natural number
 * sum of s[i] * 2^(24*i).
 */
module Limbs {

  const BaseBits: nat := 24
  const Base: nat := 16777216   // 2^24, `baseN`
  const BaseMask: nat := 16777215

  function Min(a: int, b: int): int { if a < b then a else b }
  function Max(a: int, b: int): int { if a < b then b else a }

  /** Three-way comparison of two integers, as -1, 0 or 1. */
  function Cmp(x: int, y: int): int { if x < y then -1 else if x == y then 0 else 1 }

  function Pow(b: int, e: nat): (r: int)
    ensures b > 0 ==> r > 0
  {
    if e == 0 then 1 else b * Pow(b, e - 1)
  }

  lemma {:induction false} PowAdd(b: int, e1: nat, e2: nat)
    ensures Pow(b, e1 + e2) == Pow(b, e1) * Pow(b, e2)
  {
    if e2 > 0 {
      PowAdd(b, e1, e2 - 1);
      var x, y := Pow(b, e1), Pow(b, e2 - 1);
      assert Pow(b, e1 + e2) == b * Pow(b, e1 + e2 - 1) == b * (x * y);
      MulAssoc(b, x, y);
      MulComm(b, x);
      MulAssoc(x, b, y);
      assert Pow(b, e2) == b * y;
    }
  }

  lemma {:induction false} PowMul(b: int, e1: nat, e2: nat)
    ensures Pow(b, e1 * e2) == Pow(Pow(b, e1), e2)
  {
    if e2 > 0 {
      PowMul(b, e1, e2 - 1);
      PowAdd(b, e1, e1 * (e2 - 1));
      assert e1 + e1 * (e2 - 1) == e1 * e2;
    }
  }

  lemma {:induction false} PowMonotone(b: int, e1: nat, e2: nat)
    requires b >= 1 && e1 <= e2
    ensures 1 <= Pow(b, e1) <= Pow(b, e2)
  {
    if e2 > e1 {
      PowMonotone(b, e1, e2 - 1);
    } else {
    }
  }

  lemma {:induction false} PowStrict(b: int, e1: nat, e2: nat)
    requires b >= 2 && e1 < e2
    ensures Pow(b, e1) < Pow(b, e2)
  {
    PowMonotone(b, e1, e2 - 1);
  }

  /** Powers of the limb base are powers of two. */
  lemma BasePowIsTwoPow(i: nat)
    ensures Pow(Base, i) == Pow(2, BaseBits * i)
  {
    PowAdd(2, 3, 3);
    PowAdd(2, 6, 6);
    PowAdd(2, 12, 12);
    PowMul(2, 24, i);
  }

  // The steps of nonlinear arithmetic below are stated once and called by
  // name, so that each proof that needs one hands it to the solver directly.

  /** A product of non-negative factors is non-negative. */
  lemma MulNonNeg(a: int, b: int)
    requires 0 <= a && 0 <= b
    ensures 0 <= a * b
  {
  }

  lemma MulComm(a: int, b: int)
    ensures a * b == b * a
  {
  }

  lemma MulAssoc(a: int, b: int, c: int)
    ensures a * b * c == a * (b * c)
  {
  }

  lemma RightDistrib(a: int, b: int, c: int)
    ensures (a + b) * c == a * c + b * c
  {
  }

  /** a <= b scales to a * c <= b * c for c >= 0. */
  lemma MulLeMono(a: int, b: int, c: int)
    requires a <= b && 0 <= c
    ensures a * c <= b * c
  {
  }

  ghost predicate IsLimbs(s: seq<int>)
  {
    forall i :: 0 <= i < |s| ==> 0 <= s[i] < Base
  }

  /** The value of a little-endian limb sequence. */
  function Eval(s: seq<int>): int
  {
    if |s| == 0 then 0 else Eval(s[..|s| - 1]) + s[|s| - 1] * Pow(Base, |s| - 1)
  }

  /** Limb `i` of `s`, with missing limbs read as zero. */
  function Digit(s: seq<int>, i: int): int
  {
    if 0 <= i < |s| then s[i] else 0
  }

  /** The value of the limbs of `s` below position `i`. */
  function EvalUpTo(s: seq<int>, i: nat): int
  {
    Eval(s[..Min(i, |s|)])
  }

  lemma {:induction false} EvalBounds(s: seq<int>)
    requires IsLimbs(s)
    ensures 0 <= Eval(s) < Pow(Base, |s|)
  {
    if |s| > 0 {
      var n := |s| - 1;
      var P := Pow(Base, n);
      EvalBounds(s[..n]);
      MulLeMono(s[n], Base - 1, P);
      MulLeMono(0, s[n], P);
      assert P + (Base - 1) * P == Base * P;
    }
  }

  /** Appending a limb adds it at weight Base^|s|. */
  lemma EvalAppend(s: seq<int>, x: int)
    ensures Eval(s + [x]) == Eval(s) + x * Pow(Base, |s|)
  {
    assert (s + [x])[..|s|] == s;
  }

  /** A sequence whose top limb is nonzero is at least Base^(|s|-1). */
  lemma EvalTop(s: seq<int>)
    requires IsLimbs(s) && |s| > 0 && s[|s| - 1] != 0
    ensures Pow(Base, |s| - 1) <= Eval(s)
  {
    var P := Pow(Base, |s| - 1);
    EvalBounds(s[..|s| - 1]);
    MulLeMono(1, s[|s| - 1], P);
  }

  lemma {:induction false} EvalAllZero(s: seq<int>)
    requires forall i :: 0 <= i < |s| ==> s[i] == 0
    ensures Eval(s) == 0
  {
    if |s| > 0 {
      EvalAllZero(s[..|s| - 1]);
    }
  }

  /** Splitting a limb sequence at position k splits its value. */
  lemma {:induction false} EvalSplit(s: seq<int>, k: nat)
    requires k <= |s|
    ensures Eval(s) == Eval(s[..k]) + Pow(Base, k) * Eval(s[k..])
  {
    if k == |s| {
      assert s[..k] == s;
      assert s[k..] == [];
    } else {
      var n := |s| - 1;
      EvalSplit(s[..n], k);
      assert s[..n][..k] == s[..k];
      var t := s[k..];
      assert s[..n][k..] == t[..|t| - 1];
      assert t[|t| - 1] == s[n];
      PowAdd(Base, k, n - k);
      SplitAlgebra(Eval(s), Eval(s[..n]), Eval(s[..k]), Eval(t[..|t| - 1]), Eval(t), Pow(Base, k), Pow(Base, n - k), s[n]);
    }
  }

  lemma SplitAlgebra(e: int, eInit: int, a: int, x: int, et: int, p: int, q: int, d: int)
    requires e == eInit + d * (p * q) && eInit == a + p * x && et == x + d * q
    ensures e == a + p * et
  {
    assert d * (p * q) == p * (d * q);
  }

  /** Limbs above position b that are all zero do not contribute. */
  lemma EvalTrimZeros(s: seq<int>, b: nat)
    requires b <= |s|
    requires forall i :: b <= i < |s| ==> s[i] == 0
    ensures Eval(s) == Eval(s[..b])
  {
    EvalSplit(s, b);
    EvalAllZero(s[b..]);
  }

  lemma EvalCons(s: seq<int>)
    requires |s| > 0
    ensures Eval(s) == s[0] + Base * Eval(s[1..])
  {
    EvalSplit(s, 1);
    assert s[..1][..0] == [];
  }

  /** Prefixing d zero limbs multiplies by Base^d. */
  lemma EvalShift(d: nat, s: seq<int>)
    ensures Eval(seq(d, _ => 0) + s) == Eval(s) * Pow(Base, d)
  {
    var z := seq(d, _ => 0) + s;
    EvalSplit(z, d);
    assert z[..d] == seq(d, _ => 0);
    assert z[d..] == s;
    EvalAllZero(seq(d, _ => 0));
    assert Eval(z) == Pow(Base, d) * Eval(s);
    MulComm(Pow(Base, d), Eval(s));
  }

  /** Overwriting limb k changes the value by the difference at weight Base^k. */
  lemma {:induction false} EvalUpdate(s: seq<int>, k: nat, v: int)
    requires k < |s|
    ensures Eval(s[k := v]) == Eval(s) + (v - s[k]) * Pow(Base, k)
  {
    var n := |s| - 1;
    if k == n {
      assert s[k := v][..n] == s[..n];
    } else {
      EvalUpdate(s[..n], k, v);
      assert s[k := v][..n] == s[..n][k := v];
    }
  }

  /** Reading past the end of a sequence gives its whole value. */
  lemma EvalUpToAll(s: seq<int>, i: nat)
    requires |s| <= i
    ensures EvalUpTo(s, i) == Eval(s)
  {
    assert s[..|s|] == s;
  }

  lemma EvalUpToStep(s: seq<int>, i: nat)
    ensures EvalUpTo(s, i + 1) == EvalUpTo(s, i) + Digit(s, i) * Pow(Base, i)
  {
    if i < |s| {
      assert s[..i + 1][..i] == s[..i];
    }
  }

  lemma EvalUpToBounds(s: seq<int>, i: nat)
    requires IsLimbs(s)
    ensures 0 <= EvalUpTo(s, i) < Pow(Base, i)
  {
    EvalBounds(s[..Min(i, |s|)]);
    PowMonotone(Base, Min(i, |s|), i);
  }

  /** A carry step: a limb and its carry hold exactly the digit sum. */
  lemma CarryStep(x: int, k: nat)
    ensures (x % Base) * Pow(Base, k) + (x / Base) * Pow(Base, k + 1) == x * Pow(Base, k)
  {
    var P := Pow(Base, k);
    assert Pow(Base, k + 1) == Base * P;
    assert x == (x % Base) + Base * (x / Base);
    calc {
      (x % Base) * P + (x / Base) * (Base * P);
      ((x % Base) + Base * (x / Base)) * P;
      x * P;
    }
  }

  /**
   * Comparing two limb sequences of the same length from the top:
   * the top limbs decide unless they are equal.
   */
  lemma CmpStep(s: seq<int>, t: seq<int>)
    requires |s| == |t| > 0 && IsLimbs(s) && IsLimbs(t)
    ensures s[|s| - 1] < t[|t| - 1] ==> Eval(s) < Eval(t)
    ensures s[|s| - 1] == t[|t| - 1] ==> Eval(s) - Eval(t) == Eval(s[..|s| - 1]) - Eval(t[..|t| - 1])
  {
    var n := |s| - 1;
    var P := Pow(Base, n);
    EvalBounds(s[..n]);
    EvalBounds(t[..n]);
    assert Eval(s) == Eval(s[..n]) + s[n] * P;
    assert Eval(t) == Eval(t[..n]) + t[n] * P;
    if s[n] < t[n] {
      MulLeMono(s[n] + 1, t[n], P);
      assert (s[n] + 1) * P == s[n] * P + P;
    }
  }

  /** Equal-length limb sequences with the same value are equal. */
  lemma {:induction false} EvalInjective(s: seq<int>, t: seq<int>)
    requires |s| == |t| && IsLimbs(s) && IsLimbs(t) && Eval(s) == Eval(t)
    ensures s == t
  {
    if |s| > 0 {
      var n := |s| - 1;
      CmpStep(s, t);
      CmpStep(t, s);
      assert s[n] == t[n];
      assert Eval(s[..n]) == Eval(t[..n]);
      EvalInjective(s[..n], t[..n]);
      assert s == s[..n] + [s[n]];
      assert t == t[..n] + [t[n]];
    }
  }

  /** Normalised limb sequences of different lengths have different values. */
  lemma EvalLengthOrder(s: seq<int>, t: seq<int>)
    requires IsLimbs(s) && IsLimbs(t) && |s| < |t| && t[|t| - 1] != 0
    ensures Eval(s) < Eval(t)
  {
    EvalBounds(s);
    EvalTop(t);
    PowMonotone(Base, |s|, |t| - 1);
  }

  /** A value split as lo + P * hi with lo < P has quotient hi and remainder lo. */
  lemma DivModUnique(v: int, lo: int, hi: int, p: int)
    requires 0 <= lo < p && v == lo + p * hi
    ensures v / p == hi && v % p == lo
  {
    var q, r := v / p, v % p;
    assert v == q * p + r;
    var e := hi - q;
    assert p * e == r - lo;
    if e >= 1 {
      MulLeMono(1, e, p);
    } else if e <= -1 {
      MulLeMono(e, -1, p);
    }
  }

  /** Square-and-multiply steps: (x*x)^k = x^(2k). */
  lemma {:induction false} PowSquare(x: int, k: nat)
    ensures Pow(x * x, k) == Pow(x, 2 * k)
  {
    if k > 0 {
      PowSquare(x, k - 1);
      assert Pow(x, 2 * k) == x * (x * Pow(x, 2 * (k - 1)));
    }
  }

  /** Adding the next limb of y to y % Base^i gives y % Base^(i+1). */
  lemma ModPowStep(y: int, i: nat)
    ensures y % Pow(Base, i) + ((y / Pow(Base, i)) % Base) * Pow(Base, i) == y % Pow(Base, i + 1)
  {
    var P := Pow(Base, i);
    var q, r := y / P, y % P;
    assert y == q * P + r;
    var hi, lo := q / Base, q % Base;
    assert q == hi * Base + lo;
    assert Pow(Base, i + 1) == Base * P;
    MulLeMono(lo, Base - 1, P);
    assert y == lo * P + r + (Base * P) * hi by {
      assert q * P == (hi * Base + lo) * P;
      assert (hi * Base + lo) * P == (Base * P) * hi + lo * P;
    }
    DivModUnique(y, lo * P + r, hi, Base * P);
  }

  /** A value below Base^n is its own remainder modulo Base^n. */
  lemma ModPowSmall(y: int, n: nat)
    requires 0 <= y < Pow(Base, n)
    ensures y % Pow(Base, n) == y
  {
    DivModUnique(y, y, 0, Pow(Base, n));
  }

  /** Cutting a limb sequence at position k takes its value modulo Base^k. */
  lemma EvalPrefixMod(s: seq<int>, k: nat)
    requires IsLimbs(s) && k <= |s|
    ensures Eval(s[..k]) == Eval(s) % Pow(Base, k)
    ensures Eval(s[k..]) == Eval(s) / Pow(Base, k)
  {
    EvalSplit(s, k);
    EvalBounds(s[..k]);
    DivModUnique(Eval(s), Eval(s[..k]), Eval(s[k..]), Pow(Base, k));
  }

  /**
   * Square-and-multiply exponentiation, the shape shared by `pow32` and
   * `pow64`, computed exactly: every use in the engine stays inside the
   * 32-bit or 64-bit range, so the wrap-around never applies.
   */
  function PowBySquaring(x: int, n: nat): (r: int)
    decreases n
    ensures r == Pow(x, n)
  {
    if n == 0 then 1
    else if n % 2 == 0 then
      PowSquare(x, n / 2);
      PowBySquaring(x * x, n / 2)
    else
      PowSquare(x, n / 2);
      x * PowBySquaring(x * x, n / 2)
  }

  /**
   * Comparing equal-length limb sequences from the top limb down: the top
   * limbs decide unless they agree, and then the rest decides.
   */
  lemma CmpTop(s: seq<int>, t: seq<int>)
    requires |s| == |t| > 0 && IsLimbs(s) && IsLimbs(t)
    ensures Cmp(Eval(s), Eval(t)) ==
      if s[|s| - 1] == t[|t| - 1] then Cmp(Eval(s[..|s| - 1]), Eval(t[..|t| - 1]))
      else if s[|s| - 1] < t[|t| - 1] then -1 else 1
  {
    CmpStep(s, t);
    CmpStep(t, s);
  }
}
