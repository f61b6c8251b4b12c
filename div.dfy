/**
 * Long division in `BigNatModule`: subtracting and adding a scaled, shifted
 * number in place, estimating one quotient digit, and `divmod` itself.
 */
module Division {
  import opened Limbs
  import opened BigNats
  import opened Arith
  import opened Results

  /** Limb n of the base-2^24 expansion of v. */
  ghost function DigitAt(v: int, n: nat): int
  {
    (v / Pow(Base, n)) % Base
  }

  /** Euclidean division by a positive divisor. */
  lemma DivModParts(v: int, d: int)
    requires d > 0
    ensures v == d * (v / d) + v % d && 0 <= v % d < d
  {
  }

  /** A power of the base that is smaller than another has the smaller exponent. */
  lemma PowLtIndex(i: nat, j: nat)
    requires Pow(Base, i) < Pow(Base, j)
    ensures i < j
  {
    if i >= j {
      PowMonotone(Base, j, i);
    }
  }

  /** A prefix of a limb sequence is worth at most the whole sequence. */
  lemma EvalUpToLe(s: seq<int>, i: nat)
    requires IsLimbs(s)
    ensures 0 <= EvalUpTo(s, i) <= Eval(s)
  {
    EvalUpToBounds(s, i);
    if i < |s| {
      EvalSplit(s, i);
      assert s[i..] == s[i..];
      EvalBounds(s[i..]);
      MulNonNeg(Pow(Base, i), Eval(s[i..]));
      assert EvalUpTo(s, i) == Eval(s[..i]);
    } else {
      EvalUpToAll(s, i);
    }
  }

  /** f·a·B^n for f >= 1 and a normalised nonzero a is at least B^(degree(a) + n). */
  lemma ScaledLowerBound(f: int, a: BigNat, n: nat)
    requires a.Valid() && a.Normalized() && a.bound > 0 && f >= 1
    ensures Pow(Base, a.bound - 1 + n) <= f * a.Val() * Pow(Base, n)
  {
    var A, W := a.Val(), Pow(Base, n);
    NormalizedRange(a);
    PowAdd(Base, a.bound - 1, n);
    MulLeMono(Pow(Base, a.bound - 1), A, W);
    MulLeMono(1, f, A * W);
    MulAssoc(f, A, W);
  }

  /** The first pending amount of the scaled loops: f·a[0] at weight B^n. */
  lemma ScaleStart(f: int, P: seq<int>, n: nat)
    requires |P| > 0
    ensures f * P[0] * Pow(Base, n) == f * EvalUpTo(P, 1) * Pow(Base, n)
  {
    EvalUpToStep(P, 0);
    assert EvalUpTo(P, 0) == Eval([]);
  }

  /** The amount still to be moved advances by the next limb of a. */
  lemma ScaleTargetStep(f: int, P: seq<int>, j: nat, n: nat)
    ensures f * EvalUpTo(P, j + 1) * Pow(Base, n) + f * Digit(P, j + 1) * Pow(Base, j + 1 + n)
         == f * EvalUpTo(P, j + 2) * Pow(Base, n)
  {
    EvalUpToStep(P, j + 1);
    PowAdd(Base, j + 1, n);
    TargetAlgebra(f, EvalUpTo(P, j + 1), Digit(P, j + 1), Pow(Base, j + 1), Pow(Base, n));
  }

  lemma TargetAlgebra(f: int, e: int, g: int, w1: int, wn: int)
    ensures f * e * wn + f * g * (w1 * wn) == f * (e + g * w1) * wn
  {
  }

  /** One limb of `scaleSubInPlace`: the low limb of z leaves x, the rest moves up. */
  lemma SubDigitStep(E: int, z: int, L: nat, xv: int, nv: int, borrow: int, g: int, target: int)
    requires z >= 0 && E - z * Pow(Base, L) == target
    requires nv == xv - z % Base + borrow * Base
    ensures (E + (nv - xv) * Pow(Base, L)) - (z / Base + borrow + g) * Pow(Base, L + 1) == target - g * Pow(Base, L + 1)
  {
    var W := Pow(Base, L);
    assert Pow(Base, L + 1) == Base * W;
    assert z == z % Base + Base * (z / Base);
    assert (nv - xv) * W == borrow * (Base * W) - (z % Base) * W;
    assert (z / Base + borrow + g) * (Base * W) == (Base * (z / Base)) * W + borrow * (Base * W) + g * (Base * W);
    assert z * W == (z % Base) * W + (Base * (z / Base)) * W;
  }

  /** One limb of `scaleAddInPlace`: the low limb of z joins x, the rest moves up. */
  lemma AddDigitStep(E: int, z: int, L: nat, xv: int, nv: int, carry: int, g: int, target: int)
    requires z >= 0 && E + z * Pow(Base, L) == target
    requires nv == xv + z % Base - carry * Base
    ensures (E + (nv - xv) * Pow(Base, L)) + (z / Base + carry + g) * Pow(Base, L + 1) == target + g * Pow(Base, L + 1)
  {
    var W := Pow(Base, L);
    assert Pow(Base, L + 1) == Base * W;
    assert z == z % Base + Base * (z / Base);
    assert (nv - xv) * W == (z % Base) * W - carry * (Base * W);
    assert (z / Base + carry + g) * (Base * W) == (Base * (z / Base)) * W + carry * (Base * W) + g * (Base * W);
    assert z * W == (z % Base) * W + (Base * (z / Base)) * W;
  }

  /** A positive amount z at weight B^L that fits below B^xb sits at a position below xb. */
  lemma PendingBelow(z: int, L: nat, xb: nat)
    requires z > 0 && z * Pow(Base, L) < Pow(Base, xb)
    ensures L < xb
  {
    MulLeMono(1, z, Pow(Base, L));
    PowLtIndex(L, xb);
  }

  /**
   * The loop state of `scaleSubInPlace`: x minus the pending amount z at
   * weight B^(j+n) equals the original x minus f times limbs 0..j of a.
   */
  ghost predicate SubBalance(E: int, z: int, j: nat, n: nat, f: int, P: seq<int>, X0: int)
  {
    E - z * Pow(Base, j + n) == X0 - f * EvalUpTo(P, j + 1) * Pow(Base, n)
  }

  /** The loop state of `scaleAddInPlace`, with the pending amount still to be added. */
  ghost predicate AddBalance(E: int, z: int, j: nat, n: nat, f: int, P: seq<int>, X0: int)
  {
    E + z * Pow(Base, j + n) == X0 + f * EvalUpTo(P, j + 1) * Pow(Base, n)
  }

  /** A settled balance (no amount pending) with all of a's limbs counted is the result. */
  lemma SubSettled(E: int, j: nat, n: nat, f: int, P: seq<int>, X0: int, A: int)
    requires SubBalance(E, 0, j, n, f, P, X0) && EvalUpTo(P, j + 1) == A
    ensures E == X0 - f * A * Pow(Base, n)
  {
  }

  lemma AddSettled(E: int, j: nat, n: nat, f: int, P: seq<int>, X0: int, A: int)
    requires AddBalance(E, 0, j, n, f, P, X0) && EvalUpTo(P, j + 1) == A
    ensures E == X0 + f * A * Pow(Base, n)
  {
  }

  /**
   * One limb of `scaleSubInPlace`: the low limb of the pending amount z
   * leaves x at position L = j + n, the rest (with the borrow) moves up and
   * picks up the next limb of a.
   */
  lemma SubIteration(E: int, E': int, z: int, z': int, xv: int, nv: int, borrow: int,
                     f: int, P: seq<int>, j: nat, n: nat, X0: int)
    requires z >= 0 && SubBalance(E, z, j, n, f, P, X0)
    requires E' == E + (nv - xv) * Pow(Base, j + n)
    requires nv == xv - z % Base + borrow * Base
    requires z' == z / Base + borrow + f * Digit(P, j + 1)
    ensures SubBalance(E', z', j + 1, n, f, P, X0)
  {
    var g := f * Digit(P, j + 1);
    SubDigitStep(E, z, j + n, xv, nv, borrow, g, X0 - f * EvalUpTo(P, j + 1) * Pow(Base, n));
    ScaleTargetStep(f, P, j, n);
    assert (j + n) + 1 == (j + 1) + n;
  }

  /** The mirror image of `SubIteration` for `scaleAddInPlace`, with a carry. */
  lemma AddIteration(E: int, E': int, z: int, z': int, xv: int, nv: int, carry: int,
                     f: int, P: seq<int>, j: nat, n: nat, X0: int)
    requires z >= 0 && AddBalance(E, z, j, n, f, P, X0)
    requires E' == E + (nv - xv) * Pow(Base, j + n)
    requires nv == xv + z % Base - carry * Base
    requires z' == z / Base + carry + f * Digit(P, j + 1)
    ensures AddBalance(E', z', j + 1, n, f, P, X0)
  {
    var g := f * Digit(P, j + 1);
    AddDigitStep(E, z, j + n, xv, nv, carry, g, X0 + f * EvalUpTo(P, j + 1) * Pow(Base, n));
    ScaleTargetStep(f, P, j, n);
    assert (j + n) + 1 == (j + 1) + n;
  }

  /** While subtracting, a positive pending amount still lies below the bound of x. */
  lemma SubPendingBelow(E: int, z: int, L: nat, xb: nat, X0: int, f: int, e: int, A: int, W: int)
    requires 0 <= E < Pow(Base, xb) && z > 0 && 0 <= e <= A && 0 <= f && 0 <= W
    requires E - z * Pow(Base, L) == X0 - f * e * W && f * A * W <= X0
    ensures L < xb
  {
    MulLeMono(e, A, f);
    MulLeMono(f * e, f * A, W);
    assert e * f == f * e && A * f == f * A;
    PendingBelow(z, L, xb);
  }

  /** `SubPendingBelow` stated on the loop state of `scaleSubInPlace`. */
  lemma SubRoom(E: int, z: int, j: nat, n: nat, xb: nat, f: int, P: seq<int>, X0: int, A: int)
    requires 0 <= E < Pow(Base, xb) && z > 0 && 0 < f && IsLimbs(P) && Eval(P) == A
    requires SubBalance(E, z, j, n, f, P, X0) && f * A * Pow(Base, n) <= X0
    ensures j + n < xb
  {
    EvalUpToLe(P, j + 1);
    SubPendingBelow(E, z, j + n, xb, X0, f, EvalUpTo(P, j + 1), A, Pow(Base, n));
  }

  /** `AddPendingBelow` stated on the loop state of `scaleAddInPlace`. */
  lemma AddRoom(E: int, z: int, j: nat, n: nat, xb: nat, f: int, P: seq<int>, X0: int, A: int)
    requires 0 <= E && z > 0 && 0 < f && IsLimbs(P) && Eval(P) == A
    requires AddBalance(E, z, j, n, f, P, X0) && X0 + f * A * Pow(Base, n) < Pow(Base, xb)
    ensures j + n < xb
  {
    EvalUpToLe(P, j + 1);
    AddPendingBelow(E, z, j + n, xb, X0, f, EvalUpTo(P, j + 1), A, Pow(Base, n));
  }

  /** While adding, a positive pending amount still lies below the bound of x. */
  lemma AddPendingBelow(E: int, z: int, L: nat, xb: nat, X0: int, f: int, e: int, A: int, W: int)
    requires 0 <= E && z > 0 && 0 <= e <= A && 0 <= f && 0 <= W
    requires E + z * Pow(Base, L) == X0 + f * e * W && X0 + f * A * W < Pow(Base, xb)
    ensures L < xb
  {
    MulLeMono(e, A, f);
    MulLeMono(f * e, f * A, W);
    assert e * f == f * e && A * f == f * A;
    PendingBelow(z, L, xb);
  }

  /** The next pending amount: the carried-over part plus f times the next limb of a. */
  lemma NextPending(P: seq<int>, f: int, j: nat, zHi: int, d: int, z': int)
    requires IsLimbs(P) && 0 < f
    requires d == (if j + 1 < |P| then P[j + 1] else 0)
    requires z' == if j + 1 < |P| then zHi + f * d else zHi
    ensures z' == zHi + f * Digit(P, j + 1)
    ensures zHi >= 0 ==> z' >= 0
  {
    if j + 1 < |P| {
      MulLeMono(0, d, f);
    }
  }

  /**
   * The limb update of `scaleSubInPlace`: take zLo from limb L, borrowing
   * one base (reported as 1) when it does not fit.
   */
  method SubLimb(xd: array<int>, L: nat, zLo: int) returns (borrow: int)
    requires L < xd.Length && 0 <= xd[L] < Base && 0 <= zLo < Base
    modifies xd
    ensures borrow == (if zLo <= old(xd[L]) then 0 else 1)
    ensures xd[L] == old(xd[L]) - zLo + borrow * Base
    ensures xd[..] == old(xd[..])[L := xd[L]]
    ensures 0 <= xd[L] < Base
  {
    borrow := 0;
    if zLo <= xd[L] {
      xd[L] := xd[L] - zLo;
    } else {
      xd[L] := xd[L] + (Base - zLo);
      borrow := 1;
    }
  }

  /**
   * The limb update of `scaleAddInPlace`: add zLo to limb L, carrying one
   * base (reported as 1) when the sum does not fit.
   */
  method AddLimb(xd: array<int>, L: nat, zLo: int) returns (carry: int)
    requires L < xd.Length && 0 <= xd[L] < Base && 0 <= zLo < Base
    modifies xd
    ensures carry == (if zLo < Base - old(xd[L]) then 0 else 1)
    ensures xd[L] == old(xd[L]) + zLo - carry * Base
    ensures xd[..] == old(xd[..])[L := xd[L]]
    ensures 0 <= xd[L] < Base
  {
    carry := 0;
    if zLo < Base - xd[L] {
      xd[L] := xd[L] + zLo;
    } else {
      xd[L] := zLo - (Base - xd[L]);
      carry := 1;
    }
  }

  /**
   * One pass of the `scaleSubInPlace` loop at position j: the low limb of
   * the pending amount z leaves limb j + n of x (with a borrow), and the
   * new pending amount is the rest plus f times the next limb of a.
   */
  method SubStep(xd: array<int>, ghost xb: nat, ad: array<int>, adeg: int, f: int, n: nat, j: nat, z: int,
                 ghost P: seq<int>, ghost X0: int) returns (z': int)
    requires xd != ad && xb <= xd.Length && j + n < xb && 0 < f && 0 <= z
    requires forall i :: 0 <= i < xd.Length ==> 0 <= xd[i] < Base
    requires 0 <= adeg < ad.Length && ad[..adeg + 1] == P && IsLimbs(P)
    requires SubBalance(Eval(xd[..xb]), z, j, n, f, P, X0)
    modifies xd
    ensures forall i :: 0 <= i < xd.Length ==> 0 <= xd[i] < Base
    ensures forall i :: 0 <= i < xd.Length && i != j + n ==> xd[i] == old(xd[i])
    ensures 0 <= z' && SubBalance(Eval(xd[..xb]), z', j + 1, n, f, P, X0)
  {
    ghost var s := xd[..xb];
    var zLo, zHi := z % Base, z / Base;
    var xv := xd[j + n];
    var borrow := SubLimb(xd, j + n, zLo);
    zHi := zHi + borrow;
    ghost var nv := xd[j + n];
    z' := if j < adeg then zHi + f * ad[j + 1] else zHi;
    assert xd[..xb] == s[j + n := nv];
    assert s[j + n] == xv;
    EvalUpdate(s, j + n, nv);
    NextPending(P, f, j, zHi, if j < adeg then ad[j + 1] else 0, z');
    SubIteration(Eval(s), Eval(xd[..xb]), z, z', xv, nv, borrow, f, P, j, n, X0);
  }

  /** The mirror image of `SubStep` for `scaleAddInPlace`, with a carry. */
  method AddStep(xd: array<int>, ghost xb: nat, ad: array<int>, adeg: int, f: int, n: nat, j: nat, z: int,
                 ghost P: seq<int>, ghost X0: int) returns (z': int)
    requires xd != ad && xb <= xd.Length && j + n < xb && 0 < f && 0 <= z
    requires forall i :: 0 <= i < xd.Length ==> 0 <= xd[i] < Base
    requires 0 <= adeg < ad.Length && ad[..adeg + 1] == P && IsLimbs(P)
    requires AddBalance(Eval(xd[..xb]), z, j, n, f, P, X0)
    modifies xd
    ensures forall i :: 0 <= i < xd.Length ==> 0 <= xd[i] < Base
    ensures forall i :: 0 <= i < xd.Length && i != j + n ==> xd[i] == old(xd[i])
    ensures 0 <= z' && AddBalance(Eval(xd[..xb]), z', j + 1, n, f, P, X0)
  {
    ghost var s := xd[..xb];
    var zLo, zHi := z % Base, z / Base;
    var xv := xd[j + n];
    var carry := AddLimb(xd, j + n, zLo);
    zHi := zHi + carry;
    ghost var nv := xd[j + n];
    z' := if j < adeg then zHi + f * ad[j + 1] else zHi;
    assert xd[..xb] == s[j + n := nv];
    assert s[j + n] == xv;
    EvalUpdate(s, j + n, nv);
    NextPending(P, f, j, zHi, if j < adeg then ad[j + 1] else 0, z');
    AddIteration(Eval(s), Eval(xd[..xb]), z, z', xv, nv, carry, f, P, j, n, X0);
  }

  /**
   * `scaleSubInPlace`: x becomes x − f·a·B^n, limb by limb with a 64-bit
   * pending amount z and a borrow, then renormalised. Its guard compares j,
   * not j + n, with degree(x), so it is no negativity test; the operation
   * is specified under f·a·B^n <= x, where it never fires.
   */
  method ScaleSubInPlace(x: BigNat, f: int, a: BigNat, n: nat)
    requires x.Valid() && a.Valid() && a.Normalized() && a.bound > 0
    requires x.digits != a.digits && 0 < f < 0x8000_0000
    requires f * a.Val() * Pow(Base, n) <= x.Val()
    modifies x, x.digits
    ensures x.Valid() && x.Normalized() && x.digits == old(x.digits) && x.bound <= old(x.bound)
    ensures x.Val() == old(x.Val()) - f * a.Val() * Pow(Base, n)
    ensures forall i :: old(x.bound) <= i < x.digits.Length ==> x.digits[i] == old(x.digits[i])
  {
    var xd, xdeg, ad, adeg := x.digits, Degree(x), a.digits, Degree(a);
    ghost var xb, X0, A, P := x.bound, x.Val(), a.Val(), LimbsOf(a);
    assert f * A * Pow(Base, n) <= X0;
    assert IsLimbs(P) && Eval(P) == A && Eval(xd[..xb]) == X0;
    LimbsOfBounds(a, 0);
    ScaledLowerBound(f, a, n);
    PowLtIndex(adeg + n, xb);
    ScaleSubLimbs(xd, xb, xdeg, ad, adeg, f, n, P, X0, A);
    assert a.Val() == A;
    NormN(x);
  }

  /**
   * The limb loop of `scaleSubInPlace` on the digit arrays: the pending
   * amount z starts at f·a[0] and moves up one limb per step, picking up
   * the next limb of a, until it is spent and all of a's limbs are used.
   */
  method ScaleSubLimbs(xd: array<int>, ghost xb: nat, xdeg: int, ad: array<int>, adeg: int, f: int, n: nat,
                       ghost P: seq<int>, ghost X0: int, ghost A: int)
    requires xd != ad && xb <= xd.Length && xdeg == xb - 1 && 0 < f && adeg + n < xb
    requires forall i :: 0 <= i < xd.Length ==> 0 <= xd[i] < Base
    requires 0 <= adeg < ad.Length && ad[..adeg + 1] == P && IsLimbs(P) && Eval(P) == A
    requires Eval(xd[..xb]) == X0 && f * A * Pow(Base, n) <= X0
    modifies xd
    ensures forall i :: 0 <= i < xd.Length ==> 0 <= xd[i] < Base
    ensures forall i :: xb <= i < xd.Length ==> xd[i] == old(xd[i])
    ensures Eval(xd[..xb]) == X0 - f * A * Pow(Base, n)
  {
    var j := 0;
    var z := f * ad[0];
    ScaleStart(f, P, n);
    MulNonNeg(f, ad[0]);
    while z > 0 || j < adeg
      invariant 0 <= j && j + n <= xb && 0 <= z
      invariant forall i :: 0 <= i < xd.Length ==> 0 <= xd[i] < Base
      invariant SubBalance(Eval(xd[..xb]), z, j, n, f, P, X0)
      invariant forall i :: xb <= i < xd.Length ==> xd[i] == old(xd[i])
      decreases xb - (j + n)
    {
      assert j + n < xb by {
        ArrayLimbs(xd, xb);
        EvalBounds(xd[..xb]);
        if z > 0 {
          SubRoom(Eval(xd[..xb]), z, j, n, xb, f, P, X0, A);
        }
      }
      // the source's guard `j > degree(x)` cannot fire: even j + n stays below the bound
      assert j <= xdeg;
      z := SubStep(xd, xb, ad, adeg, f, n, j, z, P, X0);
      j := j + 1;
    }
    EvalUpToAll(P, j + 1);
    SubSettled(Eval(xd[..xb]), j, n, f, P, X0, A);
  }

  /**
   * `scaleAddInPlace`: x becomes x + f·a·B^n with a carry, then
   * renormalised below its existing bound only; specified under the
   * condition that the sum fits below that bound.
   */
  method ScaleAddInPlace(x: BigNat, f: int, a: BigNat, n: nat)
    requires x.Valid() && a.Valid() && a.Normalized() && a.bound > 0
    requires x.digits != a.digits && 0 < f < 0x8000_0000
    requires x.Val() + f * a.Val() * Pow(Base, n) < Pow(Base, x.bound)
    modifies x, x.digits
    ensures x.Valid() && x.Normalized() && x.digits == old(x.digits) && x.bound <= old(x.bound)
    ensures x.Val() == old(x.Val()) + f * a.Val() * Pow(Base, n)
    ensures forall i :: old(x.bound) <= i < x.digits.Length ==> x.digits[i] == old(x.digits[i])
  {
    var xd, xdeg, ad, adeg := x.digits, Degree(x), a.digits, Degree(a);
    ghost var xb, X0, A, P := x.bound, x.Val(), a.Val(), LimbsOf(a);
    assert X0 + f * A * Pow(Base, n) < Pow(Base, xb);
    assert IsLimbs(P) && Eval(P) == A && Eval(xd[..xb]) == X0;
    LimbsOfBounds(a, 0);
    ScaledLowerBound(f, a, n);
    PowLtIndex(adeg + n, xb);
    ScaleAddLimbs(xd, xb, xdeg, ad, adeg, f, n, P, X0, A);
    assert a.Val() == A;
    NormN(x);
  }

  /**
   * The limb loop of `scaleAddInPlace` on the digit arrays: the pending
   * amount z starts at f·a[0] and moves up one limb per step, picking up
   * the next limb of a, until it is spent and all of a's limbs are used.
   */
  method ScaleAddLimbs(xd: array<int>, ghost xb: nat, xdeg: int, ad: array<int>, adeg: int, f: int, n: nat,
                       ghost P: seq<int>, ghost X0: int, ghost A: int)
    requires xd != ad && xb <= xd.Length && xdeg == xb - 1 && 0 < f && adeg + n < xb
    requires forall i :: 0 <= i < xd.Length ==> 0 <= xd[i] < Base
    requires 0 <= adeg < ad.Length && ad[..adeg + 1] == P && IsLimbs(P) && Eval(P) == A
    requires Eval(xd[..xb]) == X0 && X0 + f * A * Pow(Base, n) < Pow(Base, xb)
    modifies xd
    ensures forall i :: 0 <= i < xd.Length ==> 0 <= xd[i] < Base
    ensures forall i :: xb <= i < xd.Length ==> xd[i] == old(xd[i])
    ensures Eval(xd[..xb]) == X0 + f * A * Pow(Base, n)
  {
    var j := 0;
    var z := f * ad[0];
    ScaleStart(f, P, n);
    MulNonNeg(f, ad[0]);
    while z > 0 || j < adeg
      invariant 0 <= j && j + n <= xb && 0 <= z
      invariant forall i :: 0 <= i < xd.Length ==> 0 <= xd[i] < Base
      invariant AddBalance(Eval(xd[..xb]), z, j, n, f, P, X0)
      invariant forall i :: xb <= i < xd.Length ==> xd[i] == old(xd[i])
      decreases xb - (j + n)
    {
      assert j + n < xb by {
        ArrayLimbs(xd, xb);
        EvalBounds(xd[..xb]);
        if z > 0 {
          AddRoom(Eval(xd[..xb]), z, j, n, xb, f, P, X0, A);
        }
      }
      // the source's guard `j > degree(x)` cannot fire: even j + n stays below the bound
      assert j <= xdeg;
      z := AddStep(xd, xb, ad, adeg, f, n, j, z, P, X0);
      j := j + 1;
    }
    EvalUpToAll(P, j + 1);
    AddSettled(Eval(xd[..xb]), j, n, f, P, X0, A);
  }

  /** Normalised numbers of equal value have equal bounds. */
  lemma SameValueSameBound(p: BigNat, q: BigNat)
    requires p.Valid() && q.Valid() && p.Normalized() && q.Normalized() && p.Val() == q.Val()
    ensures p.bound == q.bound
  {
    BoundOrder(p, q);
    BoundOrder(q, p);
  }

  /** `scaleSub`: x − f·a·B^n as a fresh number, x itself unchanged. */
  method ScaleSub(x: BigNat, f: int, a: BigNat, n: nat) returns (r: BigNat)
    requires x.Valid() && a.Valid() && a.Normalized() && a.bound > 0 && 0 < f < 0x8000_0000
    requires f * a.Val() * Pow(Base, n) <= x.Val()
    ensures r.Valid() && r.Normalized() && r.Val() == x.Val() - f * a.Val() * Pow(Base, n)
  {
    ghost var X, A, T := x.Val(), a.Val(), f * a.Val() * Pow(Base, n);
    var zero := Embed(0);
    r := Add(x, zero);
    assert r.Val() == X && a.Val() == A && T == f * A * Pow(Base, n);
    ScaleSubInPlace(r, f, a, n);
    assert r.Val() == X - T && x.Val() == X && a.Val() == A;
    NormN(r);
  }

  /**
   * `scaleAdd`: x + f·a·B^n as a fresh number; the copy has the bound of
   * x, so the sum must fit below it.
   */
  method ScaleAdd(x: BigNat, f: int, a: BigNat, n: nat) returns (r: BigNat)
    requires x.Valid() && x.Normalized() && a.Valid() && a.Normalized() && a.bound > 0 && 0 < f < 0x8000_0000
    requires x.Val() + f * a.Val() * Pow(Base, n) < Pow(Base, x.bound)
    ensures r.Valid() && r.Normalized() && r.Val() == x.Val() + f * a.Val() * Pow(Base, n)
  {
    ghost var X, A, T := x.Val(), a.Val(), f * a.Val() * Pow(Base, n);
    var zero := Embed(0);
    r := Add(x, zero);
    SameValueSameBound(r, x);
    assert r.Val() == X && a.Val() == A && T == f * A * Pow(Base, n);
    ScaleAddInPlace(r, f, a, n);
    assert r.Val() == X + T && x.Val() == X && a.Val() == A;
    NormN(r);
  }

  /** `~~toInt`: the low 32 bits of a 64-bit value, read as a signed int32. */
  function ToInt32(v: int): (r: int)
    ensures -0x8000_0000 <= r < 0x8000_0000
    ensures 0 <= v < 0x8000_0000 ==> r == v
  {
    var w := v % 0x1_0000_0000;
    if w < 0x8000_0000 then w else w - 0x1_0000_0000
  }

  /** Floor division by a positive divisor brackets the dividend. */
  lemma FloorDiv(v: int, d: int)
    requires v >= 0 && d > 0
    ensures 0 <= v / d && (v / d) * d <= v < (v / d) * d + d
  {
  }

  /**
   * Every estimate of `removeFactor` is T / D with T the value of x above
   * limb s and D·B^s >= a·B^n: it never overshoots, and it is a single limb
   * when x < a·B^(n+1).
   */
  lemma EstimateSound(X: int, T: int, s: nat, D: int, A: int, n: nat)
    requires 0 <= X && T == X / Pow(Base, s) && D >= 1 && A >= 1
    requires A * Pow(Base, n) <= D * Pow(Base, s)
    ensures 0 <= T / D && (T / D) * A * Pow(Base, n) <= X
    ensures X < A * Pow(Base, n + 1) ==> T / D < Base
  {
    var S, W, f := Pow(Base, s), Pow(Base, n), T / D;
    FloorDiv(X, S);
    FloorDiv(T, D);
    EstimateBelow(X, T, S, D, A * W, f);
    MulAssoc(f, A, W);
    if X < A * Pow(Base, n + 1) {
      assert Pow(Base, n + 1) == W * Base;
      MulAssoc(A, W, Base);
      EstimateLimb(X, T, S, D, A * W, f);
    }
  }

  /** The estimate T / D, scaled back, stays below x. */
  lemma EstimateBelow(X: int, T: int, S: int, D: int, AW: int, f: int)
    requires 0 <= f && f * D <= T && T * S <= X && 0 < S && AW <= D * S
    ensures f * AW <= X
  {
    MulLeMono(AW, D * S, f);
    MulLeMono(f * D, T, S);
    assert f * (D * S) == (f * D) * S;
  }

  /** Inside the window the estimate T / D is a single limb. */
  lemma EstimateLimb(X: int, T: int, S: int, D: int, AW: int, f: int)
    requires 0 < D && f * D <= T && T * S <= X && 0 < S && AW <= D * S && X < AW * Base
    ensures f < Base
  {
    MulLeMono(AW, D * S, Base);
    if f >= Base {
      MulLeMono(Base, f, D);
      MulLeMono(Base * D, T, S);
    }
  }

  /** The top limb and the top two limbs of a normalised number, read as quotients. */
  lemma TopLimbs(x: BigNat)
    requires x.Valid() && x.Normalized() && x.bound > 0
    ensures x.Val() / Pow(Base, x.bound - 1) == x.digits[x.bound - 1]
    ensures x.bound > 1 ==> x.Val() / Pow(Base, x.bound - 2) == x.digits[x.bound - 1] * Base + x.digits[x.bound - 2]
  {
    var s, d := LimbsOf(x), x.bound - 1;
    LimbsOfBounds(x, 0);
    EvalPrefixMod(s, d);
    assert s[d..] == [s[d]];
    Eval1(s[d]);
    if x.bound > 1 {
      EvalPrefixMod(s, d - 1);
      assert s[d - 1..] == [s[d - 1], s[d]];
      assert [s[d - 1], s[d]] == [s[d - 1]] + [s[d]];
      EvalAppend([s[d - 1]], s[d]);
      Eval1(s[d - 1]);
    }
  }

  /** The top limb of a bounds a from above: a < (top + 1)·B^degree(a). */
  lemma TopLimbBound(a: BigNat)
    requires a.Valid() && a.Normalized() && a.bound > 0
    ensures a.Val() < (a.digits[a.bound - 1] + 1) * Pow(Base, a.bound - 1)
    ensures a.bound == 1 ==> a.Val() == a.digits[0]
  {
    var W := Pow(Base, a.bound - 1);
    TopLimbs(a);
    assert a.Val() == (a.Val() / W) * W + a.Val() % W;
  }

  /**
   * `removeFactor`: an estimate f of the next quotient digit of x by a·B^n
   * from the top one or two limbs of each, falling back on `shiftCompare`
   * when the estimate is 0. Whenever x < a·B^(n+1), as `divmod` keeps it,
   * f is a single limb, f·a·B^n <= x, and f >= 1 exactly when a·B^n <= x.
   */
  function RemoveFactor(x: BigNat, a: BigNat, n: nat): (f: int)
    reads x, x.digits, a, a.digits
    requires x.Valid() && a.Valid() && x.Normalized() && a.Normalized() && a.bound > 0
    ensures x.bound < a.bound + n ==> f == 0
    ensures x.Val() < a.Val() * Pow(Base, n + 1) ==>
      0 <= f < Base && f * a.Val() * Pow(Base, n) <= x.Val() &&
      (f >= 1 <==> a.Val() * Pow(Base, n) <= x.Val())
  {
    if x.bound - 1 < a.bound - 1 + n then
      ShiftedBelowPow(x, a.bound - 1 + n);
      ScaledLowerBound(1, a, n);
      0
    else
      var f0 := Estimate(x, a, n);
      if f0 == 0 then
        ShiftedNotBelow(a, n, x);
        if ShiftCompare(a, n, x, 0) != 1 then 1 else 0
      else
        ScaledPositive(f0, a.Val(), Pow(Base, n), x.Val());
        f0
  }

  /**
   * The raw estimate of `removeFactor`: the top limb, or the top two limbs
   * as a 64-bit value, of x, divided by the single limb of a or by its top
   * limb plus one. Every case is T / D with T the value of x above some
   * limb s and D·B^s >= a·B^n, so inside the window x < a·B^(n+1) the
   * estimate is a limb that does not overshoot.
   */
  function Estimate(x: BigNat, a: BigNat, n: nat): (f: int)
    reads x, x.digits, a, a.digits
    requires x.Valid() && a.Valid() && x.Normalized() && a.Normalized() && a.bound > 0
    requires a.bound + n <= x.bound
    ensures x.Val() < a.Val() * Pow(Base, n + 1) ==>
      0 <= f < Base && f * a.Val() * Pow(Base, n) <= x.Val()
  {
    var degA, degX := a.bound - 1, x.bound - 1;
    var xd, ad := x.digits, a.digits;
    TopLimbs(x);
    NormalizedZero(a);
    if degA == 0 then
      if degX == n then
        SingleLimbDivisor(a, n, n);
        EstimateSound(x.Val(), xd[n], n, ad[0], a.Val(), n);
        xd[n] / ad[0]
      else
        SingleLimbDivisor(a, n, degX - 1);
        EstimateSound(x.Val(), xd[degX] * Base + xd[degX - 1], degX - 1, ad[0], a.Val(), n);
        ToInt32((xd[degX] * Base + xd[degX - 1]) / ad[0])
    else if degX == degA + n then
      TopLimbDivisor(a, n, degX);
      EstimateSound(x.Val(), xd[degX], degX, ad[degA] + 1, a.Val(), n);
      xd[degX] / (ad[degA] + 1)
    else
      TopLimbDivisor(a, n, degX - 1);
      EstimateSound(x.Val(), xd[degX] * Base + xd[degX - 1], degX - 1, ad[degA] + 1, a.Val(), n);
      ToInt32((xd[degX] * Base + xd[degX - 1]) / (ad[degA] + 1))
  }

  /** A single-limb a: a·B^n <= a·B^s for s >= n. */
  lemma SingleLimbDivisor(a: BigNat, n: nat, s: nat)
    requires a.Valid() && a.Normalized() && a.bound == 1 && n <= s
    ensures 1 <= a.digits[0] && a.Val() * Pow(Base, n) <= a.digits[0] * Pow(Base, s)
  {
    TopLimbBound(a);
    PowMonotone(Base, n, s);
    MulLeMono(Pow(Base, n), Pow(Base, s), a.digits[0]);
  }

  /** With top limb t of a: a·B^n <= (t + 1)·B^s for s >= degree(a) + n. */
  lemma TopLimbDivisor(a: BigNat, n: nat, s: nat)
    requires a.Valid() && a.Normalized() && a.bound > 0 && a.bound - 1 + n <= s
    ensures a.Val() * Pow(Base, n) <= (a.digits[a.bound - 1] + 1) * Pow(Base, s)
  {
    TopLimbBound(a);
    TopScaled(a.Val(), a.digits[a.bound - 1] + 1, a.bound - 1, n, s);
  }

  /** V <= T·B^k scales to V·B^n <= T·B^s for any s >= k + n. */
  lemma TopScaled(V: int, T: int, k: nat, n: nat, s: nat)
    requires 0 <= V <= T * Pow(Base, k) && k + n <= s
    ensures V * Pow(Base, n) <= T * Pow(Base, s)
  {
    var Pk, Pn, Ps := Pow(Base, k), Pow(Base, n), Pow(Base, s);
    PowAdd(Base, k, n);
    MulLeMono(V, T * Pk, Pn);
    MulAssoc(T, Pk, Pn);
    PowMonotone(Base, k + n, s);
    assert 0 <= T by {
      if T < 0 {
        MulLeMono(T, -1, Pk);
      }
    }
    MulLeMono(Pk * Pn, Ps, T);
    assert Pk * Pn * T == T * (Pk * Pn) && Ps * T == T * Ps;
  }
  /** With top limb t of a, a·B^n < (t + 1)·B^(degree(a) + n). */
  lemma EstimatePow(a: BigNat, n: nat)
    requires a.Valid() && a.Normalized() && a.bound > 0
    ensures a.Val() * Pow(Base, n) <= (a.digits[a.bound - 1] + 1) * Pow(Base, a.bound - 1 + n)
  {
    TopLimbBound(a);
    TopScaled(a.Val(), a.digits[a.bound - 1] + 1, a.bound - 1, n, a.bound - 1 + n);
  }
  /** x with fewer limbs than a·B^n is below it. */
  lemma ShiftedBelowPow(x: BigNat, k: nat)
    requires x.Valid() && x.bound <= k
    ensures x.Val() < Pow(Base, k)
  {
    PowMonotone(Base, x.bound, k);
  }

  /** The fallback of `removeFactor` compares a·B^n with x. */
  lemma ShiftedNotBelow(a: BigNat, n: nat, x: BigNat)
    requires a.Valid() && x.Valid() && a.Normalized() && x.Normalized() && a.bound + n <= x.bound
    ensures ShiftCompare(a, n, x, 0) == Cmp(a.Val() * Pow(Base, n), x.Val())
  {
  }

  /** A positive multiple of a·B^n that is at most x shows a·B^n <= x. */
  lemma ScaledPositive(f: int, A: int, W: int, X: int)
    requires A >= 0 && W >= 0
    ensures f >= 1 && f * A * W <= X ==> A * W <= X
  {
    if f >= 1 {
      MulLeMono(1, f, A * W);
    }
    assert f * A * W == f * (A * W);
  }

  /** Adding f·B^n to a multiple of B^n whose limb n has room for f leaves no carry. */
  lemma DigitAdd(D: int, f: int, n: nat)
    requires D >= 0 && f >= 0 && D % Pow(Base, n) == 0 && DigitAt(D, n) + f < Base
    ensures (D + f * Pow(Base, n)) % Pow(Base, n) == 0
    ensures DigitAt(D + f * Pow(Base, n), n) == DigitAt(D, n) + f
  {
    var W := Pow(Base, n);
    var Q := D / W;
    assert D == W * Q;
    assert D == W * Q;
    Distribute(W, Q, f);
    DivModUnique(D + f * W, 0, Q + f, W);
    assert Q == Base * (Q / Base) + Q % Base;
    DivModUnique(Q + f, Q % Base + f, Q / Base, Base);
  }

  /** Moving the window down one limb: limb n - 1 of a multiple of B^n is zero. */
  lemma DigitShiftDown(D: int, n: nat)
    requires D >= 0 && n >= 1 && D % Pow(Base, n) == 0
    ensures D % Pow(Base, n - 1) == 0 && DigitAt(D, n - 1) == 0
  {
    var W, V := Pow(Base, n), Pow(Base, n - 1);
    var Q := D / W;
    assert W == Base * V;
    assert D == V * (Base * Q);
    DivModUnique(D, 0, Base * Q, V);
    DivModUnique(Base * Q, 0, Q, Base);
  }

  /** The quotient accumulator has room for f more at limb n below its bound. */
  lemma QuotientFits(D: int, f: int, n: nat, bd: nat)
    requires 0 <= D < Pow(Base, bd) && n < bd && f >= 0
    requires D % Pow(Base, n) == 0 && DigitAt(D, n) + f < Base
    ensures D + f * Pow(Base, n) < Pow(Base, bd)
  {
    var W, V, R := Pow(Base, n), Pow(Base, bd - n), Pow(Base, bd - n - 1);
    var Q := D / W;
    PowAdd(Base, n, bd - n);
    assert V == Base * R;
    DivModParts(D, W);
    FloorDiv(D, W);
    QuotientBelow(D, W, Q, V);
    DivModParts(Q, Base);
    assert Q % Base == DigitAt(D, n);
    LimbRoom(Q, f, R);
    ScaledRoom(Q + f, V, W);
    assert D == W * Q;
    Distribute(W, Q, f);
  }

  /** W·(Q + f) == W·Q + f·W. */
  lemma Distribute(W: int, Q: int, f: int)
    ensures W * (Q + f) == W * Q + f * W
  {
  }

  /** From D = W·Q < W·V with W > 0 follows Q < V. */
  lemma QuotientBelow(D: int, W: int, Q: int, V: int)
    requires W > 0 && D == W * Q && D < W * V
    ensures Q < V
  {
    if Q >= V {
      MulLeMono(V, Q, W);
    }
  }

  /** A number below B·R whose low limb has room for f stays below B·R when f is added. */
  lemma LimbRoom(Q: int, f: int, R: int)
    requires 0 <= Q < Base * R && Q == Base * (Q / Base) + Q % Base && Q % Base + f < Base
    ensures Q + f < Base * R
  {
  }

  /** From Q < V and W > 0 follows W·Q < W·V, with the gap of at least W. */
  lemma ScaledRoom(Q: int, V: int, W: int)
    requires Q < V && W > 0
    ensures W * Q + W <= W * V
  {
    MulLeMono(Q + 1, V, W);
  }

  /** With f·a·B^n <= x, the window invariant leaves room for f at limb n. */
  lemma DigitRoom(X: int, dn: int, f: int, A: int, W: int)
    requires 0 <= X && 0 <= dn && 0 <= f && A >= 1 && W >= 1
    requires f * A * W <= X && X + dn * A * W < A * (W * Base)
    ensures dn + f < Base
  {
    if dn + f >= Base {
      MulLeMono(Base, dn + f, A * W);
    }
  }

  /** The division identity after one quotient step. */
  lemma StepIdentity(D: int, X: int, f: int, A: int, W: int, B0: int)
    requires D * A + X == B0
    ensures (D + f * 1 * W) * A + (X - f * A * W) == B0
  {
    assert (D + f * 1 * W) * A == D * A + f * A * W;
  }

  /**
   * The loop state of `divmod`: quotient digits D so far and the running
   * remainder X account for b, D has nothing below limb n yet, and X fits
   * the window that leaves room for the current digit of D at limb n.
   */
  ghost predicate DivState(D: int, X: int, A: int, B0: int, n: nat)
  {
    0 <= D && 0 <= X && D * A + X == B0 && D % Pow(Base, n) == 0 &&
    X + DigitAt(D, n) * A * Pow(Base, n) < A * Pow(Base, n + 1)
  }

  /** The state keeps the remainder inside the window `removeFactor` needs. */
  lemma StateWindow(D: int, X: int, A: int, B0: int, n: nat)
    requires DivState(D, X, A, B0, n) && A >= 1
    ensures X < A * Pow(Base, n + 1)
  {
    var dn := DigitAt(D, n);
    MulNonNeg(dn, A);
    MulNonNeg(dn * A, Pow(Base, n));
  }

  /** The first state: no quotient digits, the whole of b as remainder. */
  lemma InitialState(B0: int, A: int, mdeg: nat, n: nat)
    requires 0 <= B0 < Pow(Base, mdeg + n + 1) && Pow(Base, mdeg) <= A
    ensures DivState(0, B0, A, B0, n)
  {
    PowAdd(Base, mdeg, n + 1);
    MulLeMono(Pow(Base, mdeg), A, Pow(Base, n + 1));
    assert DigitAt(0, n) == 0;
  }

  /**
   * A nonzero factor f: adding f at limb n of D and subtracting f·a·B^n
   * from X keeps the state, strictly lowers X and keeps D below its bound.
   */
  lemma StepKeeps(D: int, X: int, f: int, A: int, B0: int, n: nat, bd: nat) returns (D': int, X': int)
    requires DivState(D, X, A, B0, n) && A >= 1 && 0 < f
    requires f * A * Pow(Base, n) <= X && D < Pow(Base, bd) && n < bd
    ensures D' == D + f * 1 * Pow(Base, n) && X' == X - f * A * Pow(Base, n)
    ensures D' < Pow(Base, bd) && Pow(Base, n) <= D' && X' < X
    ensures DivState(D', X', A, B0, n)
  {
    var W, dn := Pow(Base, n), DigitAt(D, n);
    assert Pow(Base, n + 1) == Base * W;
    assert A * Pow(Base, n + 1) == A * (W * Base);
    DigitRoom(X, dn, f, A, W);
    QuotientFits(D, f, n, bd);
    DigitAdd(D, f, n);
    StepIdentity(D, X, f, A, W, B0);
    D', X' := D + f * 1 * W, X - f * A * W;
    SumScaled(dn, f, A, W);
    MulLeMono(1, f, W);
    MulLeMono(1, f, A);
    MulLeMono(1, f * A, W);
  }

  /** (a + b)·c·d == a·c·d + b·c·d. */
  lemma SumScaled(a: int, b: int, c: int, d: int)
    ensures (a + b) * c * d == a * c * d + b * c * d
  {
    assert (a + b) * c == a * c + b * c;
  }

  /** A zero factor at limb n + 1: the window moves down to limb n. */
  lemma ShiftKeeps(D: int, X: int, A: int, B0: int, n: nat)
    requires DivState(D, X, A, B0, n + 1) && X < A * Pow(Base, n + 1)
    ensures DivState(D, X, A, B0, n)
  {
    DigitShiftDown(D, n + 1);
  }

  /** Euclid's equation with a remainder below the divisor fixes quotient and remainder. */
  lemma QuotientRemainder(B: int, Q: int, M: int, A: int)
    requires 0 <= M < A && Q * A + M == B
    ensures Q == B / A && M == B % A
  {
    assert Q * A == A * Q;
    DivModUnique(B, M, Q, A);
  }

  /**
   * One digit of `divmod`: x loses f·a·B^n and d gains f at limb n, both in
   * place, keeping the division state with a smaller remainder.
   */
  method SubtractDigit(x: BigNat, d: BigNat, one: BigNat, a: BigNat, f: int, n: nat,
                       ghost D: int, ghost X: int, ghost A: int, ghost B0: int)
    returns (ghost D': int, ghost X': int)
    requires x != d && x != one && x != a && d != one && d != a
    requires x.digits != d.digits && x.digits != one.digits && x.digits != a.digits
    requires d.digits != one.digits && d.digits != a.digits
    requires x.Valid() && x.Normalized() && d.Valid() && a.Valid() && a.Normalized() && a.bound > 0
    requires one.Valid() && one.Normalized() && one.bound > 0 && one.Val() == 1
    requires a.Val() == A && d.Val() == D && x.Val() == X && DivState(D, X, A, B0, n)
    requires n < d.bound && 0 < f < Base && f * A * Pow(Base, n) <= X
    modifies x, x.digits, d, d.digits
    ensures x.digits == old(x.digits) && d.digits == old(d.digits)
    ensures x.Valid() && x.Normalized() && d.Valid() && n < d.bound
    ensures x.Val() == X' && d.Val() == D' && DivState(D', X', A, B0, n) && 0 <= X' < X
  {
    NormalizedZero(a);
    D', X' := StepKeeps(D, X, f, A, B0, n, d.bound);
    ScaleSubInPlace(x, f, a, n);
    assert d.Val() == D && one.Val() == 1;
    ScaleAddInPlace(d, f, one, n);
    assert x.Val() == X';
    PowLtIndex(n, d.bound);
  }

  /**
   * One round of the loop of `divmod` at limb n, p being the top limb of
   * the window: a nonzero factor is taken off the remainder; a zero factor
   * at limb 0 finishes; otherwise the window moves down one limb, p with it
   * unless the window had already lost its top limb.
   */
  method DivisionRound(x: BigNat, d: BigNat, one: BigNat, a: BigNat, mdeg: nat, n: nat, p: nat,
                       ghost D: int, ghost X: int, ghost A: int, ghost B0: int)
    returns (finished: bool, n': nat, p': nat, ghost D': int, ghost X': int)
    requires x != d && x != one && x != a && d != one && d != a
    requires x.digits != d.digits && x.digits != one.digits && x.digits != a.digits
    requires d.digits != one.digits && d.digits != a.digits
    requires x.Valid() && x.Normalized() && d.Valid() && a.Valid() && a.Normalized() && a.bound > 0
    requires one.Valid() && one.Normalized() && one.bound > 0 && one.Val() == 1
    requires mdeg == a.bound - 1 && n < d.bound && mdeg + n <= p <= mdeg + n + 1
    requires a.Val() == A && d.Val() == D && x.Val() == X && DivState(D, X, A, B0, n)
    modifies x, x.digits, d, d.digits
    ensures x.digits == old(x.digits) && d.digits == old(d.digits)
    ensures x.Valid() && x.Normalized() && d.Valid()
    ensures n' < d.bound && mdeg + n' <= p' <= mdeg + n' + 1
    ensures d.Val() == D' && x.Val() == X' && DivState(D', X', A, B0, n')
    ensures finished ==> X' < A
    ensures !finished ==> n' < n || (n' == n && 0 <= X' < X)
  {
    StateWindow(D, X, A, B0, n);
    var f := RemoveFactor(x, a, n);
    assert 0 <= f < Base && f * A * Pow(Base, n) <= X && (f >= 1 <==> A * Pow(Base, n) <= X);
    n', p', D', X' := n, p, D, X;
    if f > 0 {
      finished := false;
      D', X' := SubtractDigit(x, d, one, a, f, n, D, X, A, B0);
    } else {
      finished := f == 0 && n == 0;
      if !finished {
        if p == mdeg + n {
          n' := n - 1;
        } else {
          n' := n - 1;
          p' := p - 1;
        }
        ShiftKeeps(D, X, A, B0, n');
      }
    }
  }

  /**
   * The loop of `divmod`: rounds from limb p − degree(a) down to limb 0,
   * then the quotient is normalised.
   */
  method LongDivision(x: BigNat, d: BigNat, one: BigNat, a: BigNat, p0: nat, mdeg: nat,
                      ghost A: int, ghost B0: int)
    returns (ghost D: int, ghost X: int)
    requires x != d && x != one && x != a && d != one && d != a
    requires x.digits != d.digits && x.digits != one.digits && x.digits != a.digits
    requires d.digits != one.digits && d.digits != a.digits
    requires x.Valid() && x.Normalized() && d.Valid() && a.Valid() && a.Normalized() && a.bound > 0
    requires one.Valid() && one.Normalized() && one.bound > 0 && one.Val() == 1
    requires mdeg == a.bound - 1 && mdeg <= p0 && p0 - mdeg < d.bound
    requires a.Val() == A && DivState(d.Val(), x.Val(), A, B0, p0 - mdeg)
    modifies x, x.digits, d, d.digits
    ensures x.digits == old(x.digits) && d.digits == old(d.digits)
    ensures x.Valid() && x.Normalized() && d.Valid() && d.Normalized()
    ensures x.Val() == X && d.Val() == D && D * A + X == B0 && X < A
    ensures a.Valid() && a.Val() == A
  {
    ghost var xd, dd := x.digits, d.digits;
    var p: nat := p0;
    var n: nat := p - mdeg;
    var finished := false;
    D, X := d.Val(), x.Val();
    while !finished
      invariant x.digits == xd && d.digits == dd
      invariant x.Valid() && x.Normalized() && d.Valid()
      invariant n < d.bound && mdeg + n <= p <= mdeg + n + 1
      invariant d.Val() == D && x.Val() == X && DivState(D, X, A, B0, n)
      invariant finished ==> X < A
      decreases !finished, n, X
    {
      finished, n, p, D, X := DivisionRound(x, d, one, a, mdeg, n, p, D, X, A, B0);
    }
    NormN(d);
  }

  /**
   * `divmod` for a nonzero divisor of degree at most that of b: the
   * remainder x starts as a copy of b, the quotient d as degree(b) −
   * degree(a) + 2 zero limbs, and both are normalised after the loop.
   */
  method DivideLong(b: BigNat, a: BigNat) returns (q: BigNat, m: BigNat)
    requires b.Valid() && a.Valid() && b.Normalized() && a.Normalized() && 0 < a.bound <= b.bound
    ensures q.Valid() && m.Valid() && q.Normalized() && m.Normalized()
    ensures q.Val() * a.Val() + m.Val() == b.Val() && m.Val() < a.Val()
  {
    ghost var A, B0 := a.Val(), b.Val();
    ghost var mdeg: nat, n: nat := a.bound - 1, b.bound - a.bound;
    assert DivState(0, B0, A, B0, n) by {
      NormalizedRange(a);
      assert 0 <= B0 < Pow(Base, mdeg + n + 1) && Pow(Base, mdeg) <= A;
      InitialState(B0, A, mdeg, n);
    }
    var x := CopyN(b);
    assert x.digits[x.bound - 1] == b.digits[b.bound - 1];
    var d := CreateN(b.bound - 1 - (a.bound - 1) + 1 + 1);
    var one := Embed(1);
    assert one.bound > 0 && x.Normalized();
    assert d.Val() == 0 && x.Val() == B0 && a.Val() == A && b.Val() == B0;
    ghost var D, X := LongDivision(x, d, one, a, b.bound - 1, a.bound - 1, A, B0);
    q, m := d, x;
    assert b.Val() == B0;
  }

  /**
   * `divmod` for a nonzero divisor: b itself is the remainder when its
   * degree is below that of a, otherwise long division.
   */
  method DivModNonZero(b: BigNat, a: BigNat) returns (q: BigNat, m: BigNat)
    requires b.Valid() && a.Valid() && b.Normalized() && a.Normalized() && a.bound > 0
    ensures q.Valid() && m.Valid() && q.Normalized() && m.Normalized()
    ensures q.Val() * a.Val() + m.Val() == b.Val() && m.Val() < a.Val()
    ensures q.Val() == b.Val() / a.Val() && m.Val() == b.Val() % a.Val()
    ensures b.bound < a.bound ==> q.Val() == 0 && m == b
  {
    NormalizedZero(a);
    if b.bound - 1 < a.bound - 1 {
      q := Embed(0);
      m := b;
      BoundOrder(b, a);
      DivModUnique(b.Val(), b.Val(), 0, a.Val());
    } else {
      q, m := DivideLong(b, a);
      QuotientRemainder(b.Val(), q.Val(), m.Val(), a.Val());
    }
  }

  /** `divmod`: fails on a zero divisor, otherwise quotient and remainder. */
  method DivMod(b: BigNat, a: BigNat) returns (r: Result<(BigNat, BigNat)>)
    requires b.Valid() && a.Valid() && b.Normalized() && a.Normalized()
    ensures r.Err? <==> a.Val() == 0
    ensures r.Err? ==> r.error == DivideByZero
    ensures r.Ok? ==> r.value.0.Valid() && r.value.1.Valid() && r.value.0.Normalized() && r.value.1.Normalized()
    ensures r.Ok? ==> r.value.0.Val() * a.Val() + r.value.1.Val() == b.Val() && r.value.1.Val() < a.Val()
  {
    NormalizedZero(a);
    if IsZero(a) {
      r := Err(DivideByZero);
    } else {
      var q, m := DivModNonZero(b, a);
      r := Ok((q, m));
    }
  }

  /** `div`: the quotient of `divmod`. */
  method Div(b: BigNat, a: BigNat) returns (r: Result<BigNat>)
    requires b.Valid() && a.Valid() && b.Normalized() && a.Normalized()
    ensures r.Err? <==> a.Val() == 0
    ensures r.Ok? ==> r.value.Valid() && r.value.Normalized() && r.value.Val() == b.Val() / a.Val()
  {
    NormalizedZero(a);
    if IsZero(a) {
      r := Err(DivideByZero);
    } else {
      var q, m := DivModNonZero(b, a);
      r := Ok(q);
    }
  }

  /** `rem`: the remainder of `divmod`. */
  method Rem(b: BigNat, a: BigNat) returns (r: Result<BigNat>)
    requires b.Valid() && a.Valid() && b.Normalized() && a.Normalized()
    ensures r.Err? <==> a.Val() == 0
    ensures r.Ok? ==> r.value.Valid() && r.value.Normalized() && r.value.Val() == b.Val() % a.Val()
  {
    NormalizedZero(a);
    if IsZero(a) {
      r := Err(DivideByZero);
    } else {
      var q, m := DivModNonZero(b, a);
      r := Ok(m);
    }
  }
}
