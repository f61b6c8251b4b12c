/**
 * Ripple-carry addition, ripple-borrow (saturating) subtraction and the
 * comparisons of `BigNatModule`.
 */
module Arith {
  import opened Limbs
  import opened BigNats

  /** The limbs below `bound`, the sequence whose value is `Val()`. */
  ghost function LimbsOf(n: BigNat): seq<int>
    reads n, n.digits
    requires n.Valid()
  {
    n.digits[..n.bound]
  }

  /** The limb `addP` and `subP` read at position i: zero at and above `bound`. */
  function LimbAt(n: BigNat, i: nat): (d: int)
    reads n, n.digits
    requires n.Valid()
    ensures d == Digit(LimbsOf(n), i)
  {
    if i < n.bound then n.digits[i] else 0
  }

  lemma LimbsOfBounds(n: BigNat, i: nat)
    requires n.Valid()
    ensures IsLimbs(LimbsOf(n)) && |LimbsOf(n)| == n.bound
    ensures 0 <= LimbAt(n, i) < Base
    ensures n.bound <= i ==> EvalUpTo(LimbsOf(n), i) == n.Val()
  {
    ArrayLimbs(n.digits, n.bound);
    if n.bound <= i {
      EvalUpToAll(LimbsOf(n), i);
    }
  }

  lemma AddStepAlgebra(e: int, pi: int, qi: int, dp: int, dq: int, c: int, w: int, lo: int, hi: int, bw: int)
    requires e + c * w == pi + qi
    requires lo * w + hi * bw == (dp + dq + c) * w
    ensures e + lo * w + hi * bw == (pi + dp * w) + (qi + dq * w)
  {
    assert (dp + dq + c) * w == dp * w + dq * w + c * w;
  }

  lemma SubStepAlgebra(e: int, pi: int, qi: int, dp: int, dq: int, c: int, w: int, lo: int, hi: int, bw: int)
    requires e + c * w == pi - qi
    requires lo * w + hi * bw == (dp - dq + c) * w
    ensures e + lo * w + hi * bw == (pi + dp * w) - (qi + dq * w)
  {
    assert (dp - dq + c) * w == dp * w - dq * w + c * w;
  }

  /** One borrow step of `subP`: the limb and borrow it writes hold x at weight Base^i. */
  lemma BorrowStep(x: int, i: nat, lo: int, hi: int)
    requires 0 <= x + Base && x < Base
    requires x > 0 ==> lo == x % Base && hi == x / Base
    requires x <= 0 ==> lo == (x + Base) % Base && hi == (x + Base) / Base - 1
    ensures 0 <= lo < Base && -1 <= hi <= 0
    ensures lo * Pow(Base, i) + hi * Pow(Base, i + 1) == x * Pow(Base, i)
  {
    var W := Pow(Base, i);
    assert Pow(Base, i + 1) == Base * W;
    if x > 0 {
      CarryStep(x, i);
    } else {
      CarryStep(x + Base, i);
      assert (hi + 1) * (Base * W) == hi * (Base * W) + Base * W;
      assert (x + Base) * W == x * W + Base * W;
    }
  }

  /**
   * One limb of `addP`: limb i of the result is (dp + dq + c) mod 2^24 and
   * the carry the quotient, so the sums below limb i + 1 agree.
   */
  method AddPStep(rd: array<int>, i: nat, dp: int, dq: int, c: int, ghost P: seq<int>, ghost Q: seq<int>)
    returns (c': int)
    requires i < rd.Length && 0 <= c <= 1
    requires dp == Digit(P, i) && dq == Digit(Q, i) && 0 <= dp < Base && 0 <= dq < Base
    requires forall j :: 0 <= j < rd.Length ==> 0 <= rd[j] < Base
    requires Eval(rd[..i]) + c * Pow(Base, i) == EvalUpTo(P, i) + EvalUpTo(Q, i)
    modifies rd
    ensures 0 <= c' <= 1
    ensures forall j :: 0 <= j < rd.Length ==> 0 <= rd[j] < Base
    ensures forall j :: 0 <= j < rd.Length && j != i ==> rd[j] == old(rd[j])
    ensures Eval(rd[..i + 1]) + c' * Pow(Base, i + 1) == EvalUpTo(P, i + 1) + EvalUpTo(Q, i + 1)
  {
    var x := dp + dq + c;
    ghost var s := rd[..i];
    rd[i] := x % Base;
    assert rd[..i + 1] == s + [x % Base];
    EvalAppend(s, x % Base);
    EvalUpToStep(P, i);
    EvalUpToStep(Q, i);
    CarryStep(x, i);
    AddStepAlgebra(Eval(s), EvalUpTo(P, i), EvalUpTo(Q, i), dp, dq, c, Pow(Base, i), x % Base, x / Base, Pow(Base, i + 1));
    c' := x / Base;
  }

  /**
   * One limb of `subP`: limb i of the result is dp − dq + c brought into
   * [0, 2^24) and the borrow is −1 exactly when that needed a 2^24.
   */
  method SubPStep(rd: array<int>, i: nat, dp: int, dq: int, c: int, ghost P: seq<int>, ghost Q: seq<int>)
    returns (c': int)
    requires i < rd.Length && -1 <= c <= 0
    requires dp == Digit(P, i) && dq == Digit(Q, i) && 0 <= dp < Base && 0 <= dq < Base
    requires forall j :: 0 <= j < rd.Length ==> 0 <= rd[j] < Base
    requires Eval(rd[..i]) + c * Pow(Base, i) == EvalUpTo(P, i) - EvalUpTo(Q, i)
    modifies rd
    ensures -1 <= c' <= 0
    ensures forall j :: 0 <= j < rd.Length ==> 0 <= rd[j] < Base
    ensures forall j :: 0 <= j < rd.Length && j != i ==> rd[j] == old(rd[j])
    ensures Eval(rd[..i + 1]) + c' * Pow(Base, i + 1) == EvalUpTo(P, i + 1) - EvalUpTo(Q, i + 1)
  {
    var x := dp - dq + c;
    var lo, hi;
    if x > 0 {
      lo, hi := x % Base, x / Base;
    } else {
      var x2 := x + Base;
      lo, hi := x2 % Base, x2 / Base - 1;
    }
    BorrowStep(x, i, lo, hi);
    ghost var s := rd[..i];
    rd[i] := lo;
    assert rd[..i + 1] == s + [lo];
    EvalAppend(s, lo);
    EvalUpToStep(P, i);
    EvalUpToStep(Q, i);
    SubStepAlgebra(Eval(s), EvalUpTo(P, i), EvalUpTo(Q, i), dp, dq, c, Pow(Base, i), lo, hi, Pow(Base, i + 1));
    c' := hi;
  }

  /**
   * `addP`: limbs 0..n-1 of r become the low n limbs of p + q, a carry of
   * at most one rippling upward; the limbs of r from n on are untouched.
   */
  method AddP(n: nat, p: BigNat, q: BigNat, r: BigNat)
    requires p.Valid() && q.Valid() && r.Valid()
    requires n <= r.digits.Length
    requires r.digits != p.digits && r.digits != q.digits
    modifies r.digits
    ensures r.Valid()
    ensures Eval(r.digits[..n]) == (EvalUpTo(LimbsOf(p), n) + EvalUpTo(LimbsOf(q), n)) % Pow(Base, n)
    ensures forall j :: n <= j < r.digits.Length ==> r.digits[j] == old(r.digits[j])
  {
    ghost var P, Q := LimbsOf(p), LimbsOf(q);
    var rd := r.digits;
    var i, c := 0, 0;
    while i < n
      invariant 0 <= i <= n && 0 <= c <= 1
      invariant forall j :: 0 <= j < rd.Length ==> 0 <= rd[j] < Base
      invariant P == LimbsOf(p) && Q == LimbsOf(q)
      invariant forall j :: i <= j < rd.Length ==> rd[j] == old(rd[j])
      invariant Eval(rd[..i]) + c * Pow(Base, i) == EvalUpTo(P, i) + EvalUpTo(Q, i)
    {
      LimbsOfBounds(p, i);
      LimbsOfBounds(q, i);
      var dp, dq := LimbAt(p, i), LimbAt(q, i);
      c := AddPStep(rd, i, dp, dq, c, P, Q);
      i := i + 1;
    }
    ArrayLimbs(rd, n);
    EvalBounds(rd[..n]);
    DivModUnique(EvalUpTo(P, n) + EvalUpTo(Q, n), Eval(rd[..n]), c, Pow(Base, n));
  }

  /** `add`: the normalised sum, computed in max(bound) + 1 limbs so the last carry fits. */
  method Add(p: BigNat, q: BigNat) returns (r: BigNat)
    requires p.Valid() && q.Valid()
    ensures fresh(r) && fresh(r.digits)
    ensures r.Valid() && r.Normalized() && r.Val() == p.Val() + q.Val()
    ensures r.bound <= Max(p.bound, q.bound) + 1
  {
    var m := Max(p.bound, q.bound);
    var rbound := 1 + m;
    ghost var pv, qv, P, Q := p.Val(), q.Val(), LimbsOf(p), LimbsOf(q);
    LimbsOfBounds(p, rbound);
    LimbsOfBounds(q, rbound);
    assert EvalUpTo(P, rbound) == pv && EvalUpTo(Q, rbound) == qv;
    r := CreateN(rbound);
    AddP(rbound, p, q, r);
    assert LimbsOf(p) == P && LimbsOf(q) == Q;
    SumFits(pv, qv, p.bound, q.bound, m);
    assert r.digits[..r.bound] == r.digits[..rbound];
    assert r.Val() == pv + qv;
    NormN(r);
    assert p.Val() == pv && q.Val() == qv;
  }

  /** Two values of at most m limbs sum to less than Base^(m+1). */
  lemma SumFits(pv: int, qv: int, bp: nat, bq: nat, m: nat)
    requires 0 <= pv < Pow(Base, bp) && 0 <= qv < Pow(Base, bq) && bp <= m && bq <= m
    ensures (pv + qv) % Pow(Base, m + 1) == pv + qv
  {
    PowMonotone(Base, bp, m);
    PowMonotone(Base, bq, m);
    assert Pow(Base, m + 1) == Base * Pow(Base, m);
    ModPowSmall(pv + qv, m + 1);
  }

  /**
   * `subP`: limbs 0..n-1 of r become the low n limbs of p - q with a borrow
   * rippling upward; the result reports whether a borrow remains, which
   * happens exactly when p < q on the low n limbs.
   */
  method SubP(n: nat, p: BigNat, q: BigNat, r: BigNat) returns (underflow: bool)
    requires p.Valid() && q.Valid() && r.Valid()
    requires n <= r.digits.Length
    requires r.digits != p.digits && r.digits != q.digits
    modifies r.digits
    ensures r.Valid()
    ensures underflow <==> EvalUpTo(LimbsOf(p), n) < EvalUpTo(LimbsOf(q), n)
    ensures Eval(r.digits[..n]) == EvalUpTo(LimbsOf(p), n) - EvalUpTo(LimbsOf(q), n) + (if underflow then Pow(Base, n) else 0)
    ensures forall j :: n <= j < r.digits.Length ==> r.digits[j] == old(r.digits[j])
  {
    ghost var P, Q := LimbsOf(p), LimbsOf(q);
    var rd := r.digits;
    var i, c := 0, 0;
    while i < n
      invariant 0 <= i <= n && -1 <= c <= 0
      invariant forall j :: 0 <= j < rd.Length ==> 0 <= rd[j] < Base
      invariant P == LimbsOf(p) && Q == LimbsOf(q)
      invariant forall j :: i <= j < rd.Length ==> rd[j] == old(rd[j])
      invariant Eval(rd[..i]) + c * Pow(Base, i) == EvalUpTo(P, i) - EvalUpTo(Q, i)
    {
      LimbsOfBounds(p, i);
      LimbsOfBounds(q, i);
      var dp, dq := LimbAt(p, i), LimbAt(q, i);
      c := SubPStep(rd, i, dp, dq, c, P, Q);
      i := i + 1;
    }
    underflow := c != 0;
    ArrayLimbs(rd, n);
    EvalBounds(rd[..n]);
    BorrowOut(Eval(rd[..n]), c, EvalUpTo(P, n), EvalUpTo(Q, n), Pow(Base, n));
  }

  /** The final borrow of `subP` is taken exactly when p's limbs are worth less than q's. */
  lemma BorrowOut(E: int, c: int, PN: int, QN: int, W: int)
    requires 0 <= E < W && -1 <= c <= 0 && E + c * W == PN - QN
    ensures c != 0 <==> PN < QN
    ensures E == PN - QN + (if c != 0 then W else 0)
  {
  }

  /** `sub`: p - q normalised when q <= p, and zero when a borrow remains. */
  method Sub(p: BigNat, q: BigNat) returns (r: BigNat)
    requires p.Valid() && q.Valid()
    ensures r.Valid() && r.Normalized()
    ensures r.Val() == if p.Val() < q.Val() then 0 else p.Val() - q.Val()
  {
    var rbound := Max(p.bound, q.bound);
    var t := CreateN(rbound);
    var underflow := SubP(rbound, p, q, t);
    LimbsOfBounds(p, rbound);
    LimbsOfBounds(q, rbound);
    if underflow {
      r := Embed(0);
    } else {
      assert t.digits[..t.bound] == t.digits[..rbound];
      NormN(t);
      r := t;
    }
  }

  /** `check` of `equal`: the arrays agree on positions 0..i. */
  function EqualFrom(pa: array<int>, qa: array<int>, i: int): (r: bool)
    reads pa, qa
    requires -1 <= i < pa.Length && i < qa.Length
    decreases i + 1
    ensures r <==> pa[..i + 1] == qa[..i + 1]
  {
    if i == -1 then true
    else
      assert pa[..i + 1] == pa[..i] + [pa[i]];
      assert qa[..i + 1] == qa[..i] + [qa[i]];
      if pa[i] == qa[i] then EqualFrom(pa, qa, i - 1) else false
  }

  /** Normalised numbers with more limbs are larger. */
  lemma BoundOrder(p: BigNat, q: BigNat)
    requires p.Valid() && q.Valid() && p.Normalized() && q.Normalized()
    ensures p.bound < q.bound ==> p.Val() < q.Val()
  {
    if p.bound < q.bound {
      ArrayLimbs(p.digits, p.bound);
      ArrayLimbs(q.digits, q.bound);
      EvalLengthOrder(LimbsOf(p), LimbsOf(q));
    }
  }

  /** Equal-bound numbers have equal values exactly when their limbs agree. */
  lemma SameBound(p: BigNat, q: BigNat)
    requires p.Valid() && q.Valid() && p.bound == q.bound
    ensures LimbsOf(p) == LimbsOf(q) <==> p.Val() == q.Val()
  {
    if p.Val() == q.Val() {
      ArrayLimbs(p.digits, p.bound);
      ArrayLimbs(q.digits, q.bound);
      EvalInjective(LimbsOf(p), LimbsOf(q));
    }
  }

  /** `equal` on normalised numbers: same bound and same limbs, i.e. the same value. */
  function Equal(p: BigNat, q: BigNat): (r: bool)
    reads p, p.digits, q, q.digits
    requires p.Valid() && q.Valid() && p.Normalized() && q.Normalized()
    ensures r <==> p.Val() == q.Val()
  {
    BoundOrder(p, q);
    BoundOrder(q, p);
    if p.bound == q.bound then
      SameBound(p, q);
      EqualFrom(p.digits, q.digits, p.bound - 1)
    else
      false
  }

  lemma CmpPrefix(s: seq<int>, t: seq<int>, i: nat)
    requires i < |s| && i < |t| && IsLimbs(s) && IsLimbs(t)
    ensures Cmp(Eval(s[..i + 1]), Eval(t[..i + 1])) ==
      if s[i] == t[i] then Cmp(Eval(s[..i]), Eval(t[..i])) else if s[i] < t[i] then -1 else 1
  {
    CmpTop(s[..i + 1], t[..i + 1]);
    assert s[..i + 1][..i] == s[..i];
    assert t[..i + 1][..i] == t[..i];
  }

  /** `check` of `compare`: compares the values of positions 0..i from the top. */
  function CompareFrom(pa: array<int>, qa: array<int>, i: int): (r: int)
    reads pa, qa
    requires -1 <= i < pa.Length && i < qa.Length
    requires IsLimbs(pa[..]) && IsLimbs(qa[..])
    decreases i + 1
    ensures r == Cmp(Eval(pa[..i + 1]), Eval(qa[..i + 1]))
  {
    if i == -1 then 0
    else
      CmpPrefix(pa[..], qa[..], i);
      assert pa[..][..i + 1] == pa[..i + 1] && pa[..][..i] == pa[..i];
      assert qa[..][..i + 1] == qa[..i + 1] && qa[..][..i] == qa[..i];
      if pa[i] == qa[i] then CompareFrom(pa, qa, i - 1)
      else if pa[i] < qa[i] then -1
      else 1
  }

  /** `compare` on normalised numbers: -1, 0 or 1 as p <, =, > q. */
  function Compare(p: BigNat, q: BigNat): (r: int)
    reads p, p.digits, q, q.digits
    requires p.Valid() && q.Valid() && p.Normalized() && q.Normalized()
    ensures r == Cmp(p.Val(), q.Val())
  {
    BoundOrder(p, q);
    BoundOrder(q, p);
    ArrayLimbs(p.digits, p.bound);
    ArrayLimbs(q.digits, q.bound);
    if p.bound < q.bound then -1
    else if p.bound > q.bound then 1
    else CompareFrom(p.digits, q.digits, p.bound - 1)
  }

  /**
   * Limb i of a shifted by s places as `shiftCompare` reads it: zero below
   * s, and zero past the end of the array.
   */
  function ShiftedDigit(a: array<int>, s: nat, i: int): int
    reads a
  {
    if i < s then 0 else if i - s < a.Length then a[i - s] else 0
  }

  /** The first `len` limbs of a shifted up by s places. */
  ghost function Shifted(a: seq<int>, s: nat, len: nat): (r: seq<int>)
    ensures |r| == len
  {
    seq(len, i => if i < s then 0 else Digit(a, i - s))
  }

  lemma ShiftedStep(a: array<int>, s: nat, i: nat)
    requires IsLimbs(a[..])
    ensures IsLimbs(Shifted(a[..], s, i + 1))
    ensures Shifted(a[..], s, i + 1)[..i] == Shifted(a[..], s, i)
    ensures Shifted(a[..], s, i + 1)[i] == ShiftedDigit(a, s, i)
  {
    var t := Shifted(a[..], s, i + 1);
    forall k | 0 <= k < i + 1
      ensures 0 <= t[k] < Base
    {
      assert t[k] == (if k < s then 0 else Digit(a[..], k - s));
    }
    assert t[i] == (if i < s then 0 else Digit(a[..], i - s));
    if i >= s && i - s < a.Length {
      assert Digit(a[..], i - s) == a[i - s];
    }
  }

  /** `check` of `shiftCompare`: compares the two shifted values on positions 0..i. */
  function ShiftCompareFrom(pa: array<int>, pn: nat, qa: array<int>, qn: nat, i: int): (r: int)
    reads pa, qa
    requires -1 <= i
    requires IsLimbs(pa[..]) && IsLimbs(qa[..])
    decreases i + 1
    ensures r == Cmp(Eval(Shifted(pa[..], pn, i + 1)), Eval(Shifted(qa[..], qn, i + 1)))
  {
    if i == -1 then 0
    else
      var pai := ShiftedDigit(pa, pn, i);
      var qai := ShiftedDigit(qa, qn, i);
      ShiftedStep(pa, pn, i);
      ShiftedStep(qa, qn, i);
      CmpPrefix(Shifted(pa[..], pn, i + 1), Shifted(qa[..], qn, i + 1), i);
      assert Shifted(pa[..], pn, i + 1)[..i + 1] == Shifted(pa[..], pn, i + 1);
      assert Shifted(qa[..], qn, i + 1)[..i + 1] == Shifted(qa[..], qn, i + 1);
      if pai == qai then ShiftCompareFrom(pa, pn, qa, qn, i - 1)
      else if pai < qai then -1
      else 1
  }

  lemma ShiftedValue(p: BigNat, pn: nat)
    requires p.Valid()
    ensures Eval(Shifted(p.digits[..], pn, p.bound + pn)) == p.Val() * Pow(Base, pn)
  {
    var sp := Shifted(p.digits[..], pn, p.bound + pn);
    forall k | 0 <= k < p.bound + pn
      ensures sp[k] == (seq(pn, _ => 0) + LimbsOf(p))[k]
    {
      assert sp[k] == (if k < pn then 0 else Digit(p.digits[..], k - pn));
    }
    assert sp == seq(pn, _ => 0) + LimbsOf(p);
    EvalShift(pn, LimbsOf(p));
  }

  lemma ShiftedBelow(p: BigNat, pn: nat, q: BigNat)
    requires p.Valid() && q.Valid()
    ensures q.Normalized() && p.bound + pn < q.bound ==> p.Val() * Pow(Base, pn) < q.Val()
  {
    if q.Normalized() && p.bound + pn < q.bound {
      NormalizedRange(q);
      ShiftBelowValues(p.Val(), p.bound, pn, q.Val(), q.bound);
    }
  }

  lemma ShiftBelowValues(v: int, vb: nat, s: nat, w: int, wb: nat)
    requires 0 <= v < Pow(Base, vb) && vb + s < wb && Pow(Base, wb - 1) <= w
    ensures v * Pow(Base, s) < w
  {
    var S := Pow(Base, s);
    PowAdd(Base, vb, s);
    MulLeMono(v, Pow(Base, vb) - 1, S);
    assert (Pow(Base, vb) - 1) * S < Pow(Base, vb) * S;
    PowMonotone(Base, vb + s, wb - 1);
  }

  /**
   * `shiftCompare`, as written: the second test adds `pn` to both bounds.
   * At its only use q has at least p.bound + pn limbs and qn is 0, and there
   * the result is Cmp(p * Base^pn, q).
   */
  function ShiftCompare(p: BigNat, pn: nat, q: BigNat, qn: nat): (r: int)
    reads p, p.digits, q, q.digits
    requires p.Valid() && q.Valid()
    ensures qn == 0 && p.Normalized() && q.Normalized() && p.bound + pn <= q.bound ==>
      r == Cmp(p.Val() * Pow(Base, pn), q.Val())
  {
    ArrayLimbs(p.digits, p.bound);
    ArrayLimbs(q.digits, q.bound);
    ShiftedValue(p, pn);
    ShiftedValue(q, 0);
    ShiftedBelow(p, pn, q);
    if p.bound + pn < q.bound + qn then -1
    else if p.bound + pn > q.bound + pn then 1
    else ShiftCompareFrom(p.digits, pn, q.digits, qn, p.bound + pn - 1)
  }

  /** `lt`. */
  function Lt(p: BigNat, q: BigNat): (r: bool)
    reads p, p.digits, q, q.digits
    requires p.Valid() && q.Valid() && p.Normalized() && q.Normalized()
    ensures r <==> p.Val() < q.Val()
  {
    Compare(p, q) == -1
  }

  /** `gt`. */
  function Gt(p: BigNat, q: BigNat): (r: bool)
    reads p, p.digits, q, q.digits
    requires p.Valid() && q.Valid() && p.Normalized() && q.Normalized()
    ensures r <==> p.Val() > q.Val()
  {
    Compare(p, q) == 1
  }

  /** `lte`. */
  function Lte(p: BigNat, q: BigNat): (r: bool)
    reads p, p.digits, q, q.digits
    requires p.Valid() && q.Valid() && p.Normalized() && q.Normalized()
    ensures r <==> p.Val() <= q.Val()
  {
    Compare(p, q) != 1
  }

  /** `gte`. */
  function Gte(p: BigNat, q: BigNat): (r: bool)
    reads p, p.digits, q, q.digits
    requires p.Valid() && q.Valid() && p.Normalized() && q.Normalized()
    ensures r <==> p.Val() >= q.Val()
  {
    Compare(p, q) != -1
  }

  /** `min`: one of the two arguments, the smaller (b when they are equal). */
  function MinNat(a: BigNat, b: BigNat): (r: BigNat)
    reads a, a.digits, b, b.digits
    requires a.Valid() && b.Valid() && a.Normalized() && b.Normalized()
    ensures r == a || r == b
    ensures r.Valid() && r.Val() == Min(a.Val(), b.Val())
  {
    if Lt(a, b) then a else b
  }

  /** `max`: one of the two arguments, the larger (a when they are equal). */
  function MaxNat(a: BigNat, b: BigNat): (r: BigNat)
    reads a, a.digits, b, b.digits
    requires a.Valid() && b.Valid() && a.Normalized() && b.Normalized()
    ensures r == a || r == b
    ensures r.Valid() && r.Val() == Max(a.Val(), b.Val())
  {
    if Lt(a, b) then b else a
  }
}
