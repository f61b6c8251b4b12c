/**
 * Multiplication in `BigNatModule`: carry propagation into a digit array,
 * scaling by a small factor, the three shapes of schoolbook multiplication
 * and Karatsuba's recursive split.
 */
module Mul {
  import opened Limbs
  import opened BigNats
  import opened Arith

  /**
   * Adding `add` into limb k of s, keeping the low limb there and carrying
   * the rest, preserves the value.
   */
  lemma LimbStep(s: seq<int>, k: nat, add: int)
    requires k < |s|
    ensures Eval(s[k := (s[k] + add) % Base]) + ((s[k] + add) / Base) * Pow(Base, k + 1)
         == Eval(s) + add * Pow(Base, k)
  {
    var x := s[k] + add;
    EvalUpdate(s, k, x % Base);
    CarryStep(x, k);
    assert (x % Base - s[k]) * Pow(Base, k) == (x % Base) * Pow(Base, k) - s[k] * Pow(Base, k);
    assert x * Pow(Base, k) == s[k] * Pow(Base, k) + add * Pow(Base, k);
  }

  /** A carry still owed above the top limb would push the value past the array's capacity. */
  lemma CarryFits(s: seq<int>, k: nat, c: int)
    requires IsLimbs(s) && c > 0 && Eval(s) + c * Pow(Base, k) < Pow(Base, |s|)
    ensures k < |s|
  {
    EvalBounds(s);
    if k >= |s| {
      PowMonotone(Base, |s|, k);
      MulLeMono(1, c, Pow(Base, k));
    }
  }

  /** Writing a limb value into an array of limbs keeps it an array of limbs. */
  lemma UpdateLimbs(s: seq<int>, k: nat, v: int)
    requires IsLimbs(s) && k < |s| && 0 <= v < Base
    ensures IsLimbs(s[k := v])
  {
  }

  /**
   * `contributeArr`: adds c at weight Base^i into the limb array a, rippling
   * the carry upward until it is spent.
   */
  method ContributeArr(a: array<int>, i: nat, c: int)
    requires i < a.Length && 0 <= c
    requires IsLimbs(a[..]) && Eval(a[..]) + c * Pow(Base, i) < Pow(Base, a.Length)
    modifies a
    ensures IsLimbs(a[..]) && Eval(a[..]) == old(Eval(a[..])) + c * Pow(Base, i)
  {
    ghost var target := Eval(a[..]) + c * Pow(Base, i);
    var k, carry := i, c;
    while true
      invariant k < a.Length && 0 <= carry && IsLimbs(a[..]) && target < Pow(Base, a.Length)
      invariant Eval(a[..]) + carry * Pow(Base, k) == target
      decreases a.Length - k
    {
      // x is non-negative, so masking with baseMask is taking it modulo Base
      var x := a[k] + carry;
      ghost var s := a[..];
      ContributeStep(s, k, carry, target);
      a[k] := x % Base;
      assert a[..] == s[k := x % Base];
      var next := x / Base;
      if next > 0 {
        k, carry := k + 1, next;
      } else {
        break;
      }
    }
  }

  /**
   * One limb of `contributeArr`: the low limb of s[k] + carry is written
   * back and the rest is owed at the next weight, which exists while
   * anything is owed.
   */
  lemma ContributeStep(s: seq<int>, k: nat, carry: int, target: int)
    requires k < |s| && 0 <= carry && IsLimbs(s) && target < Pow(Base, |s|)
    requires Eval(s) + carry * Pow(Base, k) == target
    ensures 0 <= s[k] + carry && IsLimbs(s[k := (s[k] + carry) % Base])
    ensures (s[k] + carry) / Base == 0 ==> Eval(s[k := (s[k] + carry) % Base]) == target
    ensures (s[k] + carry) / Base > 0 ==> k + 1 < |s|
    ensures (s[k] + carry) / Base > 0 ==>
      Eval(s[k := (s[k] + carry) % Base]) + ((s[k] + carry) / Base) * Pow(Base, k + 1) == target
  {
    var x := s[k] + carry;
    var s' := s[k := x % Base];
    LimbStep(s, k, carry);
    UpdateLimbs(s, k, x % Base);
    if x / Base > 0 {
      CarryFits(s', k + 1, x / Base);
    }
  }

  /** The product of two values below given bounds is below the product of the bounds. */
  lemma ProductBound(x: int, y: int, lx: int, ly: int)
    requires 0 <= x < lx && 0 <= y < ly
    ensures 0 <= x * y < lx * ly
  {
    MulLeMono(x, lx - 1, y);
    MulLeMono(y, ly, lx);
    assert x * y <= (lx - 1) * y;
    assert (lx - 1) * y == lx * y - y;
    assert y * lx == lx * y;
  }

  /**
   * `scale`: k times p as a fresh normalised number, each product k·p[i]
   * contributed at weight Base^i.
   */
  method Scale(k: int, p: BigNat) returns (r: BigNat)
    requires p.Valid() && 0 <= k < 0x8000_0000
    ensures r.Valid() && r.Normalized() && r.Val() == k * p.Val()
  {
    var rbound := p.bound + BoundInt;
    r := CreateN(rbound);
    var ra := r.digits;
    ArrayLimbs(ra, rbound);
    assert ra[..] == ra[..rbound];
    LimbsOfBounds(p, p.bound);
    ScaleRow(ra, p.digits, p.bound, k, LimbsOf(p));
    assert ra[..] == ra[..r.bound];
    LimbsValid(r);
    NormN(r);
  }

  /** The limb loop of `scale`: k times each limb of p added in at its position. */
  method ScaleRow(ra: array<int>, pd: array<int>, pb: nat, k: int, ghost P: seq<int>)
    requires ra != pd && pb <= pd.Length && P == pd[..pb] && IsLimbs(P)
    requires ra.Length == pb + BoundInt && IsLimbs(ra[..]) && Eval(ra[..]) == 0
    requires 0 <= k < 0x8000_0000
    modifies ra
    ensures IsLimbs(ra[..]) && Eval(ra[..]) == k * Eval(P)
  {
    var i := 0;
    while i < pb
      invariant 0 <= i <= pb
      invariant IsLimbs(ra[..]) && Eval(ra[..]) == k * EvalUpTo(P, i)
    {
      var d := pd[i];
      assert d == P[i];
      ScaleStep(k, P, i, pb);
      ContributeArr(ra, i, k * d);
      i := i + 1;
    }
    EvalUpToAll(P, pb);
  }
  /** One step of `scale`: the next contribution fits and extends the prefix value. */
  lemma ScaleStep(k: int, P: seq<int>, i: nat, bp: nat)
    requires IsLimbs(P) && |P| == bp && i < bp && 0 <= k < 0x8000_0000
    ensures k * EvalUpTo(P, i) + (k * P[i]) * Pow(Base, i) == k * EvalUpTo(P, i + 1)
    ensures k * EvalUpTo(P, i + 1) < Pow(Base, bp + BoundInt)
  {
    var W := Pow(Base, i + 1);
    EvalUpToStep(P, i);
    EvalUpToBounds(P, i + 1);
    ProductBound(k, EvalUpTo(P, i + 1), 0x8000_0000, W);
    assert Pow(Base, 2) == Base * Base;
    PowAdd(Base, i + 1, 2);
    MulLeMono(0x8000_0000, Pow(Base, 2), W);
    MulComm(Pow(Base, 2), W);
    PowMonotone(Base, i + 1 + 2, bp + BoundInt);
    ScaleDistrib(k, EvalUpTo(P, i), P[i], Pow(Base, i));
  }

  /** k·(e + d·w) == k·e + (k·d)·w. */
  lemma ScaleDistrib(k: int, e: int, d: int, w: int)
    ensures k * (e + d * w) == k * e + (k * d) * w
  {
    MulAssoc(k, d, w);
  }

  /** `mulSchoolBookBothSmall`: the product of two single limbs, in at most two limbs. */
  method MulSchoolBookBothSmall(p: int, q: int) returns (r: BigNat)
    requires 0 <= p < Base && 0 <= q < Base
    ensures r.Valid() && r.Normalized() && r.Val() == p * q
  {
    r := CreateN(2);
    var rak := p * q;
    ProductBound(p, q, Base, Base);
    var lo, hi := rak % Base, rak / Base;
    TwoLimbs(rak, lo, hi);
    r.digits[0] := lo;
    r.digits[1] := hi;
    assert r.digits[..2] == [lo, hi];
    NormN(r);
  }

  /** A value below Base^2 is held by its low limb and its high limb. */
  lemma TwoLimbs(x: int, lo: int, hi: int)
    requires 0 <= x < Base * Base && lo == x % Base && hi == x / Base
    ensures 0 <= lo < Base && 0 <= hi < Base && Eval([lo, hi]) == x
  {
    Eval1(lo);
    assert [lo, hi] == [lo] + [hi];
    EvalAppend([lo], hi);
    if hi >= Base {
      MulLeMono(Base, hi, Base);
    }
  }

  /**
   * `mulSchoolBookCarry`: while a carry c remains it is added at limb k of
   * the digit array of r and the excess moves one limb up.
   */
  method MulSchoolBookCarry(ra: array<int>, c: int, k: nat)
    requires IsLimbs(ra[..]) && 0 <= c
    requires Eval(ra[..]) + c * Pow(Base, k) < Pow(Base, ra.Length)
    modifies ra
    ensures IsLimbs(ra[..]) && Eval(ra[..]) == old(Eval(ra[..])) + c * Pow(Base, k)
  {
    ghost var target := Eval(ra[..]) + c * Pow(Base, k);
    var carry, i := c, k;
    while carry > 0
      invariant 0 <= carry && IsLimbs(ra[..])
      invariant Eval(ra[..]) + carry * Pow(Base, i) == target
      decreases ra.Length - i
    {
      CarryFits(ra[..], i, carry);
      var rak := ra[i] + carry;
      ghost var s := ra[..];
      LimbStep(s, i, carry);
      UpdateLimbs(s, i, rak % Base);
      ra[i] := rak % Base;
      assert ra[..] == s[i := rak % Base];
      carry, i := rak / Base, i + 1;
      if carry > 0 {
        CarryFits(ra[..], i, carry);
      }
    }
  }

  /** The sum a limb step of a schoolbook multiply forms has a carry of at most one limb. */
  lemma RowCarryBound(r: int, c: int, x: int, y: int)
    requires 0 <= r < Base && 0 <= c < Base && 0 <= x < Base && 0 <= y < Base
    ensures 0 <= r + c + x * y && (r + c + x * y) / Base < Base
  {
    MulLeMono(x, Base - 1, y);
    MulLeMono(y, Base - 1, Base - 1);
    assert y * (Base - 1) == (Base - 1) * y;
  }

  /** The row invariant of schoolbook multiplication carried over one limb. */
  lemma RowStepAlgebra(e: int, c: int, add: int, wk: int, x: int, d: int, wi: int, ej: int, q: int, wj: int)
    requires wk == wi * wj && add == c + d * q
    requires e + c * wk == x + d * wi * ej
    ensures e + add * wk == x + d * wi * (ej + q * wj)
  {
    assert add * wk == c * wk + (d * q) * (wi * wj);
    assert d * wi * (ej + q * wj) == d * wi * ej + (d * q) * (wi * wj);
  }

  /**
   * `mulSchoolBookOneSmall`: p times the single limb q, one pass over p's
   * limbs with a carry, then the last carry placed at limb bound(p).
   */
  method MulSchoolBookOneSmall(p: BigNat, q: int) returns (r: BigNat)
    requires p.Valid() && 0 <= q < Base
    ensures r.Valid() && r.Normalized() && r.Val() == p.Val() * q
  {
    var bp := p.bound;
    var rbound := bp + 1;
    ghost var P, pv := LimbsOf(p), p.Val();
    LimbsOfBounds(p, bp);
    r := CreateN(rbound);
    var ra := r.digits;
    var c := OneSmallPass(ra, p.digits, bp, q, P);
    OneSmallCarryFits(ra[..], c, pv, q, bp);
    MulSchoolBookCarry(ra, c, bp);
    LimbsValid(r);
    assert ra[..] == ra[..r.bound];
    NormN(r);
    assert p.Val() == pv;
  }

  /**
   * The pass of `mulSchoolBookOneSmall` over the bp limbs of pa: limb i of
   * ra receives the low limb of c + pa[i]·q and the rest carries on.
   */
  method OneSmallPass(ra: array<int>, pa: array<int>, bp: nat, q: int, ghost P: seq<int>) returns (c: int)
    requires ra != pa && bp <= pa.Length && P == pa[..bp] && IsLimbs(P) && 0 <= q < Base
    requires ra.Length == bp + 1 && forall j :: 0 <= j < ra.Length ==> ra[j] == 0
    modifies ra
    ensures IsLimbs(ra[..]) && ra[bp] == 0 && 0 <= c < Base
    ensures Eval(ra[..bp]) + c * Pow(Base, bp) == Eval(P) * q
  {
    c := 0;
    var i := 0;
    assert ra[..0] == [];
    while i < bp
      invariant 0 <= i <= bp && PassInv(ra[..], i, c, P, q)
    {
      var d := pa[i];
      assert d == P[i];
      var rak := c + ra[i] + d * q;
      ghost var s := ra[..];
      PassStep(s, i, c, P, q);
      ra[i] := rak % Base;
      assert ra[..] == s[i := rak % Base];
      c := rak / Base;
      i := i + 1;
    }
    PassDone(ra[..], c, P, q);
  }

  /**
   * The state of the pass after i limbs: the limbs written so far are
   * limbs, the rest are still zero, and with the carry c they hold the
   * low i limbs of P times q.
   */
  ghost predicate PassInv(r: seq<int>, i: nat, c: int, P: seq<int>, q: int)
  {
    i < |r| && 0 <= c < Base && IsLimbs(r[..i]) &&
    (forall j :: i <= j < |r| ==> r[j] == 0) &&
    Eval(r[..i]) + c * Pow(Base, i) == EvalUpTo(P, i) * q
  }

  /** One limb of the pass keeps its state. */
  lemma PassStep(r: seq<int>, i: nat, c: int, P: seq<int>, q: int)
    requires PassInv(r, i, c, P, q) && i < |P| && |r| == |P| + 1 && IsLimbs(P) && 0 <= q < Base
    ensures 0 <= c + r[i] + P[i] * q
    ensures PassInv(r[i := (c + r[i] + P[i] * q) % Base], i + 1, (c + r[i] + P[i] * q) / Base, P, q)
  {
    var rak := c + r[i] + P[i] * q;
    var r' := r[i := rak % Base];
    RowCarryBound(r[i], c, P[i], q);
    assert r'[..i + 1] == r[..i] + [rak % Base];
    EvalAppend(r[..i], rak % Base);
    OneSmallStep(Eval(r[..i]), c, rak, P, i, q);
  }

  /** The finished pass: all limbs, a zero top limb, and the value with the carry. */
  lemma PassDone(r: seq<int>, c: int, P: seq<int>, q: int)
    requires PassInv(r, |P|, c, P, q) && |r| == |P| + 1
    ensures IsLimbs(r) && r[|P|] == 0 && 0 <= c < Base
    ensures Eval(r[..|P|]) + c * Pow(Base, |P|) == Eval(P) * q
  {
    assert r == r[..|P|] + [r[|P|]];
    EvalUpToAll(P, |P|);
  }

  /** The carry left by the pass of `mulSchoolBookOneSmall` fits in its spare top limb. */
  lemma OneSmallCarryFits(s: seq<int>, c: int, pv: int, q: int, bp: nat)
    requires IsLimbs(s) && |s| == bp + 1 && s[bp] == 0
    requires Eval(s[..bp]) + c * Pow(Base, bp) == pv * q
    requires 0 <= pv < Pow(Base, bp) && 0 <= q < Base
    ensures Eval(s) + c * Pow(Base, bp) == pv * q < Pow(Base, |s|)
  {
    assert s == s[..bp] + [s[bp]];
    EvalAppend(s[..bp], s[bp]);
    ProductBound(pv, q, Pow(Base, bp), Base);
    assert Pow(Base, bp + 1) == Pow(Base, bp) * Base;
  }

  /** One limb step of `mulSchoolBookOneSmall` keeps its row invariant. */
  lemma OneSmallStep(e: int, c: int, rak: int, P: seq<int>, i: nat, q: int)
    requires i < |P| && rak == c + 0 + P[i] * q
    requires e + c * Pow(Base, i) == EvalUpTo(P, i) * q
    ensures e + (rak % Base) * Pow(Base, i) + (rak / Base) * Pow(Base, i + 1) == EvalUpTo(P, i + 1) * q
  {
    CarryStep(rak, i);
    EvalUpToStep(P, i);
    assert Digit(P, i) == P[i];
    assert (EvalUpTo(P, i) + P[i] * Pow(Base, i)) * q == EvalUpTo(P, i) * q + (P[i] * q) * Pow(Base, i);
    assert rak * Pow(Base, i) == c * Pow(Base, i) + (P[i] * q) * Pow(Base, i);
  }

  /**
   * `mulSchoolBookNeitherSmall`: for each limb of p a row pass over q's
   * limbs accumulates p[i]·q at weight Base^i, then the row's carry rippled
   * upward.
   */
  method MulSchoolBookNeitherSmall(p: BigNat, q: BigNat) returns (r: BigNat)
    requires p.Valid() && q.Valid()
    ensures r.Valid() && r.Normalized() && r.Val() == p.Val() * q.Val()
  {
    var bp, bq := p.bound, q.bound;
    var rbound := bp + bq;
    r := CreateN(rbound);
    var ra := r.digits;
    ghost var P, Q, pv, qv := LimbsOf(p), LimbsOf(q), p.Val(), q.Val();
    LimbsOfBounds(p, bp);
    LimbsOfBounds(q, bq);
    EvalUpToAll(P, bp);
    EvalUpToAll(Q, bq);
    ArrayLimbs(ra, rbound);
    assert ra[..] == ra[..rbound];
    NeitherSmallRows(ra, p.digits, bp, q.digits, bq, P, Q);
    LimbsValid(r);
    assert ra[..r.bound] == ra[..];
    NormN(r);
    assert p.Val() == pv && q.Val() == qv;
  }

  /**
   * The outer loop of `mulSchoolBookNeitherSmall` on the digit arrays: row
   * i adds pa[i]·q at weight Base^i and ripples its carry, so that after
   * all bp rows ra holds p·q.
   */
  method NeitherSmallRows(ra: array<int>, pa: array<int>, bp: nat, qa: array<int>, bq: nat,
                          ghost P: seq<int>, ghost Q: seq<int>)
    requires ra != pa && ra != qa && bp <= pa.Length && bq <= qa.Length
    requires P == pa[..bp] && Q == qa[..bq] && IsLimbs(P) && IsLimbs(Q)
    requires ra.Length == bp + bq && IsLimbs(ra[..]) && Eval(ra[..]) == 0
    modifies ra
    ensures IsLimbs(ra[..]) && Eval(ra[..]) == Eval(P) * Eval(Q)
  {
    ghost var qv := Eval(Q);
    EvalBounds(Q);
    var i := 0;
    while i < bp
      invariant 0 <= i <= bp
      invariant IsLimbs(ra[..]) && Eval(ra[..]) == EvalUpTo(P, i) * qv
    {
      var pai := pa[i];
      assert pai == P[i];
      ghost var e := Eval(ra[..]);
      var c, k := MulSchoolBookRow(ra, i, pai, qa, bq, Q);
      ghost var owed := c * Pow(Base, k);
      RowCarryFits(P, i, pai, qv, bq, bp, e, Eval(ra[..]), owed);
      MulSchoolBookCarry(ra, c, k);
      i := i + 1;
    }
    EvalUpToAll(P, bp);
  }

  /** A number whose whole digit array is limbs is valid. */
  lemma LimbsValid(r: BigNat)
    requires r.bound == r.digits.Length && IsLimbs(r.digits[..])
    ensures r.Valid()
  {
    forall t | 0 <= t < r.digits.Length
      ensures 0 <= r.digits[t] < Base
    {
      assert r.digits[t] == r.digits[..][t];
    }
  }

  /**
   * The inner loop of `mulSchoolBookNeitherSmall`: adds pai times the qb
   * limbs of qa into ra at weight Base^i, returning the carry c still owed
   * at limb k.
   */
  method MulSchoolBookRow(ra: array<int>, i: nat, pai: int, qa: array<int>, qb: nat, ghost Q: seq<int>)
    returns (c: int, k: nat)
    requires ra != qa && qb <= qa.Length && Q == qa[..qb] && IsLimbs(Q)
    requires IsLimbs(ra[..]) && i + qb <= ra.Length && 0 <= pai < Base
    modifies ra
    ensures IsLimbs(ra[..]) && 0 <= c < Base && k == i + qb
    ensures Eval(ra[..]) + c * Pow(Base, k) == old(Eval(ra[..])) + pai * Pow(Base, i) * Eval(Q)
  {
    ghost var x := Eval(ra[..]);
    c, k := 0, i;
    var j := 0;
    while j < qb
      invariant 0 <= j <= qb && k == i + j
      invariant IsLimbs(ra[..]) && 0 <= c < Base
      invariant Eval(ra[..]) + c * Pow(Base, k) == x + pai * Pow(Base, i) * EvalUpTo(Q, j)
    {
      var qaj := qa[j];
      assert qaj == Q[j];
      ghost var s := ra[..];
      var rak := ra[k] + c + pai * qaj;
      RowStep(s, k, c, pai, qaj, x, i, Q, j);
      ra[k] := rak % Base;
      assert ra[..] == s[k := rak % Base];
      c := rak / Base;
      k := k + 1;
      j := j + 1;
    }
    EvalUpToAll(Q, qb);
  }

  /** One limb step of the inner loop of `mulSchoolBookNeitherSmall`. */
  lemma RowStep(s: seq<int>, k: nat, c: int, pai: int, qaj: int, x: int, i: nat, Q: seq<int>, j: nat)
    requires IsLimbs(s) && k == i + j && k < |s| && j < |Q| && qaj == Q[j]
    requires 0 <= c < Base && 0 <= pai < Base && 0 <= qaj < Base
    requires Eval(s) + c * Pow(Base, k) == x + pai * Pow(Base, i) * EvalUpTo(Q, j)
    ensures IsLimbs(s[k := (s[k] + c + pai * qaj) % Base])
    ensures Eval(s[k := (s[k] + c + pai * qaj) % Base]) + ((s[k] + c + pai * qaj) / Base) * Pow(Base, k + 1)
         == x + pai * Pow(Base, i) * EvalUpTo(Q, j + 1)
    ensures 0 <= (s[k] + c + pai * qaj) / Base < Base
  {
    RowCarryBound(s[k], c, pai, qaj);
    var add := c + pai * qaj;
    assert s[k] + add == s[k] + c + pai * qaj;
    LimbStep(s, k, add);
    UpdateLimbs(s, k, (s[k] + add) % Base);
    EvalUpToStep(Q, j);
    PowAdd(Base, i, j);
    RowStepAlgebra(Eval(s), c, add, Pow(Base, k), x, pai, Pow(Base, i), EvalUpTo(Q, j), qaj, Pow(Base, j));
  }

  /** After a row pass the value owed is the next prefix of p times q, which fits. */
  lemma RowCarryFits(P: seq<int>, i: nat, pai: int, qv: int, bq: nat, bp: nat, e: int, e': int, owed: int)
    requires IsLimbs(P) && |P| == bp && i < bp && pai == P[i] && 0 <= qv < Pow(Base, bq)
    requires e == EvalUpTo(P, i) * qv && e' + owed == e + pai * Pow(Base, i) * qv
    ensures e' + owed == EvalUpTo(P, i + 1) * qv < Pow(Base, bp + bq)
  {
    EvalUpToStep(P, i);
    EvalUpToBounds(P, i + 1);
    ProductBound(EvalUpTo(P, i + 1), qv, Pow(Base, i + 1), Pow(Base, bq));
    PowAdd(Base, i + 1, bq);
    PowMonotone(Base, i + 1 + bq, bp + bq);
    assert Digit(P, i) == pai;
    RightDistrib(EvalUpTo(P, i), pai * Pow(Base, i), qv);
    MulAssoc(pai, Pow(Base, i), qv);
  }

  /** `mulSchoolBook`: dispatch on which operands are a single limb. */
  method MulSchoolBook(p: BigNat, q: BigNat) returns (r: BigNat)
    requires p.Valid() && q.Valid()
    ensures r.Valid() && r.Normalized() && r.Val() == p.Val() * q.Val()
  {
    var pSmall := p.bound == 1;
    var qSmall := q.bound == 1;
    ghost var pv, qv := p.Val(), q.Val();
    ArrayLimbs(p.digits, p.bound);
    ArrayLimbs(q.digits, q.bound);
    if pSmall && qSmall {
      SingleLimb(p);
      SingleLimb(q);
      r := MulSchoolBookBothSmall(p.digits[0], q.digits[0]);
    } else if pSmall {
      SingleLimb(p);
      r := MulSchoolBookOneSmall(q, p.digits[0]);
      MulComm(qv, pv);
    } else if qSmall {
      SingleLimb(q);
      r := MulSchoolBookOneSmall(p, q.digits[0]);
    } else {
      r := MulSchoolBookNeitherSmall(p, q);
    }
  }

  /** A number of one limb has that limb as its value. */
  lemma SingleLimb(n: BigNat)
    requires n.Valid() && n.bound == 1
    ensures 0 <= n.digits[0] < Base && n.Val() == n.digits[0]
  {
    Eval1(n.digits[0]);
    assert n.digits[..1] == [n.digits[0]];
  }

  /** Operands whose larger bound exceeds this many limbs are split by Karatsuba's method. */
  const MinDigitsKaratsuba: nat := 16

  /**
   * Karatsuba's identity: with x = a0 + W·a1 and y = b0 + W·b1 the middle
   * term (a0+a1)(b0+b1) − (a0·b0 + a1·b1) is non-negative and recombines
   * the three products into x·y.
   */
  lemma KaratsubaIdentity(a0: int, a1: int, b0: int, b1: int, w: int)
    requires 0 <= a0 && 0 <= a1 && 0 <= b0 && 0 <= b1
    ensures (a0 + a1) * (b0 + b1) - (a0 * b0 + a1 * b1) == a0 * b1 + a1 * b0 >= 0
    ensures a0 * b0 + w * ((a0 * b1 + a1 * b0) + w * (a1 * b1)) == (a0 + w * a1) * (b0 + w * b1)
  {
    assert (a0 + a1) * (b0 + b1) == a0 * b0 + a0 * b1 + a1 * b0 + a1 * b1;
    assert (a0 + w * a1) * (b0 + w * b1) == a0 * b0 + w * (a0 * b1) + w * (a1 * b0) + (w * a1) * (w * b1);
    assert (w * a1) * (w * b1) == w * (w * (a1 * b1));
  }

  /** A value is its remainder and quotient by w recombined. */
  lemma SplitValue(x: int, w: int)
    requires w > 0
    ensures x == x % w + w * (x / w)
  {
  }

  /**
   * `recMulKaratsuba` with `mul` = `mulKaratsuba` (its only instantiation):
   * above 16 limbs the operands are split at k = max bound / 2, three half
   * size products are formed and recombined; otherwise schoolbook.
   */
  method MulKaratsuba(p: BigNat, q: BigNat) returns (r: BigNat)
    requires p.Valid() && q.Valid()
    ensures r.Valid() && r.Normalized() && r.Val() == p.Val() * q.Val()
    decreases Max(p.bound, q.bound), 2
  {
    var bmax := Max(p.bound, q.bound);
    if bmax > MinDigitsKaratsuba {
      var k := bmax / 2;
      ghost var x, y, w := p.Val(), q.Val(), Pow(Base, k);
      var q0, p1, q2 := KaratsubaProducts(k, p, q);
      ghost var v0, v1, v2 := q0.Val(), p1.Val(), q2.Val();
      r := KaratsubaCombine(k, q0, p1, q2);
      assert q0.Val() == v0 && p1.Val() == v1 && q2.Val() == v2;
      assert p.Val() == x && q.Val() == y;
      KaratsubaValue(x, y, w, v0, v1, v2, r.Val());
    } else {
      r := MulSchoolBook(p, q);
    }
  }

  /**
   * The three half-size products of `recMulKaratsuba`: with p and q split
   * at w = Base^k into low and high halves, the low product, the high
   * product, and the middle term, which is the cross term a0·b1 + a1·b0.
   */
  method KaratsubaProducts(k: nat, p: BigNat, q: BigNat) returns (q0: BigNat, p1: BigNat, q2: BigNat)
    requires p.Valid() && q.Valid()
    requires Max(p.bound, q.bound) > MinDigitsKaratsuba && k == Max(p.bound, q.bound) / 2
    ensures q0.Valid() && p1.Valid() && q2.Valid()
    ensures q0.Val() == (p.Val() % Pow(Base, k)) * (q.Val() % Pow(Base, k))
    ensures q2.Val() == (p.Val() / Pow(Base, k)) * (q.Val() / Pow(Base, k))
    ensures p1.Val() == (p.Val() % Pow(Base, k)) * (q.Val() / Pow(Base, k))
                      + (p.Val() / Pow(Base, k)) * (q.Val() % Pow(Base, k))
    decreases Max(p.bound, q.bound), 1
  {
    ghost var x, y := p.Val(), q.Val();
    var a0, a1 := KaratsubaSplit(k, p);
    var b0, b1 := KaratsubaSplit(k, q);
    ghost var va0, va1, vb0, vb1 := a0.Val(), a1.Val(), b0.Val(), b1.Val();
    q0 := MulKaratsuba(a0, b0);
    ghost var vq0 := q0.Val();
    q2 := MulKaratsuba(a1, b1);
    ghost var vq2 := q2.Val();
    assert a0.Val() == va0 && b0.Val() == vb0 && q0.Val() == vq0;
    p1 := KaratsubaCross(a0, a1, b0, b1, q0, q2, Max(p.bound, q.bound));
    assert q0.Val() == vq0 && q2.Val() == vq2;
    assert p.Val() == x && q.Val() == y;
  }

  /**
   * The middle term of `recMulKaratsuba`: (a0+a1)·(b0+b1) less the low and
   * high products q0 and q2, which is the cross term. m is the larger
   * bound of the operands that were split.
   */
  method KaratsubaCross(a0: BigNat, a1: BigNat, b0: BigNat, b1: BigNat, q0: BigNat, q2: BigNat, ghost m: nat)
    returns (p1: BigNat)
    requires a0.Valid() && a1.Valid() && b0.Valid() && b1.Valid() && q0.Valid() && q2.Valid()
    requires m > MinDigitsKaratsuba && a0.bound <= m / 2 && b0.bound <= m / 2
    requires a1.bound <= Max(m - m / 2, 1) && b1.bound <= Max(m - m / 2, 1)
    requires q0.Val() == a0.Val() * b0.Val() && q2.Val() == a1.Val() * b1.Val()
    ensures p1.Valid() && p1.Val() == a0.Val() * b1.Val() + a1.Val() * b0.Val()
    decreases m, 0
  {
    ghost var va0, va1, vb0, vb1, vq0, vq2 := a0.Val(), a1.Val(), b0.Val(), b1.Val(), q0.Val(), q2.Val();
    var sa := Add(a0, a1);
    var sb := Add(b0, b1);
    ghost var vsa, vsb := sa.Val(), sb.Val();
    var q1 := MulKaratsuba(sa, sb);
    ghost var vq1 := q1.Val();
    assert vq1 == vsa * vsb;
    assert q0.Val() == vq0 && q2.Val() == vq2;
    p1 := KaratsubaMiddle(q0, q1, q2);
    ghost var vp1 := p1.Val();
    assert q0.Val() == vq0 && q1.Val() == vq1 && q2.Val() == vq2;
    MiddleTerm(va0, va1, vb0, vb1, vsa, vsb, vq0, vq1, vq2, vp1);
    assert a0.Val() == va0 && a1.Val() == va1 && b0.Val() == vb0 && b1.Val() == vb1;
  }

  /** The saturating middle difference of Karatsuba's step is the cross term. */
  lemma MiddleTerm(a0: int, a1: int, b0: int, b1: int, sa: int, sb: int, q0: int, q1: int, q2: int, p1: int)
    requires 0 <= a0 && 0 <= a1 && 0 <= b0 && 0 <= b1 && sa == a0 + a1 && sb == b0 + b1
    requires q0 == a0 * b0 && q1 == sa * sb && q2 == a1 * b1
    requires p1 == if q1 < q0 + q2 then 0 else q1 - (q0 + q2)
    ensures p1 == a0 * b1 + a1 * b0
  {
    KaratsubaIdentity(a0, a1, b0, b1, 1);
  }

  /** Recombining the three products of the halves of x and y at w gives x·y. */
  lemma KaratsubaValue(x: int, y: int, w: int, q0: int, p1: int, q2: int, r: int)
    requires w > 0 && 0 <= x && 0 <= y
    requires q0 == (x % w) * (y % w) && q2 == (x / w) * (y / w)
    requires p1 == (x % w) * (y / w) + (x / w) * (y % w)
    requires r == q0 + w * (p1 + w * q2)
    ensures r == x * y
  {
    var a0, a1, b0, b1 := x % w, x / w, y % w, y / w;
    SplitValue(x, w);
    SplitValue(y, w);
    KaratsubaIdentity(a0, a1, b0, b1, w);
    assert (a0 + w * a1) * (b0 + w * b1) == x * y;
  }

  /** The halves of `recMulKaratsuba`: `restrictTo k` and `shiftDown k`. */
  method KaratsubaSplit(k: nat, p: BigNat) returns (lo: BigNat, hi: BigNat)
    requires p.Valid() && k > 0
    ensures lo.Valid() && hi.Valid()
    ensures lo.Val() == p.Val() % Pow(Base, k) && hi.Val() == p.Val() / Pow(Base, k)
    ensures lo.bound <= k && hi.bound <= Max(p.bound - k, 1)
  {
    lo := RestrictTo(k, p);
    hi := ShiftDown(k, p);
  }

  /** The middle term of `recMulKaratsuba`: q1 − (q0 + q2) by the saturating `sub`. */
  method KaratsubaMiddle(q0: BigNat, q1: BigNat, q2: BigNat) returns (p1: BigNat)
    requires q0.Valid() && q1.Valid() && q2.Valid()
    ensures p1.Valid()
    ensures p1.Val() == if q1.Val() < q0.Val() + q2.Val() then 0 else q1.Val() - (q0.Val() + q2.Val())
  {
    var q02 := Add(q0, q2);
    p1 := Sub(q1, q02);
  }

  /** The recombination of `recMulKaratsuba`: p0 + B^k·(p1 + B^k·p2). */
  method KaratsubaCombine(k: nat, p0: BigNat, p1: BigNat, p2: BigNat) returns (r: BigNat)
    requires p0.Valid() && p1.Valid() && p2.Valid()
    ensures r.Valid() && r.Normalized()
    ensures r.Val() == Recombined(p0.Val(), p1.Val(), p2.Val(), k)
  {
    ghost var v0, v1, v2, w := p0.Val(), p1.Val(), p2.Val(), Pow(Base, k);
    var t := ShiftUp(k, p2);
    ghost var vt := t.Val();
    var u := Add(p1, t);
    ghost var vu := u.Val();
    var v := ShiftUp(k, u);
    ghost var vv := v.Val();
    r := Add(p0, v);
    CombineAlgebra(r.Val(), v0, vv, vu, v1, vt, v2, w);
  }

  /** The value p0 + B^k·(p1 + B^k·p2) that Karatsuba's recombination forms. */
  ghost function Recombined(p0: int, p1: int, p2: int, k: nat): int
  {
    p0 + Pow(Base, k) * (p1 + Pow(Base, k) * p2)
  }

  lemma CombineAlgebra(r: int, v0: int, vv: int, vu: int, vp1: int, vt: int, v2: int, w: int)
    requires r == v0 + vv && vv == vu * w && vu == vp1 + vt && vt == v2 * w
    ensures r == v0 + w * (vp1 + w * v2)
  {
  }

  /** `mul`: always schoolbook. */
  method Multiply(p: BigNat, q: BigNat) returns (r: BigNat)
    requires p.Valid() && q.Valid()
    ensures r.Valid() && r.Normalized() && r.Val() == p.Val() * q.Val()
  {
    r := MulSchoolBook(p, q);
  }
}
