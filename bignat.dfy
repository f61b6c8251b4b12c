/**
 * The `BigNat` record: `bound` little-endian base-2^24 limbs held in the
 * array `digits`, and the representation operations of `BigNatModule`
 * (allocation, normalisation, embedding machine integers, shifts by whole
 * limbs and the small queries).
 */
module BigNats {
  import opened Limbs

  class BigNat {
    var bound: nat
    var digits: array<int>

    constructor (b: nat, d: array<int>)
      ensures bound == b && digits == d
    {
      bound := b;
      digits := d;
    }

    /**
     * `bound` fits in the array and every limb of the array, also those at
     * and above `bound`, lies in [0, 2^24).
     */
    ghost predicate Valid()
      reads this, digits
    {
      bound <= digits.Length &&
      forall i :: 0 <= i < digits.Length ==> 0 <= digits[i] < Base
    }

    /** No leading zero limb below `bound`. */
    predicate Normalized()
      reads this, digits
      requires Valid()
    {
      bound == 0 || digits[bound - 1] != 0
    }

    /** The natural number the limbs below `bound` denote. */
    ghost function Val(): (v: int)
      reads this, digits
      requires Valid()
      ensures 0 <= v < Pow(Base, bound)
    {
      ArrayLimbs(digits, bound);
      EvalBounds(digits[..bound]);
      Eval(digits[..bound])
    }
  }

  lemma ArrayLimbs(a: array<int>, k: nat)
    requires k <= a.Length
    requires forall i :: 0 <= i < a.Length ==> 0 <= a[i] < Base
    ensures IsLimbs(a[..k]) && IsLimbs(a[..])
  {
  }

  lemma Eval1(x: int)
    ensures Eval([x]) == x
  {
    assert [x][..0] == [];
  }

  /** A normalised number with a top limb lies in [Base^(bound-1), Base^bound). */
  lemma NormalizedRange(n: BigNat)
    requires n.Valid() && n.Normalized() && n.bound > 0
    ensures Pow(Base, n.bound - 1) <= n.Val()
  {
    ArrayLimbs(n.digits, n.bound);
    EvalTop(n.digits[..n.bound]);
  }

  /** Normalised numbers are zero exactly when they have no limbs. */
  lemma NormalizedZero(n: BigNat)
    requires n.Valid() && n.Normalized()
    ensures n.Val() == 0 <==> n.bound == 0
  {
    if n.bound > 0 {
      NormalizedRange(n);
    }
  }

  /** `createN`: a fresh zero-filled number of `b` limbs. */
  method CreateN(b: nat) returns (r: BigNat)
    ensures fresh(r) && fresh(r.digits)
    ensures r.Valid() && r.bound == b && r.digits.Length == b
    ensures forall i :: 0 <= i < b ==> r.digits[i] == 0
    ensures r.Val() == 0
  {
    var d := new int[b](_ => 0);
    r := new BigNat(b, d);
    EvalAllZero(d[..b]);
  }

  /** `copyN`: a fresh number with the same bound and a copy of the limbs. */
  method CopyN(x: BigNat) returns (r: BigNat)
    requires x.Valid()
    ensures fresh(r) && fresh(r.digits)
    ensures r.Valid() && r.bound == x.bound && r.digits[..] == x.digits[..]
    ensures r.Val() == x.Val()
  {
    var src := x.digits;
    var d := new int[src.Length](i reads src => if 0 <= i < src.Length then src[i] else 0);
    r := new BigNat(x.bound, d);
    assert r.digits[..r.bound] == x.digits[..x.bound];
  }

  /**
   * `findLeastBound`: scanning down from limb i, one past the highest
   * nonzero limb at or below i, 0 when there is none.
   */
  function FindLeastBound(na: array<int>, i: int): (b: nat)
    reads na
    requires -1 <= i < na.Length
    decreases i + 1
    ensures b <= i + 1
    ensures b == 0 || na[b - 1] != 0
    ensures forall j :: b <= j <= i ==> na[j] == 0
  {
    if i == -1 || na[i] != 0 then i + 1 else FindLeastBound(na, i - 1)
  }

  /**
   * `normN`: lowers `bound` in place past the leading zero limbs; the limbs
   * and the value stay as they were.
   */
  method NormN(n: BigNat)
    requires n.Valid()
    modifies n
    ensures n.digits == old(n.digits) && n.Valid()
    ensures n.bound == FindLeastBound(n.digits, old(n.bound) - 1)
    ensures n.bound <= old(n.bound)
    ensures n.Normalized() && n.Val() == old(n.Val())
  {
    ghost var b0 := n.bound;
    n.bound := FindLeastBound(n.digits, n.bound - 1);
    EvalTrimZeros(n.digits[..b0], n.bound);
    assert n.digits[..b0][..n.bound] == n.digits[..n.bound];
  }

  /** Limbs allocated by `embed` for an int32 and by `embed64` for an int64. */
  const BoundInt: nat := 2
  const BoundInt64: nat := 3

  /**
   * The digit loop of `embed` and `embed64`: limb i of the array becomes
   * (y / 2^(24 i)) % 2^24, so the array spells y when y fits in it.
   */
  method FillLimbs(d: array<int>, y: nat)
    requires y < Pow(Base, d.Length)
    modifies d
    ensures forall j :: 0 <= j < d.Length ==> 0 <= d[j] < Base
    ensures Eval(d[..]) == y
  {
    var i := 0;
    while i < d.Length
      invariant 0 <= i <= d.Length
      invariant forall j :: 0 <= j < i ==> 0 <= d[j] < Base
      invariant Eval(d[..i]) == y % Pow(Base, i)
    {
      var x := (y / PowBySquaring(Base, i)) % Base;
      ghost var s := d[..i];
      d[i] := x;
      assert d[..i + 1] == s + [x];
      EvalAppend(s, x);
      ModPowStep(y, i);
      i := i + 1;
    }
    assert d[..] == d[..i];
    ModPowSmall(y, d.Length);
  }

  /** A fresh number of `k` limbs holding y, normalised. */
  method EmbedLimbs(y: nat, k: nat) returns (r: BigNat)
    requires y < Pow(Base, k)
    ensures fresh(r) && fresh(r.digits)
    ensures r.Valid() && r.Normalized() && r.bound <= k
    ensures r.Val() == y
  {
    r := CreateN(k);
    FillLimbs(r.digits, y);
    assert r.digits[..r.bound] == r.digits[..];
    NormN(r);
  }

  /**
   * `embed`: an int32 as a number, negative inputs clamped to zero; values
   * below 2^24 take one limb, the others two.
   */
  method Embed(x: int) returns (r: BigNat)
    requires -0x8000_0000 <= x < 0x8000_0000
    ensures fresh(r) && fresh(r.digits)
    ensures r.Valid() && r.Normalized() && r.bound <= 2
    ensures x < Base ==> r.bound <= 1
    ensures r.Val() == if x < 0 then 0 else x
  {
    var y := if x < 0 then 0 else x;
    if y < Base {
      r := CreateN(1);
      r.digits[0] := y;
      assert r.digits[..1] == [y];
      Eval1(y);
      NormN(r);
    } else {
      assert Pow(Base, BoundInt) == Base * Base;
      r := EmbedLimbs(y, BoundInt);
    }
  }

  /** `embed64`: an int64 as a number of at most three limbs, negatives clamped to zero. */
  method Embed64(x: int) returns (r: BigNat)
    requires -0x8000_0000_0000_0000 <= x < 0x8000_0000_0000_0000
    ensures r.Valid() && r.Normalized() && r.bound <= 3
    ensures r.Val() == if x < 0 then 0 else x
  {
    var y := if x < 0 then 0 else x;
    assert Pow(Base, BoundInt64) == Base * Base * Base;
    r := EmbedLimbs(y, BoundInt64);
  }

  /**
   * Horner evaluation from the top limb down, the loop of `eval32` and
   * `eval64`; exact because the caller keeps the value inside the
   * machine word.
   */
  method EvalHorner(n: BigNat) returns (acc: int)
    requires n.Valid()
    ensures acc == n.Val()
  {
    ghost var s := n.digits[..n.bound];
    var i := n.bound - 1;
    acc := 0;
    while i >= 0
      invariant -1 <= i < n.bound
      invariant acc == Eval(s[i + 1..])
    {
      ghost var t := s[i..];
      EvalCons(t);
      assert t[1..] == s[i + 1..] && t[0] == n.digits[i];
      acc := n.digits[i] + Base * acc;
      i := i - 1;
    }
    assert s[0..] == s;
  }

  /** `eval32`: the value as an int32, for values that fit one. */
  method Eval32(n: BigNat) returns (r: int)
    requires n.Valid() && n.Val() < 0x8000_0000
    ensures r == n.Val()
  {
    if n.bound == 1 {
      assert n.digits[..1] == [n.digits[0]];
      Eval1(n.digits[0]);
      r := n.digits[0];
    } else {
      r := EvalHorner(n);
    }
  }

  /** `eval64`: the value as an int64, for values that fit one. */
  method Eval64(n: BigNat) returns (r: int)
    requires n.Valid() && n.Val() < 0x8000_0000_0000_0000
    ensures r == n.Val()
  {
    if n.bound == 1 {
      assert n.digits[..1] == [n.digits[0]];
      Eval1(n.digits[0]);
      r := n.digits[0];
    } else {
      r := EvalHorner(n);
    }
  }

  /**
   * `restrictTo`: the low `d` limbs, sharing the digit array; the result
   * need not be normalised.
   */
  method RestrictTo(d: nat, n: BigNat) returns (r: BigNat)
    requires n.Valid()
    ensures r.digits == n.digits && r.bound == Min(d, n.bound) && r.Valid()
    ensures r.Val() == n.Val() % Pow(Base, d)
  {
    r := new BigNat(Min(d, n.bound), n.digits);
    ArrayLimbs(n.digits, n.bound);
    if d <= n.bound {
      EvalPrefixMod(n.digits[..n.bound], d);
      assert n.digits[..n.bound][..d] == n.digits[..d];
    } else {
      PowMonotone(Base, n.bound, d);
      ModPowSmall(n.Val(), d);
    }
  }

  /** `shiftUp`: the number times Base^d, its limbs moved up by d places. */
  method ShiftUp(d: nat, n: BigNat) returns (m: BigNat)
    requires n.Valid()
    ensures m.Valid() && m.bound == n.bound + d
    ensures m.Val() == n.Val() * Pow(Base, d)
    ensures n.Normalized() && n.bound > 0 ==> m.Normalized()
  {
    m := CreateN(n.bound + d);
    CopyUp(n.digits, n.bound, m.digits, d);
    assert m.digits[..m.bound] == m.digits[..];
    ArrayLimbs(n.digits, n.bound);
    ShiftedLimbs(d, n.digits[..n.bound], m.digits[..]);
  }

  /** The limb loop of `shiftUp`: dst receives src[0..len) at offset d over zeros. */
  method CopyUp(src: array<int>, len: nat, dst: array<int>, d: nat)
    requires src != dst && len <= src.Length && dst.Length == len + d
    requires forall j :: 0 <= j < dst.Length ==> dst[j] == 0
    modifies dst
    ensures dst[..] == seq(d, _ => 0) + src[..len]
  {
    var i := 0;
    while i < len
      invariant 0 <= i <= len
      invariant forall j :: 0 <= j < dst.Length ==> dst[j] == if d <= j < d + i then src[j - d] else 0
    {
      dst[i + d] := src[i];
      i := i + 1;
    }
  }

  /** Limbs shifted up by d over zeros are worth Base^d times as much. */
  lemma ShiftedLimbs(d: nat, s: seq<int>, t: seq<int>)
    requires t == seq(d, _ => 0) + s && IsLimbs(s)
    ensures IsLimbs(t) && Eval(t) == Eval(s) * Pow(Base, d)
    ensures |s| > 0 ==> t[|t| - 1] == s[|s| - 1]
  {
    EvalShift(d, s);
  }
  /** `shiftDown`: the number divided by Base^d, rounding down. */
  method ShiftDown(d: nat, n: BigNat) returns (m: BigNat)
    requires n.Valid()
    ensures m.Valid() && m.Val() == n.Val() / Pow(Base, d)
    ensures n.Normalized() ==> m.Normalized()
    ensures m.bound <= if n.bound <= d then 1 else n.bound - d
  {
    ArrayLimbs(n.digits, n.bound);
    if n.bound <= d {
      m := Embed(0);
      PowMonotone(Base, n.bound, d);
      DivModUnique(n.Val(), n.Val(), 0, Pow(Base, d));
    } else {
      m := CreateN(n.bound - d);
      var i := 0;
      while i < m.bound
        invariant 0 <= i <= m.bound && m.Valid() && m.bound == n.bound - d
        invariant m.digits.Length == m.bound && m.digits != n.digits
        invariant forall j :: 0 <= j < m.bound ==> m.digits[j] == if j < i then n.digits[j + d] else 0
        modifies m.digits
      {
        m.digits[i] := n.digits[i + d];
        i := i + 1;
      }
      assert m.digits[..m.bound] == n.digits[..n.bound][d..];
      EvalPrefixMod(n.digits[..n.bound], d);
    }
  }

  /**
   * `degree`: bound - 1 on any number. On a normalised one it is the index
   * of the top limb, -1 for zero.
   */
  function Degree(n: BigNat): (r: int)
    reads n, n.digits
    requires n.Valid()
    ensures r == n.bound - 1
    ensures n.Normalized() ==> (r == -1 <==> n.Val() == 0)
    ensures n.Normalized() && r >= 0 ==> Pow(Base, r) <= n.Val() < Pow(Base, r + 1)
  {
    if !n.Normalized() then n.bound - 1
    else
      NormalizedZero(n);
      if n.bound > 0 then NormalizedRange(n); n.bound - 1 else -1
  }

  /** `isZero`: a test of the bound alone, exact on normalised numbers. */
  function IsZero(p: BigNat): (r: bool)
    reads p, p.digits
    requires p.Valid()
    ensures p.Normalized() ==> (r <==> p.Val() == 0)
  {
    if p.bound == 0 then true
    else if p.Normalized() then NormalizedRange(p); false
    else false
  }

  /** `isOne`: a single limb holding 1, exact on normalised numbers. */
  function IsOne(p: BigNat): (r: bool)
    reads p, p.digits
    requires p.Valid()
    ensures p.Normalized() ==> (r <==> p.Val() == 1)
  {
    if p.bound == 1 then
      assert p.digits[..1] == [p.digits[0]];
      Eval1(p.digits[0]);
      p.digits[0] == 1
    else
      if p.Normalized() && p.bound > 1 then
        NormalizedRange(p);
        PowMonotone(Base, 1, p.bound - 1);
        false
      else false
  }

  /** `isSmall`: at most one limb, so exactly the normalised values below 2^24. */
  function IsSmall(n: BigNat): (r: bool)
    reads n, n.digits
    requires n.Valid()
    ensures n.Normalized() ==> (r <==> n.Val() < Base)
  {
    if n.bound <= 1 then
      true
    else
      if n.Normalized() then
        NormalizedRange(n);
        PowMonotone(Base, 1, n.bound - 1);
        false
      else false
  }

  /** `getSmall`: the lowest limb, 0 when there is none: the value modulo 2^24. */
  function GetSmall(n: BigNat): (r: int)
    reads n, n.digits
    requires n.Valid()
    ensures r == n.Val() % Base
    ensures n.bound <= 1 ==> r == n.Val()
  {
    ArrayLimbs(n.digits, n.bound);
    if 0 < n.bound then
      EvalCons(n.digits[..n.bound]);
      DivModUnique(n.Val(), n.digits[0], Eval(n.digits[..n.bound][1..]), Base);
      n.digits[0]
    else
      0
  }
}
