/**
 * The arithmetic behind the transform multiplication of `BigNatModule`:
 * a natural cut into bigL-bit pieces is a polynomial that evaluates back to
 * the natural at 2^bigL, and the product of two such polynomials, once its
 * coefficients are known exactly, evaluates to the product of the naturals.
 */
module Pieces {
  import opened Limbs
  import opened Fp
  import opened Polynomials
  import opened BitFields

  /** Every element of s is piece i of v, for pieces of bigL bits. */
  ghost predicate PiecesOf(s: seq<int>, v: int, bigL: nat)
  {
    forall i :: 0 <= i < |s| ==> s[i] == Piece(v, bigL, i)
  }

  /** Splitting a remainder modulo a * b into the remainder modulo a and the next digit. */
  lemma ModStep(v: int, a: int, b: int)
    requires v >= 0 && a > 0 && b > 0
    ensures v % (a * b) == v % a + a * ((v / a) % b)
  {
    var q, r := v / a, v % a;
    SplitAt(v, a);
    var q2, r2 := q / b, q % b;
    SplitAt(q, b);
    assert a * q == a * r2 + (a * b) * q2 by {
      assert a * q == a * r2 + a * (b * q2);
      MulAssoc(a, b, q2);
    }
    MulLeMono(r2, b - 1, a);
    assert a * r2 <= a * b - a by {
      MulComm(r2, a);
      RightDistrib(b, -1, a);
      MulComm(b, a);
    }
    DivModUnique(v, r + a * r2, q2, a * b);
  }

  /** The first m pieces of v, weighted by powers of 2^bigL, give v modulo 2^(bigL * m). */
  lemma {:induction false} PiecesEvaluate(v: int, bigL: nat, s: seq<int>, m: nat)
    requires v >= 0 && PiecesOf(s, v, bigL) && m <= |s|
    ensures SumTo(s, Pow(2, bigL), m) == v % Pow(2, bigL * m)
  {
    if m == 0 {
      DivModUnique(v, 0, v, 1);
    } else {
      PiecesEvaluate(v, bigL, s, m - 1);
      var a, b := Pow(2, bigL * (m - 1)), Pow(2, bigL);
      assert Pow(b, m - 1) == a by {
        PowMul(2, bigL, m - 1);
      }
      assert Pow(2, bigL * m) == a * b by {
        assert bigL * m == bigL * (m - 1) + bigL;
        PowAdd(2, bigL * (m - 1), bigL);
      }
      assert Digit(s, m - 1) == (v / a) % b;
      ModStep(v, a, b);
    }
  }

  /** A piece that starts at or above bit b of a value below 2^b is zero. */
  lemma HighPieceZero(v: int, bigL: nat, i: nat, b: nat)
    requires 0 <= v < Pow(2, b) && b <= bigL * i
    ensures Piece(v, bigL, i) == 0
  {
    PowMonotone(2, b, bigL * i);
    DivModUnique(v, v, 0, Pow(2, bigL * i));
  }

  /** The pieces of a value below 2^b give the value back, when they cover b bits. */
  lemma PiecesValue(v: int, bigL: nat, s: seq<int>, b: nat)
    requires 0 <= v < Pow(2, b) && PiecesOf(s, v, bigL) && b <= bigL * |s|
    ensures PolyAt(s, Pow(2, bigL)) == v
  {
    PiecesEvaluate(v, bigL, s, |s|);
    PowMonotone(2, b, bigL * |s|);
    DivModUnique(v, v, 0, Pow(2, bigL * |s|));
  }

  /** The pieces of a value below 2^b vanish from index b / bigL + 1 on. */
  lemma PiecesVanish(v: int, bigL: nat, s: seq<int>, b: nat)
    requires 1 <= bigL && 0 <= v < Pow(2, b) && PiecesOf(s, v, bigL)
    ensures forall i :: b / bigL + 1 <= i < |s| ==> s[i] == 0
  {
    forall i | b / bigL + 1 <= i < |s|
      ensures s[i] == 0
    {
      SplitAt(b, bigL);
      MulLeMono(b / bigL + 1, i, bigL);
      MulComm(i, bigL);
      HighPieceZero(v, bigL, i, b);
    }
  }

  /** Two operands of bu and bv bits, with bu + bv < bigL * n, leave room for their product. */
  lemma DegreesFit(bu: nat, bv: nat, bigL: nat, n: nat)
    requires 1 <= bigL && bu + bv < bigL * n
    ensures bu / bigL + bv / bigL + 1 <= n
  {
    SplitAt(bu, bigL);
    SplitAt(bv, bigL);
    if bu / bigL + bv / bigL >= n {
      MulLeMono(n, bu / bigL + bv / bigL, bigL);
      assert false;
    }
  }

  /** Coefficients past m do not change the sum up to n. */
  lemma {:induction false} SumToTail(a: seq<int>, y: int, m: nat, n: nat)
    requires m <= n
    requires forall t :: m <= t < n ==> Digit(a, t) == 0
    ensures SumTo(a, y, n) == SumTo(a, y, m)
  {
    if n > m {
      SumToTail(a, y, m, n - 1);
    }
  }

  /** With coefficients in [0, c] and y >= 2, the sum of m terms is at most 2c * y^(m-1). */
  lemma {:induction false} SumToBound(a: seq<int>, y: int, m: nat, c: int)
    requires y >= 2 && m >= 1 && c >= 0
    requires forall t :: 0 <= t < m ==> 0 <= Digit(a, t) <= c
    ensures 0 <= SumTo(a, y, m) <= 2 * c * Pow(y, m - 1)
  {
    var d, p := Digit(a, m - 1), Pow(y, m - 1);
    assert SumTo(a, y, m) == SumTo(a, y, m - 1) + d * p;
    if m == 1 {
      assert p == 1;
    } else {
      var q := Pow(y, m - 2);
      assert p == y * q;
      PowMonotone(y, 0, m - 2);
      SumToBound(a, y, m - 1, c);
      BoundStep(SumTo(a, y, m - 1), d, c, q, y, p);
    }
  }

  /** One step of the bound: s <= 2cq and d <= c give s + d*yq <= 2c*yq. */
  lemma BoundStep(s: int, d: int, c: int, q: int, y: int, p: int)
    requires 0 <= s <= 2 * c * q && 0 <= d <= c && q >= 1 && y >= 2 && p == y * q
    ensures 0 <= s + d * p <= 2 * c * p
  {
    MulLeMono(d, c, p);
    MulNonNeg(d, p);
    MulLeMono(2, y, c * q);
    MulAssoc(2, c, q);
    MulAssoc(y, c, q);
    MulComm(y, c);
    MulAssoc(c, y, q);
  }

  lemma MulStrictLeft(a: int, b: int, k: int)
    requires a < b && k >= 1
    ensures k * a < k * b
  {
    MulLeMono(a + 1, b, k);
    MulComm(a, k);
    MulComm(b, k);
  }

  /** A product coefficient bound: 2^(30 - 2L) * (2^L - 1)^2 stays below 2^30 and so below P. */
  lemma CoefficientBound(bigL: nat, bigK: nat, c: nat)
    requires 1 <= bigL <= 15 && bigK == Pow(2, 30 - 2 * bigL) && c == Pow(2, bigL) - 1
    ensures bigK * (c * c) < P
  {
    var cc, tt := c * c, Pow(2, 2 * bigL);
    SquareBound(bigL, c);
    PowMonotone(2, 0, 30 - 2 * bigL);
    MulStrictLeft(cc, tt, bigK);
    PowAdd(2, 30 - 2 * bigL, 2 * bigL);
    TwoPow30();
  }

  lemma TwoPow30()
    ensures Pow(2, 30) == 1073741824
  {
    TwoPowers();
    PowAdd(2, 27, 3);
  }

  lemma SquareBound(bigL: nat, c: nat)
    requires c == Pow(2, bigL) - 1
    ensures c * c < Pow(2, 2 * bigL)
  {
    var t := Pow(2, bigL);
    SquareLess(c, t);
    assert t * t == Pow(2, 2 * bigL) by {
      assert bigL + bigL == 2 * bigL;
      PowAdd(2, bigL, bigL);
    }
  }

  lemma SquareLess(c: int, t: int)
    requires 0 <= c < t
    ensures c * c < t * t
  {
    MulLeMono(c, t, c);
    MulStrictLeft(c, t, t);
  }

  /** Every piece of bigL bits lies in [0, 2^bigL - 1]. */
  lemma PiecesBelow(s: seq<int>, v: int, bigL: nat)
    requires PiecesOf(s, v, bigL)
    ensures forall i :: 0 <= i < |s| ==> 0 <= s[i] <= Pow(2, bigL) - 1
  {
  }

  /** The product of two piece polynomials of bigK = 2^(30 - 2L) terms has every coefficient below P. */
  lemma SmallCoefficients(us: seq<int>, vs: seq<int>, vu: int, vv: int, bigL: nat, bigK: nat)
    requires 1 <= bigL <= 15 && bigK == Pow(2, 30 - 2 * bigL) && |us| == bigK
    requires PiecesOf(us, vu, bigL) && PiecesOf(vs, vv, bigL)
    ensures forall i :: 0 <= i < |PolyMul(us, vs)| ==> 0 <= PolyMul(us, vs)[i] < P
  {
    var top := Pow(2, bigL) - 1;
    PiecesBelow(us, vu, bigL);
    PiecesBelow(vs, vv, bigL);
    PolyMulBound(us, vs, top, top);
    CoefficientBound(bigL, bigK, top);
  }

  /**
   * The folded product polynomial, reduced modulo P, is the exact product
   * when its coefficients are below P and it has no terms past n.
   */
  lemma ExactFold(c: seq<int>, n: nat, rs: seq<int>)
    requires |rs| == n && |c| < 2 * n
    requires forall i :: 0 <= i < |c| ==> 0 <= c[i] < P
    requires forall i :: n <= i < |c| ==> c[i] == 0
    requires forall i :: 0 <= i < n ==> rs[i] == Fold(c, n)[i] % P
    ensures forall i :: 0 <= i < n ==> rs[i] == Digit(c, i)
  {
    forall i | 0 <= i < n
      ensures rs[i] == Digit(c, i)
    {
      assert Digit(c, i + n) == 0;
      DivModUnique(Digit(c, i), Digit(c, i), 0, P);
    }
  }

  /**
   * The product of piece polynomials whose terms vanish from bu / bigL + 1
   * and from bv / bigL + 1 on has no terms from bigK on.
   */
  lemma ProductZeros(us: seq<int>, vs: seq<int>, bu: nat, bv: nat, bigL: nat, bigK: nat)
    requires 1 <= bigL && bu + bv < bigL * bigK
    requires forall i :: bu / bigL + 1 <= i < |us| ==> us[i] == 0
    requires forall i :: bv / bigL + 1 <= i < |vs| ==> vs[i] == 0
    ensures forall i :: bigK <= i < |PolyMul(us, vs)| ==> PolyMul(us, vs)[i] == 0
  {
    DegreesFit(bu, bv, bigL, bigK);
    PolyMulZeros(us, vs, bu / bigL + 1, bv / bigL + 1);
  }

  /** rs agrees with c below n and c has no terms from n on: both evaluate alike. */
  lemma SameValue(c: seq<int>, rs: seq<int>, y: int, n: nat)
    requires |rs| == n <= |c|
    requires forall i :: 0 <= i < n ==> rs[i] == Digit(c, i)
    requires forall i :: n <= i < |c| ==> c[i] == 0
    ensures PolyAt(rs, y) == PolyAt(c, y)
  {
    SumToSame(rs, c, y, n);
    SumToTail(c, y, n, |c|);
  }

  /**
   * The decoding argument of `quickMulUsingFft`: for operands vu < 2^bu and
   * vv < 2^bv cut into pieces of bigL bits, with bu + bv below the capacity
   * bigL * bigK of the encoding, the cyclic product of the two piece
   * polynomials modulo P, evaluated at 2^bigL, is vu * vv.
   */
  lemma ProductDecodes(us: seq<int>, vs: seq<int>, rs: seq<int>, vu: int, vv: int, bu: nat, bv: nat, bigL: nat, bigK: nat)
    requires 2 <= bigL <= 14 && bigK == Pow(2, 30 - 2 * bigL)
    requires 0 <= vu < Pow(2, bu) && 0 <= vv < Pow(2, bv) && bu + bv < bigL * bigK
    requires |us| == bigK && |vs| == bigK && |rs| == bigK
    requires PiecesOf(us, vu, bigL) && PiecesOf(vs, vv, bigL)
    requires forall i :: 0 <= i < bigK ==> rs[i] == Fold(PolyMul(us, vs), bigK)[i] % P
    ensures PolyAt(rs, Pow(2, bigL)) == vu * vv
  {
    var y, c := Pow(2, bigL), PolyMul(us, vs);
    PowMonotone(2, 0, 30 - 2 * bigL);
    assert |c| == 2 * bigK - 1;
    SmallCoefficients(us, vs, vu, vv, bigL, bigK);
    PiecesVanish(vu, bigL, us, bu);
    PiecesVanish(vv, bigL, vs, bv);
    ProductZeros(us, vs, bu, bv, bigL, bigK);
    ExactFold(c, bigK, rs);
    SameValue(c, rs, y, bigK);
    PolyMulAt(us, vs, y);
    PiecesValue(vu, bigL, us, bu);
    PiecesValue(vv, bigL, vs, bv);
  }
}
