/**
 * Polynomials with integer coefficients, lowest coefficient first, and
 * the facts about them that the number-theoretic transform rests on: the
 * even/odd split behind the butterfly, the orthogonality of the powers of
 * a root of unity, the inversion theorem, and the product of polynomials
 * folded cyclically.
 */
module Polynomials {
  import opened Limbs
  import opened Fp

  // ------------------------------------------------------------ evaluation

  /** The sum of Digit(a, i) * y^i for i < m; coefficients past the end are zero. */
  ghost function SumTo(a: seq<int>, y: int, m: nat): int
  {
    if m == 0 then 0 else SumTo(a, y, m - 1) + Digit(a, m - 1) * Pow(y, m - 1)
  }

  /** The polynomial with coefficients a, evaluated at y. */
  ghost function PolyAt(a: seq<int>, y: int): int
  {
    SumTo(a, y, |a|)
  }

  /** Coefficient j of the transform of a at the root w: a at w^j, modulo P. */
  ghost function Dft(a: seq<int>, w: int, j: nat): int
  {
    PolyAt(a, Pow(w, j)) % P
  }

  /** A constant polynomial is its coefficient everywhere. */
  lemma PolyAtSingle(x: int, y: int)
    ensures PolyAt([x], y) == x
  {
    assert SumTo([x], y, 1) == SumTo([x], y, 0) + x * Pow(y, 0);
  }

  /** Summing past the last coefficient adds nothing. */
  lemma {:induction false} SumToPast(a: seq<int>, y: int, m: nat)
    requires m >= |a|
    ensures SumTo(a, y, m) == PolyAt(a, y)
  {
    if m > |a| {
      SumToPast(a, y, m - 1);
    }
  }

  /** Sums that agree coefficient by coefficient below m agree. */
  lemma {:induction false} SumToSame(a: seq<int>, b: seq<int>, y: int, m: nat)
    requires forall i :: 0 <= i < m ==> Digit(a, i) == Digit(b, i)
    ensures SumTo(a, y, m) == SumTo(b, y, m)
  {
    if m > 0 {
      SumToSame(a, b, y, m - 1);
    }
  }

  /** A coefficient-wise sum evaluates to the sum of the values. */
  lemma {:induction false} SumToPointwise(p: seq<int>, q: seq<int>, r: seq<int>, y: int, m: nat)
    requires forall i :: 0 <= i < m ==> Digit(r, i) == Digit(p, i) + Digit(q, i)
    ensures SumTo(r, y, m) == SumTo(p, y, m) + SumTo(q, y, m)
  {
    if m > 0 {
      SumToPointwise(p, q, r, y, m - 1);
      RightDistrib(Digit(p, m - 1), Digit(q, m - 1), Pow(y, m - 1));
    }
  }

  /** Congruent points give congruent values. */
  lemma {:induction false} SumToCong(a: seq<int>, y: int, z: int, m: nat)
    requires y % P == z % P
    ensures SumTo(a, y, m) % P == SumTo(a, z, m) % P
  {
    if m > 0 {
      SumToCong(a, y, z, m - 1);
      var d := Digit(a, m - 1);
      PowCong(y, z, m - 1);
      ModMulRight(d, Pow(y, m - 1));
      ModMulRight(d, Pow(z, m - 1));
      ModAdd(SumTo(a, y, m - 1), d * Pow(y, m - 1));
      ModAdd(SumTo(a, z, m - 1), d * Pow(z, m - 1));
    }
  }

  /** Congruent coefficients give congruent values. */
  lemma {:induction false} SumToCoeffCong(a: seq<int>, b: seq<int>, y: int, m: nat)
    requires forall i :: 0 <= i < m ==> Digit(a, i) % P == Digit(b, i) % P
    ensures SumTo(a, y, m) % P == SumTo(b, y, m) % P
  {
    if m > 0 {
      var x, da, db := Pow(y, m - 1), Digit(a, m - 1), Digit(b, m - 1);
      assert SumTo(a, y, m - 1) % P == SumTo(b, y, m - 1) % P by {
        SumToCoeffCong(a, b, y, m - 1);
      }
      assert da * x % P == db * x % P by {
        ModMulLeft(da, x);
        ModMulLeft(db, x);
      }
      ModAdd(SumTo(a, y, m - 1), da * x);
      ModAdd(SumTo(b, y, m - 1), db * x);
    }
  }

  // -------------------------------------------------- the even/odd split

  /** The coefficients at even positions. */
  ghost function Evens(a: seq<int>): seq<int>
  {
    seq(|a| / 2, s requires 0 <= s < |a| / 2 => a[2 * s])
  }

  /** The coefficients at odd positions. */
  ghost function Odds(a: seq<int>): seq<int>
  {
    seq(|a| / 2, s requires 0 <= s < |a| / 2 => a[2 * s + 1])
  }

  /** a(y) = evens(y^2) + y * odds(y^2), the identity behind the butterfly. */
  lemma {:induction false} EvenOddSplit(a: seq<int>, y: int, m: nat)
    requires 2 * m <= |a|
    ensures SumTo(a, y, 2 * m) == SumTo(Evens(a), y * y, m) + y * SumTo(Odds(a), y * y, m)
  {
    if m > 0 {
      var e, o := SumTo(Evens(a), y * y, m - 1), SumTo(Odds(a), y * y, m - 1);
      var x0, x1 := a[2 * m - 2], a[2 * m - 1];
      var q := Pow(y * y, m - 1);
      assert SumTo(a, y, 2 * m - 2) == e + y * o by {
        EvenOddSplit(a, y, m - 1);
      }
      assert Pow(y, 2 * m - 2) == q by {
        PowSquare(y, m - 1);
      }
      assert SumTo(a, y, 2 * m) == SumTo(a, y, 2 * m - 2) + x0 * q + x1 * (y * q);
      assert SumTo(Evens(a), y * y, m) == e + x0 * q;
      assert SumTo(Odds(a), y * y, m) == o + x1 * q;
      assert y * (o + x1 * q) == y * o + x1 * (y * q) by {
        MulComm(y, o + x1 * q);
        RightDistrib(o, x1 * q, y);
        MulComm(o, y);
        MulAssoc(x1, q, y);
        MulComm(q, y);
      }
    }
  }

  /** The elements u[mu], u[mu + lambda], ..., u[mu + lambda * (n - 1)]. */
  ghost function Stride(u: seq<int>, mu: nat, lambda: nat, n: nat): seq<int>
    requires n == 0 || mu + lambda * (n - 1) < |u|
  {
    seq(n, t requires 0 <= t < n => (MulLeMono(t, n - 1, lambda); u[mu + lambda * t]))
  }

  /** The even and odd halves of a stride are strides of twice the step. */
  lemma StrideHalves(u: seq<int>, mu: nat, lambda: nat, h: nat)
    requires h >= 1 && mu + lambda * (2 * h - 1) < |u|
    ensures mu + (2 * lambda) * (h - 1) < |u| && lambda + mu + (2 * lambda) * (h - 1) < |u|
    ensures Evens(Stride(u, mu, lambda, 2 * h)) == Stride(u, mu, 2 * lambda, h)
    ensures Odds(Stride(u, mu, lambda, 2 * h)) == Stride(u, lambda + mu, 2 * lambda, h)
  {
    var l2 := 2 * lambda;
    assert lambda * (2 * h - 1) == l2 * (h - 1) + lambda by {
      MulComm(lambda, 2 * h - 1);
      RightDistrib(2 * h - 2, 1, lambda);
      MulComm(2 * lambda, h - 1);
      MulAssoc(2, lambda, h - 1);
      MulAssoc(2, h - 1, lambda);
      MulComm(lambda, h - 1);
    }
    var s := Stride(u, mu, lambda, 2 * h);
    var ev, od := Stride(u, mu, l2, h), Stride(u, lambda + mu, l2, h);
    forall t | 0 <= t < h
      ensures Evens(s)[t] == ev[t] && Odds(s)[t] == od[t]
    {
      assert lambda * (2 * t) == l2 * t by {
        MulAssoc(2, lambda, t);
        MulComm(lambda, 2 * t);
        MulAssoc(2, t, lambda);
        MulComm(t, lambda);
      }
      assert lambda * (2 * t + 1) == l2 * t + lambda by {
        RightDistrib(2 * t, 1, lambda);
        MulComm(lambda, 2 * t + 1);
        MulComm(2 * t, lambda);
      }
    }
  }

  /** The stride from 0 with step 1 is the prefix. */
  lemma StrideAll(u: seq<int>, n: nat)
    requires 1 <= n <= |u|
    ensures Stride(u, 0, 1, n) == u[..n]
  {
  }

  // -------------------------------------------------------- the butterfly

  /** -t modulo P, as the source forms it: P - (t mod P), reduced. */
  lemma NegMod(t: int, k: int)
    ensures (P * k - t) % P == (P - t % P) % P
  {
    ModShift(-t, k);
    ModShift(P - t % P, -(t / P) - 1);
    assert -t == (P - t % P) + P * (-(t / P) - 1);
  }

  /**
   * One butterfly: from the transforms of the even and the odd halves at
   * index j (with the squared root w*w mod P), the full transform at j and
   * j + n/2 for a root w whose (n/2)-th power is -1.
   */
  lemma {:induction false} Butterfly(a: seq<int>, w: int, j: nat, e: int, o: int, wj: int)
    requires |a| >= 2 && |a| % 2 == 0 && Pow(w, |a| / 2) % P == P - 1
    requires e == Dft(Evens(a), w * w % P, j) && o == Dft(Odds(a), w * w % P, j)
    requires wj == Pow(w, j) % P
    ensures (e + wj * o % P) % P == Dft(a, w, j)
    ensures (e + P - wj * o % P) % P == Dft(a, w, j + |a| / 2)
  {
    ButterflyTop(a, w, j, e, o, wj);
    ButterflyBottom(a, w, j, e, o, wj);
  }

  /** w^j squared is congruent to (w * w mod P)^j. */
  lemma SquareOfPower(w: int, j: nat)
    ensures Pow(w, j) * Pow(w, j) % P == Pow(w * w % P, j) % P
  {
    var y, z := Pow(w, j), w * w;
    assert Pow(z, j) == y * y by {
      PowSquare(w, j);
      PowAdd(w, j, j);
      assert 2 * j == j + j;
    }
    PowCong(z % P, z, j);
  }

  lemma {:induction false} ButterflyTop(a: seq<int>, w: int, j: nat, e: int, o: int, wj: int)
    requires |a| >= 2 && |a| % 2 == 0
    requires e == Dft(Evens(a), w * w % P, j) && o == Dft(Odds(a), w * w % P, j)
    requires wj == Pow(w, j) % P
    ensures (e + wj * o % P) % P == Dft(a, w, j)
  {
    var h := |a| / 2;
    var y := Pow(w, j);
    SquareOfPower(w, j);
    HalfValues(a, h, y, Pow(w * w % P, j), e, o);
    Combine(PolyAt(a, y), SumTo(Evens(a), y * y, h), SumTo(Odds(a), y * y, h), y, e, o, wj) by {
      EvenOddSplit(a, y, h);
    }
  }

  lemma {:induction false} ButterflyBottom(a: seq<int>, w: int, j: nat, e: int, o: int, wj: int)
    requires |a| >= 2 && |a| % 2 == 0 && Pow(w, |a| / 2) % P == P - 1
    requires e == Dft(Evens(a), w * w % P, j) && o == Dft(Odds(a), w * w % P, j)
    requires wj == Pow(w, j) % P
    ensures (e + P - wj * o % P) % P == Dft(a, w, j + |a| / 2)
  {
    var h := |a| / 2;
    var y := Pow(w, j);
    var y2 := Pow(w, j + h);
    assert y2 * y2 % P == Pow(w * w % P, j) % P by {
      SquareOfPower(w, j);
      HalfSquare(w, j, h, y, y2);
    }
    assert y2 % P == (wj * (P - 1)) % P by {
      PowAdd(w, j, h);
      ModMul(y, Pow(w, h));
    }
    HalfValues(a, h, y2, Pow(w * w % P, j), e, o);
    CombineNeg(PolyAt(a, y2), SumTo(Evens(a), y2 * y2, h), SumTo(Odds(a), y2 * y2, h), y2, e, o, wj) by {
      EvenOddSplit(a, y2, h);
    }
  }

  /** Half a turn further, w^(j+h) has the same square as w^j modulo P. */
  lemma HalfSquare(w: int, j: nat, h: nat, y: int, y2: int)
    requires Pow(w, h) % P == P - 1 && y == Pow(w, j) && y2 == Pow(w, j + h)
    ensures y2 * y2 % P == y * y % P
  {
    PowAdd(w, j, h);
    HalfTurn(w, h);
    PowAdd(w, h, h);
    assert y2 * y2 == (y * y) * Pow(w, 2 * h);
    ModMulRight(y * y, Pow(w, 2 * h));
  }

  /** The halves evaluated at the square of y, where that square is congruent to sq. */
  lemma {:induction false} HalfValues(a: seq<int>, h: nat, y: int, sq: int, e: int, o: int)
    requires |a| == 2 * h && (y * y) % P == sq % P
    requires e == PolyAt(Evens(a), sq) % P && o == PolyAt(Odds(a), sq) % P
    ensures SumTo(Evens(a), y * y, h) % P == e && SumTo(Odds(a), y * y, h) % P == o
  {
    SumToCong(Evens(a), y * y, sq, h);
    SumToCong(Odds(a), y * y, sq, h);
  }

  /** (se + y * so) mod P from the residues e, o and wj of se, so and y. */
  lemma Combine(v: int, se: int, so: int, y: int, e: int, o: int, wj: int)
    requires v == se + y * so && se % P == e && so % P == o && y % P == wj
    ensures (e + wj * o % P) % P == v % P
  {
    ModAdd(se, y * so);
    ModMul(y, so);
  }

  /** The same where y is congruent to -wj. */
  lemma CombineNeg(v: int, se: int, so: int, y: int, e: int, o: int, wj: int)
    requires v == se + y * so && se % P == e && so % P == o && y % P == (wj * (P - 1)) % P
    requires 0 <= e < P
    ensures (e + P - wj * o % P) % P == v % P
  {
    var t := wj * o;
    var r := (P - t % P) % P;
    assert (y * so) % P == r by {
      ModMul(y, so);
      NegMul(wj, o);
    }
    assert v % P == (e + r) % P by {
      ModAdd(se, y * so);
    }
    var q := P - t % P;
    assert (e + q) % P == (e + r) % P by {
      ModAdd(e, q);
      assert e % P == e;
    }
    assert e + P - t % P == e + q;
  }

  /** (-wj) * o is -(wj * o) modulo P. */
  lemma NegMul(wj: int, o: int)
    ensures (wj * (P - 1) % P) * o % P == (P - wj * o % P) % P
  {
    var t := wj * o;
    ModMulLeft(wj * (P - 1), o);
    assert wj * (P - 1) * o == P * t - t by {
      MulAssoc(wj, P - 1, o);
      MulComm(P - 1, o);
      MulAssoc(wj, o, P - 1);
    }
    NegMod(t, t);
  }

  // ------------------------------------------------------- orthogonality

  /** 1 + y + ... + y^(n-1). */
  ghost function GeomSum(y: int, n: nat): int
  {
    if n == 0 then 0 else GeomSum(y, n - 1) + Pow(y, n - 1)
  }

  lemma {:induction false} GeomSplit(y: int, a: nat, b: nat)
    ensures GeomSum(y, a + b) == GeomSum(y, a) + Pow(y, a) * GeomSum(y, b)
  {
    if b > 0 {
      var pa, g, t := Pow(y, a), GeomSum(y, b - 1), Pow(y, b - 1);
      GeomSplit(y, a, b - 1);
      PowAdd(y, a, b - 1);
      assert GeomSum(y, a + b) == GeomSum(y, a) + pa * g + pa * t;
      RightDistrib(g, t, pa);
      MulComm(g + t, pa);
      MulComm(g, pa);
      MulComm(t, pa);
    }
  }

  lemma {:induction false} GeomCong(y: int, z: int, n: nat)
    requires y % P == z % P
    ensures GeomSum(y, n) % P == GeomSum(z, n) % P
  {
    if n > 0 {
      GeomCong(y, z, n - 1);
      PowCong(y, z, n - 1);
      ModAdd(GeomSum(y, n - 1), Pow(y, n - 1));
      ModAdd(GeomSum(z, n - 1), Pow(z, n - 1));
    }
  }

  /** The h-th power of w^m for a root w of order 2h: 1 or -1 by the parity of m. */
  lemma {:induction false} PowerAtHalf(w: int, h: nat, m: nat)
    requires Pow(w, h) % P == P - 1
    ensures Pow(Pow(w, m), h) % P == if m % 2 == 0 then 1 else P - 1
  {
    PowMul(w, m, h);
    PowMul(w, h, m);
    assert m * h == h * m;
    PowCong(Pow(w, h), P - 1, m);
    PowMinusOne(P - 1, m);
  }

  lemma DoubleMod(m: nat, h: nat)
    requires h >= 1
    ensures (2 * m) % (2 * h) == 2 * (m % h)
  {
    DivModUnique(2 * m, 2 * (m % h), m / h, 2 * h);
  }

  lemma OddNotMultiple(m: nat, n: nat)
    requires n >= 2 && n % 2 == 0 && m % 2 == 1
    ensures m % n != 0
  {
    var h, q := n / 2, m / n;
    assert m == 2 * (h * q) + m % n by {
      MulAssoc(2, h, q);
    }
  }

  /**
   * Orthogonality: for a root w of order n, the powers of w^m sum to n
   * when n divides m and to 0 otherwise, modulo P.
   */
  lemma {:induction false} GeomSumOfRoot(w: int, n: nat, m: nat)
    requires RootOfOrder(w, n)
    ensures GeomSum(Pow(w, m), n) % P == (if m % n == 0 then n else 0) % P
    decreases n
  {
    if n == 1 {
      assert GeomSum(Pow(w, m), 1) == 1;
    } else {
      assert n >= 2;
      var h := n / 2;
      assert n == h + h;
      if m % 2 == 1 {
        OddNotMultiple(m, n);
        GeomSumOdd(w, h, m);
      } else {
        var m2 := m / 2;
        var g := GeomSum(Pow(w * w, m2), h);
        var target := if m2 % h == 0 then h else 0;
        assert g % P == target % P by {
          RootSquare(w, n);
          GeomSumOfRoot(w * w, h, m2);
        }
        assert (if m % n == 0 then n else 0) == 2 * target by {
          DoubleMod(m2, h);
        }
        assert GeomSum(Pow(w, m), n) % P == 2 * g % P by {
          GeomSumEven(w, h, m2);
        }
        assert 2 * g % P == 2 * target % P by {
          ModMulRight(2, g);
          ModMulRight(2, target);
        }
      }
    }
  }

  /** The sum over a full turn of an odd power vanishes: the halves cancel. */
  lemma GeomSumOdd(w: int, h: nat, m: nat)
    requires Pow(w, h) % P == P - 1 && m % 2 == 1
    ensures GeomSum(Pow(w, m), h + h) % P == 0
  {
    var y := Pow(w, m);
    var a, g := 1 + Pow(y, h), GeomSum(y, h);
    assert a % P == 0 by {
      PowerAtHalf(w, h, m);
      ModAdd(1, Pow(y, h));
    }
    assert GeomSum(y, h + h) == a * g by {
      GeomHalves(y, h);
    }
    Vanishing(GeomSum(y, h + h), a, g);
  }

  /** For an even power 2*m2 the full sum is twice the half sum at w*w. */
  lemma GeomSumEven(w: int, h: nat, m2: nat)
    requires Pow(w, h) % P == P - 1
    ensures GeomSum(Pow(w, 2 * m2), h + h) % P == 2 * GeomSum(Pow(w * w, m2), h) % P
  {
    var y := Pow(w, 2 * m2);
    var a, g := 1 + Pow(y, h), GeomSum(y, h);
    assert a % P == 2 by {
      PowerAtHalf(w, h, 2 * m2);
      ModAdd(1, Pow(y, h));
    }
    assert GeomSum(y, h + h) == a * g by {
      GeomHalves(y, h);
    }
    assert g == GeomSum(Pow(w * w, m2), h) by {
      PowSquare(w, m2);
    }
    ScaledMod(GeomSum(y, h + h), a, g, 2);
  }

  /** A product with a factor divisible by P is divisible by P. */
  lemma Vanishing(s: int, a: int, g: int)
    requires s == a * g && a % P == 0
    ensures s % P == 0
  {
    ScaledMod(s, a, g, 0);
    assert 0 * g == 0;
  }

  /** A product whose left factor is c modulo P is c times the right factor modulo P. */
  lemma ScaledMod(s: int, a: int, g: int, c: int)
    requires s == a * g && a % P == c
    ensures s % P == c * g % P
  {
    ModMulLeft(a, g);
  }

  lemma GeomHalves(y: int, h: nat)
    ensures GeomSum(y, h + h) == (1 + Pow(y, h)) * GeomSum(y, h)
  {
    GeomSplit(y, h, h);
    RightDistrib(1, Pow(y, h), GeomSum(y, h));
  }

  // -------------------------------------------------- the inversion theorem

  /** The exact values of a at w^j for j < n. */
  ghost function Evaluations(a: seq<int>, w: int, n: nat): seq<int>
  {
    seq(n, j requires 0 <= j < n => PolyAt(a, Pow(w, j)))
  }

  /** The sum over t < mt of a[t] * (w^t * z)^j. */
  ghost function Diagonal(a: seq<int>, w: int, z: int, j: nat, mt: nat): int
  {
    if mt == 0 then 0 else Diagonal(a, w, z, j, mt - 1) + Digit(a, mt - 1) * Pow(Pow(w, mt - 1) * z, j)
  }

  /** The sum over t < mt of a[t] * GeomSum(w^t * z, mj). */
  ghost function Weighted(a: seq<int>, w: int, z: int, mt: nat, mj: nat): int
  {
    if mt == 0 then 0 else Weighted(a, w, z, mt - 1, mj) + Digit(a, mt - 1) * GeomSum(Pow(w, mt - 1) * z, mj)
  }

  /** a(w^j) * z^j is the sum over t of a[t] * (w^t * z)^j. */
  lemma {:induction false} InnerTerm(a: seq<int>, w: int, z: int, j: nat, mt: nat)
    ensures SumTo(a, Pow(w, j), mt) * Pow(z, j) == Diagonal(a, w, z, j, mt)
  {
    if mt > 0 {
      var t := mt - 1;
      InnerTerm(a, w, z, j, t);
      var s, d, zj := SumTo(a, Pow(w, j), t), Digit(a, t), Pow(z, j);
      var b := Pow(Pow(w, t), j);
      assert Pow(Pow(w, j), t) == b by {
        PowMul(w, j, t);
        PowMul(w, t, j);
        MulComm(j, t);
      }
      assert Pow(Pow(w, t) * z, j) == b * zj by {
        PowOfProduct(Pow(w, t), z, j);
      }
      RightDistrib(s, d * b, zj);
      MulAssoc(d, b, zj);
    }
  }

  /** Adding the j-th row to every geometric sum adds the diagonal at j. */
  lemma {:induction false} WeightedStep(a: seq<int>, w: int, z: int, mt: nat, j: nat)
    ensures Weighted(a, w, z, mt, j + 1) == Weighted(a, w, z, mt, j) + Diagonal(a, w, z, j, mt)
  {
    if mt > 0 {
      WeightedStep(a, w, z, mt - 1, j);
      var d, g := Digit(a, mt - 1), Pow(w, mt - 1) * z;
      assert GeomSum(g, j + 1) == GeomSum(g, j) + Pow(g, j);
      MulComm(d, GeomSum(g, j) + Pow(g, j));
      RightDistrib(GeomSum(g, j), Pow(g, j), d);
      MulComm(GeomSum(g, j), d);
      MulComm(Pow(g, j), d);
    }
  }

  /** Exchanging the order of summation in the inverse transform. */
  lemma {:induction false} SwapSums(a: seq<int>, w: int, z: int, n: nat, mj: nat)
    requires mj <= n
    ensures SumTo(Evaluations(a, w, n), z, mj) == Weighted(a, w, z, |a|, mj)
  {
    if mj > 0 {
      SwapSums(a, w, z, n, mj - 1);
      InnerTerm(a, w, z, mj - 1, |a|);
      WeightedStep(a, w, z, |a|, mj - 1);
    }
    else {
      WeightedZero(a, w, z, |a|);
    }
  }

  lemma {:induction false} WeightedZero(a: seq<int>, w: int, z: int, mt: nat)
    ensures Weighted(a, w, z, mt, 0) == 0
  {
    if mt > 0 {
      WeightedZero(a, w, z, mt - 1);
    }
  }

  /** An inverse of w, for w of order n, is congruent to w^(n-1). */
  lemma InverseIsPower(w: int, wi: int, n: nat)
    requires n >= 1 && Pow(w, n) % P == 1 && w * wi % P == 1
    ensures wi % P == Pow(w, n - 1) % P
  {
    var x := Pow(w, n - 1);
    ModMulRight(wi, Pow(w, n));
    assert wi * Pow(w, n) == (wi * w) * x;
    ModMulLeft(wi * w, x);
    assert w * wi == wi * w;
  }

  /** An inverse of a root of order n is itself a root of order n. */
  lemma InverseRoot(w: int, wi: int, n: nat)
    requires RootOfOrder(w, n) && w * wi % P == 1
    ensures RootOfOrder(wi, n)
  {
    var v := Pow(w, n - 1);
    InverseIsPower(w, wi, n);
    assert Pow(wi, n) % P == 1 by {
      PowCong(wi, v, n);
      PowMul(w, n - 1, n);
      PowMul(w, n, n - 1);
      MulComm(n - 1, n);
      PowCong(Pow(w, n), 1, n - 1);
      PowOne(n - 1);
    }
    if n >= 2 {
      var h := n / 2;
      assert Pow(wi, h) % P == P - 1 by {
        PowCong(wi, v, h);
        PowMul(w, n - 1, h);
        PowMul(w, h, n - 1);
        MulComm(n - 1, h);
        PowCong(Pow(w, h), P - 1, n - 1);
        PowMinusOne(P - 1, n - 1);
      }
    }
  }

  /** (t + (n-1)*i) is a multiple of n exactly when t = i, for t, i < n. */
  lemma ExponentMultiple(t: nat, i: nat, n: nat)
    requires t < n && i < n
    ensures (t + (n - 1) * i) % n == 0 <==> t == i
  {
    var m := t + (n - 1) * i;
    if t >= i {
      DivModUnique(m, t - i, i, n);
    } else {
      DivModUnique(m, n + t - i, i - 1, n);
    }
  }

  /** One term of the inverse: n when t = i and 0 otherwise, modulo P. */
  lemma {:induction false} DeltaTerm(w: int, wi: int, n: nat, t: nat, i: nat)
    requires RootOfOrder(w, n) && w * wi % P == 1 && t < n && i < n
    ensures GeomSum(Pow(w, t) * Pow(wi, i), n) % P == (if t == i then n else 0) % P
  {
    MulNonNeg(n - 1, i);
    var m := t + (n - 1) * i;
    var b := m % n == 0;
    assert b <==> t == i by {
      ExponentMultiple(t, i, n);
    }
    PowerOfInverse(w, wi, n, t, i);
    GeomSumOfPower(w, n, Pow(w, t) * Pow(wi, i), m);
  }

  /** Orthogonality restated for any x congruent to w^m. */
  lemma GeomSumOfPower(w: int, n: nat, x: int, m: nat)
    requires RootOfOrder(w, n) && x % P == Pow(w, m) % P
    ensures GeomSum(x, n) % P == (if m % n == 0 then n else 0) % P
  {
    GeomCong(x, Pow(w, m), n);
    GeomSumOfRoot(w, n, m);
  }

  /** w^t * wi^i is congruent to w^(t + (n-1)*i) for an inverse wi of w. */
  lemma PowerOfInverse(w: int, wi: int, n: nat, t: nat, i: nat)
    requires n >= 1 && Pow(w, n) % P == 1 && w * wi % P == 1
    ensures Pow(w, t) * Pow(wi, i) % P == Pow(w, t + (n - 1) * i) % P
  {
    var e := (n - 1) * i;
    assert Pow(wi, i) % P == Pow(w, e) % P by {
      InverseIsPower(w, wi, n);
      PowCong(wi, Pow(w, n - 1), i);
      PowMul(w, n - 1, i);
    }
    ModMulRight(Pow(w, t), Pow(wi, i));
    ModMulRight(Pow(w, t), Pow(w, e));
    PowAdd(w, t, e);
  }

  /** The weighted sum keeps n * c[i] and drops every other coefficient. */
  lemma {:induction false} WeightedDelta(c: seq<int>, w: int, wi: int, n: nat, i: nat, mt: nat)
    requires RootOfOrder(w, n) && w * wi % P == 1 && i < n && mt <= n
    ensures Weighted(c, w, Pow(wi, i), mt, n) % P == (if i < mt then n * Digit(c, i) else 0) % P
  {
    if mt > 0 {
      var t := mt - 1;
      WeightedDelta(c, w, wi, n, i, t);
      DeltaTerm(w, wi, n, t, i);
      var g := GeomSum(Pow(w, t) * Pow(wi, i), n);
      ModMulRight(Digit(c, t), g);
      ModMulRight(Digit(c, t), if t == i then n else 0);
      ModAdd(Weighted(c, w, Pow(wi, i), t, n), Digit(c, t) * g);
      ModAdd(if i < t then n * Digit(c, i) else 0, Digit(c, t) * (if t == i then n else 0));
      assert Digit(c, t) * n == n * Digit(c, t);
    }
  }

  /**
   * The inversion theorem: transforming, with an inverse wi of w, values
   * congruent to the transform of c at w gives n * c[i] modulo P.
   */
  lemma {:induction false} Inversion(c: seq<int>, w: int, wi: int, n: nat, x: seq<int>, i: nat)
    requires RootOfOrder(w, n) && w * wi % P == 1 && |c| == n && |x| == n && i < n
    requires forall j :: 0 <= j < n ==> x[j] % P == PolyAt(c, Pow(w, j)) % P
    ensures PolyAt(x, Pow(wi, i)) % P == (n * c[i]) % P
  {
    var z := Pow(wi, i);
    SumToCoeffCong(x, Evaluations(c, w, n), z, n);
    SwapSums(c, w, z, n, n);
    WeightedDelta(c, w, wi, n, i, n);
  }

  // ---------------------------------------------------- products of polynomials

  /** Coefficient-wise sum, the shorter operand padded with zeros. */
  ghost function PAdd(p: seq<int>, q: seq<int>): seq<int>
  {
    seq(Max(|p|, |q|), i requires 0 <= i < Max(|p|, |q|) => Digit(p, i) + Digit(q, i))
  }

  /** x * y^k * q(y) as coefficients: q scaled by x and moved up k places. */
  ghost function ShiftScale(k: nat, x: int, q: seq<int>): seq<int>
  {
    seq(k + |q|, i requires 0 <= i < k + |q| => if i < k then 0 else x * q[i - k])
  }

  /** The product of two polynomials, by schoolbook multiplication. */
  ghost function PolyMul(a: seq<int>, b: seq<int>): (r: seq<int>)
    ensures |r| == if |a| == 0 then 0 else |a| - 1 + |b|
  {
    if |a| == 0 then []
    else PAdd(PolyMul(a[..|a| - 1], b), ShiftScale(|a| - 1, a[|a| - 1], b))
  }

  lemma PAddDigits(p: seq<int>, q: seq<int>)
    ensures forall i :: 0 <= i ==> Digit(PAdd(p, q), i) == Digit(p, i) + Digit(q, i)
  {
  }

  lemma {:induction false} ShiftScaleSum(k: nat, x: int, q: seq<int>, y: int, m: nat)
    requires m >= k
    ensures SumTo(ShiftScale(k, x, q), y, m) == x * Pow(y, k) * SumTo(q, y, m - k)
  {
    if m > k {
      var i := m - 1 - k;
      ShiftScaleSum(k, x, q, y, m - 1);
      var c, yk, s, d := x * Pow(y, k), Pow(y, k), SumTo(q, y, i), Digit(q, i);
      assert Digit(ShiftScale(k, x, q), m - 1) == x * d;
      assert Pow(y, m - 1) == yk * Pow(y, i) by {
        PowAdd(y, k, i);
      }
      assert SumTo(q, y, m - k) == s + d * Pow(y, i);
      assert c * (s + d * Pow(y, i)) == c * s + x * d * Pow(y, m - 1) by {
        MulComm(c, s + d * Pow(y, i));
        RightDistrib(s, d * Pow(y, i), c);
        MulComm(s, c);
        MulComm(d * Pow(y, i), c);
        MulAssoc(d, Pow(y, i), c);
        MulAssoc(x, yk, d * Pow(y, i));
        MulComm(yk, d * Pow(y, i));
        MulAssoc(d, Pow(y, i), yk);
        MulComm(Pow(y, i), yk);
        MulAssoc(x, d, yk * Pow(y, i));
      }
    } else {
      ShiftScaleLow(k, x, q, y, m);
    }
  }

  lemma {:induction false} ShiftScaleLow(k: nat, x: int, q: seq<int>, y: int, m: nat)
    requires m <= k
    ensures SumTo(ShiftScale(k, x, q), y, m) == 0
  {
    if m > 0 {
      ShiftScaleLow(k, x, q, y, m - 1);
    }
  }

  /** A prefix evaluates like the whole below its length. */
  lemma {:induction false} SumToPrefix(a: seq<int>, k: nat, y: int, m: nat)
    requires m <= k <= |a|
    ensures SumTo(a[..k], y, m) == SumTo(a, y, m)
  {
    if m > 0 {
      SumToPrefix(a, k, y, m - 1);
    }
  }

  /** The product evaluates to the product of the values. */
  lemma {:induction false} PolyMulAt(a: seq<int>, b: seq<int>, y: int)
    ensures PolyAt(PolyMul(a, b), y) == PolyAt(a, y) * PolyAt(b, y)
  {
    if |a| > 0 {
      var k := |a| - 1;
      var a', x := a[..k], a[k];
      var p, s := PolyMul(a', b), ShiftScale(k, x, b);
      var M := |PolyMul(a, b)|;
      var pa, pb, yk := PolyAt(a', y), PolyAt(b, y), Pow(y, k);
      assert PolyAt(PolyMul(a, b), y) == SumTo(p, y, M) + SumTo(s, y, M) by {
        PAddDigits(p, s);
        SumToPointwise(p, s, PolyMul(a, b), y, M);
      }
      assert SumTo(p, y, M) == pa * pb by {
        SumToPast(p, y, M);
        PolyMulAt(a', b, y);
      }
      assert SumTo(s, y, M) == x * yk * pb by {
        ShiftScaleSum(k, x, b, y, M);
        SumToPast(b, y, M - k);
      }
      assert PolyAt(a, y) == pa + x * yk by {
        SumToPrefix(a, k, y, k);
      }
      RightDistrib(pa, x * yk, pb);
    }
  }

  /** Coefficients in [0, A] and [0, B] give product coefficients in [0, |a|*A*B]. */
  lemma {:induction false} PolyMulBound(a: seq<int>, b: seq<int>, A: int, B: int)
    requires A >= 0 && B >= 0
    requires forall s :: 0 <= s < |a| ==> 0 <= a[s] <= A
    requires forall t :: 0 <= t < |b| ==> 0 <= b[t] <= B
    ensures forall i :: 0 <= i < |PolyMul(a, b)| ==> 0 <= PolyMul(a, b)[i] <= |a| * (A * B)
  {
    if |a| > 0 {
      var k := |a| - 1;
      var p, sh := PolyMul(a[..k], b), ShiftScale(k, a[k], b);
      PolyMulBound(a[..k], b, A, B);
      PAddDigits(p, sh);
      MulNonNeg(A, B);
      MulNonNeg(k, A * B);
      RightDistrib(k, 1, A * B);
      forall i | 0 <= i < |PolyMul(a, b)|
        ensures 0 <= PolyMul(a, b)[i] <= |a| * (A * B)
      {
        assert 0 <= Digit(sh, i) <= A * B by {
          if k <= i < k + |b| {
            MulLeMono(a[k], A, b[i - k]);
            MulLeMono(b[i - k], B, A);
            MulNonNeg(a[k], b[i - k]);
            MulComm(b[i - k], A);
            MulComm(B, A);
          }
        }
        assert 0 <= Digit(p, i) <= k * (A * B);
        assert PolyMul(a, b)[i] == Digit(p, i) + Digit(sh, i);
      }
    }
  }

  /**
   * Coefficients of a vanishing from da on and of b from db on make the
   * product's vanish from da + db - 1 on.
   */
  lemma {:induction false} PolyMulZeros(a: seq<int>, b: seq<int>, da: nat, db: nat)
    requires da >= 1 && db >= 1
    requires forall s :: da <= s < |a| ==> a[s] == 0
    requires forall t :: db <= t < |b| ==> b[t] == 0
    ensures forall i :: da + db - 1 <= i < |PolyMul(a, b)| ==> PolyMul(a, b)[i] == 0
  {
    if |a| > 0 {
      var k := |a| - 1;
      PolyMulZeros(a[..k], b, da, db);
      forall i | da + db - 1 <= i < |PolyMul(a, b)|
        ensures PolyMul(a, b)[i] == 0
      {
        assert Digit(ShiftScale(k, a[k], b), i) == 0 by {
          if k <= i < k + |b| && k < da {
            assert b[i - k] == 0;
          }
        }
      }
    }
  }

  // ------------------------------------------------------ cyclic folding

  /** The coefficients from position n on. */
  ghost function Above(c: seq<int>, n: nat): seq<int>
  {
    if n <= |c| then c[n..] else []
  }

  /** c folded to n coefficients: c[i] + c[i + n], the product modulo y^n - 1. */
  ghost function Fold(c: seq<int>, n: nat): seq<int>
  {
    seq(n, i requires 0 <= i < n => Digit(c, i) + Digit(c, i + n))
  }

  lemma {:induction false} SumToSplit(c: seq<int>, y: int, n: nat, m: nat)
    ensures SumTo(c, y, n + m) == SumTo(c, y, n) + Pow(y, n) * SumTo(Above(c, n), y, m)
  {
    if m > 0 {
      SumToSplit(c, y, n, m - 1);
      var yn, s, d, t := Pow(y, n), SumTo(Above(c, n), y, m - 1), Digit(c, n + m - 1), Pow(y, m - 1);
      assert Digit(Above(c, n), m - 1) == d;
      assert Pow(y, n + m - 1) == yn * t by {
        PowAdd(y, n, m - 1);
      }
      assert yn * (s + d * t) == yn * s + d * (yn * t) by {
        MulComm(yn, s + d * t);
        RightDistrib(s, d * t, yn);
        MulComm(s, yn);
        MulAssoc(d, t, yn);
        MulComm(t, yn);
      }
    }
  }

  /**
   * Where y^n is 1 modulo P, a polynomial of fewer than 2n coefficients
   * and its fold take congruent values at y.
   */
  lemma {:induction false} FoldAt(c: seq<int>, n: nat, y: int)
    requires |c| <= 2 * n && Pow(y, n) % P == 1
    ensures PolyAt(c, y) % P == PolyAt(Fold(c, n), y) % P
  {
    var hi := SumTo(Above(c, n), y, n);
    SumToPast(c, y, n + n);
    SumToSplit(c, y, n, n);
    SumToPointwise(c, Above(c, n), Fold(c, n), y, n);
    ModAdd(SumTo(c, y, n), Pow(y, n) * hi);
    ModMulLeft(Pow(y, n), hi);
    ModAdd(SumTo(c, y, n), hi);
  }

  /**
   * The convolution theorem: multiplying two transforms pointwise gives
   * the transform of the product folded to n coefficients.
   */
  lemma Convolution(u: seq<int>, v: seq<int>, w: int, n: nat, j: nat)
    requires |u| == n && |v| == n && Pow(w, n) % P == 1
    ensures Dft(u, w, j) * Dft(v, w, j) % P == Dft(Fold(PolyMul(u, v), n), w, j)
  {
    var y := Pow(w, j);
    var c := PolyMul(u, v);
    assert Pow(y, n) % P == 1 by {
      PowMul(w, j, n);
      PowMul(w, n, j);
      MulComm(j, n);
      PowCong(Pow(w, n), 1, j);
      PowOne(j);
    }
    assert PolyAt(c, y) == PolyAt(u, y) * PolyAt(v, y) by {
      PolyMulAt(u, v, y);
    }
    ModMul(PolyAt(u, y), PolyAt(v, y));
    FoldAt(c, n, y);
  }
}
