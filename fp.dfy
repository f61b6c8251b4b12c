/**
 * The prime field F_p of the number-theoretic transform (`FFT.Fp`):
 * p = 15·2^27 + 1, an element w of order 2^27, modular exponentiation
 * `mpow`/`mpowL`, the inverse `minv` and the roots `m2PowNthRoot`.
 * Field elements are naturals below p; the 64-bit products of the source
 * are exact here, since two elements multiply to less than 2^62.
 */
module Fp {
  import opened Limbs
  import NumberTheory

  const P: nat := 2013265921        // `p`, 15 * 2^27 + 1
  const W: nat := 440564289         // `w`, of order 2^27 modulo P
  const K: nat := 27                // `k`, so that W has order 2^K
  const MaxBitsInsideFp: nat := 30  // `maxBitsInsideFp`
  const Two15: nat := 32768         // 2^15, and 2^(P-1) = Two15^(2^27)

  // ------------------------------------------------------- congruences

  /** A multiple of P added to x does not change x modulo P. */
  lemma ModShift(x: int, k: int)
    ensures (x + P * k) % P == x % P
  {
    DivModUnique(x + P * k, x % P, x / P + k, P);
  }

  lemma ModAdd(a: int, b: int)
    ensures (a + b) % P == (a % P + b % P) % P
  {
  }

  /** Reducing the left factor first changes nothing modulo P. */
  lemma ModMulLeft(a: int, b: int)
    ensures (a % P) * b % P == a * b % P
  {
    var q, r := a / P, a % P;
    assert a == q * P + r;
    assert a * b == r * b + P * (q * b) by {
      RightDistrib(q * P, r, b);
      MulAssoc(q, P, b);
      MulComm(q, P);
      MulAssoc(P, q, b);
    }
    ModShift(r * b, q * b);
  }

  lemma ModMulRight(a: int, b: int)
    ensures a * (b % P) % P == a * b % P
  {
    ModMulLeft(b, a);
    MulComm(a, b % P);
    MulComm(a, b);
  }

  lemma ModMul(a: int, b: int)
    ensures a * b % P == (a % P) * (b % P) % P
  {
    ModMulLeft(a, b);
    ModMulRight(a % P, b);
  }

  /** Congruent bases have congruent powers. */
  lemma {:induction false} PowCong(x: int, y: int, e: nat)
    requires x % P == y % P
    ensures Pow(x, e) % P == Pow(y, e) % P
  {
    if e > 0 {
      PowCong(x, y, e - 1);
      ModMul(x, Pow(x, e - 1));
      ModMul(y, Pow(y, e - 1));
    }
  }

  /** Powers of a product are products of powers. */
  lemma {:induction false} PowOfProduct(a: int, b: int, e: nat)
    ensures Pow(a * b, e) == Pow(a, e) * Pow(b, e)
  {
    if e > 0 {
      var x, y := Pow(a, e - 1), Pow(b, e - 1);
      assert Pow(a * b, e - 1) == x * y by {
        PowOfProduct(a, b, e - 1);
      }
      assert Pow(a * b, e) == (a * b) * (x * y);
      assert Pow(a, e) == a * x && Pow(b, e) == b * y;
      Interchange(a, b, x, y);
    }
  }

  lemma Interchange(a: int, b: int, x: int, y: int)
    ensures (a * b) * (x * y) == (a * x) * (b * y)
  {
    MulAssoc(a, b, x * y);
    MulAssoc(b, x, y);
    MulComm(b, x);
    MulAssoc(x, b, y);
    MulAssoc(a, x, b * y);
  }

  lemma {:induction false} PowOne(e: nat)
    ensures Pow(1, e) == 1
  {
    if e > 0 {
      PowOne(e - 1);
    }
  }

  /** Powers of -1 modulo P alternate between 1 and P - 1. */
  lemma {:induction false} PowMinusOne(x: int, e: nat)
    requires x % P == P - 1
    ensures Pow(x, e) % P == if e % 2 == 0 then 1 else P - 1
  {
    if e > 0 {
      var a := Pow(x, e - 1);
      PowMinusOne(x, e - 1);
      assert Pow(x, e) == x * a;
      MinusOneStep(x, a);
    }
  }

  /** Multiplying by -1 modulo P swaps 1 and -1. */
  lemma MinusOneStep(x: int, a: int)
    requires x % P == P - 1 && (a % P == 1 || a % P == P - 1)
    ensures x * a % P == if a % P == 1 then P - 1 else 1
  {
    ModMul(x, a);
    if a % P == P - 1 {
      assert (P - 1) * (P - 1) == 1 + P * (P - 2);
      DivModUnique((P - 1) * (P - 1), 1, P - 2, P);
    }
  }

  // ------------------------------------------------------- mpow, mpowL

  /** x^e modulo P from the square of x and the halved exponent. */
  lemma {:induction false} HalveExponent(x: int, e: nat)
    ensures Pow(x, e) % P ==
      (if e % 2 == 0 then 1 else x) * (Pow(x * x % P, e / 2) % P) % P
  {
    var y := Pow(x * x % P, e / 2);
    PowCong(x * x % P, x * x, e / 2);
    PowSquare(x, e / 2);
    assert y % P == Pow(x, 2 * (e / 2)) % P;
    if e % 2 == 1 {
      assert Pow(x, e) == x * Pow(x, 2 * (e / 2));
      ModMulRight(x, Pow(x, 2 * (e / 2)));
    }
  }

  /**
   * `mpow` (int32 exponent) and `mpowL` (int64 exponent): x^n modulo P by
   * squaring, halving the exponent with truncation toward zero, so a
   * negative exponent gives x^|n|. The two differ only in the width of
   * the exponent, which an unbounded integer covers.
   */
  function MPow(x: nat, n: int): (r: nat)
    decreases NumberTheory.Abs(n)
    ensures r == Pow(x, NumberTheory.Abs(n)) % P
  {
    MPowStep(x, n);
    if n == 0 then 1
    else if n % 2 == 0 then MPow(x * x % P, NumberTheory.TruncHalf(n))
    else x * MPow(x * x % P, NumberTheory.TruncHalf(n)) % P
  }

  /** One squaring step of `mpow`, stated on the signed exponent. */
  lemma MPowStep(x: nat, n: int)
    ensures n == 0 ==> Pow(x, NumberTheory.Abs(n)) % P == 1
    ensures n != 0 && n % 2 == 0 ==>
      Pow(x, NumberTheory.Abs(n)) % P == Pow(x * x % P, NumberTheory.Abs(n) / 2) % P
    ensures n % 2 != 0 ==>
      Pow(x, NumberTheory.Abs(n)) % P == x * (Pow(x * x % P, NumberTheory.Abs(n) / 2) % P) % P
  {
    var e := NumberTheory.Abs(n);
    NumberTheory.ParityAbs(n);
    HalveExponent(x, e);
  }

  /** `minv`: x^(P-2) modulo P, computed with `mpowL`. */
  function MInv(x: nat): (r: nat)
    ensures r == Pow(x, P - 2) % P
  {
    MPow(x, P - 2)
  }

  /** Where x^(P-1) is 1 modulo P, `minv` gives the multiplicative inverse. */
  lemma {:induction false} MInvInverse(x: nat)
    requires Pow(x, P - 1) % P == 1
    ensures x * MInv(x) % P == 1
  {
    ModMulRight(x, Pow(x, P - 2));
    assert x * Pow(x, P - 2) == Pow(x, P - 1);
  }

  /**
   * `m2PowNthRoot(n)`: w^(2^(k-n)) modulo P. The exponent comes from
   * `pow32(2, k - n)`, which, like `mpow`, halves with truncation, so a
   * negative k - n gives 2^|k-n|; the requires keeps 2^|k-n| inside int32.
   */
  function M2PowNthRoot(n: int): (r: nat)
    requires -3 <= n <= 57
    ensures r < P
  {
    MPow(W, PowBySquaring(2, NumberTheory.Abs(K - n)))
  }

  // ------------------------------------------------ powers of two and roots

  /** n is a power of two. */
  predicate IsPow2(n: nat)
  {
    n == 1 || (n >= 2 && n % 2 == 0 && IsPow2(n / 2))
  }

  /** The exponent of a power of two. */
  ghost function Log2(n: nat): (k: nat)
    requires IsPow2(n)
    ensures Pow(2, k) == n
  {
    if n == 1 then 0 else 1 + Log2(n / 2)
  }

  lemma {:induction false} Pow2IsPow2(k: nat)
    ensures IsPow2(Pow(2, k))
  {
    if k > 0 {
      Pow2IsPow2(k - 1);
      PowMonotone(2, 0, k - 1);
      assert Pow(2, k) / 2 == Pow(2, k - 1);
    }
  }

  /**
   * w is a principal n-th root of unity modulo P for a power of two n:
   * its (n/2)-th power is -1, so its order is exactly n.
   */
  ghost predicate RootOfOrder(w: int, n: nat)
  {
    IsPow2(n) && Pow(w, n) % P == 1 && (n >= 2 ==> Pow(w, n / 2) % P == P - 1)
  }

  /** The square of a root of order n >= 2 has order n / 2. */
  lemma {:induction false} RootSquare(w: int, n: nat)
    requires RootOfOrder(w, n) && n >= 2
    ensures RootOfOrder(w * w, n / 2) && RootOfOrder(w * w % P, n / 2)
  {
    SquaredRoot(w, n);
    RootCong(w * w, w * w % P, n / 2);
  }

  /** The square itself, before reduction, has half the order. */
  lemma SquaredRoot(w: int, n: nat)
    requires RootOfOrder(w, n) && n >= 2
    ensures RootOfOrder(w * w, n / 2)
  {
    var h, z := n / 2, w * w;
    assert n == 2 * h && IsPow2(h);
    assert Pow(z, h) == Pow(w, n) by {
      PowSquare(w, h);
    }
    if h >= 2 {
      var h2 := h / 2;
      assert Pow(z, h2) == Pow(w, h) by {
        assert h == 2 * h2;
        PowSquare(w, h2);
      }
    }
  }

  /** Being a root of order n depends only on the residue modulo P. */
  lemma {:induction false} RootCong(v: int, w: int, n: nat)
    requires RootOfOrder(v, n) && v % P == w % P
    ensures RootOfOrder(w, n)
  {
    PowCong(v, w, n);
    PowCong(v, w, n / 2);
  }

  /** An h-th power equal to -1 makes the 2h-th power 1. */
  lemma {:induction false} HalfTurn(w: int, h: nat)
    requires Pow(w, h) % P == P - 1
    ensures Pow(w, 2 * h) % P == 1
  {
    SquareChain(w, h, P - 1, P - 2, 1);
  }

  /** Units multiply: where a^e and b^e are 1 modulo P, so is (a*b)^e. */
  lemma {:induction false} UnitProduct(a: int, b: int, e: nat)
    requires Pow(a, e) % P == 1 && Pow(b, e) % P == 1
    ensures Pow(a * b, e) % P == 1
  {
    PowOfProduct(a, b, e);
    UnitMul(Pow(a, e), Pow(b, e));
  }

  /** The product of two residues congruent to 1 is congruent to 1. */
  lemma UnitMul(x: int, y: int)
    requires x % P == 1 && y % P == 1
    ensures x * y % P == 1
  {
    ModMul(x, y);
  }

  /**
   * x^e modulo P is c, and c*c = d + P*q with d < P: then x^(2e) modulo P
   * is d. The quotient q is given so that every step is plain arithmetic.
   */
  lemma {:induction false} SquareChain(x: int, e: nat, c: int, q: int, d: int)
    requires Pow(x, e) % P == c && c * c == d + P * q && 0 <= d < P
    ensures Pow(x, 2 * e) % P == d
  {
    PowAdd(x, e, e);
    ModMul(Pow(x, e), Pow(x, e));
    DivModUnique(c * c, d, q, P);
  }

  /** Powers of two needed as literals. */
  lemma TwoPowers()
    ensures Pow(2, 15) == 32768 && Pow(2, 26) == 67108864 && Pow(2, 27) == 134217728
  {
    PowAdd(2, 8, 7);
    PowAdd(2, 8, 8);
    PowAdd(2, 16, 8);
    PowAdd(2, 24, 2);
    PowAdd(2, 24, 3);
  }

  /** Squaring W twenty-seven times, from any exponent e0 where W^e0 is W. */
  lemma {:induction false} WSquares(e0: nat)
    requires Pow(W, e0) % P == W
    ensures Pow(W, 67108864 * e0) % P == P - 1 && Pow(W, 134217728 * e0) % P == 1
  {
    var e := e0;
    SquareChain(W, e, 440564289, 96408969, 975630072);
    e := 2 * e;
    SquareChain(W, e, 975630072, 472791014, 1149491290);
    e := 2 * e;
    SquareChain(W, e, 1149491290, 656311822, 1003846038);
    e := 2 * e;
    SquareChain(W, e, 1003846038, 500533415, 1267047229);
    e := 2 * e;
    SquareChain(W, e, 1267047229, 797415117, 570250684);
    e := 2 * e;
    SquareChain(W, e, 570250684, 161521555, 414040701);
    e := 2 * e;
    SquareChain(W, e, 414040701, 85150054, 195061667);
    e := 2 * e;
    SquareChain(W, e, 195061667, 18899169, 1049899240);
    e := 2 * e;
    SquareChain(W, e, 1049899240, 547512577, 1559589183);
    e := 2 * e;
    SquareChain(W, e, 1559589183, 1208145627, 1286330022);
    e := 2 * e;
    SquareChain(W, e, 1286330022, 821871024, 1421947380);
    e := 2 * e;
    SquareChain(W, e, 1421947380, 1004305655, 2009781145);
    e := 2 * e;
    SquareChain(W, e, 2009781145, 2006302400, 1657000625);
    e := 2 * e;
    SquareChain(W, e, 1657000625, 1363779639, 298008106);
    e := 2 * e;
    SquareChain(W, e, 298008106, 44111823, 1282623253);
    e := 2 * e;
    SquareChain(W, e, 1282623253, 817141139, 1340477990);
    e := 2 * e;
    SquareChain(W, e, 1340477990, 892520567, 341742893);
    e := 2 * e;
    SquareChain(W, e, 341742893, 58009328, 1753498361);
    e := 2 * e;
    SquareChain(W, e, 1753498361, 1527248074, 1732600167);
    e := 2 * e;
    SquareChain(W, e, 1732600167, 1491061517, 397765732);
    e := 2 * e;
    SquareChain(W, e, 397765732, 78587520, 1721589904);
    e := 2 * e;
    SquareChain(W, e, 1721589904, 1472171046, 760005850);
    e := 2 * e;
    SquareChain(W, e, 760005850, 286901440, 196396260);
    e := 2 * e;
    SquareChain(W, e, 196396260, 19158666, 1592366214);
    e := 2 * e;
    SquareChain(W, e, 1592366214, 1259461123, 1728404513);
    e := 2 * e;
    SquareChain(W, e, 1728404513, 1483848769, 2013265920);
    assert Pow(W, 2 * e) % P == P - 1;
    e := 2 * e;
    SquareChain(W, e, 2013265920, 2013265919, 1);
    e := 2 * e;
  }

  /** W has order exactly 2^27: W^(2^26) is -1 and W^(2^27) is 1 modulo P. */
  lemma WOrder()
    ensures Pow(W, Pow(2, 26)) % P == P - 1 && Pow(W, Pow(2, 27)) % P == 1
  {
    assert Pow(W, 1) == W;
    WSquares(1);
    TwoPowers();
  }

  /** Squaring 2^15 fourteen times, from any exponent e0 where x^e0 is x. */
  lemma {:induction false} TwoSquaresLow(e0: nat)
    requires Pow(Two15, e0) % P == Two15
    ensures Pow(Two15, 16384 * e0) % P == 1648567141
  {
    var e := e0;
    SquareChain(Two15, e, 32768, 0, 1073741824);
    e := 2 * e;
    SquareChain(Two15, e, 1073741824, 572662305, 1709039071);
    e := 2 * e;
    SquareChain(Two15, e, 1709039071, 1450784278, 584553003);
    e := 2 * e;
    SquareChain(Two15, e, 584553003, 169725325, 563168684);
    e := 2 * e;
    SquareChain(Two15, e, 563168684, 157534562, 1584030254);
    e := 2 * e;
    SquareChain(Two15, e, 1584030254, 1246309203, 158733553);
    e := 2 * e;
    SquareChain(Two15, e, 158733553, 12515157, 1763939212);
    e := 2 * e;
    SquareChain(Two15, e, 1763939212, 1545489600, 691259344);
    e := 2 * e;
    SquareChain(Two15, e, 691259344, 237345437, 850357859);
    e := 2 * e;
    SquareChain(Two15, e, 850357859, 359171871, 696955690);
    e := 2 * e;
    SquareChain(Two15, e, 696955690, 241273260, 1816803640);
    e := 2 * e;
    SquareChain(Two15, e, 1816803640, 1639512908, 1601241332);
    e := 2 * e;
    SquareChain(Two15, e, 1601241332, 1273539564, 58735780);
    e := 2 * e;
    SquareChain(Two15, e, 58735780, 1713579, 1648567141);
    e := 2 * e;
  }

  /** Thirteen more squarings reach 1. */
  lemma {:induction false} TwoSquaresHigh(e0: nat)
    requires Pow(Two15, e0) % P == 1648567141
    ensures Pow(Two15, 8192 * e0) % P == 1
  {
    var e := e0;
    SquareChain(Two15, e, 1648567141, 1349932758, 1061973763);
    e := 2 * e;
    SquareChain(Two15, e, 1061973763, 560178494, 1653077195);
    e := 2 * e;
    SquareChain(Two15, e, 1653077195, 1357328996, 1397122709);
    e := 2 * e;
    SquareChain(Two15, e, 1397122709, 969544978, 919403943);
    e := 2 * e;
    SquareChain(Two15, e, 919403943, 419866845, 7658004);
    e := 2 * e;
    SquareChain(Two15, e, 7658004, 29129, 602251207);
    e := 2 * e;
    SquareChain(Two15, e, 602251207, 180158275, 889310574);
    e := 2 * e;
    SquareChain(Two15, e, 889310574, 392831015, 1816869661);
    e := 2 * e;
    SquareChain(Two15, e, 1816869661, 1639632067, 1592366214);
    e := 2 * e;
    SquareChain(Two15, e, 1592366214, 1259461123, 1728404513);
    e := 2 * e;
    SquareChain(Two15, e, 1728404513, 1483848769, 2013265920);
    e := 2 * e;
    SquareChain(Two15, e, 2013265920, 2013265919, 1);
    e := 2 * e;
    SquareChain(Two15, e, 1, 0, 1);
    e := 2 * e;
  }

  /** 2^(P-1) is 1 modulo P: P - 1 = 15 * 2^27 and (2^15)^(2^27) is 1. */
  lemma TwoUnit()
    ensures Pow(2, P - 1) % P == 1
  {
    assert Pow(Two15, 1) == Two15;
    TwoSquaresLow(1);
    TwoSquaresHigh(16384);
    TwoPowers();
    PowMul(2, 15, 134217728);
  }

  /** Every power of two n satisfies n^(P-1) = 1 modulo P. */
  lemma {:induction false} Pow2Unit(n: nat)
    requires IsPow2(n)
    ensures Pow(n, P - 1) % P == 1
  {
    if n == 1 {
      PowOne(P - 1);
    } else {
      Pow2Unit(n / 2);
      TwoUnit();
      UnitProduct(2, n / 2, P - 1);
      assert n == 2 * (n / 2);
    }
  }

  /** A power of two up to 2^27 divides P - 1. */
  lemma {:induction false} Pow2DividesOrder(k: nat)
    requires k <= 27
    ensures (P - 1) % Pow(2, k) == 0
  {
    TwoPowers();
    var n, q := Pow(2, k), Pow(2, 27 - k);
    PowAdd(2, k, 27 - k);
    assert P - 1 == 15 * (n * q);
    MulAssoc(15, n, q);
    MulComm(15, n);
    MulAssoc(n, 15, q);
    DivModUnique(P - 1, 0, 15 * q, n);
  }

  /** A root of order n, for n a power of two up to 2^27, has w^(P-1) = 1. */
  lemma {:induction false} RootUnit(w: int, n: nat)
    requires RootOfOrder(w, n) && n <= Pow(2, 27)
    ensures Pow(w, P - 1) % P == 1
  {
    PowerOfTwoDividesOrder(n);
    UnitFromRoot(w, n, (P - 1) / n, P - 1);
  }

  /** A power of two n up to 2^27 divides P - 1 exactly. */
  lemma PowerOfTwoDividesOrder(n: nat)
    requires IsPow2(n) && n <= Pow(2, 27)
    ensures n > 0 && P - 1 == n * ((P - 1) / n)
  {
    var k := Log2(n);
    if k > 27 {
      PowStrict(2, 27, k);
    }
    Pow2DividesOrder(k);
    ExactQuotient(P - 1, n);
  }

  lemma ExactQuotient(a: int, n: int)
    requires n > 0 && a % n == 0
    ensures a == n * (a / n)
  {
  }

  /** A power m = n * q of a w with w^n = 1 is 1 too, modulo P. */
  lemma UnitFromRoot(w: int, n: nat, q: nat, m: nat)
    requires Pow(w, n) % P == 1 && m == n * q
    ensures Pow(w, m) % P == 1
  {
    PowMul(w, n, q);
    PowCong(Pow(w, n), 1, q);
    PowOne(q);
  }

  /**
   * `m2PowNthRoot(n)` for 1 <= n <= 27 is a principal 2^n-th root of
   * unity: its 2^(n-1)-th power is -1 modulo P.
   */
  lemma {:induction false} PrimitiveRoot(n: nat)
    requires 1 <= n <= K
    ensures RootOfOrder(M2PowNthRoot(n), Pow(2, n))
  {
    var e, h := Pow(2, K - n), Pow(2, n - 1);
    var r := M2PowNthRoot(n);
    PowAdd(2, K - n, n - 1);
    PowerOfW(e, h, r);
    Pow2IsPow2(n);
    assert Pow(2, n) == 2 * h;
  }

  /** A power r of W with r^h = W^(2^26) is -1 at h and 1 at 2h, modulo P. */
  lemma {:induction false} PowerOfW(e: nat, h: nat, r: int)
    requires e * h == Pow(2, 26) && r == Pow(W, e) % P
    ensures Pow(r, h) % P == P - 1 && Pow(r, 2 * h) % P == 1
  {
    assert Pow(Pow(W, e), h) % P == P - 1 by {
      PowMul(W, e, h);
      WOrder();
    }
    assert Pow(r, h) % P == P - 1 by {
      PowCong(r, Pow(W, e), h);
    }
    HalfTurn(r, h);
  }
}
