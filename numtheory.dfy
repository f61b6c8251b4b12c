/**
 * Number theory on big naturals: the highest common factor by Euclid's
 * algorithm, exponentiation by squaring with an int32 or a big exponent,
 * and the factorial as a balanced product of a range.
 */
module NumberTheory {
  import opened Limbs
  import opened BigNats
  import opened Arith
  import opened Division
  import opened Mul

  // ---------------------------------------------------------------- hcf

  /** d divides x; zero divides only zero. */
  ghost predicate Divides(d: nat, x: nat)
  {
    if d == 0 then x == 0 else x % d == 0
  }

  /** g is a highest common factor of x and y: a common divisor that every common divisor divides. */
  ghost predicate IsGcd(g: nat, x: nat, y: nat)
  {
    Divides(g, x) && Divides(g, y) &&
    forall d: nat :: Divides(d, x) && Divides(d, y) ==> Divides(d, g)
  }

  lemma MultipleMod(d: int, c: int)
    requires d > 0
    ensures (d * c) % d == 0
  {
    DivModUnique(d * c, 0, c, d);
  }

  /** Replacing y by y mod x keeps the common divisors of x and y. */
  lemma CommonDivisorsStep(d: nat, x: nat, y: nat)
    requires x > 0
    ensures Divides(d, x) && Divides(d, y) <==> Divides(d, x) && Divides(d, y % x)
  {
    if d > 0 && x % d == 0 {
      var a, q, r := x / d, y / x, y % x;
      assert x == d * a;
      assert y == x * q + r;
      MulAssoc(d, a, q);
      assert x * q == d * (a * q);
      if y % d == 0 {
        var b := y / d;
        assert y == d * b;
        assert r == d * (b - a * q);
        MultipleMod(d, b - a * q);
      }
      if r % d == 0 {
        var c := r / d;
        assert r == d * c;
        assert y == d * (a * q + c);
        MultipleMod(d, a * q + c);
      }
    }
  }

  /** A positive multiple of d is at least d. */
  lemma DivisorBelow(d: nat, x: nat)
    requires d > 0 && x > 0 && x % d == 0
    ensures d <= x
  {
    var k := x / d;
    assert x == d * k;
    MulLeMono(1, k, d);
  }

  /** The highest common factor is unique: the contract of `Hcf` fixes its value. */
  lemma GcdUnique(g: nat, h: nat, x: nat, y: nat)
    requires IsGcd(g, x, y) && IsGcd(h, x, y)
    ensures g == h
  {
    assert Divides(g, h) && Divides(h, g);
    if g > 0 && h > 0 {
      DivisorBelow(g, h);
      DivisorBelow(h, g);
    }
  }

  /** x, y and a, b have the same common divisors. */
  ghost predicate SameCommonDivisors(x: nat, y: nat, a: nat, b: nat)
  {
    forall d: nat :: Divides(d, x) && Divides(d, y) <==> Divides(d, a) && Divides(d, b)
  }

  /** One step of Euclid's algorithm keeps the common divisors. */
  lemma EuclidStep(x: nat, y: nat, a: nat, b: nat)
    requires x > 0 && SameCommonDivisors(x, y, a, b)
    ensures SameCommonDivisors(y % x, x, a, b)
  {
    forall d: nat
      ensures Divides(d, y % x) && Divides(d, x) <==> Divides(d, a) && Divides(d, b)
    {
      CommonDivisorsStep(d, x, y);
    }
  }

  /** When Euclid's algorithm reaches (0, y), y is the highest common factor. */
  lemma EuclidEnd(y: nat, a: nat, b: nat)
    requires SameCommonDivisors(0, y, a, b)
    ensures IsGcd(y, a, b)
  {
    assert Divides(y, 0) && Divides(y, y);
  }

  /** The remainder half of `divmod`, for a non-zero divisor. */
  method RemainderOf(b: BigNat, a: BigNat) returns (m: BigNat)
    requires b.Valid() && a.Valid() && b.Normalized() && a.Normalized() && a.Val() > 0
    ensures m.Valid() && m.Normalized() && m.Val() == b.Val() % a.Val()
  {
    NormalizedZero(a);
    var q;
    q, m := DivModNonZero(b, a);
  }

  /**
   * `hcf`: Euclid's algorithm started on (smaller, larger), replacing
   * (x, y) by (y mod x, x) until x is zero; y is then the answer.
   */
  method Hcf(a: BigNat, b: BigNat) returns (g: BigNat)
    requires a.Valid() && a.Normalized() && b.Valid() && b.Normalized()
    ensures g.Valid() && g.Normalized()
    ensures IsGcd(g.Val(), a.Val(), b.Val())
  {
    ghost var A, B := a.Val(), b.Val();
    var zero := Embed(0);
    var x, y := a, b;
    if !Lt(a, b) {
      x, y := b, a;
    }
    while !Equal(zero, x)
      invariant zero.Valid() && zero.Normalized() && zero.Val() == 0
      invariant x.Valid() && x.Normalized() && y.Valid() && y.Normalized()
      invariant SameCommonDivisors(x.Val(), y.Val(), A, B)
      decreases x.Val()
    {
      ghost var X, Y := x.Val(), y.Val();
      EuclidStep(X, Y, A, B);
      var m := RemainderOf(y, x);
      x, y := m, x;
    }
    g := y;
    EuclidEnd(g.Val(), A, B);
    assert a.Val() == A && b.Val() == B;
  }

  // ---------------------------------------------------------------- powers

  function Abs(n: int): nat { if n < 0 then -n else n }

  /** JavaScript's `~~(n / 2)`: halving that truncates toward zero. */
  function TruncHalf(n: int): (r: int)
    ensures Abs(r) == Abs(n) / 2
    ensures -0x8000_0000 <= n < 0x8000_0000 ==> -0x8000_0000 <= r < 0x8000_0000
  {
    if n >= 0 then n / 2 else -((-n) / 2)
  }

  /** JavaScript's `n % 2 === 0` and the Euclidean test agree, on n and on |n|. */
  lemma ParityAbs(n: int)
    ensures n % 2 == Abs(n) % 2
  {
    if n < 0 {
      DivModUnique(-n, (-n) % 2, (-n) / 2, 2);
      DivModUnique(n, (-n) % 2, -((-n) / 2) - (-n) % 2, 2);
    }
  }

  /** One square-and-multiply step keeps acc * y^e. */
  lemma SquareStep(acc: int, y: int, e: nat)
    ensures e % 2 == 0 ==> acc * Pow(y * y, e / 2) == acc * Pow(y, e)
    ensures e % 2 == 1 ==> (y * acc) * Pow(y * y, e / 2) == acc * Pow(y, e)
  {
    PowSquare(y, e / 2);
    if e % 2 == 1 {
      var t := Pow(y, e - 1);
      assert e - 1 == 2 * (e / 2);
      assert Pow(y, e) == y * t;
      MulComm(y, acc);
      MulAssoc(acc, y, t);
    }
  }

  /** acc * y^k is kept by one round of square-and-multiply. */
  lemma PowInvariantStep(acc: int, y: int, k: nat, acc': int, y': int, k': nat, bit: nat, target: int)
    requires acc * Pow(y, k) == target && k == 2 * k' + bit && bit <= 1 && y' == y * y
    requires acc' == (if bit == 1 then y * acc else acc)
    ensures acc' * Pow(y', k') == target
  {
    SquareStep(acc, y, k);
  }

  /** One round of square-and-multiply: y becomes y*y, and acc becomes y*acc when the bit is odd. */
  method SquareAndMultiply(acc: BigNat, y: BigNat, odd: bool) returns (acc': BigNat, y': BigNat)
    requires acc.Valid() && acc.Normalized() && y.Valid()
    ensures acc'.Valid() && acc'.Normalized() && y'.Valid() && y'.Normalized()
    ensures acc'.Val() == (if odd then y.Val() * acc.Val() else acc.Val())
    ensures y'.Val() == y.Val() * y.Val()
  {
    acc' := acc;
    if odd {
      acc' := Multiply(y, acc);
    }
    y' := Multiply(y, y);
  }

  /**
   * `powi`: x to an int32 power by squaring. The exponent is halved with
   * truncation and checked for evenness with JavaScript's `%`, so a
   * negative exponent yields x^|n|.
   */
  method Powi(x: BigNat, n: int) returns (r: BigNat)
    requires x.Valid() && -0x8000_0000 <= n < 0x8000_0000
    ensures r.Valid() && r.Normalized() && r.Val() == Pow(x.Val(), Abs(n))
  {
    ghost var target := Pow(x.Val(), Abs(n));
    var acc := Embed(1);
    var y, k := x, n;
    while k != 0
      invariant acc.Valid() && acc.Normalized() && y.Valid()
      invariant -0x8000_0000 <= k < 0x8000_0000
      invariant acc.Val() * Pow(y.Val(), Abs(k)) == target
      decreases Abs(k)
    {
      ghost var A, Y, K := acc.Val(), y.Val(), Abs(k);
      ParityAbs(k);
      acc, y := SquareAndMultiply(acc, y, k % 2 != 0);
      k := TruncHalf(k);
      PowInvariantStep(A, Y, K, acc.Val(), y.Val(), Abs(k), K % 2, target);
    }
    r := acc;
    assert r.Val() == target;
  }

  /** `divmod` by the constant two: k = 2q + m with the remainder m at most 1. */
  method Halve(k: BigNat) returns (q: BigNat, m: BigNat)
    requires k.Valid() && k.Normalized()
    ensures q.Valid() && q.Normalized() && m.Valid() && m.Normalized()
    ensures k.Val() == 2 * q.Val() + m.Val() && m.Val() <= 1
  {
    ghost var K := k.Val();
    var two := Embed(2);
    q, m := DivModNonZero(k, two);
    assert q.Val() == K / 2 && m.Val() == K % 2;
  }

  /** One round of `pow`: halve the exponent and square-and-multiply on its low bit. */
  method PowRound(acc: BigNat, y: BigNat, k: BigNat) returns (acc': BigNat, y': BigNat, k': BigNat, ghost bit: nat)
    requires acc.Valid() && acc.Normalized() && y.Valid() && k.Valid() && k.Normalized()
    ensures acc'.Valid() && acc'.Normalized() && y'.Valid() && k'.Valid() && k'.Normalized()
    ensures k.Val() == 2 * k'.Val() + bit && bit <= 1 && y'.Val() == y.Val() * y.Val()
    ensures acc'.Val() == (if bit == 1 then y.Val() * acc.Val() else acc.Val())
  {
    var m;
    k', m := Halve(k);
    bit := m.Val();
    acc', y' := SquareAndMultiply(acc, y, !IsZero(m));
  }

  /** `pow`: x to a big power by squaring, halving the exponent with `divmod` by two. */
  method PowNat(x: BigNat, n: BigNat) returns (r: BigNat)
    requires x.Valid() && n.Valid() && n.Normalized()
    ensures r.Valid() && r.Normalized() && r.Val() == Pow(x.Val(), n.Val())
  {
    ghost var target := Pow(x.Val(), n.Val());
    var acc := Embed(1);
    var y, k := x, n;
    while !IsZero(k)
      invariant acc.Valid() && acc.Normalized() && y.Valid() && k.Valid() && k.Normalized()
      invariant acc.Val() * Pow(y.Val(), k.Val()) == target
      decreases k.Val()
    {
      ghost var A, Y, K := acc.Val(), y.Val(), k.Val();
      ghost var bit;
      acc, y, k, bit := PowRound(acc, y, k);
      PowInvariantStep(A, Y, K, acc.Val(), y.Val(), k.Val(), bit, target);
    }
    r := acc;
    assert r.Val() == target;
  }

  // ---------------------------------------------------------------- factorial

  ghost function Fact(n: nat): nat
  {
    if n == 0 then 1 else n * Fact(n - 1)
  }

  /** The product a * (a+1) * ... * b, 1 when the range is empty. */
  ghost function Product(a: nat, b: nat): nat
    requires 1 <= a
  {
    if b < a then 1 else b * Product(a, b - 1)
  }

  /** A range product splits at any point m inside it. */
  lemma {:induction false} ProductSplit(a: nat, m: nat, b: nat)
    requires 1 <= a <= m <= b
    ensures Product(a, b) == Product(a, m) * Product(m + 1, b)
  {
    if b > m {
      ProductSplit(a, m, b - 1);
      var x, y := Product(a, m), Product(m + 1, b - 1);
      MulAssoc(b, x, y);
      MulComm(b, x);
      MulAssoc(x, b, y);
    }
  }

  /** The product of 1..n is n!. */
  lemma {:induction false} ProductIsFact(n: nat)
    ensures Product(1, n) == Fact(n)
  {
    if n > 0 {
      ProductIsFact(n - 1);
    }
  }

  /**
   * `productR`: the product of the range a..b, split at its midpoint.
   * The range must be non-empty: with a > b the midpoint never moves and
   * the recursion does not end. A and B name the values of a and b.
   */
  method ProductR(a: BigNat, b: BigNat, ghost A: nat, ghost B: nat) returns (r: BigNat)
    requires a.Valid() && a.Normalized() && b.Valid() && b.Normalized()
    requires a.Val() == A && b.Val() == B && 1 <= A <= B
    ensures r.Valid() && r.Normalized() && r.Val() == Product(A, B)
    decreases B - A, 1
  {
    if Equal(a, b) {
      r := a;
    } else {
      var left, right, M := ProductHalves(a, b, A, B);
      r := Multiply(left, right);
      ProductSplit(A, M, B);
    }
  }

  /** The midpoint of a range of at least two elements lies inside it, short of the end. */
  lemma MidpointBounds(a: int, b: int, m: int, e: int)
    requires a < b && a + b == 2 * m + e && 0 <= e <= 1
    ensures a <= m < b && m == (a + b) / 2
  {
  }

  /** The two halves of `productR`: the products of a..m and m+1..b, with m the midpoint. */
  method ProductHalves(a: BigNat, b: BigNat, ghost A: nat, ghost B: nat)
    returns (left: BigNat, right: BigNat, ghost M: nat)
    requires a.Valid() && a.Normalized() && b.Valid() && b.Normalized()
    requires a.Val() == A && b.Val() == B && 1 <= A < B
    ensures left.Valid() && left.Normalized() && right.Valid() && right.Normalized()
    ensures A <= M < B && M == (A + B) / 2
    ensures left.Val() == Product(A, M) && right.Val() == Product(M + 1, B)
    decreases B - A, 0
  {
    var m, m1;
    m, m1, M := Midpoint(a, b, A, B);
    left := ProductR(a, m, A, M);
    ghost var L := left.Val();
    right := ProductR(m1, b, M + 1, B);
    assert left.Val() == L;
  }

  /** The midpoint m = (a + b) / 2 of `productR` and its successor m + 1. */
  method Midpoint(a: BigNat, b: BigNat, ghost A: nat, ghost B: nat) returns (m: BigNat, m1: BigNat, ghost M: nat)
    requires a.Valid() && b.Valid() && a.Val() == A && b.Val() == B && A < B
    ensures m.Valid() && m.Normalized() && m1.Valid() && m1.Normalized()
    ensures A <= M < B && M == (A + B) / 2 && m.Val() == M && m1.Val() == M + 1
  {
    var s := Add(a, b);
    var odd;
    m, odd := Halve(s);
    M := m.Val();
    MidpointBounds(A, B, M, odd.Val());
    var one := Embed(1);
    m1 := Add(m, one);
  }

  /** `factorial`: n! as the product of 1..n, for n at least 1. */
  method Factorial(n: BigNat) returns (r: BigNat)
    requires n.Valid() && n.Normalized() && 1 <= n.Val()
    ensures r.Valid() && r.Normalized() && r.Val() == Fact(n.Val())
  {
    var one := Embed(1);
    r := ProductR(one, n, 1, n.Val());
    ProductIsFact(n.Val());
  }
}
