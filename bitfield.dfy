/**
 * Bit fields of whole numbers held in base-2^24 limbs: the arithmetic
 * behind `extractBits` in `BigNatModule`, where a piece of a number is read
 * from one limb or from two neighbouring limbs with 32-bit shifts and masks.
 */
module BitFields {
  import opened Limbs
  import opened BitOps

  // ------------------------------------------------------------ bit fields

  /** Bits [at, at + width) of v, as a number. */
  ghost function BitField(v: int, at: nat, width: nat): int
  {
    (v / Pow(2, at)) % Pow(2, width)
  }

  /** Piece i of v when v is cut into pieces of bigL bits. */
  ghost function Piece(v: int, bigL: nat, i: nat): int
  {
    MulNonNeg(bigL, i);
    BitField(v, bigL * i, bigL)
  }

  /** `y << s` on 32-bit words, read as the unsigned 32-bit pattern it leaves. */
  function ShiftLeft32(y: nat, s: nat): nat
  {
    (y * Pow(2, s)) % Pow(2, 32)
  }

  lemma SplitAt(z: int, p: int)
    requires p > 0
    ensures z == z % p + p * (z / p) && 0 <= z % p < p
  {
  }

  lemma DivOfProduct(v: int, a: int, b: int)
    requires v >= 0 && a > 0 && b > 0
    ensures v / (a * b) == (v / a) / b
  {
    var q1, r1 := v / a, v % a;
    var q2, r2 := q1 / b, q1 % b;
    assert v == a * (b * q2 + r2) + r1;
    assert a * (b * q2 + r2) == (a * b) * q2 + a * r2 by {
      MulAssoc(a, b, q2);
    }
    MulLeMono(r2, b - 1, a);
    MulComm(r2, a);
    MulComm(b - 1, a);
    DivModUnique(v, a * r2 + r1, q2, a * b);
  }

  /** p * y, for y = q * t + r and p * q = a * b, splits as p * r + a * (b * t). */
  lemma ScaleSplit(p: int, y: int, q: int, r: int, t: int, a: int, b: int)
    requires y == q * t + r && p * q == a * b
    ensures p * y == p * r + a * (b * t)
  {
    assert p * y == p * (q * t) + p * r;
    MulAssoc(p, q, t);
    MulAssoc(a, b, t);
  }

  lemma ModDropMultiple(x: int, m: int, c: int)
    requires m > 0
    ensures (x + m * c) % m == x % m
  {
    DivModUnique(x + m * c, x % m, x / m + c, m);
  }

  lemma ShiftedQuotient(x: int, m: int, p: int)
    requires p > 0
    ensures (x + p * m) / p == x / p + m
  {
    DivModUnique(x + p * m, x % p, x / p + m, p);
  }

  lemma ModOfMultiple(y: int, a: int, b: int)
    requires a > 0 && b > 0
    ensures (y * a) % (a * b) == a * (y % b)
  {
    var q, r := y / b, y % b;
    assert y * a == (a * b) * q + a * r by {
      assert y == b * q + r;
      RightDistrib(b * q, r, a);
      MulComm(r, a);
      MulComm(b * q, a);
      MulAssoc(a, b, q);
    }
    MulLeMono(r, b - 1, a);
    MulComm(r, a);
    MulComm(b - 1, a);
    MulNonNeg(a, r);
    DivModUnique(y * a, a * r, q, a * b);
  }

  /** `x & bitmask[L]`: the low L bits. */
  lemma {:induction false} AndLowBits(z: nat, L: nat)
    ensures Bitwise(And, z, Pow(2, L) - 1) == z % Pow(2, L)
  {
    if L == 0 {
      BitwiseZeroRight(z);
    } else {
      var q := Pow(2, L - 1);
      var m := 2 * q - 1;
      assert Pow(2, L) == 2 * q;
      var hi := Bitwise(And, z / 2, q - 1);
      assert hi == (z / 2) % q by {
        AndLowBits(z / 2, L - 1);
      }
      assert Bitwise(And, z, m) == 2 * hi + z % 2 by {
        assert m / 2 == q - 1 && m % 2 == 1;
        BitwiseUnfold(And, z, m);
      }
      HalfMod(z, q);
    }
  }

  lemma HalfMod(z: int, q: int)
    requires q > 0
    ensures 2 * ((z / 2) % q) + z % 2 == z % (2 * q)
  {
    var a, b := (z / 2) / q, (z / 2) % q;
    assert z / 2 == q * a + b;
    assert z == (2 * q) * a + (2 * b + z % 2);
    DivModUnique(z, 2 * b + z % 2, a, 2 * q);
  }

  /** Or-ing x below 2^s with a multiple of 2^s adds them. */
  lemma OrDisjoint(x: nat, h: nat, s: nat)
    requires x < Pow(2, s)
    ensures Bitwise(Or, x, Pow(2, s) * h) == x + Pow(2, s) * h
  {
    var p := Pow(2, s);
    MulNonNeg(p, h);
    assert Bitwise(Or, x, p * h) == Bitwise(Or, x, 0) + p * Bitwise(Or, 0, h) by {
      BitwiseSplit(Or, x, 0, 0, h, s);
      assert x + p * 0 == x && 0 + p * h == p * h;
    }
    assert Bitwise(Or, x, 0) == x by {
      SwapZero(Or, x);
      ZeroIdentity(Or, 0, x);
    }
    ZeroIdentity(Or, 0, h);
  }

  /**
   * The two-limb case of `extractBits`: x1 holds the bits of the lower limb
   * and is below 2^nx; the upper limb y shifted up by nx bits on 32-bit
   * words, or-ed in and masked to L bits, gives the low L bits of x1 + 2^nx * y.
   */
  lemma TwoLimbField(x1: nat, y: nat, nx: nat, L: nat)
    requires 1 <= nx <= BaseBits && L <= 32 && x1 < Pow(2, nx)
    ensures Bitwise(And, Bitwise(Or, x1, ShiftLeft32(y, nx)), Pow(2, L) - 1) == (x1 + Pow(2, nx) * y) % Pow(2, L)
  {
    var p, q := Pow(2, nx), Pow(2, 32 - nx);
    PowAdd(2, nx, 32 - nx);
    ModOfMultiple(y, p, q);
    var yq := y % q;
    assert ShiftLeft32(y, nx) == p * yq;
    OrDisjoint(x1, yq, nx);
    AndLowBits(x1 + p * yq, L);
    var a, b := Pow(2, L), Pow(2, 32 - L);
    assert p * y == p * yq + a * (b * (y / q)) by {
      SplitAt(y, q);
      PowAdd(2, L, 32 - L);
      ScaleSplit(p, y, q, yq, y / q, a, b);
    }
    ModDropMultiple(x1 + p * yq, a, b * (y / q));
  }

  /** Limb j of a limb sequence splits its value divided by Base^j. */
  lemma LimbOf(s: seq<int>, j: nat)
    requires IsLimbs(s)
    ensures Eval(s) / Pow(Base, j) == Digit(s, j) + Base * (Eval(s) / Pow(Base, j + 1))
  {
    if j < |s| {
      EvalPrefixMod(s, j);
      EvalPrefixMod(s, j + 1);
      EvalCons(s[j..]);
      assert s[j..][1..] == s[j + 1..];
    } else {
      EvalBounds(s);
      PowMonotone(Base, |s|, j);
      PowMonotone(Base, j, j + 1);
      DivModUnique(Eval(s), Eval(s), 0, Pow(Base, j));
      DivModUnique(Eval(s), Eval(s), 0, Pow(Base, j + 1));
    }
  }

  /**
   * Shifting a limb sequence's value down by bi bits: the limb holding bit bi
   * shifted down by bi % 24, plus the limbs above it at weight 2^(24 - bi % 24).
   */
  lemma ShiftDownBits(s: seq<int>, bi: nat)
    requires IsLimbs(s)
    ensures Eval(s) / Pow(2, bi) ==
      Digit(s, bi / BaseBits) / Pow(2, bi % BaseBits) + Pow(2, BaseBits - bi % BaseBits) * (Eval(s) / Pow(Base, bi / BaseBits + 1))
  {
    var biw, xbit := bi / BaseBits, bi % BaseBits;
    var nx := BaseBits - xbit;
    var v := Eval(s);
    var x := Digit(s, biw);
    var px, pn := Pow(2, xbit), Pow(2, nx);
    var h := v / Pow(Base, biw + 1);
    EvalBounds(s);
    LimbOf(s, biw);
    assert Base == px * pn by {
      TwoPow24();
      PowAdd(2, xbit, nx);
    }
    assert v / Pow(2, bi) == (v / Pow(Base, biw)) / px by {
      BasePowIsTwoPow(biw);
      PowAdd(2, BaseBits * biw, xbit);
      DivOfProduct(v, Pow(Base, biw), px);
    }
    assert v / Pow(Base, biw) == x + px * (pn * h) by {
      MulAssoc(px, pn, h);
    }
    ShiftedQuotient(x, pn * h, px);
  }

  /** Adding a multiple of a * b leaves the remainder modulo a unchanged. */
  lemma ModDropScaled(x: int, pn: int, h: int, a: int, b: int)
    requires pn == a * b && a > 0
    ensures (x + pn * h) % a == x % a
  {
    MulAssoc(a, b, h);
    ModDropMultiple(x, a, b * h);
  }

  /** The low L bits of x1 + 2^nx * (y + 2^24 * h2), when L <= nx + 24, ignore h2. */
  lemma DropAbove(x1: int, y: int, h: int, h2: int, nx: nat, L: nat)
    requires h == y + Base * h2 && L <= nx + BaseBits
    ensures (x1 + Pow(2, nx) * h) % Pow(2, L) == (x1 + Pow(2, nx) * y) % Pow(2, L)
  {
    var pn := Pow(2, nx);
    var a, b := Pow(2, L), Pow(2, nx + BaseBits - L);
    assert pn * Base == a * b by {
      TwoPow24();
      PowAdd(2, nx, BaseBits);
      PowAdd(2, L, nx + BaseBits - L);
    }
    assert x1 + pn * h == (x1 + pn * y) + (pn * Base) * h2 by {
      ScaleSplit(pn, h, Base, y, h2, pn, Base);
      MulAssoc(pn, Base, h2);
    }
    ModDropScaled(x1 + pn * y, pn * Base, h2, a, b);
  }

  /** The low L bits of x1 + 2^nx * h, when L <= nx, are those of x1. */
  lemma DropWhole(x1: int, h: int, nx: nat, L: nat)
    requires L <= nx
    ensures (x1 + Pow(2, nx) * h) % Pow(2, L) == x1 % Pow(2, L)
  {
    PowAdd(2, L, nx - L);
    ModDropScaled(x1, Pow(2, nx), h, Pow(2, L), Pow(2, nx - L));
  }

  /**
   * Bits [bi, bi + L) of a limb sequence's value, from the limb holding bit
   * bi and the one above it; from the first alone when the field ends there.
   */
  lemma FieldFromLimbs(s: seq<int>, bi: nat, L: nat)
    requires IsLimbs(s) && L < BaseBits
    ensures Digit(s, bi / BaseBits) >= 0 && Digit(s, bi / BaseBits + 1) >= 0
    ensures BitField(Eval(s), bi, L) ==
      (Digit(s, bi / BaseBits) / Pow(2, bi % BaseBits) + Pow(2, BaseBits - bi % BaseBits) * Digit(s, bi / BaseBits + 1)) % Pow(2, L)
    ensures bi % BaseBits + L <= BaseBits ==>
      BitField(Eval(s), bi, L) == (Digit(s, bi / BaseBits) / Pow(2, bi % BaseBits)) % Pow(2, L)
  {
    var biw := bi / BaseBits;
    var v := Eval(s);
    ShiftDownBits(s, bi);
    LimbOf(s, biw + 1);
    var x1, nx := Digit(s, biw) / Pow(2, bi % BaseBits), BaseBits - bi % BaseBits;
    DropAbove(x1, Digit(s, biw + 1), v / Pow(Base, biw + 1), v / Pow(Base, biw + 2), nx, L);
    if bi % BaseBits + L <= BaseBits {
      DropWhole(x1, v / Pow(Base, biw + 1), nx, L);
    }
  }

  /** A limb shifted down by xbit bits is below 2^(24 - xbit). */
  lemma DivOfLimb(x: int, xbit: nat)
    requires 0 <= x < Base && xbit <= BaseBits
    ensures 0 <= x / Pow(2, xbit) < Pow(2, BaseBits - xbit)
  {
    var p, q := Pow(2, xbit), Pow(2, BaseBits - xbit);
    assert p * q == Base by {
      TwoPow24();
      PowAdd(2, xbit, BaseBits - xbit);
    }
    DivBelow(x, p, q);
  }

  /** A number below p * q divided by p is below q. */
  lemma DivBelow(x: int, p: int, q: int)
    requires p > 0 && 0 <= x < p * q
    ensures 0 <= x / p < q
  {
    SplitAt(x, p);
    if x / p >= q {
      MulLeMono(q, x / p, p);
      MulComm(q, p);
      MulComm(x / p, p);
      assert false;
    }
  }
}
