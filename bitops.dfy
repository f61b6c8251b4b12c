/**
 * Bitwise and/or/xor of whole numbers limb by limb, and the bit-length
 * queries `wordBits` and `bits`. The limb operators of the source (`&`,
 * `|`, `^` on limbs in [0, 2^24)) are modelled by `Bitwise`, the
 * operator's definition on binary expansions.
 */
module BitOps {
  import opened Limbs
  import opened BigNats
  import opened Arith

  datatype BitOp = And | Or | Xor

  /** The operator on single bits. */
  function BitOf(op: BitOp, a: nat, b: nat): nat
    requires a < 2 && b < 2
  {
    match op
    case And => if a == 1 && b == 1 then 1 else 0
    case Or => if a == 1 || b == 1 then 1 else 0
    case Xor => if a != b then 1 else 0
  }

  /** The operator on binary expansions, lowest bit first. */
  function Bitwise(op: BitOp, x: nat, y: nat): nat
    decreases x + y
  {
    if x == 0 && y == 0 then 0
    else 2 * Bitwise(op, x / 2, y / 2) + BitOf(op, x % 2, y % 2)
  }

  lemma BitwiseUnfold(op: BitOp, x: nat, y: nat)
    ensures Bitwise(op, x, y) == 2 * Bitwise(op, x / 2, y / 2) + BitOf(op, x % 2, y % 2)
  {
  }

  /** Operands below 2^k give a result below 2^k. */
  lemma {:induction false} BitwiseBound(op: BitOp, x: nat, y: nat, k: nat)
    requires x < Pow(2, k) && y < Pow(2, k)
    ensures Bitwise(op, x, y) < Pow(2, k)
  {
    if k > 0 {
      BitwiseBound(op, x / 2, y / 2, k - 1);
    }
  }

  /**
   * The operator works bit position by bit position: splitting both operands
   * at bit k splits the result there.
   */
  lemma BitwiseSplit(op: BitOp, x: nat, x': nat, y: nat, y': nat, k: nat)
    requires x < Pow(2, k) && y < Pow(2, k)
    ensures Bitwise(op, x + Pow(2, k) * x', y + Pow(2, k) * y') == Bitwise(op, x, y) + Pow(2, k) * Bitwise(op, x', y')
  {
    var p := Pow(2, k);
    MulNonNeg(p, x');
    MulNonNeg(p, y');
    BitwiseSplitAt(op, x, x', y, y', k, p, x + p * x', y + p * y');
  }

  /** `BitwiseSplit` with the split point p = 2^k and the joined operands named. */
  lemma {:induction false} BitwiseSplitAt(op: BitOp, x: nat, x': nat, y: nat, y': nat, k: nat, p: nat, X: nat, Y: nat)
    requires p == Pow(2, k) && x < p && y < p && X == x + p * x' && Y == y + p * y'
    ensures Bitwise(op, X, Y) == Bitwise(op, x, y) + p * Bitwise(op, x', y')
  {
    if k > 0 {
      var h := Pow(2, k - 1);
      assert p == 2 * h;
      MulNonNeg(h, x');
      MulNonNeg(h, y');
      var hx, hy, px, py := h * x', h * y', p * x', p * y';
      HalveShifted(x, hx, px, h, x');
      HalveShifted(y, hy, py, h, y');
      assert X == x + px && Y == y + py;
      assert X / 2 == x / 2 + hx && X % 2 == x % 2 && Y / 2 == y / 2 + hy && Y % 2 == y % 2;
      BitwiseSplitAt(op, x / 2, x', y / 2, y', k - 1, h, x / 2 + hx, y / 2 + hy);
      var bw := Bitwise(op, x', y');
      var hb := h * bw;
      assert Bitwise(op, x / 2 + hx, y / 2 + hy) == Bitwise(op, x / 2, y / 2) + hb;
      SplitStep(op, x, y, X, Y, hx, hy, hb);
      DoubleProduct(p, h, bw);
    } else {
      assert p == 1 && x == 0 && y == 0;
      assert Bitwise(op, 0, 0) == 0;
    }
  }

  /** One bit of `BitwiseSplit`: the lowest bit, then the rest shifted down by one. */
  lemma SplitStep(op: BitOp, x: nat, y: nat, X: nat, Y: nat, hx: nat, hy: nat, hb: int)
    requires X / 2 == x / 2 + hx && X % 2 == x % 2 && Y / 2 == y / 2 + hy && Y % 2 == y % 2
    requires Bitwise(op, x / 2 + hx, y / 2 + hy) == Bitwise(op, x / 2, y / 2) + hb
    ensures Bitwise(op, X, Y) == Bitwise(op, x, y) + 2 * hb
  {
    BitwiseUnfold(op, X, Y);
    BitwiseUnfold(op, x, y);
  }

  lemma HalveShifted(x: int, m: int, t: int, h: int, x': int)
    requires m == h * x' && t == (2 * h) * x'
    ensures t == 2 * m && (x + t) / 2 == x / 2 + m && (x + t) % 2 == x % 2
  {
  }

  lemma DoubleProduct(p: int, h: int, b: int)
    requires p == 2 * h
    ensures p * b == 2 * (h * b)
  {
  }

  lemma BitwiseZero(op: BitOp, y: nat)
    requires op == And
    ensures Bitwise(op, 0, y) == 0
    decreases y
  {
    if y > 0 {
      BitwiseZero(op, y / 2);
    }
  }

  /**
   * Numbers whose limbs below m are the operator applied to the operands'
   * limbs have the operator applied to the operands' low m limbs as value.
   */
  lemma {:induction false} EvalBitwise(op: BitOp, r: seq<int>, a: seq<int>, b: seq<int>, m: nat)
    requires m <= |r| && IsLimbs(a) && IsLimbs(b)
    requires forall i :: 0 <= i < m ==> r[i] == Bitwise(op, Digit(a, i), Digit(b, i))
    ensures Eval(r[..m]) == Bitwise(op, LowValue(a, m), LowValue(b, m))
  {
    if m > 0 {
      EvalBitwise(op, r, a, b, m - 1);
      EvalBitwiseStep(op, r, a, b, m - 1);
    }
  }

  /** The induction step of `EvalBitwise`: limb k joins both sides. */
  lemma EvalBitwiseStep(op: BitOp, r: seq<int>, a: seq<int>, b: seq<int>, k: nat)
    requires k < |r| && IsLimbs(a) && IsLimbs(b)
    requires r[k] == Bitwise(op, Digit(a, k), Digit(b, k))
    requires Eval(r[..k]) == Bitwise(op, LowValue(a, k), LowValue(b, k))
    ensures Eval(r[..k + 1]) == Bitwise(op, LowValue(a, k + 1), LowValue(b, k + 1))
  {
    assert r[..k + 1] == r[..k] + [r[k]];
    EvalAppend(r[..k], r[k]);
    EvalUpToStep(a, k);
    EvalUpToStep(b, k);
    EvalUpToBounds(a, k);
    EvalUpToBounds(b, k);
    BasePowIsTwoPow(k);
    LimbStepValue(op, Eval(r[..k + 1]), Eval(r[..k]), r[k], Pow(Base, k), BaseBits * k,
                  LowValue(a, k), LowValue(b, k), Digit(a, k), Digit(b, k), LowValue(a, k + 1), LowValue(b, k + 1));
  }

  /** One more limb on both sides of `EvalBitwise`, as arithmetic on the values. */
  lemma LimbStepValue(op: BitOp, E: int, Ek: int, rk: int, W: int, kb: nat,
                      xa: nat, xb: nat, da: nat, db: nat, La: nat, Lb: nat)
    requires W == Pow(2, kb) && xa < W && xb < W
    requires E == Ek + rk * W && Ek == Bitwise(op, xa, xb) && rk == Bitwise(op, da, db)
    requires La == xa + da * W && Lb == xb + db * W
    ensures E == Bitwise(op, La, Lb)
  {
    MulComm(da, W);
    MulComm(db, W);
    BitwiseSplitAt(op, xa, da, xb, db, kb, W, La, Lb);
    MulComm(rk, W);
  }

  /** The low m limbs' value, as a natural number. */
  ghost function LowValue(s: seq<int>, m: nat): (v: nat)
    requires IsLimbs(s)
    ensures v == EvalUpTo(s, m)
  {
    EvalUpToBounds(s, m);
    EvalUpTo(s, m)
  }

  lemma LimbBitwise(op: BitOp, x: int, y: int)
    requires 0 <= x < Base && 0 <= y < Base
    ensures 0 <= Bitwise(op, x, y) < Base
  {
    PowAdd(2, 3, 3);
    PowAdd(2, 6, 6);
    PowAdd(2, 12, 12);
    BitwiseBound(op, x, y, 24);
  }

  /** `bitAnd`: the limbs below the smaller bound, and-ed; the value is the and of the values. */
  method BitAnd(a: BigNat, b: BigNat) returns (r: BigNat)
    requires a.Valid() && b.Valid()
    ensures r.Valid() && r.Normalized()
    ensures r.Val() == Bitwise(And, a.Val(), b.Val())
  {
    var rbound := Min(a.bound, b.bound);
    ghost var A, B := LimbsOf(a), LimbsOf(b);
    ghost var Va, Vb := a.Val(), b.Val();
    LimbsOfBounds(a, rbound);
    LimbsOfBounds(b, rbound);
    AndOfShorter(a, b, rbound);
    r := CreateN(rbound);
    AndLimbs(r.digits, a.digits, b.digits, rbound, A, B);
    CombinedValue(And, r, A, B);
    NormN(r);
    assert a.Val() == Va && b.Val() == Vb;
  }

  /** The limb loop of `bitAnd`: the first n limbs of rd become the and of those of A and B. */
  method AndLimbs(rd: array<int>, ad: array<int>, bd: array<int>, n: nat, ghost A: seq<int>, ghost B: seq<int>)
    requires rd != ad && rd != bd && n == rd.Length
    requires n <= |A| && n <= |B| && IsLimbs(A) && IsLimbs(B)
    requires |A| <= ad.Length && |B| <= bd.Length && A == ad[..|A|] && B == bd[..|B|]
    modifies rd
    ensures forall j :: 0 <= j < n ==> 0 <= rd[j] < Base
    ensures forall j :: 0 <= j < n ==> rd[j] == Bitwise(And, Digit(A, j), Digit(B, j))
  {
    var i := 0;
    while i < n
      invariant 0 <= i <= n
      invariant forall j :: 0 <= j < i ==> 0 <= rd[j] < Base
      invariant forall j :: 0 <= j < i ==> rd[j] == Bitwise(And, Digit(A, j), Digit(B, j))
    {
      assert ad[i] == A[i] && bd[i] == B[i];
      LimbBitwise(And, ad[i], bd[i]);
      rd[i] := Bitwise(And, ad[i], bd[i]);
      i := i + 1;
    }
  }

  /** And-ing with a number of at most m limbs only sees the other's low m limbs. */
  lemma AndOfShorter(a: BigNat, b: BigNat, m: nat)
    requires a.Valid() && b.Valid() && m == Min(a.bound, b.bound)
    ensures Bitwise(And, LowValue(LimbsOf(a), m), LowValue(LimbsOf(b), m)) == Bitwise(And, a.Val(), b.Val())
  {
    LimbsOfBounds(a, a.bound);
    LimbsOfBounds(b, b.bound);
    if a.bound <= b.bound {
      AndLowLimbs(LimbsOf(a), LimbsOf(b), m);
    } else {
      AndLowLimbs(LimbsOf(b), LimbsOf(a), m);
      AndCommutes(LowValue(LimbsOf(a), m), LowValue(LimbsOf(b), m));
      AndCommutes(a.Val(), b.Val());
    }
  }

  /** With |s| == m <= |t|, and-ing only reads the low m limbs of t. */
  lemma AndLowLimbs(s: seq<int>, t: seq<int>, m: nat)
    requires IsLimbs(s) && IsLimbs(t) && |s| == m <= |t|
    ensures Bitwise(And, LowValue(s, m), LowValue(t, m)) == Bitwise(And, LowValue(s, |s|), LowValue(t, |t|))
  {
    EvalUpToAll(s, m);
    EvalUpToAll(t, |t|);
    EvalSplit(t, m);
    EvalBounds(s);
    var x, lo := LowValue(s, m), LowValue(t, m);
    assert lo == Eval(t[..m]);
    EvalBounds(t[m..]);
    var hi: nat := Eval(t[m..]);
    BasePowIsTwoPow(m);
    EvalUpToBounds(t, m);
    BitwiseSplit(And, x, 0, lo, hi, BaseBits * m);
    BitwiseZero(And, hi);
  }

  lemma {:induction false} AndCommutes(x: nat, y: nat)
    ensures Bitwise(And, x, y) == Bitwise(And, y, x)
    decreases x + y
  {
    if x != 0 || y != 0 {
      AndCommutes(x / 2, y / 2);
    }
  }

  lemma BitwiseZeroRight(x: nat)
    ensures Bitwise(And, x, 0) == 0
    decreases x
  {
    if x > 0 {
      BitwiseZeroRight(x / 2);
    }
  }

  /** One loop of `bitOr` / `bitXor`: limbs below a.bound of r are combined with a's. */
  method CombineLimbs(op: BitOp, r: BigNat, a: BigNat)
    requires r.Valid() && a.Valid() && a.bound <= r.digits.Length && r.digits != a.digits
    modifies r.digits
    ensures r.Valid()
    ensures forall j :: 0 <= j < r.digits.Length ==>
      r.digits[j] == if j < a.bound then Bitwise(op, old(r.digits[j]), a.digits[j]) else old(r.digits[j])
  {
    var i := 0;
    while i < a.bound
      invariant 0 <= i <= a.bound && r.Valid()
      invariant forall j :: 0 <= j < r.digits.Length ==>
        r.digits[j] == if j < i then Bitwise(op, old(r.digits[j]), a.digits[j]) else old(r.digits[j])
    {
      LimbBitwise(op, r.digits[i], a.digits[i]);
      r.digits[i] := Bitwise(op, r.digits[i], a.digits[i]);
      i := i + 1;
    }
  }

  /**
   * `bitOr` and `bitXor`: r, zero-filled over the larger bound, is combined
   * first with a's limbs and then with b's.
   */
  method CombineInto(op: BitOp, a: BigNat, b: BigNat) returns (r: BigNat)
    requires op != And && a.Valid() && b.Valid()
    ensures r.Valid() && r.Normalized()
    ensures r.Val() == Bitwise(op, a.Val(), b.Val())
  {
    var rbound := Max(a.bound, b.bound);
    ghost var A, B := LimbsOf(a), LimbsOf(b);
    LimbsOfBounds(a, rbound);
    LimbsOfBounds(b, rbound);
    ghost var Va, Vb := a.Val(), b.Val();
    assert LowValue(A, rbound) == Va && LowValue(B, rbound) == Vb;
    r := CreateN(rbound);
    CombineBoth(op, r, a, b, A, B);
    CombinedValue(op, r, A, B);
    NormN(r);
    assert a.Val() == Va && b.Val() == Vb;
  }

  /**
   * The two limb loops of `combineInto` on a zeroed result: first a's limbs
   * are combined in, then b's, so limb j ends as op applied to limb j of each.
   */
  method CombineBoth(op: BitOp, r: BigNat, a: BigNat, b: BigNat, ghost A: seq<int>, ghost B: seq<int>)
    requires op != And && r.Valid() && a.Valid() && b.Valid()
    requires A == LimbsOf(a) && B == LimbsOf(b) && IsLimbs(A) && IsLimbs(B)
    requires a.bound <= r.bound && b.bound <= r.bound && r.bound == r.digits.Length
    requires r.digits != a.digits && r.digits != b.digits
    requires forall j :: 0 <= j < r.digits.Length ==> r.digits[j] == 0
    modifies r.digits
    ensures r.Valid()
    ensures forall j :: 0 <= j < r.bound ==> r.digits[j] == Bitwise(op, Digit(A, j), Digit(B, j))
  {
    CombineLimbs(op, r, a);
    forall j | 0 <= j < r.bound
      ensures r.digits[j] == Digit(A, j)
    {
      ZeroIdentity(op, 0, Digit(A, j));
    }
    ghost var mid := r.digits[..];
    CombineLimbs(op, r, b);
    forall j | 0 <= j < r.bound
      ensures r.digits[j] == Bitwise(op, Digit(A, j), Digit(B, j))
    {
      assert mid[j] == Digit(A, j);
      if j >= b.bound {
        ZeroIdentity(op, 0, Digit(A, j));
        SwapZero(op, Digit(A, j));
      }
    }
  }

  /** A number whose limbs are the operator applied limb-wise to those of A and B. */
  lemma CombinedValue(op: BitOp, r: BigNat, A: seq<int>, B: seq<int>)
    requires r.Valid() && IsLimbs(A) && IsLimbs(B)
    requires forall j :: 0 <= j < r.bound ==> r.digits[j] == Bitwise(op, Digit(A, j), Digit(B, j))
    ensures r.Val() == Bitwise(op, LowValue(A, r.bound), LowValue(B, r.bound))
  {
    EvalBitwise(op, r.digits[..], A, B, r.bound);
    assert r.digits[..][..r.bound] == r.digits[..r.bound];
  }

  /** For or and xor, zero is the identity on the left. */
  lemma ZeroIdentity(op: BitOp, z: nat, x: nat)
    requires op != And && z == 0
    ensures Bitwise(op, z, x) == x
    decreases x
  {
    if x > 0 {
      ZeroIdentity(op, 0, x / 2);
    }
  }

  lemma SwapZero(op: BitOp, x: nat)
    requires op != And
    ensures Bitwise(op, x, 0) == Bitwise(op, 0, x)
    decreases x
  {
    if x > 0 {
      SwapZero(op, x / 2);
    }
  }

  /** `bitOr`. */
  method BitOr(a: BigNat, b: BigNat) returns (r: BigNat)
    requires a.Valid() && b.Valid()
    ensures r.Valid() && r.Normalized()
    ensures r.Val() == Bitwise(Or, a.Val(), b.Val())
  {
    r := CombineInto(Or, a, b);
  }

  /** `bitXor`. */
  method BitXor(a: BigNat, b: BigNat) returns (r: BigNat)
    requires a.Valid() && b.Valid()
    ensures r.Valid() && r.Normalized()
    ensures r.Val() == Bitwise(Xor, a.Val(), b.Val())
  {
    r := CombineInto(Xor, a, b);
  }

  /** And-ing with 2^j keeps bit j alone. */
  lemma {:induction false} AndPowerOfTwo(x: nat, j: nat)
    ensures Bitwise(And, x, Pow(2, j)) == if (x / Pow(2, j)) % 2 == 1 then Pow(2, j) else 0
  {
    if j == 0 {
      BitwiseUnfold(And, x, 1);
      BitwiseZeroRight(x / 2);
    } else {
      BitwiseUnfold(And, x, Pow(2, j));
      assert Pow(2, j) / 2 == Pow(2, j - 1) && Pow(2, j) % 2 == 0;
      AndPowerOfTwo(x / 2, j - 1);
      DivDiv2(x, j - 1);
    }
  }

  lemma DivDiv2(x: nat, j: nat)
    ensures (x / 2) / Pow(2, j) == x / Pow(2, j + 1)
  {
    var P := Pow(2, j);
    var q, r := (x / 2) / P, (x / 2) % P;
    assert x / 2 == q * P + r;
    assert x == 2 * (q * P + r) + x % 2;
    assert x == q * (2 * P) + (2 * r + x % 2);
    DivModUnique(x, 2 * r + x % 2, q, 2 * P);
  }

  /** `hi` of `wordBits`: the highest bit position at or below k that is set, counted from 1. */
  function HighBit(word: nat, k: nat): (r: nat)
    requires word < Pow(2, k)
    ensures r <= k && word < Pow(2, r) && (r == 0 || Pow(2, r - 1) <= word)
  {
    if k == 0 then 0
    else
      AndPowerOfTwo(word, k - 1);
      HighBitStep(word, k);
      if Bitwise(And, word, Pow(2, k - 1)) != 0 then k else HighBit(word, k - 1)
  }

  lemma HighBitStep(word: nat, k: nat)
    requires k > 0 && word < Pow(2, k)
    ensures (word / Pow(2, k - 1)) % 2 == 1 ==> Pow(2, k - 1) <= word
    ensures (word / Pow(2, k - 1)) % 2 != 1 ==> word < Pow(2, k - 1)
  {
    var P := Pow(2, k - 1);
    assert Pow(2, k) == 2 * P;
    var q, r := word / P, word % P;
    assert word == q * P + r && 0 <= r < P;
    if q >= 2 {
      MulLeMono(2, q, P);
      assert false;
    }
    assert q == 0 || q == 1;
  }

  lemma TwoPow24()
    ensures Pow(2, 24) == Base
  {
    PowAdd(2, 3, 3);
    PowAdd(2, 6, 6);
    PowAdd(2, 12, 12);
  }

  /** `wordBits`: the number of significant bits of a limb. */
  function WordBits(word: nat): (r: nat)
    requires word < Base
    ensures r <= BaseBits && word < Pow(2, r) && (r == 0 || Pow(2, r - 1) <= word)
  {
    TwoPow24();
    HighBit(word, BaseBits)
  }

  /** Top-limb bounds make bit-length bounds of the value. */
  lemma BitsBound(v: int, lo: int, top: int, w: nat, d: nat)
    requires v == lo + top * Pow(Base, d) && 0 <= lo < Pow(Base, d)
    requires top < Pow(2, w) && (w == 0 || Pow(2, w - 1) <= top)
    ensures v < Pow(2, BaseBits * d + w)
    ensures w > 0 ==> Pow(2, BaseBits * d + w - 1) <= v
  {
    var B := Pow(Base, d);
    BasePowIsTwoPow(d);
    PowAdd(2, BaseBits * d, w);
    MulLeMono(top, Pow(2, w) - 1, B);
    assert (Pow(2, w) - 1) * B == Pow(2, w) * B - B;
    if w > 0 {
      PowAdd(2, BaseBits * d, w - 1);
      MulLeMono(Pow(2, w - 1), top, B);
    }
  }

  /** `bits`: the bit length of a normalised number, 0 for zero. */
  function Bits(u: BigNat): (r: nat)
    reads u, u.digits
    requires u.Valid() && u.Normalized()
    ensures u.Val() < Pow(2, r) && (r == 0 || Pow(2, r - 1) <= u.Val())
  {
    if u.bound == 0 then 0
    else
      var d := u.bound - 1;
      var w := WordBits(u.digits[d]);
      ArrayLimbs(u.digits, u.bound);
      EvalBounds(u.digits[..d]);
      assert u.digits[..u.bound][..d] == u.digits[..d];
      BitsBound(u.Val(), Eval(u.digits[..d]), u.digits[d], w, d);
      d * BaseBits + w
  }
}
