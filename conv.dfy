/**
 * Conversions between big naturals and machine words and decimal strings:
 * `toUInt32`, `toUInt64`, `toString` (repeated division by 10^(2^k)) and
 * `ofString` (Horner's rule on the decimal digits).
 */
module Conversions {
  import opened Limbs
  import opened BigNats
  import opened Arith
  import opened Division
  import opened Mul
  import opened Results

  // ---------------------------------------------------------------- words

  const BaseMask32B: nat := 255      // `baseMask32B`: the bits of limb 1 that fit a uint32
  const BaseMask64C: nat := 65535    // `baseMask64C`: the bits of limb 2 that fit a uint64
  const TwoTo32: nat := 0x1_0000_0000
  const TwoTo64: nat := 0x1_0000_0000_0000_0000

  /** The value of a number of at most three limbs, limb by limb. */
  lemma LowLimbsValue(n: BigNat)
    requires n.Valid() && n.bound <= 3
    ensures n.Val() == LimbAt(n, 0) + LimbAt(n, 1) * Base + LimbAt(n, 2) * (Base * Base)
    ensures 0 <= LimbAt(n, 0) < Base && 0 <= LimbAt(n, 1) < Base && 0 <= LimbAt(n, 2) < Base
  {
    LimbsOfBounds(n, 3);
    LimbsOfBounds(n, 0);
    LimbsOfBounds(n, 1);
    LimbsOfBounds(n, 2);
    ThreeDigits(LimbsOf(n));
  }

  /** The value of the first three limbs, written out. */
  lemma ThreeDigits(s: seq<int>)
    ensures EvalUpTo(s, 3) == Digit(s, 0) + Digit(s, 1) * Base + Digit(s, 2) * (Base * Base)
  {
    EvalUpToStep(s, 0);
    EvalUpToStep(s, 1);
    EvalUpToStep(s, 2);
    assert s[..Min(0, |s|)] == [];
    assert Pow(Base, 2) == Base * Base;
  }

  /** A normalised number of more than k limbs is at least Base^k. */
  lemma AtLeastPow(n: BigNat, k: nat)
    requires n.Valid() && n.Normalized() && n.bound > k
    ensures Pow(Base, k) <= n.Val()
  {
    NormalizedRange(n);
    PowMonotone(Base, k, n.bound - 1);
  }

  /**
   * `toUInt32`: the value when it fits 32 bits. The masks of the source
   * keep whole limbs here, since limb 1 is at most 255 when it gets that far.
   */
  function ToUInt32(n: BigNat): (r: Result<int>)
    reads n, n.digits
    requires n.Valid()
    ensures r.Ok? ==> r.value == n.Val() && 0 <= r.value < TwoTo32
    ensures r.Err? ==> r.error == Overflow
    ensures n.Normalized() ==> (r.Ok? <==> n.Val() < TwoTo32)
  {
    if n.bound == 0 then
      LowLimbsValue(n);
      Ok(0)
    else if n.bound == 1 then
      LowLimbsValue(n);
      Ok(n.digits[0])
    else if n.bound == 2 then
      LowLimbsValue(n);
      if n.digits[1] > BaseMask32B then
        Err(Overflow)
      else
        Ok(n.digits[0] + n.digits[1] * Base)
    else
      if n.Normalized() then
        AtLeastPow(n, 2);
        Err(Overflow)
      else
        Err(Overflow)
  }

  /** `toUInt64`: the value when it fits 64 bits; limb 2 may hold at most 16 bits. */
  function ToUInt64(n: BigNat): (r: Result<int>)
    reads n, n.digits
    requires n.Valid()
    ensures r.Ok? ==> r.value == n.Val() && 0 <= r.value < TwoTo64
    ensures r.Err? ==> r.error == Overflow
    ensures n.Normalized() ==> (r.Ok? <==> n.Val() < TwoTo64)
  {
    if n.bound == 0 then
      LowLimbsValue(n);
      Ok(0)
    else if n.bound == 1 then
      LowLimbsValue(n);
      Ok(n.digits[0])
    else if n.bound == 2 then
      LowLimbsValue(n);
      Ok(n.digits[0] + n.digits[1] * Base)
    else if n.bound == 3 then
      LowLimbsValue(n);
      if n.digits[2] > BaseMask64C then
        Err(Overflow)
      else
        Ok(n.digits[0] + n.digits[1] * Base + n.digits[2] * (Base * Base))
    else
      if n.Normalized() then
        AtLeastPow(n, 3);
        Err(Overflow)
      else
        Err(Overflow)
  }

  // ---------------------------------------------------------------- decimal notation

  predicate IsDigit(c: char) { '0' <= c <= '9' }

  function DigitValue(c: char): int { c as int - '0' as int }

  function DigitChar(d: int): (c: char)
    requires 0 <= d <= 9
    ensures IsDigit(c) && DigitValue(c) == d
  {
    ('0' as int + d) as char
  }

  predicate AllDigits(s: string)
  {
    forall i :: 0 <= i < |s| ==> IsDigit(s[i])
  }

  /** The number a string of decimal digits denotes, read left to right. */
  ghost function DecimalValue(s: string): nat
    requires AllDigits(s)
  {
    if |s| == 0 then 0 else 10 * DecimalValue(s[..|s| - 1]) + DigitValue(s[|s| - 1])
  }

  /** The decimal digits of n without leading zeros; empty for zero. */
  ghost function Decimal(n: nat): string
  {
    if n == 0 then "" else Decimal(n / 10) + [DigitChar(n % 10)]
  }

  /** The last w decimal digits of n, padded with leading zeros. */
  ghost function Padded(n: nat, w: nat): string
  {
    if w == 0 then "" else Padded(n / 10, w - 1) + [DigitChar(n % 10)]
  }

  /** The decimal notation of n: "0" for zero, no leading zero otherwise. */
  ghost function ShowNat(n: nat): string
  {
    if n == 0 then "0" else Decimal(n)
  }

  /** A canonical decimal string: non-empty digits, with no leading zero unless it is "0". */
  predicate Canonical(s: string)
  {
    |s| > 0 && AllDigits(s) && (s[0] == '0' ==> |s| == 1)
  }

  lemma {:induction false} DecimalDigits(n: nat)
    ensures AllDigits(Decimal(n)) && (n > 0 ==> |Decimal(n)| > 0 && Decimal(n)[0] != '0')
    ensures DecimalValue(Decimal(n)) == n
  {
    if n > 0 {
      DecimalDigits(n / 10);
      var t := Decimal(n / 10);
      var s := t + [DigitChar(n % 10)];
      assert s[..|s| - 1] == t;
      if n / 10 == 0 {
        assert s == [DigitChar(n % 10)];
      }
    }
  }

  /** `toString` then `ofString` gives the number back, and `toString` is canonical. */
  lemma ShowNatRoundTrip(n: nat)
    ensures Canonical(ShowNat(n)) && DecimalValue(ShowNat(n)) == n
  {
    DecimalDigits(n);
    if n == 0 {
      assert DecimalValue("0"[..0]) == 0;
    }
  }

  lemma {:induction false} LeadingDigitPositive(s: string)
    requires AllDigits(s) && |s| > 0 && s[0] != '0'
    ensures DecimalValue(s) > 0
  {
    if |s| > 1 {
      LeadingDigitPositive(s[..|s| - 1]);
    }
  }

  /** `ofString` then `toString` gives a canonical string back. */
  lemma {:induction false} ReadRoundTrip(s: string)
    requires Canonical(s)
    ensures ShowNat(DecimalValue(s)) == s
  {
    var t, c := s[..|s| - 1], s[|s| - 1];
    var v, d := DecimalValue(s), DigitValue(c);
    assert s == t + [c];
    if |t| == 0 {
      assert DigitChar(d) == c;
      if d > 0 {
        assert Decimal(v) == Decimal(0) + [DigitChar(d)];
      }
    } else {
      assert t[0] == s[0];
      LeadingDigitPositive(t);
      ReadRoundTrip(t);
      var vt := DecimalValue(t);
      DivModUnique(v, d, vt, 10);
      assert DigitChar(d) == c;
    }
  }

  /** Appending r below q, r having w digits: the digits of q then those of r. */
  lemma {:induction false} DecimalJoin(q: nat, r: nat, w: nat)
    requires q > 0 && r < Pow(10, w)
    ensures Decimal(q * Pow(10, w) + r) == Decimal(q) + Padded(r, w)
  {
    if w > 0 {
      var P := Pow(10, w - 1);
      var x := q * Pow(10, w) + r;
      JoinStep(q, r, P, x);
      DecimalJoin(q, r / 10, w - 1);
    }
  }

  /** Padding to a + w digits: a digits of q and then w digits of r. */
  lemma {:induction false} PaddedJoin(q: nat, r: nat, a: nat, w: nat)
    requires r < Pow(10, w)
    ensures Padded(q * Pow(10, w) + r, a + w) == Padded(q, a) + Padded(r, w)
  {
    if w > 0 {
      var P := Pow(10, w - 1);
      var x := q * Pow(10, w) + r;
      JoinStep(q, r, P, x);
      PaddedJoin(q, r / 10, a, w - 1);
    }
  }

  /** Dropping the last decimal digit of q * 10P + r drops the last digit of r. */
  lemma JoinStep(q: nat, r: nat, P: nat, x: nat)
    requires P > 0 && r < 10 * P && x == q * (10 * P) + r
    ensures x / 10 == q * P + r / 10 && x % 10 == r % 10 && r / 10 < P
    ensures q > 0 ==> x > 0
  {
    MulAssoc(q, 10, P);
    MulComm(q, 10);
    MulAssoc(10, q, P);
    DivModUnique(x, r % 10, q * P + r / 10, 10);
    if q > 0 {
      MulLeMono(1, q, 10 * P);
    }
  }

  // ---------------------------------------------------------------- toString

  /** 10^(2^k), the divisor `route` records at step k. */
  ghost function TenPow(k: nat): nat
  {
    Pow(10, Pow(2, k))
  }

  /** powers[k] is a normalised 10^(2^k) for every k. */
  ghost predicate PowersOfTen(powers: seq<BigNat>)
    reads set i | 0 <= i < |powers| :: powers[i]
    reads set i | 0 <= i < |powers| :: powers[i].digits
  {
    |powers| == 0 ||
    (PowersOfTen(powers[..|powers| - 1]) &&
     var top := powers[|powers| - 1];
     top.Valid() && top.Normalized() && top.Val() == TenPow(|powers| - 1))
  }

  lemma TenPowSquare(k: nat)
    ensures TenPow(k + 1) == TenPow(k) * TenPow(k) && TenPow(k) >= 10
  {
    PowAdd(10, Pow(2, k), Pow(2, k));
    PowMonotone(2, 0, k);
    PowMonotone(10, 1, Pow(2, k));
  }

  /**
   * `route`: the powers 10^(2^k), k = 0, 1, ..., squaring until one has
   * more limbs than the number to print (whose degree is degn). The source
   * builds a list with the largest first; here index k holds 10^(2^k).
   */
  method Route(degn: int) returns (powers: seq<BigNat>)
    requires -1 <= degn
    ensures |powers| > 0 && PowersOfTen(powers)
    ensures Degree(powers[|powers| - 1]) > degn
  {
    var ten2k := Embed(10);
    powers := [];
    while Degree(ten2k) <= degn
      invariant PowersOfTen(powers)
      invariant ten2k.Valid() && ten2k.Normalized() && ten2k.Val() == TenPow(|powers|)
      decreases Pow(Base, degn + 1) - TenPow(|powers|)
    {
      BelowDegree(ten2k, degn);
      powers, ten2k := RouteStep(powers, ten2k);
    }
    PowersExtend(powers, ten2k);
    powers := powers + [ten2k];
  }

  /** A number of degree at most d is below Base^(d+1). */
  lemma BelowDegree(t: BigNat, d: int)
    requires t.Valid() && t.Normalized() && Degree(t) <= d
    ensures t.Val() < Pow(Base, d + 1)
  {
    if Degree(t) >= 0 {
      PowMonotone(Base, Degree(t) + 1, d + 1);
    } else {
      PowMonotone(Base, 0, d + 1);
    }
  }

  /** One step of `route`: record 10^(2^k) and square it. */
  method RouteStep(powers: seq<BigNat>, ten2k: BigNat) returns (powers': seq<BigNat>, next: BigNat)
    requires PowersOfTen(powers)
    requires ten2k.Valid() && ten2k.Normalized() && ten2k.Val() == TenPow(|powers|)
    ensures powers' == powers + [ten2k] && PowersOfTen(powers')
    ensures next.Valid() && next.Normalized() && next.Val() == TenPow(|powers'|)
    ensures TenPow(|powers'|) > TenPow(|powers|)
  {
    ghost var T := ten2k.Val();
    TenPowSquare(|powers|);
    PowersExtend(powers, ten2k);
    powers' := powers + [ten2k];
    next := Multiply(ten2k, ten2k);
    MulLeMono(10, T, T);
  }

  lemma PowersExtend(powers: seq<BigNat>, t: BigNat)
    requires PowersOfTen(powers) && t.Valid() && t.Normalized() && t.Val() == TenPow(|powers|)
    ensures PowersOfTen(powers + [t])
  {
    assert (powers + [t])[..|powers|] == powers;
  }

  /** The division step of `collect`: x = q * t + r with both parts below t. */
  method SplitBy(x: BigNat, t: BigNat) returns (q: BigNat, r: BigNat)
    requires x.Valid() && x.Normalized() && t.Valid() && t.Normalized()
    requires t.Val() > 0 && x.Val() < t.Val() * t.Val()
    ensures q.Valid() && q.Normalized() && r.Valid() && r.Normalized()
    ensures x.Val() == q.Val() * t.Val() + r.Val() && q.Val() < t.Val() && r.Val() < t.Val()
  {
    ghost var X, T := x.Val(), t.Val();
    NormalizedZero(t);
    q, r := DivModNonZero(x, t);
    if q.Val() >= T {
      MulLeMono(T, q.Val(), T);
      assert false;
    }
  }

  /**
   * What `collect` puts in front of its digit list for the value v with
   * the powers 10^(2^k), k < m: v without leading zeros while leading,
   * otherwise v padded to 2^m digits.
   */
  ghost function CollectSpec(isLeading: bool, v: nat, m: nat): string
  {
    if isLeading then Decimal(v) else Padded(v, Pow(2, m))
  }

  /** Splitting v = q * 10^(2^(m-1)) + r splits its digits into those of q and those of r. */
  lemma CollectSplitSpec(isLeading: bool, q: nat, r: nat, v: nat, m: nat)
    requires m > 0 && r < TenPow(m - 1) && v == q * TenPow(m - 1) + r
    requires isLeading ==> q > 0
    ensures CollectSpec(isLeading, v, m) == CollectSpec(isLeading, q, m - 1) + CollectSpec(false, r, m - 1)
  {
    var w := Pow(2, m - 1);
    assert Pow(2, m) == w + w;
    if isLeading {
      DecimalJoin(q, r, w);
    } else {
      PaddedJoin(q, r, w, w);
    }
  }

  lemma ConcatAssoc(a: string, b: string, c: string)
    ensures (a + b) + c == a + (b + c)
  {
  }

  /** The last level of `collect`: a single digit, dropped when it is a leading zero. */
  lemma CollectLastSpec(isLeading: bool, v: nat)
    requires v < 10
    ensures CollectSpec(isLeading, v, 0) == if isLeading && v == 0 then "" else [DigitChar(v)]
  {
    assert v / 10 == 0 && v % 10 == v && Pow(2, 0) == 1;
    if isLeading {
      if v > 0 {
        assert Decimal(v) == Decimal(0) + [DigitChar(v)];
      }
    } else {
      assert Padded(v, 1) == Padded(0, 0) + [DigitChar(v)];
    }
  }

  /**
   * `collect`: the digits of x (whose value is X) put in front of
   * `digits`, given the list of powers 10^(2^k) for k < |powers|, the
   * largest last; leading zeros are dropped while `isLeading` holds,
   * otherwise x is padded to 2^|powers| digits.
   */
  method Collect(isLeading: bool, digits: string, x: BigNat, powers: seq<BigNat>, ghost X: nat)
    returns (r: string)
    requires PowersOfTen(powers)
    requires x.Valid() && x.Normalized() && x.Val() == X && X < TenPow(|powers|)
    ensures r == CollectSpec(isLeading, X, |powers|) + digits
    decreases |powers|, 1
  {
    if |powers| > 0 {
      r := CollectSplit(isLeading, digits, x, powers, X);
    } else {
      var n := Eval32(x);
      if isLeading && n == 0 {
        r := digits;
      } else {
        r := [DigitChar(n)] + digits;
      }
      CollectLastSpec(isLeading, X);
    }
  }

  /** The dividing level of `collect`: x = q * 10^(2^k) + rest for the largest power, each part collected with the rest of the list. */
  method CollectSplit(isLeading: bool, digits: string, x: BigNat, powers: seq<BigNat>, ghost X: nat)
    returns (r: string)
    requires |powers| > 0 && PowersOfTen(powers)
    requires x.Valid() && x.Normalized() && x.Val() == X && X < TenPow(|powers|)
    ensures r == CollectSpec(isLeading, X, |powers|) + digits
    decreases |powers|, 0
  {
    var k := |powers| - 1;
    var ten2k, prior := powers[k], powers[..k];
    ghost var T := ten2k.Val();
    assert PowersOfTen(prior) && T == TenPow(k);
    TenPowSquare(k);
    var q, rest := SplitBy(x, ten2k);
    ghost var Q, R := q.Val(), rest.Val();
    if isLeading && IsZero(q) {
      assert X == R by {
        assert Q == 0;
      }
      r := Collect(isLeading, digits, rest, prior, R);
    } else {
      var low := Collect(false, digits, rest, prior, R);
      r := Collect(isLeading, low, q, prior, Q);
      ghost var A, B := CollectSpec(isLeading, Q, k), CollectSpec(false, R, k);
      CollectSplitSpec(isLeading, Q, R, X, k + 1);
      ConcatAssoc(A, B, digits);
    }
  }

  /** `toString`: the decimal notation of n. */
  method ToString(n: BigNat) returns (s: string)
    requires n.Valid() && n.Normalized()
    ensures s == ShowNat(n.Val())
  {
    var degn := Degree(n);
    var powers := Route(degn);
    ghost var K := |powers| - 1;
    ghost var N := n.Val();
    BoundOrder(n, powers[K]);
    TenPowSquare(K);
    MulLeMono(1, TenPow(K), TenPow(K));
    assert N < TenPow(K + 1);
    var digits := Collect(true, "", n, powers, N);
    if |digits| == 0 {
      s := "0";
    } else {
      s := digits;
    }
  }

  // ---------------------------------------------------------------- ofString

  /** One step of `build`: acc becomes 10 * acc + d. */
  method AppendDigit(ten: BigNat, acc: BigNat, d: int) returns (acc': BigNat)
    requires ten.Valid() && ten.Val() == 10 && acc.Valid() && 0 <= d <= 9
    ensures acc'.Valid() && acc'.Normalized() && acc'.Val() == 10 * acc.Val() + d
  {
    var t := Multiply(ten, acc);
    var e := Embed(d);
    acc' := Add(t, e);
  }

  /**
   * `ofString`: Horner's rule over the characters; a FormatError for the
   * empty string and at the first character that is not a decimal digit.
   */
  method OfString(str: string) returns (r: Result<BigNat>)
    ensures r.Err? <==> |str| == 0 || !AllDigits(str)
    ensures r.Err? ==> r.error == FormatError
    ensures r.Ok? ==> r.value.Valid() && r.value.Normalized() && r.value.Val() == DecimalValue(str)
  {
    if |str| == 0 {
      return Err(FormatError);
    }
    var ten := Embed(10);
    var acc := Embed(0);
    var i := 0;
    while i < |str|
      invariant 0 <= i <= |str| && AllDigits(str[..i])
      invariant ten.Valid() && ten.Val() == 10
      invariant acc.Valid() && acc.Normalized() && acc.Val() == DecimalValue(str[..i])
    {
      var d := str[i] as int - '0' as int;
      if 0 <= d <= 9 {
        acc := AppendDigit(ten, acc, d);
        assert str[..i + 1][..i] == str[..i];
        i := i + 1;
      } else {
        return Err(FormatError);
      }
    }
    assert str[..i] == str;
    r := Ok(acc);
  }
}
