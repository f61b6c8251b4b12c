/**
 * `quickMulUsingFft` of `BigNatModule`: multiplication through the
 * number-theoretic transform. Each operand is cut into bigL-bit pieces that
 * become the coefficients of a polynomial of bigK = 2^k terms, the two
 * polynomials are multiplied by `computeFftPaddedPolynomialProduct`, and the
 * product polynomial is evaluated at 2^bigL to give the product. The table
 * of encodings trades piece width against transform length so that every
 * coefficient of the product stays below 2^30, under the field's P.
 */
module QuickMul {
  import opened Limbs
  import opened BigNats
  import opened BitOps
  import opened Mul
  import opened Results
  import opened Fp
  import opened Polynomials
  import opened Fft
  import opened BitFields
  import opened Pieces

  // ---------------------------------------------------------------- encodings

  /** The `encoding` record: piece width, transform size and capacity. */
  datatype Encoding = Encoding(bigL: nat, twoToBigL: nat, k: nat, bigK: nat, bigN: nat, split: nat, splits: seq<nat>)

  /**
   * `mkEncoding`: the record for pieces of bigL bits and a transform of
   * bigK = 2^k points holding bigN bits; `split` counts the pieces a limb
   * holds whole, and `splits` lists their weights inside the limb.
   */
  function MkEncoding(bigL: nat, k: nat, bigK: nat, bigN: nat): (e: Encoding)
    requires 1 <= bigL
    ensures e.bigL == bigL && e.k == k && e.bigK == bigK && e.bigN == bigN
    ensures e.twoToBigL == Pow(2, bigL) && e.split * bigL <= BaseBits < (e.split + 1) * bigL
    ensures |e.splits| == e.split && forall i :: 0 <= i < e.split ==> e.splits[i] == Pow(2, bigL * i)
  {
    var split := BaseBits / bigL;
    Encoding(bigL, PowBySquaring(2, bigL), k, bigK, bigN, split,
      seq(split, i requires 0 <= i < split => MulNonNeg(bigL, i); PowBySquaring(2, bigL * i)))
  }

  /** `table`: the encodings for piece widths 1 to 13, widest transform first. */
  const Table: seq<Encoding> := [
    MkEncoding(1, 28, 268435456, 268435456), MkEncoding(2, 26, 67108864, 134217728),
    MkEncoding(3, 24, 16777216, 50331648), MkEncoding(4, 22, 4194304, 16777216),
    MkEncoding(5, 20, 1048576, 5242880), MkEncoding(6, 18, 262144, 1572864),
    MkEncoding(7, 16, 65536, 458752), MkEncoding(8, 14, 16384, 131072),
    MkEncoding(9, 12, 4096, 36864), MkEncoding(10, 10, 1024, 10240),
    MkEncoding(11, 8, 256, 2816), MkEncoding(12, 6, 64, 768),
    MkEncoding(13, 4, 16, 208)]

  /**
   * `calculateTableTow`: the row for piece width bigL, k = 30 - 2 * bigL so
   * that bigK products of two bigL-bit pieces stay below 2^30. `pow64`
   * halves its exponent with truncation, so a negative k gives 2^|k|.
   */
  function CalculateTableTow(bigL: int): (r: (int, int, int, int))
    requires 0 <= bigL <= MaxBitsInsideFp
    ensures r.0 == bigL && r.1 == MaxBitsInsideFp - 2 * bigL
    ensures r.2 == Pow(2, if r.1 < 0 then -r.1 else r.1) && r.3 == r.2 * bigL
    ensures 2 * bigL <= MaxBitsInsideFp ==> r.2 * Pow(2, 2 * bigL) == Pow(2, MaxBitsInsideFp)
  {
    var k := MaxBitsInsideFp - 2 * bigL;
    var bigK := PowBySquaring(2, if k < 0 then -k else k);
    if k >= 0 then PowAdd(2, k, 2 * bigL); (bigL, k, bigK, bigK * bigL)
    else (bigL, k, bigK, bigK * bigL)
  }

  /** The shape every row of the table has. */
  predicate Shaped(e: Encoding)
  {
    1 <= e.bigL <= 13 && e.k == MaxBitsInsideFp - 2 * e.bigL &&
    e.bigK == Pow(2, e.k) && e.bigN == e.bigL * e.bigK
  }

  /** The powers of two the table holds. */
  lemma TablePowers()
    ensures Pow(2, 4) == 16 && Pow(2, 6) == 64 && Pow(2, 8) == 256 && Pow(2, 10) == 1024
    ensures Pow(2, 12) == 4096 && Pow(2, 14) == 16384 && Pow(2, 16) == 65536
    ensures Pow(2, 18) == 262144 && Pow(2, 20) == 1048576 && Pow(2, 22) == 4194304
    ensures Pow(2, 24) == 16777216 && Pow(2, 26) == 67108864 && Pow(2, 28) == 268435456
  {
    PowAdd(2, 4, 4);
    PowAdd(2, 8, 2);
    PowAdd(2, 8, 4);
    PowAdd(2, 8, 6);
    PowAdd(2, 8, 8);
    PowAdd(2, 16, 2);
    PowAdd(2, 16, 4);
    PowAdd(2, 16, 6);
    PowAdd(2, 16, 8);
    PowAdd(2, 16, 10);
    PowAdd(2, 16, 12);
  }

  /** Row i of `table` has pieces of i + 1 bits and the shape of every row. */
  lemma TableShape()
    ensures |Table| == 13
    ensures forall i :: 0 <= i < |Table| ==> Table[i].bigL == i + 1 && Shaped(Table[i])
  {
    TablePowers();
  }

  /** Row i of `table` is the encoding `calculateTableTow(i + 1)` describes. */
  lemma TableFromFormula()
    ensures forall i :: 0 <= i < |Table| ==>
      CalculateTableTow(i + 1) == (i + 1, Table[i].k, Table[i].bigK, Table[i].bigN)
  {
    TableShape();
    forall i | 0 <= i < |Table|
      ensures CalculateTableTow(i + 1) == (i + 1, Table[i].k, Table[i].bigK, Table[i].bigN)
    {
      var e := Table[i];
      assert e.k == MaxBitsInsideFp - 2 * (i + 1) && e.bigK == Pow(2, e.k);
      assert e.bigN == e.bigK * (i + 1) by {
        MulComm(e.bigL, e.bigK);
      }
    }
  }

  /** The capacities decrease strictly down the table. */
  lemma TableDecreasing()
    ensures forall i, j :: 0 <= i < j < |Table| ==> Table[j].bigN < Table[i].bigN
  {
  }

  /** Every entry of the table is shaped, and only the first has 1-bit pieces. */
  lemma ShapedEntries()
    ensures forall e :: e in Table ==> Shaped(e) && (e.bigL == 1 ==> e == Table[0])
  {
    TableShape();
    forall e | e in Table
      ensures Shaped(e) && (e.bigL == 1 ==> e == Table[0])
    {
      var i :| 0 <= i < |Table| && Table[i] == e;
    }
  }

  // ---------------------------------------------------------- choosing a row

  /**
   * `selectFrom` inside `encodingGivenResultBits`: moves down the table
   * while the next row still holds bitsRes bits, so it stops at the row of
   * least capacity that holds them.
   */
  function SelectFrom(bitsRes: int, i: nat): (e: Encoding)
    requires i < |Table| && bitsRes < Table[i].bigN
    ensures e in Table[i..] && bitsRes < e.bigN
    ensures forall j :: i <= j < |Table| && bitsRes < Table[j].bigN ==> e.bigN <= Table[j].bigN
    decreases |Table| - i
  {
    if i + 1 < |Table| && bitsRes < Table[i + 1].bigN then
      var e := SelectFrom(bitsRes, i + 1);
      SelectBelow(bitsRes, i, e);
      e
    else
      SelectHere(bitsRes, i);
      Table[i]
  }

  lemma SelectHere(bitsRes: int, i: nat)
    requires i < |Table| && bitsRes < Table[i].bigN
    requires i + 1 == |Table| || Table[i + 1].bigN <= bitsRes
    ensures forall j :: i <= j < |Table| && bitsRes < Table[j].bigN ==> Table[i].bigN <= Table[j].bigN
  {
    TableDecreasing();
  }

  lemma SelectBelow(bitsRes: int, i: nat, e: Encoding)
    requires i + 1 < |Table| && e in Table[i + 1..]
    requires forall j :: i + 1 <= j < |Table| && bitsRes < Table[j].bigN ==> e.bigN <= Table[j].bigN
    ensures e in Table[i..]
    ensures forall j :: i <= j < |Table| && bitsRes < Table[j].bigN ==> e.bigN <= Table[j].bigN
  {
    var k :| i + 1 <= k < |Table| && Table[k] == e;
    TableDecreasing();
  }

  /**
   * `encodingGivenResultBits`: the table row of least capacity that holds
   * a result of bitsRes bits; a failure when even the first row is too small.
   */
  function EncodingGivenResultBits(bitsRes: int): (r: Result<Encoding>)
    ensures r.Err? <==> Table[0].bigN <= bitsRes
    ensures r.Err? ==> r.error == ProductTooLarge
    ensures r.Ok? ==> r.value in Table && bitsRes < r.value.bigN
    ensures r.Ok? ==> forall e :: e in Table && bitsRes < e.bigN ==> r.value.bigN <= e.bigN
  {
    if bitsRes >= Table[0].bigN then Err(ProductTooLarge) else Ok(SelectFrom(bitsRes, 0))
  }

  /**
   * The first row asks for a transform of 2^28 points, but P - 1 = 15 * 2^27
   * leaves no root of unity of that order: `m2PowNthRoot 28` gives W^2,
   * whose 2^27-th power is already 1 instead of P - 1. Results from 2^27
   * to 2^28 - 1 bits nevertheless select that row.
   */
  lemma FirstRowOutgrowsField(bitsRes: int)
    requires Table[1].bigN <= bitsRes < Table[0].bigN
    ensures EncodingGivenResultBits(bitsRes) == Ok(Table[0])
    ensures Table[0].k == 28 && Table[0].bigK == 2 * Pow(2, K)
    ensures Pow(M2PowNthRoot(Table[0].k), Table[0].bigK / 2) % P == 1
    ensures !RootOfOrder(M2PowNthRoot(Table[0].k), Table[0].bigK)
  {
    TableShape();
    TwoPowers();
    var n := Pow(2, K);
    assert M2PowNthRoot(28) == Pow(W, 2) % P by {
      assert PowBySquaring(2, 1) == 2;
    }
    assert Pow(Pow(W, 2), n) % P == 1 by {
      PowMul(W, 2, n);
      PowMul(W, n, 2);
      WOrder();
      PowCong(Pow(W, n), 1, 2);
      MulComm(2, n);
    }
    PowCong(M2PowNthRoot(28), Pow(W, 2), n);
  }

  /** The capacity of the second row, 2^27 bits: the largest product the transform can hold. */
  const MaxFftResultBits: nat := 134217728

  lemma FftCapacity()
    ensures Table[1].bigN == MaxFftResultBits
  {
    TableShape();
    TablePowers();
  }

  /**
   * The selection with the first row ruled out: results of 2^27 bits or
   * more fail, and every row it picks holds the result and is transformed
   * with a root of unity of exactly the transform's order.
   */
  function FftEncodingGivenResultBits(bitsRes: int): (r: Result<Encoding>)
    ensures r.Err? <==> MaxFftResultBits <= bitsRes
    ensures r.Err? ==> r.error == ProductTooLarge
    ensures r.Ok? ==> Shaped(r.value) && 2 <= r.value.bigL && bitsRes < r.value.bigN
    ensures r.Ok? ==> 1 <= r.value.k <= K && RootOfOrder(M2PowNthRoot(r.value.k), r.value.bigK)
  {
    if bitsRes >= MaxFftResultBits then Err(ProductTooLarge)
    else
      FftCapacity();
      var r := EncodingGivenResultBits(bitsRes);
      assert r.Ok? && r.value.bigN <= Table[1].bigN < Table[0].bigN by {
        assert Table[1] in Table;
      }
      var e := r.value;
      assert Shaped(e) && e.bigL != 1 by {
        ShapedEntries();
      }
      assert 1 <= e.k <= K;
      PrimitiveRoot(e.k);
      r
  }

  /**
   * Below the capacity of the second row the corrected selection picks the
   * same row as `encodingGivenResultBits`; it differs only by failing where
   * that one picks the first row.
   */
  lemma FftSelectionAgrees(bitsRes: int)
    ensures MaxFftResultBits == Table[1].bigN
    ensures FftEncodingGivenResultBits(bitsRes).Ok? ==> FftEncodingGivenResultBits(bitsRes) == EncodingGivenResultBits(bitsRes)
    ensures FftEncodingGivenResultBits(bitsRes).Err? ==>
      EncodingGivenResultBits(bitsRes).Err? || EncodingGivenResultBits(bitsRes) == Ok(Table[0])
  {
    FftCapacity();
    if FftEncodingGivenResultBits(bitsRes).Err? && bitsRes < Table[0].bigN {
      TableDecreasing();
      TableShape();
      assert EncodingGivenResultBits(bitsRes).value in Table[0..];
    }
  }

  /**
   * `extractBits`: bits [bi, bi + bigL) of n, read from the limb holding bit
   * bi and, when the piece straddles a limb boundary, the limb above it.
   * `>>` on a non-negative limb divides by a power of two; `<<` wraps on
   * 32-bit words; `|` and `& bitmask[bigL]` act on the 32-bit patterns.
   */
  function ExtractBits(n: BigNat, enc: Encoding, bi: nat): (r: nat)
    reads n, n.digits
    requires n.Valid() && 1 <= enc.bigL < BaseBits
    ensures r == BitField(n.Val(), bi, enc.bigL)
  {
    var bj := bi + enc.bigL - 1;
    var biw, bjw := bi / BaseBits, bj / BaseBits;
    var x := LimbOrZero(n, biw);
    var xbit := bi % BaseBits;
    ArrayLimbs(n.digits, n.bound);
    if biw != bjw then
      var y := LimbOrZero(n, bjw);
      var nxbits := BaseBits - xbit;
      TwoLimbPiece(n.digits[..n.bound], bi, enc.bigL, x, y);
      var x1 := x / Pow(2, xbit);
      Bitwise(And, Bitwise(Or, x1, ShiftLeft32(y, nxbits)), Pow(2, enc.bigL) - 1)
    else
      OneLimbPiece(n.digits[..n.bound], bi, enc.bigL, x);
      var x1 := x / Pow(2, xbit);
      Bitwise(And, x1, Pow(2, enc.bigL) - 1)
  }

  /**
   * `extractBits` across a limb boundary: x is the limb of s holding bit bi
   * and y the next one, which holds bit bi + L - 1.
   */
  lemma TwoLimbPiece(s: seq<int>, bi: nat, L: nat, x: nat, y: nat)
    requires IsLimbs(s) && 1 <= L < BaseBits && (bi + L - 1) / BaseBits != bi / BaseBits
    requires x == Digit(s, bi / BaseBits) && y == Digit(s, (bi + L - 1) / BaseBits)
    ensures 0 <= x / Pow(2, bi % BaseBits)
    ensures BitField(Eval(s), bi, L) ==
      Bitwise(And, Bitwise(Or, x / Pow(2, bi % BaseBits), ShiftLeft32(y, BaseBits - bi % BaseBits)), Pow(2, L) - 1)
  {
    FieldAcross(s, bi, L, x, y);
    TwoLimbField(x / Pow(2, bi % BaseBits), y, BaseBits - bi % BaseBits, L);
  }

  /**
   * The field of L bits at bi, across a limb boundary, is the high part of
   * limb x joined below the next limb y, cut to L bits.
   */
  lemma FieldAcross(s: seq<int>, bi: nat, L: nat, x: nat, y: nat)
    requires IsLimbs(s) && 1 <= L < BaseBits && (bi + L - 1) / BaseBits != bi / BaseBits
    requires x == Digit(s, bi / BaseBits) && y == Digit(s, (bi + L - 1) / BaseBits)
    ensures 0 <= x / Pow(2, bi % BaseBits) < Pow(2, BaseBits - bi % BaseBits)
    ensures BitField(Eval(s), bi, L) ==
      (x / Pow(2, bi % BaseBits) + Pow(2, BaseBits - bi % BaseBits) * y) % Pow(2, L)
  {
    assert y == Digit(s, bi / BaseBits + 1) by {
      LimbIndices(bi, L);
    }
    assert 0 <= x < Base;
    DivOfLimb(x, bi % BaseBits);
    FieldFromLimbs(s, bi, L);
  }

  /** `extractBits` within one limb: x is the limb of s holding bits bi to bi + L - 1. */
  lemma OneLimbPiece(s: seq<int>, bi: nat, L: nat, x: nat)
    requires IsLimbs(s) && 1 <= L < BaseBits && (bi + L - 1) / BaseBits == bi / BaseBits
    requires x == Digit(s, bi / BaseBits)
    ensures 0 <= x / Pow(2, bi % BaseBits)
    ensures BitField(Eval(s), bi, L) == Bitwise(And, x / Pow(2, bi % BaseBits), Pow(2, L) - 1)
  {
    var xbit := bi % BaseBits;
    DivOfLimb(x, xbit);
    var x1 := x / Pow(2, xbit);
    FieldFromLimbs(s, bi, L);
    LimbIndices(bi, L);
    AndLowBits(x1, L);
  }

  lemma LimbIndices(bi: nat, L: nat)
    requires 1 <= L <= BaseBits
    ensures (bi + L - 1) / BaseBits == bi / BaseBits ==> bi % BaseBits + L <= BaseBits
    ensures (bi + L - 1) / BaseBits != bi / BaseBits ==> (bi + L - 1) / BaseBits == bi / BaseBits + 1
  {
  }

  /** Limb i of n below its bound, and 0 from the bound on. */
  function LimbOrZero(n: BigNat, i: nat): (d: nat)
    reads n, n.digits
    requires n.Valid()
    ensures d < Base && d == Digit(n.digits[..n.bound], i)
  {
    if i < n.bound then n.digits[i] else 0
  }

  // ------------------------------------------------------------ encode, decode

  /**
   * `encodePoly`: a fresh polynomial of bigK coefficients holding the
   * bigL-bit pieces of n, lowest first. The loop stops at the last piece
   * that can hold a bit of n; the coefficients past it stay zero, which is
   * what the pieces of n are there.
   */
  method EncodePoly(enc: Encoding, n: BigNat) returns (poly: array<nat>)
    requires n.Valid() && 1 <= enc.bigL < BaseBits
    ensures fresh(poly) && poly.Length == enc.bigK
    ensures PiecesOf(poly[..], n.Val(), enc.bigL)
  {
    poly := new nat[enc.bigK](_ => 0);
    ghost var v := n.Val();
    var biMax := n.bound * BaseBits;
    var i, bi := 0, 0;
    while i != enc.bigK && bi <= biMax
      invariant 0 <= i <= enc.bigK && bi == enc.bigL * i
      invariant forall j :: 0 <= j < i ==> poly[j] == Piece(v, enc.bigL, j)
      invariant forall j :: i <= j < enc.bigK ==> poly[j] == 0
      decreases enc.bigK - i
    {
      var pi := ExtractBits(n, enc, bi);
      poly[i] := pi;
      MulSucc(enc.bigL, i);
      i, bi := i + 1, bi + enc.bigL;
    }
    forall j | i <= j < enc.bigK
      ensures poly[j] == Piece(v, enc.bigL, j)
    {
      BasePowIsTwoPow(n.bound);
      MulLeMono(i, j, enc.bigL);
      MulComm(i, enc.bigL);
      MulComm(j, enc.bigL);
      HighPieceZero(v, enc.bigL, j, biMax);
    }
  }

  lemma MulSucc(a: int, i: int)
    ensures a * (i + 1) == a * i + a
  {
  }

  /** Every piece of at most 24 bits is a residue modulo P. */
  lemma PiecesAreResidues(a: array<nat>, v: int, bigL: nat)
    requires PiecesOf(a[..], v, bigL) && bigL <= BaseBits
    ensures Residues(a)
  {
    PiecesBelow(a[..], v, bigL);
    PowMonotone(2, bigL, BaseBits);
    TwoPow24();
  }

  /**
   * The index of the highest non-zero coefficient of s, or 0 when every
   * coefficient above the constant one is zero.
   */
  ghost function TopIndex(s: seq<int>): (n: nat)
    ensures n == 0 || n < |s|
    ensures forall i :: n < i < |s| ==> s[i] == 0
    ensures 0 < n ==> s[n] != 0
  {
    if |s| == 0 then 0
    else if s[|s| - 1] != 0 then |s| - 1
    else TopIndex(s[..|s| - 1])
  }

  /**
   * `decodeResultBits`: a bound on the bits of the value of poly at
   * 2^bigL, from its highest non-zero coefficient.
   */
  method DecodeResultBits(enc: Encoding, poly: array<nat>) returns (r: int)
    ensures r == MaxBitsInsideFp + enc.bigL * TopIndex(poly[..]) + 2
  {
    var n := 0;
    for i := 0 to poly.Length
      invariant n == TopIndex(poly[..i])
    {
      if poly[i] != 0 {
        n := i;
      }
      assert poly[..i + 1][..i] == poly[..i];
    }
    assert poly[..poly.Length] == poly[..];
    var rbits := MaxBitsInsideFp + enc.bigL * n + 1;
    r := rbits + 1;
  }

  /**
   * `decodePoly`: the value of poly at 2^bigL, as a normalized BigNat of
   * enough limbs for the bits `decodeResultBits` counts.
   */
  method DecodePoly(enc: Encoding, poly: array<nat>) returns (r: BigNat)
    requires 1 <= enc.bigL <= BaseBits && poly.Length == enc.bigK && Residues(poly)
    ensures fresh(r) && r.Valid() && r.Normalized()
    ensures r.Val() == PolyAt(poly[..], Pow(2, enc.bigL))
  {
    var rbits := DecodeResultBits(enc, poly);
    var rbound := rbits / BaseBits + 1;
    r := CreateN(rbound);
    assert r.digits[..r.bound] == r.digits[..];
    ArrayLimbs(r.digits, r.bound);
    Evaluate(enc, poly, r.digits, TopIndex(poly[..]));
    assert r.digits[..r.bound] == r.digits[..];
    NormN(r);
  }

  /**
   * `evaluate` inside `decodePoly`: adds coefficient i, of weight
   * 2^(bigL * i) = 2^d * Base^j, into limb j of the zeroed digits; the
   * coefficients whose limb lies past the digits are zero.
   */
  method Evaluate(enc: Encoding, poly: array<nat>, digits: array<int>, ghost top: nat)
    requires 1 <= enc.bigL <= BaseBits && poly.Length == enc.bigK && Residues(poly)
    requires top == TopIndex(poly[..])
    requires digits.Length == (MaxBitsInsideFp + enc.bigL * top + 2) / BaseBits + 1
    requires IsLimbs(digits[..]) && Eval(digits[..]) == 0
    modifies digits
    ensures IsLimbs(digits[..]) && Eval(digits[..]) == PolyAt(poly[..], Pow(2, enc.bigL))
  {
    ghost var s, y := poly[..], Pow(2, enc.bigL);
    var rbound := digits.Length;
    var i, j, d := 0, 0, 0;
    while i != enc.bigK
      invariant 0 <= i <= enc.bigK && 0 <= d < BaseBits && BaseBits * j + d == enc.bigL * i
      invariant IsLimbs(digits[..]) && Eval(digits[..]) == SumTo(s, y, i)
      decreases enc.bigK - i
    {
      if j < rbound {
        var x := poly[i] * Pow(2, d);
        assert SumTo(s, y, i) + x * Pow(Base, j) == SumTo(s, y, i + 1) < Pow(Base, rbound) by {
          assert s[i] == poly[i];
          StepWeight(poly[i], enc.bigL, i, j, d);
          StepFits(s, enc.bigL, i, top, rbound);
        }
        MulNonNeg(poly[i], Pow(2, d));
        ContributeArr(digits, j, x);
      } else {
        assert s[i] == 0 by {
          PastTop(enc.bigL, i, j, d, top, rbound);
        }
        assert SumTo(s, y, i + 1) == SumTo(s, y, i);
      }
      MulSucc(enc.bigL, i);
      i := i + 1;
      var d' := d + enc.bigL;
      if d' >= BaseBits {
        j, d := j + 1, d' - BaseBits;
      } else {
        d := d';
      }
    }
  }

  /** Coefficient i placed at limb j with shift d has weight y^i when 24j + d = bigL * i. */
  lemma StepWeight(x: int, bigL: nat, i: nat, j: nat, d: nat)
    requires BaseBits * j + d == bigL * i
    ensures x * Pow(2, d) * Pow(Base, j) == x * Pow(Pow(2, bigL), i)
  {
    BasePowIsTwoPow(j);
    PowAdd(2, d, BaseBits * j);
    PowMul(2, bigL, i);
    MulAssoc(x, Pow(2, d), Pow(Base, j));
  }

  /** A limb j at or past the bound holds only coefficients above the top one. */
  lemma PastTop(bigL: nat, i: nat, j: nat, d: nat, top: nat, rbound: nat)
    requires 1 <= bigL && BaseBits * j + d == bigL * i && 0 <= d
    requires rbound == (MaxBitsInsideFp + bigL * top + 2) / BaseBits + 1 && rbound <= j
    ensures top < i
  {
    if i <= top {
      MulLeMono(i, top, bigL);
      MulComm(i, bigL);
      MulComm(top, bigL);
      assert false;
    }
  }

  /**
   * The partial sums of poly at y = 2^bigL stay below Base^rbound: with
   * every coefficient below P < 2^31 and none past top, they are below
   * 2 * P * y^top <= 2^(32 + bigL * top).
   */
  lemma StepFits(s: seq<int>, bigL: nat, i: nat, top: nat, rbound: nat)
    requires 1 <= bigL && i < |s| && top == TopIndex(s)
    requires forall t :: 0 <= t < |s| ==> 0 <= s[t] < P
    requires rbound == (MaxBitsInsideFp + bigL * top + 2) / BaseBits + 1
    ensures SumTo(s, Pow(2, bigL), i + 1) < Pow(Base, rbound)
  {
    var y := Pow(2, bigL);
    PowStrict(2, 0, bigL);
    var m := Min(i + 1, top + 1);
    assert SumTo(s, y, i + 1) == SumTo(s, y, m) by {
      if i + 1 > top + 1 {
        SumToTail(s, y, top + 1, i + 1);
      }
    }
    SumToBound(s, y, m, P - 1);
    PowMonotone(y, m - 1, top);
    assert Pow(y, top) == Pow(2, bigL * top) by {
      PowMul(2, bigL, top);
    }
    TopBound(Pow(y, m - 1), Pow(2, bigL * top), bigL * top, rbound);
  }

  /** 2(P - 1) * a < Base^rbound when a <= 2^e and 32 + e <= 24 * rbound. */
  lemma TopBound(a: int, b: int, e: nat, rbound: nat)
    requires 0 < a <= b == Pow(2, e) && rbound == (MaxBitsInsideFp + e + 2) / BaseBits + 1
    ensures 2 * (P - 1) * a < Pow(Base, rbound)
  {
    var c := Pow(2, 32);
    assert c == 4294967296 by {
      TwoPow30();
      PowAdd(2, 30, 2);
    }
    MulLeMono(a, b, 2 * (P - 1));
    MulStrictLeft(2 * (P - 1), c, b);
    MulComm(a, 2 * (P - 1));
    MulComm(b, 2 * (P - 1));
    PowAdd(2, 32, e);
    PowMonotone(2, 32 + e, BaseBits * rbound);
    BasePowIsTwoPow(rbound);
  }

  // ------------------------------------------------------------ multiplication

  /**
   * `quickMulUsingFft`: the product of u and v through the transform, when
   * the bits of the result fit an encoding whose transform has a root of
   * unity; a failure when they do not.
   */
  method QuickMulUsingFft(u: BigNat, v: BigNat) returns (r: Result<BigNat>)
    requires u.Valid() && u.Normalized() && v.Valid() && v.Normalized()
    ensures r.Err? <==> MaxFftResultBits <= Bits(u) + Bits(v)
    ensures r.Err? ==> r.error == ProductTooLarge
    ensures r.Ok? ==> fresh(r.value) && r.value.Valid() && r.value.Normalized()
    ensures r.Ok? ==> r.value.Val() == u.Val() * v.Val()
  {
    var bitsRes := Bits(u) + Bits(v);
    var encoding := FftEncodingGivenResultBits(bitsRes);
    if encoding.Err? {
      return Err(encoding.error);
    }
    var res := MultiplyPieces(encoding.value, u, v);
    r := Ok(res);
  }

  /**
   * The body of `quickMulUsingFft` once the encoding is chosen: encode both
   * operands, multiply the polynomials through the transform, decode the
   * product and normalize it.
   */
  method MultiplyPieces(enc: Encoding, u: BigNat, v: BigNat) returns (res: BigNat)
    requires u.Valid() && u.Normalized() && v.Valid() && v.Normalized()
    requires Shaped(enc) && 2 <= enc.bigL && enc.k <= K && Bits(u) + Bits(v) < enc.bigN
    ensures fresh(res) && res.Valid() && res.Normalized() && res.Val() == u.Val() * v.Val()
    ensures unchanged(u, u.digits, v, v.digits)
  {
    ghost var bu, bv := Bits(u), Bits(v);
    ghost var vu, vv := u.Val(), v.Val();
    var upoly := EncodePoly(enc, u);
    var vpoly := EncodePoly(enc, v);
    PiecesAreResidues(upoly, vu, enc.bigL);
    PiecesAreResidues(vpoly, vv, enc.bigL);
    var rpoly := ComputeFftPaddedPolynomialProduct(enc.bigK, enc.k, upoly, vpoly);
    assert PolyAt(rpoly[..], Pow(2, enc.bigL)) == vu * vv by {
      ProductDecodes(upoly[..], vpoly[..], rpoly[..], vu, vv, bu, bv, enc.bigL, enc.bigK);
    }
    res := DecodePoly(enc, rpoly);
    NormN(res);
  }
}
