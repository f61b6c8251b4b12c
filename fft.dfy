/**
 * `BigNatModule.FFT`: the radix-2 number-theoretic transform over the
 * field of residues modulo P, its inverse, and the cyclic product of two
 * padded polynomials built from them. Elements of the field are naturals
 * below P held in arrays, as the source holds them in `Uint32Array`s.
 */
module Fft {
  import opened Limbs
  import opened Fp
  import opened Polynomials

  /** Every element of the array is a residue modulo P. */
  ghost predicate Residues(a: array<nat>)
    reads a
  {
    forall i :: 0 <= i < a.Length ==> a[i] < P
  }

  /**
   * `computeFFT`: writes into res[offset .. offset + n) the transform, at
   * the root w of order n, of the stride u[mu], u[mu + lambda], ..., by
   * transforming the even and the odd halves of the stride recursively
   * into the two halves of the window and combining them with butterflies.
   */
  method ComputeFFT(lambda: nat, mu: nat, n: nat, w: nat, u: array<nat>, res: array<nat>, offset: nat)
    requires u != res && Residues(u)
    requires RootOfOrder(w, n)
    requires mu + lambda * (n - 1) < u.Length && offset + n <= res.Length
    modifies res
    ensures forall i :: 0 <= i < res.Length && !(offset <= i < offset + n) ==> res[i] == old(res[i])
    ensures forall i :: offset <= i < offset + n ==> res[i] == Dft(Stride(u[..], mu, lambda, n), w, i - offset)
    decreases n
  {
    if n == 1 {
      res[offset] := u[mu];
      assert Stride(u[..], mu, lambda, 1) == [u[mu]];
      PolyAtSingle(u[mu], Pow(w, 0));
    } else {
      var halfN := n / 2;
      var ww := w * w % P;
      var offsetHalfN := offset + halfN;
      ghost var us := u[..];
      ghost var a := Stride(us, mu, lambda, n);
      assert n == 2 * halfN;
      RootSquare(w, n);
      StrideHalves(us, mu, lambda, halfN);
      ComputeFFT(lambda * 2, mu, halfN, ww, u, res, offset);
      ComputeFFT(lambda * 2, lambda + mu, halfN, ww, u, res, offsetHalfN);
      assert u[..] == us;
      Butterflies(w, res, offset, halfN, a);
    }
  }

  /**
   * The butterfly loop of `computeFFT`: the window res[offset .. offset + 2h)
   * holds the transforms of the even and the odd halves of a at the squared
   * root, and is overwritten with the transform of a at w.
   */
  method Butterflies(w: nat, res: array<nat>, offset: nat, halfN: nat, ghost a: seq<int>)
    requires |a| == 2 * halfN && halfN >= 1 && offset + 2 * halfN <= res.Length
    requires Pow(w, halfN) % P == P - 1
    requires forall i :: offset <= i < offset + halfN ==> res[i] == Dft(Evens(a), w * w % P, i - offset)
    requires forall i :: offset + halfN <= i < offset + 2 * halfN ==>
      res[i] == Dft(Odds(a), w * w % P, i - offset - halfN)
    modifies res
    ensures forall i :: 0 <= i < res.Length && !(offset <= i < offset + 2 * halfN) ==> res[i] == old(res[i])
    ensures forall i :: offset <= i < offset + 2 * halfN ==> res[i] == Dft(a, w, i - offset)
  {
    var offsetHalfN := offset + halfN;
    assert |a| / 2 == halfN;
    var wj := 1;
    for j := 0 to halfN
      invariant wj == Pow(w, j) % P
      invariant forall i :: 0 <= i < res.Length && !(offset <= i < offset + 2 * halfN) ==> res[i] == old(res[i])
      invariant forall i :: offset <= i < offset + j ==> res[i] == Dft(a, w, i - offset)
      invariant forall i :: offsetHalfN <= i < offsetHalfN + j ==> res[i] == Dft(a, w, i - offset)
      invariant forall i :: offset + j <= i < offsetHalfN ==> res[i] == Dft(Evens(a), w * w % P, i - offset)
      invariant forall i :: offsetHalfN + j <= i < offset + 2 * halfN ==>
        res[i] == Dft(Odds(a), w * w % P, i - offsetHalfN)
    {
      var even := res[offset + j];
      var odd := res[offsetHalfN + j];
      var top, bottom := (even + wj * odd % P) % P, (even + P - wj * odd % P) % P;
      assert top == Dft(a, w, j) && bottom == Dft(a, w, j + halfN) by {
        Butterfly(a, w, j, even, odd, wj);
      }
      res[offset + j] := top;
      res[offsetHalfN + j] := bottom;
      NextPower(w, j, wj);
      wj := w * wj % P;
    }
  }

  /** The running power of the root: w * (w^j mod P) mod P is w^(j+1) mod P. */
  lemma NextPower(w: int, j: nat, wj: int)
    requires wj == Pow(w, j) % P
    ensures w * wj % P == Pow(w, j + 1) % P
  {
    ModMulRight(w, Pow(w, j));
  }

  /**
   * `computFftInPlace`: a fresh array of n zeros receives the transform of
   * the first n elements of u at the root w of order n.
   */
  method ComputFftInPlace(n: nat, w: nat, u: array<nat>) returns (res: array<nat>)
    requires Residues(u) && RootOfOrder(w, n) && n <= u.Length
    ensures fresh(res) && res.Length == n
    ensures forall j :: 0 <= j < n ==> res[j] == Dft(u[..n], w, j)
  {
    res := new nat[n](_ => 0);
    ComputeFFT(1, 0, n, w, u, res, 0);
    StrideAll(u[..], n);
  }

  /** The inverse of a root of order n up to 2^27 is a root of order n. */
  lemma InvertRoot(w: nat, n: nat)
    requires RootOfOrder(w, n) && n <= Pow(2, K)
    ensures w * MInv(w) % P == 1 && RootOfOrder(MInv(w), n)
  {
    RootUnit(w, n);
    MInvInverse(w);
    InverseRoot(w, MInv(w), n);
  }

  /**
   * `computeInverseFftInPlace`: the transform at the inverse root, scaled
   * by the inverse of n.
   */
  method ComputeInverseFftInPlace(n: nat, w: nat, uT: array<nat>) returns (r: array<nat>)
    requires Residues(uT) && RootOfOrder(w, n) && n <= Pow(2, K) && n <= uT.Length
    ensures fresh(r) && r.Length == n
    ensures forall i :: 0 <= i < n ==> r[i] == MInv(n) * Dft(uT[..n], MInv(w), i) % P
  {
    var bigKInv := MInv(n);
    InvertRoot(w, n);
    var t := ComputFftInPlace(n, MInv(w), uT);
    r := new nat[n](i requires 0 <= i < n reads t => bigKInv * t[i] % P);
  }

  /**
   * The inverse transform undoes the transform: applied to the transform
   * of c it gives back c modulo P.
   */
  lemma InverseTransform(c: seq<int>, w: nat, n: nat, x: seq<int>, i: nat)
    requires RootOfOrder(w, n) && n <= Pow(2, K) && |c| == n && |x| == n && i < n
    requires forall j :: 0 <= j < n ==> x[j] == Dft(c, w, j)
    ensures MInv(n) * Dft(x, MInv(w), i) % P == c[i] % P
  {
    var ni, ci, wi := MInv(n), c[i], MInv(w);
    assert w * wi % P == 1 by {
      InvertRoot(w, n);
    }
    assert Dft(x, wi, i) == (n * ci) % P by {
      forall j | 0 <= j < n
        ensures x[j] % P == PolyAt(c, Pow(w, j)) % P
      {
        Reduced(x[j], PolyAt(c, Pow(w, j)));
      }
      Inversion(c, w, wi, n, x, i);
    }
    assert n * ni % P == 1 by {
      Pow2Unit(n);
      MInvInverse(n);
    }
    ScaleBack(ni, n, ci);
  }

  lemma Reduced(x: int, y: int)
    requires x == y % P
    ensures x % P == y % P
  {
  }

  /** Multiplying n * c by an inverse of n gives back c modulo P. */
  lemma ScaleBack(ni: int, n: int, c: int)
    requires n * ni % P == 1
    ensures ni * (n * c % P) % P == c % P
  {
    ModMulRight(ni, n * c);
    MulAssoc(ni, n, c);
    ModMulLeft(ni * n, c);
    MulComm(ni, n);
  }

  /**
   * `computeFftPaddedPolynomialProduct`: for coefficient arrays of length
   * bigK = 2^k, the product of the two polynomials folded cyclically to
   * bigK coefficients, modulo P.
   */
  method ComputeFftPaddedPolynomialProduct(bigK: nat, k: nat, u: array<nat>, v: array<nat>) returns (r: array<nat>)
    requires 1 <= k <= K && bigK == Pow(2, k)
    requires Residues(u) && Residues(v) && u.Length == bigK && v.Length == bigK
    ensures fresh(r) && r.Length == bigK
    ensures forall i :: 0 <= i < bigK ==> r[i] == Fold(PolyMul(u[..], v[..]), bigK)[i] % P
  {
    var w := M2PowNthRoot(k);
    PrimitiveRoot(k);
    PowMonotone(2, k, K);
    var n := bigK;
    var uT := ComputFftInPlace(n, w, u);
    var vT := ComputFftInPlace(n, w, v);
    var rT := PointwiseProduct(uT, vT);
    ProductOfTransforms(u[..n], v[..n], uT[..], vT[..], rT[..], w, n);
    r := ComputeInverseFftInPlace(n, w, rT);
    InverseOfTransform(Fold(PolyMul(u[..n], v[..n]), n), w, n, rT[..n], r[..]);
    assert u[..n] == u[..] && v[..n] == v[..];
  }

  /** The pointwise product, modulo P, of two arrays of the same length. */
  method PointwiseProduct(a: array<nat>, b: array<nat>) returns (r: array<nat>)
    requires a.Length == b.Length
    ensures fresh(r) && r.Length == a.Length
    ensures forall i :: 0 <= i < r.Length ==> r[i] == a[i] * b[i] % P
  {
    r := new nat[a.Length];
    for i := 0 to a.Length
      invariant forall j :: 0 <= j < i ==> r[j] == a[j] * b[j] % P
    {
      r[i] := a[i] * b[i] % P;
    }
  }

  /** Multiplying transforms pointwise transforms the folded product. */
  lemma ProductOfTransforms(us: seq<int>, vs: seq<int>, ut: seq<int>, vt: seq<int>, rt: seq<int>, w: int, n: nat)
    requires |us| == n && |vs| == n && |ut| == n && |vt| == n && |rt| == n && Pow(w, n) % P == 1
    requires forall j :: 0 <= j < n ==> ut[j] == Dft(us, w, j) && vt[j] == Dft(vs, w, j)
    requires forall j :: 0 <= j < n ==> rt[j] == ut[j] * vt[j] % P
    ensures forall j :: 0 <= j < n ==> rt[j] == Dft(Fold(PolyMul(us, vs), n), w, j)
  {
    forall j | 0 <= j < n
      ensures rt[j] == Dft(Fold(PolyMul(us, vs), n), w, j)
    {
      Convolution(us, vs, w, n, j);
    }
  }

  /** The inverse transform, element by element, of the transform of c is c modulo P. */
  lemma InverseOfTransform(c: seq<int>, w: nat, n: nat, x: seq<int>, rs: seq<int>)
    requires RootOfOrder(w, n) && n <= Pow(2, K) && |c| == n && |x| == n && |rs| == n
    requires forall j :: 0 <= j < n ==> x[j] == Dft(c, w, j)
    requires forall i :: 0 <= i < n ==> rs[i] == MInv(n) * Dft(x, MInv(w), i) % P
    ensures forall i :: 0 <= i < n ==> rs[i] == c[i] % P
  {
    forall i | 0 <= i < n
      ensures rs[i] == c[i] % P
    {
      InverseTransform(c, w, n, x, i);
    }
  }
}
