# BigNat: arbitrary-precision naturals with FFT multiplication

This project models `BigNatModule`, the natural-number engine behind the REPL's
`BigInteger` (`js/repl/lib/BigInt/n.js`, compiled from F#), in Dafny. It covers:

- the representation: a `BigNat` record holding `bound` little-endian base-2^24
  limbs in an array `digits`;
- the operations on it: addition and subtraction, comparison, schoolbook and
  Karatsuba multiplication, long division by digit estimation, bitwise
  operations, gcd, powers, factorial, and conversions to machine integers and
  decimal strings;
- the multiplication through a number-theoretic transform. Numbers are cut into
  bigL-bit pieces that become polynomial coefficients. The polynomials are
  multiplied with a radix-2 FFT over the field of residues modulo
  P = 15 * 2^27 + 1 = 2013265921, whose root of unity of order 2^27 is
  W = 440564289. The product polynomial is then evaluated back at 2^bigL.

`BigNat` is a class because the engine updates limbs and `bound` in place
(`normN`, `scaleSubInPlace`, `contributeArr`). The meaning of a `BigNat` is the
ghost function `Val()`, which evaluates its limbs. Every operation is proved
against it: it returns the number the source promises (a sum, a product, a
quotient and remainder, a gcd, a power). Results come out normalized, with no
leading zero limb. The FFT is proved against the polynomial definitions:

- `Dft(a, w, j)` is the value of a at w^j modulo P;
- `PolyMul` is the coefficient convolution;
- `Fold` is the cyclic wrap of the product to bigK coefficients.

The end-to-end theorem is `QuickMul.QuickMulUsingFft`. Whenever the product's bit
count fits the transform, encoding both operands, transforming, multiplying
pointwise, transforming back and decoding gives exactly u * v.

Files:

| file | contents |
|---|---|
| `limbs.dfy` | limb sequences, their value and exact powers |
| `bignat.dfy` | the class and the representation operations |
| `arith.dfy` | add, sub and compare |
| `mul.dfy` | multiplication |
| `div.dfy` | division |
| `bitops.dfy` | bitwise operations and bit counting |
| `numtheory.dfy` | gcd, powers and factorial |
| `conv.dfy` | conversions |
| `results.dfy` | thrown errors, as values |
| `fp.dfy` | field arithmetic modulo P |
| `poly.dfy` | polynomial and transform algebra |
| `fft.dfy` | the transforms |
| `bitfield.dfy` | bit fields of naturals |
| `pieces.dfy` | why the piece encoding decodes to the product |
| `quickmul.dfy` | encodings, encode/decode, `quickMulUsingFft` |

## Model

| member | source | states |
|---|---|---|
| BigNats.BigNat.constructor | js/repl/lib/BigInt/n.js:7-10 | the record holds the given bound and limb array |
| BigNats.NormalizedZero | js/repl/lib/BigInt/n.js:477-482 | a normalized number is zero exactly when it has no limbs |
| BigNats.NormalizedRange | js/repl/lib/BigInt/n.js:387-389 | a normalized number with b limbs is at least Base^(b-1) |
| BigNats.CreateN | js/repl/lib/BigInt/n.js:277-279 | a fresh number of b zero limbs, worth 0 |
| BigNats.CopyN | js/repl/lib/BigInt/n.js:280-282 | a fresh array with the same limbs and bound, same value |
| BigNats.FindLeastBound | js/repl/lib/BigInt/n.js:283-303 | the least bound below which only zero limbs were dropped: everything from it up to i is zero, and the limb under it is not |
| BigNats.NormN | js/repl/lib/BigInt/n.js:283-303 | lowers bound in place past the leading zero limbs; the value is unchanged and the result is normalized |
| BigNats.FillLimbs | js/repl/lib/BigInt/n.js:307-333 | writes y into the array as base-2^24 limbs whose value is y |
| BigNats.EmbedLimbs | js/repl/lib/BigInt/n.js:307-333 | a normalized number of at most k limbs worth y |
| BigNats.Embed | js/repl/lib/BigInt/n.js:307-323 | an int32 becomes a normalized number of at most 2 limbs (1 below Base); negatives become 0 |
| BigNats.Embed64 | js/repl/lib/BigInt/n.js:324-333 | an int64 becomes a normalized number of at most 3 limbs; negatives become 0 |
| BigNats.EvalHorner | js/repl/lib/BigInt/n.js:334-359 | Horner evaluation of the limbs from the top gives the value |
| BigNats.Eval32 | js/repl/lib/BigInt/n.js:334-346 | the value as an int32 when it fits one |
| BigNats.Eval64 | js/repl/lib/BigInt/n.js:347-359 | the value as an int64 when it fits one |
| BigNats.RestrictTo | js/repl/lib/BigInt/n.js:362-364 | the low d limbs, sharing the array: the value modulo Base^d |
| BigNats.ShiftUp | js/repl/lib/BigInt/n.js:365-373 | d zero limbs below: the value times Base^d, with bound + d limbs, normalized when the input is normalized and nonzero |
| BigNats.CopyUp | js/repl/lib/BigInt/n.js:365-373 | the new array is d zeros followed by the old limbs |
| BigNats.ShiftDown | js/repl/lib/BigInt/n.js:374-386 | the limbs from d up: the value divided by Base^d, normalized when the input is |
| BigNats.Degree | js/repl/lib/BigInt/n.js:387-389 | bound - 1 on any number; on a normalized one -1 exactly for zero, otherwise the r with Base^r <= value < Base^(r+1) |
| BigNats.IsZero | js/repl/lib/BigInt/n.js:477-482 | true exactly when a normalized value is 0 |
| BigNats.IsOne | js/repl/lib/BigInt/n.js:483-489 | true exactly when a normalized value is 1 |
| BigNats.IsSmall | js/repl/lib/BigInt/n.js:1410-1412 | true exactly when a normalized value is below Base |
| BigNats.GetSmall | js/repl/lib/BigInt/n.js:1413-1419 | the value modulo Base, which is the value itself for at most one limb |
| Arith.LimbAt | js/repl/lib/BigInt/n.js:191-193 | the i-th limb, zero past the bound |
| Arith.AddPStep | js/repl/lib/BigInt/n.js:390-412 | one carry step keeps "limbs so far + carry * Base^i = prefix sum" and touches only limb i |
| Arith.AddP | js/repl/lib/BigInt/n.js:390-412 | the first n limbs hold the sum of the operands' first n limbs modulo Base^n; the limbs above n are untouched |
| Arith.Add | js/repl/lib/BigInt/n.js:413-419 | a fresh normalized number worth p + q, with at most max(bounds) + 1 limbs |
| Arith.SubPStep | js/repl/lib/BigInt/n.js:420-464 | one borrow step keeps "limbs so far + borrow * Base^i = prefix difference" |
| Arith.SubP | js/repl/lib/BigInt/n.js:420-464 | reports underflow exactly when the low n limbs of p are below those of q; otherwise the limbs hold the difference (plus Base^n on underflow) |
| Arith.Sub | js/repl/lib/BigInt/n.js:465-476 | the truncated difference: p - q, or 0 when q > p |
| Arith.EqualFrom | js/repl/lib/BigInt/n.js:490-516 | true exactly when the arrays agree on limbs 0..i |
| Arith.Equal | js/repl/lib/BigInt/n.js:490-516 | true exactly when the two values are equal |
| Arith.BoundOrder | js/repl/lib/BigInt/n.js:553-583 | for normalized numbers, fewer limbs means a smaller value |
| Arith.SameBound | js/repl/lib/BigInt/n.js:490-516 | with equal bounds, equal limbs is the same as equal values |
| Arith.CompareFrom | js/repl/lib/BigInt/n.js:553-583 | comparing from limb i down gives the comparison of the values of the prefixes |
| Arith.Compare | js/repl/lib/BigInt/n.js:553-583 | -1, 0 or 1 as p is below, equal to or above q |
| Arith.ShiftCompareFrom | js/repl/lib/BigInt/n.js:517-552 | the limb loop compares the two shifted prefixes |
| Arith.ShiftedValue | js/repl/lib/BigInt/n.js:517-552 | shifting p up by pn limbs gives p * Base^pn |
| Arith.ShiftedBelow | js/repl/lib/BigInt/n.js:517-552 | fewer shifted limbs than q means p * Base^pn < q |
| Arith.ShiftCompare | js/repl/lib/BigInt/n.js:517-552 | the comparison of p * Base^pn with q, where q has at least as many limbs |
| Arith.Lt | js/repl/lib/BigInt/n.js:584-586 | true exactly when p < q |
| Arith.Gt | js/repl/lib/BigInt/n.js:587-589 | true exactly when p > q |
| Arith.Lte | js/repl/lib/BigInt/n.js:590-592 | true exactly when p <= q |
| Arith.Gte | js/repl/lib/BigInt/n.js:593-595 | true exactly when p >= q |
| Arith.MinNat | js/repl/lib/BigInt/n.js:596-602 | one of its arguments, the smaller |
| Arith.MaxNat | js/repl/lib/BigInt/n.js:603-609 | one of its arguments, the larger |
| Mul.ContributeArr | js/repl/lib/BigInt/n.js:610-628 | adding c at limb i with carry propagation adds c * Base^i to the array's value |
| Mul.ContributeStep | js/repl/lib/BigInt/n.js:610-628 | one carry step: the carry either stops with the target value reached or moves to the next limb, which exists |
| Mul.Scale | js/repl/lib/BigInt/n.js:629-640 | a normalized number worth k * p for an int32 k >= 0 |
| Mul.ScaleRow | js/repl/lib/BigInt/n.js:629-640 | contributing k times each limb gives k times the value |
| Mul.ScaleStep | js/repl/lib/BigInt/n.js:629-640 | each contribution extends the prefix product and stays within bound + 2 limbs |
| Mul.MulSchoolBookBothSmall | js/repl/lib/BigInt/n.js:641-647 | the product of two limbs as a normalized number |
| Mul.TwoLimbs | js/repl/lib/BigInt/n.js:641-647 | the low and high limbs of a product below Base^2 evaluate back to it |
| Mul.MulSchoolBookCarry | js/repl/lib/BigInt/n.js:648-663 | propagating c from limb k adds c * Base^k |
| Mul.MulSchoolBookOneSmall | js/repl/lib/BigInt/n.js:664-679 | a normalized number worth p * q for a one-limb q |
| Mul.OneSmallPass | js/repl/lib/BigInt/n.js:664-679 | the pass leaves limbs and a final carry worth p * q |
| Mul.PassStep | js/repl/lib/BigInt/n.js:664-679 | one limb of the pass keeps the running invariant |
| Mul.PassDone | js/repl/lib/BigInt/n.js:664-679 | at the end of the pass the invariant gives the product |
| Mul.MulSchoolBookNeitherSmall | js/repl/lib/BigInt/n.js:680-704 | a normalized number worth p * q |
| Mul.NeitherSmallRows | js/repl/lib/BigInt/n.js:680-704 | after all rows the array holds p * q |
| Mul.MulSchoolBookRow | js/repl/lib/BigInt/n.js:680-704 | one row adds p_i * Base^i * q, with the row's final carry kept apart |
| Mul.RowStep | js/repl/lib/BigInt/n.js:680-704 | one inner step keeps the row's value equation and the carry below Base |
| Mul.MulSchoolBook | js/repl/lib/BigInt/n.js:705-718 | the dispatch on small operands gives a normalized number worth p * q |
| Mul.KaratsubaIdentity | js/repl/lib/BigInt/n.js:895-917 | (a0+a1)(b0+b1) - (a0b0 + a1b1) is the cross term, and recombining the three products gives the full product |
| Mul.MulKaratsuba | js/repl/lib/BigInt/n.js:895-920 | a normalized number worth p * q |
| Mul.KaratsubaSplit | js/repl/lib/BigInt/n.js:895-917 | the low and high halves of p at limb k: p mod Base^k and p div Base^k |
| Mul.KaratsubaProducts | js/repl/lib/BigInt/n.js:895-917 | q0 and q2 are the products of the halves, and p1 is the cross term |
| Mul.KaratsubaCross | js/repl/lib/BigInt/n.js:895-917 | q1 - (q0 + q2) is a0*b1 + a1*b0 |
| Mul.KaratsubaMiddle | js/repl/lib/BigInt/n.js:895-917 | the truncated difference q1 - (q0 + q2) |
| Mul.KaratsubaCombine | js/repl/lib/BigInt/n.js:895-917 | p0 + Base^k (p1 + Base^k p2) as a normalized number |
| Mul.KaratsubaValue | js/repl/lib/BigInt/n.js:895-917 | the recombination of the three products is x * y |
| Mul.Multiply | js/repl/lib/BigInt/n.js:924-926 | `mul`: a normalized number worth p * q |
| Division.SubLimb | js/repl/lib/BigInt/n.js:927-965 | subtracting the low part from one limb with a borrow keeps it a limb, and only that limb changes |
| Division.AddLimb | js/repl/lib/BigInt/n.js:971-1009 | adding the low part to one limb with a carry keeps it a limb, and only that limb changes |
| Division.SubStep | js/repl/lib/BigInt/n.js:927-965 | one limb of the scaled subtraction keeps the balance equation |
| Division.AddStep | js/repl/lib/BigInt/n.js:971-1009 | one limb of the scaled addition keeps the balance equation |
| Division.ScaleSubLimbs | js/repl/lib/BigInt/n.js:927-965 | the limbs below x's bound end worth x - f * a * Base^n; the limbs above are untouched |
| Division.ScaleSubInPlace | js/repl/lib/BigInt/n.js:927-965 | x becomes x - f * a * Base^n in place and normalized, in the same array |
| Division.ScaleAddLimbs | js/repl/lib/BigInt/n.js:971-1009 | the limbs below x's bound end worth x + f * a * Base^n |
| Division.ScaleAddInPlace | js/repl/lib/BigInt/n.js:971-1009 | x becomes x + f * a * Base^n in place and normalized, in the same array |
| Division.ScaleSub | js/repl/lib/BigInt/n.js:966-970 | a copy worth x - f * a * Base^n |
| Division.ScaleAdd | js/repl/lib/BigInt/n.js:1010-1014 | a copy worth x + f * a * Base^n |
| Division.ToInt32 | js/repl/lib/BigInt/n.js:1015-1050 | the `\| 0` truncation lands in int32 range and keeps values that already fit |
| Division.EstimateSound | js/repl/lib/BigInt/n.js:1015-1050 | a quotient T / D of the top limbs with D * Base^s >= a * Base^n never overshoots the digit, and is below Base when x < a * Base^(n+1) |
| Division.Estimate | js/repl/lib/BigInt/n.js:1019-1036 | each of the four estimates of `removeFactor` (top limb or top two limbs of x, over a's single limb or its top limb + 1, through `~~toInt`) is, when x < a * Base^(n+1), a single limb f with f * a * Base^n <= x |
| Division.RemoveFactor | js/repl/lib/BigInt/n.js:1015-1050 | the digit estimate: 0 when x has too few limbs; otherwise f * a * Base^n <= x, with f a limb when x < a * Base^(n+1) |
| Division.StepKeeps | js/repl/lib/BigInt/n.js:1051-1093 | a round with a positive estimate keeps d * a + x = b, adds f at digit n of d, and strictly lowers x |
| Division.SubtractDigit | js/repl/lib/BigInt/n.js:1051-1093 | one subtraction round in place, keeping the division invariant |
| Division.DivisionRound | js/repl/lib/BigInt/n.js:1051-1093 | one iteration of the loop: either x has dropped below a, or n or x has decreased |
| Division.LongDivision | js/repl/lib/BigInt/n.js:1051-1093 | the loop ends with d * a + x = b and x < a |
| Division.DivideLong | js/repl/lib/BigInt/n.js:1051-1093 | when b has at least as many limbs as a: q * a + m = b with m < a |
| Division.DivModNonZero | js/repl/lib/BigInt/n.js:1051-1093 | quotient and remainder by a nonzero a: q = b / a, m = b % a; when b has fewer limbs, the result is 0 and b itself |
| Division.DivMod | js/repl/lib/BigInt/n.js:1051-1093 | fails exactly on a zero divisor, otherwise q * a + m = b with m < a |
| Division.Div | js/repl/lib/BigInt/n.js:1094-1096 | fails exactly on a zero divisor, otherwise b / a |
| Division.Rem | js/repl/lib/BigInt/n.js:1097-1099 | fails exactly on a zero divisor, otherwise b % a |
| BitOps.BitwiseSplitAt | js/repl/lib/BigInt/n.js:1100-1137 | a bitwise operation acts independently on the low k bits and on the bits above |
| BitOps.EvalBitwise | js/repl/lib/BigInt/n.js:1100-1137 | limbs combined limb by limb are worth the operation on the two low values |
| BitOps.BitAnd | js/repl/lib/BigInt/n.js:1100-1109 | a normalized number worth a AND b |
| BitOps.AndLimbs | js/repl/lib/BigInt/n.js:1100-1109 | each result limb is the AND of the two operands' limbs |
| BitOps.AndOfShorter | js/repl/lib/BigInt/n.js:1100-1109 | AND over the shorter operand's limbs is AND of the whole values |
| BitOps.AndCommutes | js/repl/lib/BigInt/n.js:1100-1109 | AND is commutative |
| BitOps.CombineLimbs | js/repl/lib/BigInt/n.js:1110-1137 | OR/XOR of the longer operand's copy with the shorter operand, limb by limb |
| BitOps.CombineBoth | js/repl/lib/BigInt/n.js:1110-1137 | the limbs below the bound are the operation on both operands' limbs |
| BitOps.CombineInto | js/repl/lib/BigInt/n.js:1110-1137 | a normalized number worth a op b, with a at least as long as b |
| BitOps.ZeroIdentity | js/repl/lib/BigInt/n.js:1110-1137 | zero is the identity of OR and XOR |
| BitOps.BitOr | js/repl/lib/BigInt/n.js:1110-1123 | a normalized number worth a OR b |
| BitOps.BitXor | js/repl/lib/BigInt/n.js:1124-1137 | a normalized number worth a XOR b |
| BitOps.AndPowerOfTwo | js/repl/lib/BigInt/n.js:773-791 | x AND 2^j is 2^j exactly when bit j of x is set |
| BitOps.HighBit | js/repl/lib/BigInt/n.js:773-791 | the bit length of a word below 2^k |
| BitOps.WordBits | js/repl/lib/BigInt/n.js:773-791 | the bit length of a limb: word < 2^r, and bit r-1 is set when r > 0 |
| BitOps.Bits | js/repl/lib/BigInt/n.js:792-798 | the bit length of a normalized number |
| NumberTheory.CommonDivisorsStep | js/repl/lib/BigInt/n.js:1138-1160 | x and y have the same common divisors as x and y mod x |
| NumberTheory.EuclidStep | js/repl/lib/BigInt/n.js:1138-1160 | one Euclid step keeps the common divisors of the original pair |
| NumberTheory.EuclidEnd | js/repl/lib/BigInt/n.js:1138-1160 | when the pair reaches (0, y), y is the gcd of the original pair |
| NumberTheory.GcdUnique | js/repl/lib/BigInt/n.js:1138-1160 | the gcd is unique |
| NumberTheory.RemainderOf | js/repl/lib/BigInt/n.js:1138-1160 | the remainder by a nonzero number |
| NumberTheory.Hcf | js/repl/lib/BigInt/n.js:1138-1160 | the greatest common divisor: a common divisor of a and b that every common divisor divides |
| NumberTheory.TruncHalf | js/repl/lib/BigInt/n.js:1162-1190 | JavaScript's truncating halving: \|r\| = \|n\| / 2, staying within int32 |
| NumberTheory.SquareStep | js/repl/lib/BigInt/n.js:1162-1190 | squaring the base and halving the exponent keeps acc * y^e |
| NumberTheory.SquareAndMultiply | js/repl/lib/BigInt/n.js:1162-1221 | squares y and multiplies acc by y on an odd bit |
| NumberTheory.Powi | js/repl/lib/BigInt/n.js:1162-1190 | x to the power \|n\| for an int32 exponent |
| NumberTheory.Halve | js/repl/lib/BigInt/n.js:1191-1221 | k = 2q + m with m a bit |
| NumberTheory.PowRound | js/repl/lib/BigInt/n.js:1191-1221 | one round of square-and-multiply over a big exponent |
| NumberTheory.PowNat | js/repl/lib/BigInt/n.js:1191-1221 | x to the power n for a big exponent n |
| NumberTheory.ProductSplit | js/repl/lib/BigInt/n.js:1420-1431 | the product a..b splits at any m into a..m times m+1..b |
| NumberTheory.ProductIsFact | js/repl/lib/BigInt/n.js:1420-1431 | the product 1..n is n! |
| NumberTheory.ProductR | js/repl/lib/BigInt/n.js:1421-1428 | the divide-and-conquer product of a..b |
| NumberTheory.Midpoint | js/repl/lib/BigInt/n.js:1421-1428 | (a + b) / 2 and its successor, between a and b |
| NumberTheory.ProductHalves | js/repl/lib/BigInt/n.js:1421-1428 | the two halves of the product, split at the midpoint |
| NumberTheory.Factorial | js/repl/lib/BigInt/n.js:1420-1431 | n! for n >= 1 |
| Conversions.LowLimbsValue | js/repl/lib/BigInt/n.js:1251-1318 | a number with at most three limbs is l0 + l1 * Base + l2 * Base^2 |
| Conversions.ToUInt32 | js/repl/lib/BigInt/n.js:1251-1281 | the value when it is below 2^32, otherwise an overflow error |
| Conversions.ToUInt64 | js/repl/lib/BigInt/n.js:1282-1318 | the value when it is below 2^64, otherwise an overflow error |
| Conversions.DigitChar | js/repl/lib/BigInt/n.js:1319-1375 | the decimal character of a digit |
| Conversions.DecimalDigits | js/repl/lib/BigInt/n.js:1319-1375 | the decimal expansion of n is all digits, has no leading zero and reads back as n |
| Conversions.ShowNatRoundTrip | js/repl/lib/BigInt/n.js:1319-1409 | reading the string of n gives n back, and the string is canonical ("0", or no leading zero) |
| Conversions.ReadRoundTrip | js/repl/lib/BigInt/n.js:1319-1409 | printing the value of a canonical digit string gives the string back |
| Conversions.DecimalJoin | js/repl/lib/BigInt/n.js:1319-1375 | the expansion of q * 10^w + r is that of q followed by r padded to w digits |
| Conversions.PaddedJoin | js/repl/lib/BigInt/n.js:1319-1375 | padded expansions join the same way |
| Conversions.TenPowSquare | js/repl/lib/BigInt/n.js:1319-1375 | each power in the route is the square of the previous one |
| Conversions.Route | js/repl/lib/BigInt/n.js:1319-1375 | the powers 10^(2^i) up to the first with more limbs than n |
| Conversions.RouteStep | js/repl/lib/BigInt/n.js:1319-1375 | appends the next power and squares it |
| Conversions.SplitBy | js/repl/lib/BigInt/n.js:1319-1375 | x = q * t + r with q and r both below t |
| Conversions.CollectSplitSpec | js/repl/lib/BigInt/n.js:1319-1375 | the digits of q * 10^(2^(m-1)) + r are those of q followed by r's, padded |
| Conversions.CollectLastSpec | js/repl/lib/BigInt/n.js:1319-1375 | at the last level a value below 10 is one digit, dropped when it is a leading 0 |
| Conversions.Collect | js/repl/lib/BigInt/n.js:1319-1375 | prepends the digits of X, padded unless leading, to the accumulated digits |
| Conversions.CollectSplit | js/repl/lib/BigInt/n.js:1319-1375 | the splitting branch of `collect` prepends the same digits |
| Conversions.ToString | js/repl/lib/BigInt/n.js:1319-1375 | the canonical decimal string of the value |
| Conversions.AppendDigit | js/repl/lib/BigInt/n.js:1376-1409 | 10 * acc + d |
| Conversions.OfString | js/repl/lib/BigInt/n.js:1376-1409 | fails exactly on the empty string or a non-digit; otherwise the decimal value of the string |
| Limbs.PowBySquaring | js/repl/lib/BigInt/n.js:200-233 | `pow64`/`pow32`: square-and-multiply computes x^n |
| Limbs.EvalInjective | js/repl/lib/BigInt/n.js:490-516 | equal-length limb sequences with equal values are equal |
| Fp.MPow | js/repl/lib/BigInt/n.js:71-104 | `mpow`/`mpowL`: x^\|n\| mod P |
| Fp.MPowStep | js/repl/lib/BigInt/n.js:71-87 | the three branches of `mpow` (zero, even, odd exponent) match x^\|n\| mod P |
| Fp.MInv | js/repl/lib/BigInt/n.js:108-110 | x^(P-2) mod P |
| Fp.MInvInverse | js/repl/lib/BigInt/n.js:108-110 | wherever x^(P-1) = 1 mod P (powers of two, roots of unity), x * minv(x) = 1 mod P |
| Fp.M2PowNthRoot | js/repl/lib/BigInt/n.js:105-107 | a residue below P; its order is stated by Fp.PrimitiveRoot |
| Fp.WOrder | js/repl/lib/BigInt/n.js:52-57 | W^(2^26) = -1 and W^(2^27) = 1 mod P: W has order 2^27 |
| Fp.TwoUnit | js/repl/lib/BigInt/n.js:52-61 | 2^(P-1) = 1 mod P |
| Fp.PrimitiveRoot | js/repl/lib/BigInt/n.js:105-107 | for 1 <= n <= 27, m2PowNthRoot(n) is a root of order 2^n: its 2^(n-1)-th power is -1 |
| Fp.RootSquare | js/repl/lib/BigInt/n.js:111-130 | the square of a root of order n is a root of order n / 2 |
| Fp.PowMinusOne | js/repl/lib/BigInt/n.js:111-130 | powers of -1 alternate between 1 and -1 |
| Polynomials.EvenOddSplit | js/repl/lib/BigInt/n.js:111-130 | a(y) = a_even(y^2) + y * a_odd(y^2) |
| Polynomials.StrideHalves | js/repl/lib/BigInt/n.js:111-130 | the even and odd halves of a stride are strides of twice the step |
| Polynomials.Butterfly | js/repl/lib/BigInt/n.js:111-130 | the butterfly gives the transform at j and at j + n/2 |
| Polynomials.GeomSumOfRoot | js/repl/lib/BigInt/n.js:139-144 | the sum of the m-th powers of a root of order n is n when n divides m, else 0 |
| Polynomials.Inversion | js/repl/lib/BigInt/n.js:139-144 | transforming the transform at the inverse root gives n * c_i |
| Polynomials.PolyMulAt | js/repl/lib/BigInt/n.js:149-159 | the convolution evaluates to the product of the evaluations |
| Polynomials.PolyMulBound | js/repl/lib/BigInt/n.js:149-159 | coefficients of the convolution are bounded by \|a\| * A * B |
| Polynomials.PolyMulZeros | js/repl/lib/BigInt/n.js:149-159 | degrees add: coefficients past da + db - 2 are zero |
| Polynomials.FoldAt | js/repl/lib/BigInt/n.js:149-159 | folding cyclically preserves the value at a y with y^n = 1 |
| Polynomials.Convolution | js/repl/lib/BigInt/n.js:149-159 | the pointwise product of transforms is the transform of the folded product |
| Fft.ComputeFFT | js/repl/lib/BigInt/n.js:111-130 | the window of res receives the transform of the stride of u; nothing else in res changes |
| Fft.Butterflies | js/repl/lib/BigInt/n.js:120-128 | the butterfly loop turns the two half transforms into the full transform |
| Fft.ComputFftInPlace | js/repl/lib/BigInt/n.js:131-138 | a fresh array holding the transform of u at a root of order n |
| Fft.InvertRoot | js/repl/lib/BigInt/n.js:139-144 | minv of a root of order n is its inverse and itself a root of order n |
| Fft.ComputeInverseFftInPlace | js/repl/lib/BigInt/n.js:139-144 | the transform at minv(w), scaled by minv(n) |
| Fft.InverseTransform | js/repl/lib/BigInt/n.js:139-144 | the inverse transform of the transform of c is c mod P |
| Fft.PointwiseProduct | js/repl/lib/BigInt/n.js:149-159 | the elementwise product mod P |
| Fft.ProductOfTransforms | js/repl/lib/BigInt/n.js:149-159 | the pointwise product of transforms is the transform of the folded product |
| Fft.ComputeFftPaddedPolynomialProduct | js/repl/lib/BigInt/n.js:149-159 | the cyclic product of u and v folded to bigK = 2^k coefficients, mod P |
| BitFields.TwoLimbField | js/repl/lib/BigInt/n.js:799-821 | a field straddling two limbs is the low part shifted down plus the next limb shifted up, masked |
| BitFields.FieldFromLimbs | js/repl/lib/BigInt/n.js:799-821 | a field inside limb i is read from that limb alone |
| BitFields.AndLowBits | js/repl/lib/BigInt/n.js:799-821 | x AND (2^L - 1) is x mod 2^L |
| BitFields.OrDisjoint | js/repl/lib/BigInt/n.js:799-821 | OR of numbers with disjoint bits is their sum |
| Pieces.PiecesEvaluate | js/repl/lib/BigInt/n.js:822-844 | the first m pieces of v evaluated at 2^bigL are v mod 2^(bigL * m) |
| Pieces.PiecesValue | js/repl/lib/BigInt/n.js:822-844 | all the pieces evaluated at 2^bigL give back v |
| Pieces.PiecesVanish | js/repl/lib/BigInt/n.js:822-844 | pieces above the bit length of v are zero |
| Pieces.SmallCoefficients | js/repl/lib/BigInt/n.js:736-763 | with the table's widths, every coefficient of the product stays below P |
| Pieces.ExactFold | js/repl/lib/BigInt/n.js:149-159 | when the product has no coefficient past bigK and all are below P, the folded product mod P is the product itself |
| Pieces.ProductDecodes | js/repl/lib/BigInt/n.js:885-893 | the result of the transform product, evaluated at 2^bigL, is u * v |
| QuickMul.MkEncoding | js/repl/lib/BigInt/n.js:731-735 | the record with 2^bigL, the number of whole pieces per limb and their weights 2^(bigL * i) |
| QuickMul.TableShape | js/repl/lib/BigInt/n.js:736 | 13 rows, row i has piece width i + 1, and each row's fields fit together |
| QuickMul.CalculateTableTow | js/repl/lib/BigInt/n.js:737-742 | the row for width bigL: k = 30 - 2 bigL, bigK = 2^|k|, bigN = bigK * bigL, and for 2 bigL <= 30 bigK products of two bigL-bit pieces fill exactly 2^30 |
| QuickMul.TableFromFormula | js/repl/lib/BigInt/n.js:736-742 | each row is what `calculateTableTow` gives for its width: k = 30 - 2 bigL, bigK = 2^k, bigN = bigK * bigL |
| QuickMul.TableDecreasing | js/repl/lib/BigInt/n.js:736 | capacities decrease strictly down the table |
| QuickMul.SelectFrom | js/repl/lib/BigInt/n.js:744-756 | the row from i on with the smallest capacity above bitsRes |
| QuickMul.EncodingGivenResultBits | js/repl/lib/BigInt/n.js:743-763 | fails exactly from 2^28 bits on; otherwise the table row of least capacity holding bitsRes |
| QuickMul.FirstRowOutgrowsField | js/repl/lib/BigInt/n.js:736-763 | results of 2^27 to 2^28 - 1 bits select a row whose transform of 2^28 points has no root of that order in the field |
| QuickMul.FftEncodingGivenResultBits | js/repl/lib/BigInt/n.js:743-763 | fails exactly from 2^27 bits on; otherwise a row that holds bitsRes and has a root of unity of its transform's order |
| QuickMul.FftSelectionAgrees | js/repl/lib/BigInt/n.js:743-763 | the corrected selection agrees with the source's wherever it succeeds, and fails only where the source fails or picks the first row |
| QuickMul.ExtractBits | js/repl/lib/BigInt/n.js:799-821 | bits [bi, bi + bigL) of the value |
| QuickMul.LimbOrZero | js/repl/lib/BigInt/n.js:799-821 | the i-th limb, zero past the bound |
| QuickMul.EncodePoly | js/repl/lib/BigInt/n.js:822-844 | a fresh array of bigK coefficients holding the bigL-bit pieces of the value |
| QuickMul.DecodeResultBits | js/repl/lib/BigInt/n.js:845-856 | 30 + bigL * (index of the top nonzero coefficient) + 2 |
| QuickMul.DecodePoly | js/repl/lib/BigInt/n.js:857-884 | a normalized number worth the polynomial evaluated at 2^bigL |
| QuickMul.Evaluate | js/repl/lib/BigInt/n.js:857-884 | contributing each coefficient at its bit position gives the polynomial's value at 2^bigL |
| QuickMul.QuickMulUsingFft | js/repl/lib/BigInt/n.js:885-893 | fails exactly when the product has 2^27 bits or more; otherwise exactly u * v |
| QuickMul.MultiplyPieces | js/repl/lib/BigInt/n.js:885-893 | encode, transform-multiply and decode give u * v; the operands are unchanged |

## Left out

- Allocation-free plumbing is not modelled: the Fable reflection and record declarations (`BigNat$reflection`, the `encoding` record type), `bound`/`setBound`/`coeff`/`coeff64`/`setCoeff`, `divbase`/`modbase` and `maxInt`/`minInt`. They appear in the model as field and array accesses, `/`, `%` and `Max`/`Min`.
- `hash`, `toFloat` and `ofInt32`/`ofInt64` (which are `embed`/`embed64`) are not modelled. Hashing and floating point have no counterpart among the model's values.
- The constant tables `bitmask`, `twopowers`, `twopowersI64` and `twoPowerTable` are modelled as `Pow(2, i)` at their uses.
- FFT `pow32` (an exact copy of the engine's `pow32`) and `leastBounding2Power` are not modelled.
- `padTo` and `computeFftPolynomialProduct` are not modelled. They pad to a power of two and call `computeFftPaddedPolynomialProduct`, and nothing in `quickMulUsingFft` uses them.
- `Fp.toInt`/`ofInt32` are left out: residues are naturals below P.
- The arbitrary-precision Long arithmetic of Long.js (`fromBits`, `op_Multiply`, `op_Modulus`, `toInt`) is modelled with exact integers. Every product formed in the source fits 64 bits, so nothing wraps.
- The int32 `| 0` on bit counts (`bitsRes`, `biMax`, `rbits`) and on array indices is not modelled: those values stay far below 2^31 for arrays that fit in memory. The one `| 0` that can truncate, in `removeFactor`, is `Division.ToInt32`.
- The `Invariant` closures in `divmod` are no-ops in the source and are not modelled.
- `mul` calls `mulSchoolBook` only. Karatsuba and `quickMulUsingFft` are modelled on their own, as in the source, and no dispatch between them exists.
- Arith.ShiftCompare: proved for its only use, `qn = 0` with q at least as long as p shifted by pn. Its second test compares `p.bound + pn` with `q.bound + pn`, not `q.bound + qn`; under that use it cannot fire, so it is modelled as written.
- Division.ScaleSubInPlace: requires what `divmod` guarantees at its call, that x >= f * a * Base^n. Without it the source would leave a negative top borrow.
- Division.ScaleAddInPlace: requires that x + f * a * Base^n fits x's limbs, which `divmod` guarantees by allocating one spare limb.
- Division.ScaleSub: requires f * a * Base^n <= x, as ScaleSubInPlace does.
- Division.ScaleAdd: requires that x + f * a * Base^n fits x's limbs, as ScaleAddInPlace does.
- Division.RemoveFactor: the result is constrained only where `divmod` relies on it (x < a * Base^(n+1)); elsewhere only 0 for too few limbs is stated.
- NumberTheory.Factorial: requires n >= 1. The source's `productR(one, zero)` recurses forever on 0, so no result exists to model there.
- NumberTheory.Powi: a negative exponent gives x^|n|. The source halves it with truncation and squares, which ends in the same value.
- Conversions.ToString: the digit list that `toString` builds is modelled as the joined string; each element is one character.
- Fp.M2PowNthRoot: its own contract states only that the result is a residue. Its order, which is what the transform needs, is `Fp.PrimitiveRoot` for 1 <= n <= 27, and `QuickMul.FirstRowOutgrowsField` covers n = 28. The table passes only 4 <= n <= 28.
- QuickMul.CalculateTableTow: `pow64` of a negative k (bigL above 15, never asked for) is modelled as 2^|k|, as its truncating halving gives.
- Mul.Scale: requires k >= 0, where the source takes any int32. For a negative k the first carry of `contributeArr` is negative, its loop stops at once, and the limbs left behind do not form k * p; nothing in the source calls `scale`.
- Fft.ComputeFftPaddedPolynomialProduct: requires k <= 27, below the k = 28 the first table row asks for. The field has no root of unity of order 2^28, so no correct transform exists there; the Findings row below models that case.
- QuickMul.QuickMulUsingFft: uses the corrected `QuickMul.FftEncodingGivenResultBits` (see Findings), so it fails from 2^27 bits where the source would pick the first row.
- QuickMul.MultiplyPieces: the body of `quickMulUsingFft` after the encoding is chosen, split out so its proof is separate.
- QuickMul.DecodePoly: requires coefficients below P, which is what `computeFftPaddedPolynomialProduct` returns.

## Findings

| source | as written | input that shows it | evidently intended | confidence | as-written member | corrected member |
|---|---|---|---|---|---|---|
| js/repl/lib/BigInt/n.js:736-763 | The first table row asks for a transform of bigK = 2^28 points with k = 28. `encodingGivenResultBits` selects it for every result of 2^27 to 2^28 - 1 bits. But P - 1 = 15 * 2^27, so the field has no root of unity of order 2^28: `m2PowNthRoot 28` is W^2, whose 2^27-th power is already 1 where a primitive root needs -1. The butterflies of that transform do not compute a transform, and the product is wrong. | bitsRes = 2^27, for example two operands of 2^26 bits each | reject results of 2^27 bits or more ("Product is huge"), so that every selected row has a root of unity of its transform's order | not executed | QuickMul.FirstRowOutgrowsField | QuickMul.FftEncodingGivenResultBits |
