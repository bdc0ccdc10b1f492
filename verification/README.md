# Exact-arithmetic core: fdlibm on words, the divider model, the fetch machine

This project models the three parts of the repository whose results are exact and proves what they compute.

* **fdlibm on two words** (`bench/tools/fdlibm`): `sqrt`, `fmod`, `remainder`, `scalbn`, `frexp`, `ilogb`, `floor`, `ceil`,
  `modf`, `nextafter`, the integer test inside `pow`, and the digit arithmetic of the pi/2 reduction.
* **The shift-subtract divider** `DivModel` (`models/insns/div.h`), the reference for DIV and DIVU, with its cycle counter.
* **The compressed-instruction fetch machine** `CpuContext` (`models/c_ext/main.cpp`).

## How doubles are modelled

A double is `Double(hi, lo)`, the words `__HI` and `__LO`. Its 63 bits below the sign are its `Code`, and `MagAt` gives
the magnitude of a code in units of 2^-1074, the smallest subnormal. Every finite double is then a signed natural number
and every statement about doubles is a statement about integers. The code of infinity stands for 2^1024, so overflow is
part of rounding.

Words are bounded integers (`u32`, `i32`); wrap-around is written out (`Wrap`, `ToInt`). `And`, `Or`, `Xor` and the shifts
are defined bit by bit, and each mask of the sources is proved to be the remainder or multiple it stands for.

Where a routine applies a floating operation to whole doubles (`x*two54`, `x-=p`, `x*twom54`, `z-tx[i]`, `huge+x`), the
model uses `FAdd`, `FSub`, `FMul`: the exact result rounded once by `RoundCode`. `RoundNearest` proves that `RoundCode` is
round-to-nearest-even as section 4.1 of IEEE 754-1985 defines it, and `NearestUnique` that this has one answer. The
exactness of each such operation is then proved where it is used.

Two things the code takes from its environment are parameters: the outcome of sqrt's rounding-mode probe (`Mode`), and
what a shift count of 32 does on a 32-bit word, which C leaves undefined and which line 126 of `e_sqrt.c` can reach
(`masked`). The results are proved for every choice; `Sqrt.Probe` computes the probe for the default rounding mode.

## Main results

* `Sqrt.Sqrt`: for every finite positive double and every rounding mode the result is the correctly rounded root, is
  normal, and a tie to nearest never occurs. The two loops compute the integer square root of a 108-bit number, and their
  remainder words are zero exactly when it is exact (`Sqrt.IntegerRoot`).
* `Fmod.Fmod` is exactly |x| mod |y| for every mix of normal and subnormal operands; `Remainder.Remainder` is built on it
  and returns x - n p for the nearest n, ties to even, which `RemainderUnique` shows to be unique.
* `Scalbn.Scalbn` is x * 2^n rounded once, for every `int` n, also when `k+n` wraps; `ScalbnOfFrexp` gives x back bit for bit.
* `Floor.Floor`, `Floor.Ceil`, `Floor.Modf` and `NextAfter.Next` are each proved against a definition that does not
  mention words and has one answer; `Floor.IntegerKind` against divisibility and parity of the magnitude.
* `RemPio2.Kernel` and `RemPio2.ProductMod8`: one pass keeps n and a signed fraction of magnitude at most 1/2 that agree
  with the computed columns modulo 8, for every exponent e0. One might expect them to agree with the whole product of the
  argument and the table cut off at the last digit used; that is false (`ProductNotMet`, and `Pieces.LargeNotMet` for the
  double 2^52 + 32). What is missed is exactly the digit products beyond the last column, so the product is met if and
  only if all of those are zero. Through the calls of `scalbn` and `floor` the double z holds the top
  part of the fraction exactly if and only if e0 is at least -1050 or the top part of the columns is divisible by
  2^(-1050-e0); `TopNotHeld` is an input at e0 = -1051 for which `scalbn` rounds.
* `RemPio2.Chunks` carries the fraction through lines 238-267, and `Pieces.LargeDigits` does so from a double: the code
  goes back for more digits exactly when the fraction has at most jk digits, its search then stays inside the digits if
  and only if the fraction is not zero (`SearchLeaves` is a run that leaves them), and otherwise it keeps digits that
  hold the same fraction and have no leading zero.
* `Divider.DivModel.StepDiv` is the RISC-V quotient for all operands, and takes 1 or 2k+5 cycles, at most 67.
* `Fetch.RunRefinesParse`: every run issues the left-to-right parse of the half-word stream, reads every word once and in
  order, and stops after exactly 3 I + W ticks; the half-words issued put memory together again; it ends by reading past memory if and only if the last instruction is cut off.

## Model

| member | source | states |
|---|---|---|
| Sqrt.BitTaken | bench/tools/fdlibm/e_sqrt.c:144-149 | taking a trial bit keeps i*d = 2(n - q^2) and q^2 <= n < (q+d)^2 with d halved |
| Sqrt.BitSkipped | bench/tools/fdlibm/e_sqrt.c:144-152 | so does skipping it |
| Sqrt.WordBounds | bench/tools/fdlibm/e_sqrt.c:140-170 | the remainder of the recurrence always fits the two words with room to double it |
| Sqrt.TryHighBit | bench/tools/fdlibm/e_sqrt.c:144-151 | one turn of the high-word loop is one step of the wide recurrence, with no overflow |
| Sqrt.HighBits | bench/tools/fdlibm/e_sqrt.c:140-153 | after the first loop the 22 high root bits satisfy the recurrence invariant |
| Sqrt.LowStepWords | bench/tools/fdlibm/e_sqrt.c:157-165 | the two-word comparison, borrow and carry are the comparison, difference and sum of the wide values |
| Sqrt.TryLowBit | bench/tools/fdlibm/e_sqrt.c:157-168 | one turn of the low-word loop is one step of the wide recurrence |
| Sqrt.LowBits | bench/tools/fdlibm/e_sqrt.c:155-170 | after the second loop the invariant holds with weight 1 |
| Sqrt.IntegerRoot | bench/tools/fdlibm/e_sqrt.c:137-170 | Q^2 <= n < (Q+1)^2 for n = y 2^54, and the remainder words are zero exactly when Q^2 = n |
| Sqrt.NormalizeSubnormal | bench/tools/fdlibm/e_sqrt.c:119-130 | a subnormal is shifted to a leading bit 20 without loss, whatever a shift by 32 yields |
| Sqrt.SpillIsMasked | bench/tools/fdlibm/e_sqrt.c:126-130 | bits that an undefined shift by 32 may leave in the high word are masked away |
| Sqrt.Normalize | bench/tools/fdlibm/e_sqrt.c:117-130 | x = X 2^(m-52) with a 53-bit X, subnormals included |
| Sqrt.Align | bench/tools/fdlibm/e_sqrt.c:117-139 | halving the exponent and doubling for odd m relates the aligned significand to the radicand |
| Sqrt.RoundBits | bench/tools/fdlibm/e_sqrt.c:172-186 | the probe and its carries round the 54-bit root to 53 bits as the mode asks |
| Sqrt.Pack | bench/tools/fdlibm/e_sqrt.c:185-190 | half the root over the exponent, including the carry into the exponent field |
| Sqrt.RootCorrect | bench/tools/fdlibm/e_sqrt.c:172-191 | a 54-bit root rounded so is the correctly rounded root among all codes, with no tie |
| Sqrt.PositiveRoot | bench/tools/fdlibm/e_sqrt.c:117-191 | every positive finite operand has a normal, correctly rounded root |
| Sqrt.RootUnique | bench/tools/fdlibm/e_sqrt.c:117-191 | there is one correctly rounded root in each mode |
| Sqrt.NearestError | bench/tools/fdlibm/e_sqrt.c:172-191 | rounded to nearest, the root is less than half a unit in its last place from the exact one |
| Sqrt.DownError | bench/tools/fdlibm/e_sqrt.c:172-191 | rounded down, it is at most the exact root and less than a unit below |
| Sqrt.UpError | bench/tools/fdlibm/e_sqrt.c:172-191 | rounded up, it is at least the exact root and less than a unit above |
| Sqrt.Probe | bench/tools/fdlibm/e_sqrt.c:174-182 | where additions round to nearest, one-tiny and one+tiny are one, so the root is rounded to nearest |
| Sqrt.SqrtNearest | bench/tools/fdlibm/e_sqrt.c:103-191 | with the probe computed, the root nearest to the exact one for every operand, less than half a unit away |
| Sqrt.Sqrt | bench/tools/fdlibm/e_sqrt.c:103-191 | the same with the special operands: NaN for NaN and negatives, zeros and +inf returned |
| Ilogb.ShiftToSign | bench/tools/fdlibm/s_ilogb.c:37-41 | the shift loops count the position of the leading bit |
| Ilogb.Ilogb | bench/tools/fdlibm/s_ilogb.c:31-45 | ilogb is floor(log2 of the magnitude), subnormals included, and the two special codes |
| Ilogb.IlogbUnique | bench/tools/fdlibm/s_ilogb.c:31-45 | that floor is unique |
| Ilogb.WordsIlogb | bench/tools/fdlibm/e_fmod.c:56-72 | the exponent loops of fmod compute the same |
| Fmod.AlignSignificand | bench/tools/fdlibm/e_fmod.c:74-98 | normal or subnormal, the operand becomes a 53-bit significand at its exponent |
| Fmod.ShiftToNormal | bench/tools/fdlibm/e_fmod.c:78-85 | the two-word left shift loses no bit |
| Fmod.Subtract | bench/tools/fdlibm/e_fmod.c:103-103 | the word subtraction with borrow is the wide difference |
| Fmod.Reduce | bench/tools/fdlibm/e_fmod.c:100-112 | the loop leaves X 2^n mod Y, keeping 0 <= X < 2Y; the early exit means remainder zero |
| Fmod.Renormalize | bench/tools/fdlibm/e_fmod.c:117-120 | the leading bit comes back to position 52 with the exponent adjusted |
| Fmod.ShiftDown | bench/tools/fdlibm/e_fmod.c:126-131 | the right shift of a subnormal result drops only zero bits |
| Fmod.PackSubnormal | bench/tools/fdlibm/e_fmod.c:125-138 | the three shift cases all store the exact subnormal |
| Fmod.Repack | bench/tools/fdlibm/e_fmod.c:114-139 | the result word pair has exactly the magnitude of the remainder |
| Fmod.RemainderScales | bench/tools/fdlibm/e_fmod.c:100-112 | the remainder of the significands is the remainder of the operands, scaled |
| Fmod.FmodMagnitudes | bench/tools/fdlibm/e_fmod.c:56-139 | for finite magnitudes x > y > 0 the result is x mod y exactly, with the given sign |
| Fmod.NanWords | bench/tools/fdlibm/e_fmod.c:48-48 | the word trick detects exactly the NaNs |
| Fmod.Fmod | bench/tools/fdlibm/e_fmod.c:38-139 | exactly the magnitude of x mod that of y with the sign of x; NaN exactly for the exceptional operands, x for infinite y |
| Remainder.HalfExact | bench/tools/fdlibm/e_remainder.c:69-69 | 0.5*p is exact for every p that reaches it |
| Remainder.CloseSub | bench/tools/fdlibm/e_remainder.c:65-72 | x -= p is exact, and a zero difference is positive |
| Remainder.ReduceSmall | bench/tools/fdlibm/e_remainder.c:63-67 | the comparisons with x+x subtract p the right number of times for tiny p |
| Remainder.ReduceLarge | bench/tools/fdlibm/e_remainder.c:68-74 | so do the comparisons with p_half |
| Remainder.ModTwice | bench/tools/fdlibm/e_remainder.c:59-59 | p+p is exact where it is taken, and x mod 2p results; where it would overflow x is below 2p already |
| Remainder.HalveIsRemainder | bench/tools/fdlibm/e_remainder.c:59-74 | x mod 2p less at most two p is x - k p for the nearest k, ties to even |
| Remainder.RestoreSign | bench/tools/fdlibm/e_remainder.c:75-75 | flipping the sign word negates the value |
| Remainder.Reduce | bench/tools/fdlibm/e_remainder.c:59-76 | nearest-even remainder for finite operands, also when the magnitudes are equal words |
| Remainder.Remainder | bench/tools/fdlibm/e_remainder.c:43-76 | x - n p exactly with n nearest x/p and ties to even; a zero result has the sign of x; special operands |
| Remainder.RemainderUnique | bench/tools/fdlibm/e_remainder.c:43-76 | that determines n and the result |
| Ieee.ExponentField | bench/tools/fdlibm/s_scalbn.c:43-43 | mask and shift give the exponent field |
| Ieee.CopySign | bench/tools/fdlibm/s_copysign.c:28-31 | magnitude of one operand, sign of the other |
| Ieee.SetExponent | bench/tools/fdlibm/s_scalbn.c:55-55 | sign and fraction are kept and the exponent field replaced |
| Scalbn.ScaleUp | bench/tools/fdlibm/s_scalbn.c:46-48 | x*two54 is exact on subnormals and the exponent makes up for it |
| Scalbn.ExponentSum | bench/tools/fdlibm/s_scalbn.c:52-52 | k+n is the sum, or it wrapped to far below -50000 while the true sum overflows and n > 50000 |
| Scalbn.Overflow | bench/tools/fdlibm/s_scalbn.c:53-58 | huge*copysign(huge,x) is the correctly rounded overflow |
| Scalbn.Underflow | bench/tools/fdlibm/s_scalbn.c:59-59 | tiny*copysign(tiny,x) is the correctly rounded underflow |
| Scalbn.DeepUnderflow | bench/tools/fdlibm/s_scalbn.c:49-49 | tiny*x is the correctly rounded underflow of a subnormal |
| Scalbn.NormalResult | bench/tools/fdlibm/s_scalbn.c:54-55 | a normal result is exact |
| Scalbn.SubnormalResult | bench/tools/fdlibm/s_scalbn.c:60-62 | a subnormal result is rounded once, by the final multiplication |
| Scalbn.ScaleNormal | bench/tools/fdlibm/s_scalbn.c:52-62 | significand times 2^(k+n-1), rounded once, on every branch and for every n |
| Scalbn.Scalbn | bench/tools/fdlibm/s_scalbn.c:40-62 | x 2^n rounded once: no code is nearer, and at a tie the even one is taken, for all finite x and all int n; inf and NaN |
| Scalbn.Frexp | bench/tools/fdlibm/s_frexp.c:40-55 | exponent field 0x3fe, sign of x and m 2^e = x exactly; 0, inf and NaN returned with e = 0 |
| Scalbn.FrexpUnique | bench/tools/fdlibm/s_frexp.c:40-55 | at most one such pair exists |
| Scalbn.FrexpIlogb | bench/tools/fdlibm/s_frexp.c:52-52 | e - 1 is floor(log2 of x), so e is ilogb + 1 |
| Scalbn.FrexpAgainstIlogb | bench/tools/fdlibm/s_frexp.c:40-55 | the exponents frexp and ilogb return differ by one |
| Scalbn.ScalbnOfFrexp | bench/tools/fdlibm/s_scalbn.c:40-62 | scalbn(frexp(x)) is x bit for bit for every x but a NaN |
| Integral.Parts | bench/tools/fdlibm/s_floor.c:42-63 | integral and fractional part of a magnitude are quotient and remainder of the significand by 2^(52-j0) |
| Integral.HugePlusPositive | bench/tools/fdlibm/s_floor.c:45-45 | the guard huge+x > 0.0 always holds where it is evaluated |
| Integral.SteppedMag | bench/tools/fdlibm/s_floor.c:50-74 | clearing the fraction bits, or adding one unit first, gives the neighbouring integer, across the carry into the exponent |
| Integral.StepHigh | bench/tools/fdlibm/s_floor.c:51-56 | the masks and the addition on the high word do that to the code |
| Integral.AddUnit | bench/tools/fdlibm/s_floor.c:68-70 | the carry from low to high word is the wide sum |
| Integral.StepLow | bench/tools/fdlibm/s_floor.c:62-74 | the same for the low word |
| Floor.FloorSmall | bench/tools/fdlibm/s_floor.c:44-49 | below 1 the floor is 0, -0 or -1 |
| Floor.Floor | bench/tools/fdlibm/s_floor.c:40-78 | the greatest integral double not above x, with the sign bit of x; inf and NaN |
| Floor.FloorUnique | bench/tools/fdlibm/s_floor.c:40-78 | that determines the bits |
| Floor.CeilSmall | bench/tools/fdlibm/s_ceil.c:44-48 | below 1 the ceiling is 1, 0 or -0 |
| Floor.Ceil | bench/tools/fdlibm/s_ceil.c:40-77 | the least integral double not below x, with the sign bit of x; inf and NaN |
| Floor.CeilUnique | bench/tools/fdlibm/s_ceil.c:40-77 | that determines the bits |
| Floor.CeilAgainstFloor | bench/tools/fdlibm/s_ceil.c:40-77 | ceil(x) is the negation of floor(-x) bit for bit, for every x but a NaN |
| Floor.FractionExact | bench/tools/fdlibm/s_modf.c:57-59 | x - *iptr is exact and has the sign of x |
| Floor.ModfHigh | bench/tools/fdlibm/s_modf.c:50-60 | exact split when the integer part ends in the high word |
| Floor.ModfLow | bench/tools/fdlibm/s_modf.c:68-78 | exact split when it reaches into the low word |
| Floor.Modf | bench/tools/fdlibm/s_modf.c:41-79 | integral part and fraction below 1, both with the sign bit of x, whose exact sum is x; special operands |
| Floor.ModfUnique | bench/tools/fdlibm/s_modf.c:41-79 | there is one such pair |
| Floor.ModfAgrees | bench/tools/fdlibm/s_modf.c:41-79 | the integral part is the floor of a positive and the ceiling of a negative x |
| Floor.ModfAgainstFloor | bench/tools/fdlibm/s_modf.c:41-79 | run together, modf's integral part and floor (or ceil for a negative x) have equal bits, for every x but a NaN |
| Integral.Parity | bench/tools/fdlibm/e_pow.c:135-142 | the parity of an integral double is a bit of its code, also in [1,2) where it is the low exponent bit |
| Floor.ShiftTest | bench/tools/fdlibm/e_pow.c:137-141 | shifting right and back tests divisibility and then parity |
| Floor.IntegerKind | bench/tools/fdlibm/e_pow.c:131-144 | for negative x: 1, 2 or 0 exactly when y is an odd integer, an even one, or none; 2 for infinite y |
| NextAfter.NanWords | bench/tools/fdlibm/s_nextafter.c:40-41 | the word test detects exactly the NaNs |
| NextAfter.TestIsShrinks | bench/tools/fdlibm/s_nextafter.c:50-59 | the signed word comparisons decide whether y lies on the side of zero |
| NextAfter.Decrement | bench/tools/fdlibm/s_nextafter.c:52-53 | the borrow gives the preceding code with the same sign |
| NextAfter.Increment | bench/tools/fdlibm/s_nextafter.c:55-56 | the carry gives the following code with the same sign |
| NextAfter.FromZero | bench/tools/fdlibm/s_nextafter.c:44-49 | from zero the neighbour is the least subnormal with the sign of y |
| NextAfter.FromNonZero | bench/tools/fdlibm/s_nextafter.c:50-77 | otherwise the neighbour with the sign of x, including the step to infinity or zero |
| NextAfter.Next | bench/tools/fdlibm/s_nextafter.c:33-77 | for unequal values the neighbour towards y, not past it, with no double strictly between; x for equal values; NaN operands |
| NextAfter.NextUnique | bench/tools/fdlibm/s_nextafter.c:33-77 | one neighbour up to the sign of zero |
| NextAfter.ThereAndBack | bench/tools/fdlibm/s_nextafter.c:33-77 | nextafter(nextafter(x,y),x) has the value of x, and its bits if and only if x is nonzero or agrees in sign with y |
| RemPio2.FirstDigit | bench/tools/fdlibm/k_rem_pio2.c:179-180 | q0 < 3, and q0 >= -21 whenever table digits are skipped |
| KernelSteps.AddProduct | bench/tools/fdlibm/k_rem_pio2.c:188-188 | the product and the sum are exact in doubles |
| KernelSteps.DistillDigit | bench/tools/fdlibm/k_rem_pio2.c:195-197 | the scalings, truncations, subtraction and addition of one turn are exact: a digit comes off, the quotient joins the next column |
| KernelSteps.ScalbnExact | bench/tools/fdlibm/k_rem_pio2.c:201-201 | scalbn does not round a number that stays a whole number of units |
| KernelSteps.ScaleTop | bench/tools/fdlibm/k_rem_pio2.c:201-201 | exact for q0 >= -1074, rounded once below |
| KernelSteps.TrimEights | bench/tools/fdlibm/k_rem_pio2.c:202-202 | subtracting 8*floor(z/8) leaves exactly z modulo 8, also where z*0.125 rounds |
| KernelSteps.TakeWhole | bench/tools/fdlibm/k_rem_pio2.c:203-204 | the conversion is in the range of int, n is the integer part and z exactly the rest |
| KernelSteps.AtLeastHalf | bench/tools/fdlibm/k_rem_pio2.c:212-212 | the comparison with 0.5, in units of 2^q0 |
| KernelSteps.OneMinus | bench/tools/fdlibm/k_rem_pio2.c:232-235 | one - z, less one unit when digits carry, is exact |
| KernelSteps.TwoDigits | bench/tools/fdlibm/k_rem_pio2.c:262-265 | a top part of two digits comes apart exactly |
| RemPio2.LoadTable | bench/tools/fdlibm/k_rem_pio2.c:182-184 | f holds the table digits, zero for negative indices |
| RemPio2.Column | bench/tools/fdlibm/k_rem_pio2.c:188-188 | the inner loop sums one column of the digit product exactly |
| RemPio2.FillColumns | bench/tools/fdlibm/k_rem_pio2.c:182-189 | q[i] holds column jv+i of the digit product |
| RemPio2.ColumnsSplit | bench/tools/fdlibm/k_rem_pio2.c:186-189 | the columns computed and the columns skipped make up all columns |
| RemPio2.SkippedIsMultiple | bench/tools/fdlibm/k_rem_pio2.c:177-180 | the skipped leading columns are a multiple of 8 |
| RemPio2.Distill | bench/tools/fdlibm/k_rem_pio2.c:193-198 | the overlapping columns become 24-bit digits and a top part with nothing lost |
| RemPio2.ScaledWhole | bench/tools/fdlibm/k_rem_pio2.c:201-204 | n, the rest, and the half test for every q0, the tiny ones included |
| RemPio2.TopExact | bench/tools/fdlibm/k_rem_pio2.c:201-201 | the top part is held exactly if and only if q0 >= -1074 or it is divisible by 2^(-1074-q0) |
| RemPio2.TakeAbove | bench/tools/fdlibm/k_rem_pio2.c:206-210 | for q0 > 0 the top bits of the leading digit go to n |
| RemPio2.TakeBelow | bench/tools/fdlibm/k_rem_pio2.c:201-212 | for q0 <= 0 n and the fraction are split exactly; ih > 0 exactly when the fraction is at least 1/2 |
| RemPio2.TakeInteger | bench/tools/fdlibm/k_rem_pio2.c:200-212 | both cases |
| RemPio2.Complement | bench/tools/fdlibm/k_rem_pio2.c:215-223 | the carry loop turns the digits L into B^jz - L, zero staying zero, all digits in range |
| RemPio2.MaskTop | bench/tools/fdlibm/k_rem_pio2.c:224-231 | the masks reduce the complemented digits modulo one |
| RemPio2.FlipDigits | bench/tools/fdlibm/k_rem_pio2.c:216-231 | for q0 >= 0 the digits become one minus the fraction |
| RemPio2.FlipTop | bench/tools/fdlibm/k_rem_pio2.c:216-235 | for q0 < 0 the top part and the digits together do |
| RemPio2.Flip | bench/tools/fdlibm/k_rem_pio2.c:214-236 | fraction f becomes exactly 1 - f and n goes up by one |
| RemPio2.Pass | bench/tools/fdlibm/k_rem_pio2.c:193-236 | n and a signed fraction of magnitude at most 1/2 agree with the columns modulo 8 |
| RemPio2.AllColumns | bench/tools/fdlibm/k_rem_pio2.c:182-236 | the pass over the computed columns speaks for all columns from 0 |
| RemPio2.Kernel | bench/tools/fdlibm/k_rem_pio2.c:173-236 | the same against all columns 0..jv+jz; what it misses of the product is exactly the tail; z holds the top part exactly if and only if e0 >= -1050 or that part has enough trailing zeros |
| RemPio2.ProductMod8 | bench/tools/fdlibm/k_rem_pio2.c:177-212 | the product with the table cut off at jv+jz is met if and only if every digit product beyond the last column is zero; otherwise the gap is the tail, below 2^25+1 units |
| RemPio2.ProductNotMet | bench/tools/fdlibm/k_rem_pio2.c:173-236 | a pass, with the code's own table digits and jz = 4, that misses 0xc0db62 of the product |
| RemPio2.TopNotHeld | bench/tools/fdlibm/k_rem_pio2.c:201-201 | a pass at e0 = -1051 whose top part scalbn rounds |
| RemPio2.NeedsMore | bench/tools/fdlibm/k_rem_pio2.c:239-242 | recomputation is asked for exactly when z and the digits from jk on are zero |
| RemPio2.SmallFraction | bench/tools/fdlibm/k_rem_pio2.c:239-242 | which is when the fraction has at most jk digits |
| RemPio2.DropZeros | bench/tools/fdlibm/k_rem_pio2.c:256-258 | dropping leading zero digits keeps value and unit |
| RemPio2.TopDigits | bench/tools/fdlibm/k_rem_pio2.c:260-266 | z becomes one or two digits, exactly, in the same unit |
| RemPio2.Chop | bench/tools/fdlibm/k_rem_pio2.c:255-267 | the digits and q0 left hold the same fraction, the leading digit is not zero |
| RemPio2.SearchTerms | bench/tools/fdlibm/k_rem_pio2.c:243-243 | finds the first nonzero digit below jk, or leaves the digits if and only if there is none |
| RemPio2.MoreTerms | bench/tools/fdlibm/k_rem_pio2.c:243-243 | the search stays inside if and only if the fraction is not zero, and k tells its number of digits |
| RemPio2.HeldTop | bench/tools/fdlibm/k_rem_pio2.c:201-201 | z holds a top part of at most 48 bits, or 2^48, that is the true one if and only if scalbn did not round |
| RemPio2.Chunks | bench/tools/fdlibm/k_rem_pio2.c:173-267 | a whole pass for one jz and any e0: back for more terms if and only if the held fraction has at most jk digits, otherwise digits that hold it; it is the true fraction if and only if e0 >= -1050 or the top part has enough trailing zeros |
| RemPio2.SearchLeaves | bench/tools/fdlibm/k_rem_pio2.c:243-243 | a pass, over a table of zeros, whose search would go on to iq[-1] |
| Pieces.Cut | bench/tools/fdlibm/e_rem_pio2.c:165-169 | three 24-bit digits that make up the scaled significand, the last one left over in z |
| Pieces.TrimZeros | bench/tools/fdlibm/e_rem_pio2.c:171-171 | exactly the trailing zero pieces are dropped |
| Pieces.PieceStep | bench/tools/fdlibm/e_rem_pio2.c:166-167 | the truncation, subtraction and scaling of one turn are exact |
| Pieces.SplitArgument | bench/tools/fdlibm/e_rem_pio2.c:161-171 | the pieces are 24-bit digits without trailing zeros and make up the argument exactly |
| Pieces.ReduceLarge | bench/tools/fdlibm/e_rem_pio2.c:161-172 | from a double with digits d to n and the fraction: what is left of the argument times the table modulo 8 is the tail of d, zero if and only if every digit product beyond the last column is |
| Pieces.LargeDigits | bench/tools/fdlibm/e_rem_pio2.c:161-172 | the same through to the digits the kernel's lines 255-267 leave |
| Pieces.LastDigitLeft | bench/tools/fdlibm/e_rem_pio2.c:161-172 | for the double 2^52 + 32, jz = 4 and any six table digits, what is left is the last digit |
| Pieces.LargeNotMet | bench/tools/fdlibm/e_rem_pio2.c:161-172 | with the code's own table that is not zero |
| Divider.MagnitudeOf | models/insns/div.h:11-14 | the magnitude, also of the most negative word |
| Divider.Negative | models/insns/div.h:16-19 | the sign bit of a signed operand; with the magnitude it makes up the operand |
| Divider.ShiftsLeast | models/insns/div.h:62-69 | the normalisation count is the least k with b 2^k >= a or b 2^k >= 2^31 |
| Divider.CyclesBound | models/insns/div.h:21-111 | never more than 67 cycles |
| Divider.CyclesMean | models/insns/div.h:26-105 | 1 cycle for a zero divisor and the overflow; otherwise an odd count that is at most 2k+5 exactly when b 2^k >= a or b 2^k >= 2^31 |
| Divider.SignedQuotient | models/insns/div.h:41-104 | dividing the magnitudes and fixing the sign gives a = q b + s with s zero or signed as a, which is the RISC-V quotient |
| Arith.TruncLaw | models/insns/div.h:118-122 | the native division truncates: its remainder is smaller than the divisor and zero or signed as the dividend |
| Divider.QuotientMagnitude | models/insns/div.h:104-104 | the sign fix keeps the magnitude except in the overflowing division |
| Divider.DivModel.Normalize | models/insns/div.h:62-69 | divisor and order are shifted equally and lose no bit; one cycle per shift |
| Divider.DivModel.Subtract | models/insns/div.h:76-102 | the loop leaves quotient and remainder of the magnitudes; one cycle per bit |
| Divider.DivModel.StepDiv | models/insns/div.h:21-112 | signed a = q b + s with s zero or signed as a and its magnitude returned, unsigned a = q b + rem, all ones for b = 0, the overflow result; 1 cycle or 2k+5 for the least sufficient k |
| Divider.DivModel.Check | models/insns/div.h:114-141 | the comparison with the native division never fails, and the two agree on the truncating quotient, on all ones for b = 0 and on the overflow result |
| Fetch.WordIsHalves | models/c_ext/main.cpp:113-114 | a word is its low half-word plus its high one times 2^16, low first in the stream |
| Fetch.ParseCovers | models/c_ext/main.cpp:100-162 | the half-words of the instructions parsed, and a lone 3 that is cut off, put every word of memory together again; only 32-bit instructions start with 3 |
| Fetch.ReadingUnique | models/c_ext/main.cpp:100-162 | no other list of such instructions has these half-words |
| Fetch.CoherentStep | models/c_ext/main.cpp:100-162 | each tick keeps what its state says about memory and the saved half-word |
| Fetch.StepPasses | models/c_ext/main.cpp:100-162 | a tick issues exactly the instruction that stands at the position it passes |
| Fetch.ReadsStep | models/c_ext/main.cpp:111-139 | the words read stay 0, 1, 2, ... once each |
| Fetch.ReadsLoad | models/c_ext/main.cpp:112-131 | the address a tick records is in memory and is that of the word it loads |
| Fetch.TickStep | models/c_ext/main.cpp:73-162 | every tick is paid for by an instruction or a word |
| Fetch.InvStep | models/c_ext/main.cpp:73-162 | issued plus still to be parsed is the whole parse, after every tick |
| Fetch.StopMeans | models/c_ext/main.cpp:79-83 | a machine that stops has read all words; it halts or reads past the end according to the last instruction |
| Fetch.InvAlways | models/c_ext/main.cpp:73-162 | the invariant holds in every state of every run |
| Fetch.TicksOfRun | models/c_ext/main.cpp:198-210 | the tick count after n ticks, up to 3 I + W |
| Fetch.RunRefinesParse | models/c_ext/main.cpp:73-162 | the whole run is the left-to-right parse, the half-words it issues make up memory, read i is word i, exactly 3 I + W ticks, and how it ends |
| Fetch.CpuContext.ExecTick | models/c_ext/main.cpp:73-99 | one call is one step of the machine, with its whole new state |
| Fetch.CpuContext.DoFetch | models/c_ext/main.cpp:111-129 | the word at pc is split into its halves; a low half of 3 decodes the whole word, any other the low half with the high half kept |
| Fetch.CpuContext.DoMore | models/c_ext/main.cpp:130-139 | the kept half and the low half of the next word are joined and its high half kept; the exception of `at` exactly past the end |
| Fetch.CpuContext.DoPrefetch | models/c_ext/main.cpp:144-162 | advance, reusing the saved half-word |
| Fetch.CpuContext.DoDecode32 | models/c_ext/main.cpp:100-105 | issue of a 32-bit instruction |
| Fetch.CpuContext.DoDecode16 | models/c_ext/main.cpp:106-110 | issue of a 16-bit instruction |
| Fetch.CpuContext.DoExec | models/c_ext/main.cpp:140-143 | the execute tick |
| Fetch.CpuContext.Run | models/c_ext/main.cpp:198-210 | the loop issues the parse, whose half-words make up memory, reads word i as read i, takes 3 I + W ticks and ends as the parse says |

## Left out

- The polynomial and rational approximations of fdlibm (exp, log, the trigonometric, error, gamma and Bessel functions, the rest of pow): their error bounds are real analysis.
- The repetition of the pass in k_rem_pio2.c lines 245-251, that it ends, and the array sizes, which rest on number facts about 2/pi; and from line 269 on the rounding multiplication by pi/2.
- RemPio2.Kernel: takes e0 - 24 > -2^31, below which the int subtractions of lines 179-180 or the negation of line 260 overflow, and jz >= 2, which `init_jk` gives. The int digits iq[] and the table are mathematical integers with their ranges proved.
- Pieces.ReduceLarge: the sign of x, handled on line 173, is not modelled.
- s_rint.c: it depends on the prevailing rounding mode of additions.
- Floating additions, subtractions and multiplications are modelled in the default rounding mode only; directed modes appear only in sqrt's probe.
- Inexact and underflow flags, NaN payloads (every NaN result of an operation is one NaN), the `w_*.c` wrappers, `k_standard.c` and errno: reporting only.
- Endianness selection in fdlibm.h: `__HI` is bits 63..32 and `__LO` bits 31..0.
- Divider.DivModel.StepDiv: states the remainder's magnitude only, which is all line 111 returns.
- Divider.MagnitudeOf: negating the most negative `int`, undefined in C, is modelled as wrap-around.
- Integral.AddUnit: the signed addition of s_floor.c line 68 and s_ceil.c line 67, whose overflow is undefined in C, is modelled as wrap-around.
- Sqrt.Pack: the left shift of a negative m on line 188 of e_sqrt.c, undefined in C, is modelled as a product.
- Pieces.SplitArgument: so is the left shift of a negative e0 on line 164 of e_rem_pio2.c.
- Fetch.RunRefinesParse: memories of 2^32 words and more, for which the 32-bit program counter wraps, are excluded.
- Printing, the cap of 100 ticks in `main`, and the random operands of testbench.h.
- The RTL and FPGA wrappers under bench, and the Zephyr headers: they declare or drive code that is not in the repository.
