# DEC64 addition and packing, in Dafny

DEC64 represents a decimal number in one 64-bit word. The high 56 bits hold
a two's-complement coefficient and the low 8 bits hold a two's-complement
exponent, so the word stands for coefficient * 10^exponent. An exponent byte
of 0x80 (-128) marks not-a-number ("nan"). The canonical nan is 0x80 and the
canonical zero is 0.

This project models the portable C part of the library:

- the field accessors and `dec64_build`;
- `dec64_pack` / `dec64_new`, which fit an arbitrary coefficient and exponent
  into the word by scaling and rounding;
- `checkPowerOf10`, a digit count;
- `dec64_add_proc` and its wrappers `dec64_add`, `dec64_subtract`,
  `dec64_inc` and `dec64_dec`;
- the two helpers that the C++ test driver uses to judge results: `normal`
  and `compare`.

A word is modelled as an `int` within the signed 64-bit range. The model
narrows to 64 bits with `Encoding.ToInt64` where `dec64_build` shifts the
coefficient out of the word, where `dec64_add_proc` builds a negated
subtrahend with a shift, and where the scaling loop of `dec64_pack` as
written tests a product for overflow by its sign. The one place where a
wrap-around is not modelled, the negation of INT64_MIN, is listed under
"## Left out".

The modules follow the source:

| file | module | models |
|---|---|---|
| `powers.dfy` | `Powers` | powers of ten; rounding to the nearest multiple of 10^n, a half away from zero |
| `encoding.dfy` | `Encoding` | the word layout, `dec64_build`, the `powers10` table, `checkPowerOf10` |
| `pack.dfy` | `Pack` | `dec64_pack` as functions (`ScaleLoop`, `RoundStep`, `Packed`) and as methods with the C loop (`Scale`, `Round`, `Pack`, `New`) |
| `pack_properties.dfy` | `PackProperties` | what `dec64_pack` promises: nan exactly when too large, zero exactly when too small, otherwise the number rounded to the nearest; the result is always canonical |
| `add.dfy` | `Add` | `dec64_add_proc` as functions (`Added`, `AddedAsWritten`) and as methods with the C loops (`AddProc`, `Add`, `Subtract`, `Inc`, `Dec`) |
| `add_properties.dfy` | `AddProperties` | what addition computes (exact at equal exponents, rounded otherwise), canonical results, commutativity, x - x = 0 |
| `add_findings.dfy` | `AddFindings` | inputs on which `dec64_add_proc` as written departs from its evident intent |
| `normal.dfy` | `TestHelpers` | the test driver's `normal` (a method with its two loops) and `compare` |
| `test_cases.dfy` | `TestCases` | rows of the test driver's tables, stated about the model |

Each method is proved equal to a specification function: `Pack.Pack` to
`Pack.Packed`, `Add.AddProc` to `Add.Added`, and `TestHelpers.Normal` to
`TestHelpers.Normalized`. The properties are then proved about those
functions.

Where the C code does something its authors evidently did not intend, the
model has two versions:

- `Pack.PackedAsWritten` and `Add.AddedAsWritten` follow the code as written.
- `Pack.Packed` and `Add.Added` are the corrected versions, which the methods
  implement.

Each difference is shown on a concrete input under "## Findings".

## Model

| member | source | states |
|---|---|---|
| Encoding.ToInt64 | src/dec64.c:52-55 | narrowing to 64 bits: the result is a signed 64-bit value congruent to the input modulo 2^64, and it equals the input when the input already fits |
| Encoding.Coefficient | src/dec64.c:39-43 | the arithmetic shift by 8 gives the c with c*256 <= v < c*256 + 256, and c fits 56 signed bits |
| Encoding.Exponent | src/dec64.c:45-50 | the sign-extended low byte: a value in [-128, 127] congruent to v modulo 256 |
| Encoding.Build | src/dec64.c:52-55 | the word is a signed 64-bit value whose low byte is e modulo 256; it is c*256 + (e mod 256) when c fits 56 bits |
| Encoding.BuildFields | src/dec64.c:39-55 | round trip: the fields of Build(c, e) are c and e for any c and e that fit their fields |
| Encoding.FieldsBuild | src/dec64.c:39-55 | round trip: building from a word's own coefficient and exponent gives back the word |
| Encoding.Powers10Table | src/dec64.c:13-31 | table entry i is 10^i for i <= 18 |
| Encoding.Powers10Wrapped | src/dec64.c:32 | entry 19 (10^19) does not fit 64 bits and reads as a negative number |
| Encoding.PowerIndexOf | src/dec64.c:212-220 | a number with d digits, 1 <= d <= 18, has power index d |
| Encoding.CheckPowerOf10 | src/dec64.c:212-220 | the search returns the index of the first entry above the argument: the digit count for 1 <= c < 10^18, and 0 for c <= 0 or c >= 10^18 |
| Pack.Scale | src/dec64.c:143-175 | the scaling loop, run on the magnitude, ends where ScaleLoop says: nan on overflow, or a magnitude and an exponent |
| Pack.Round | src/dec64.c:177-196 | the rounding step after the loop computes RoundStep |
| Pack.Pack | src/dec64.c:124-204 | dec64_pack returns Packed(coeff, exp); the properties of Packed are in PackProperties |
| Pack.New | src/dec64.c:207-210 | dec64_new is dec64_pack |
| PackProperties.ScaleUp | src/dec64.c:146-156 | above exponent 127 the loop ends at the exact coefficient a*10^(exp-127) at exponent 127 when that fits maxval, and in nan otherwise |
| PackProperties.StepsBound | src/dec64.c:158-171 | a 64-bit magnitude survives at most 19 divisions by ten |
| PackProperties.DownStep | src/dec64.c:158-171 | one more division keeps the loop's invariant (every division so far was needed: the quotient before it was nonzero and too large or below exponent -127), and the new quotient is the old one divided by ten |
| PackProperties.DownStop | src/dec64.c:158-175 | where the loop stops without dividing, the stopping state is the one ScaledDown describes |
| PackProperties.ScaleDown | src/dec64.c:158-175 | the dividing half of the loop stops at a quotient that fits, at an exponent no lower than -127 unless the magnitude reached 0; it gives nan only when even the quotient at exponent 127 is too large |
| PackProperties.OverflowRound | src/dec64.c:185-191 | rounding that reaches maxval + 1, then drops one more digit, still gives the number rounded to the nearest |
| PackProperties.RoundNone | src/dec64.c:178-179 | with no digits dropped, the rounding step keeps the magnitude |
| PackProperties.RoundFits | src/dec64.c:179-184 | when the first dropped digit is 5 or more the magnitude is raised by one, which rounds it to the nearest, a half away from zero |
| PackProperties.RoundPast | src/dec64.c:185-191 | when rounding up passes maxval, one more digit is dropped and the exponent goes up by one |
| PackProperties.RoundFacts | src/dec64.c:177-196 | wherever the loop stopped, the rounding step leaves the number rounded to the nearest multiple of 10^y at some exponent y |
| PackProperties.PackedFits | src/dec64.c:177-203 | Packed, once the loop has stopped at a magnitude and exponent, is built from the rounding step's result |
| PackProperties.OutcomeFits | src/dec64.c:124-204 | the rounding step's result, restated about c*10^e: r is the number rounded to the nearest at exponent y; y is 128 only for a number too large; below -127 r is at most 1; r is 0 only below -127; one exponent lower the rounded value would exceed maxval |
| PackProperties.Outcome | src/dec64.c:124-204 | at or below exponent 127 either the loop gives up (the number is too large and the result is nan) or the result is made from the number rounded to the nearest at some exponent y |
| PackProperties.BuildCanonical | src/dec64.c:202-203 | a nonzero coefficient at an exponent in [-127, 127] builds a canonical word with exactly those fields |
| PackProperties.ZeroIsSmall | src/dec64.c:198-199 | a magnitude that rounds to 0, or to 1 below exponent -127, means the number underflows |
| PackProperties.LargeIsNotSmall | src/dec64.c:160-171 | a number too large for exponent 127 does not underflow |
| PackProperties.PackedAbove | src/dec64.c:146-156 | above exponent 127 packing is exact: c*10^(e-127) at exponent 127, or nan when that is too large |
| PackProperties.AboveFits | src/dec64.c:146-156 | above exponent 127, a number that is not too large gives a nonzero coefficient that fits |
| PackProperties.PackedAboveCanonical | src/dec64.c:146-156 | above exponent 127 the result is nan exactly when the number is too large; it is never zero and always canonical |
| PackProperties.PackedExact | src/dec64.c:124-204 | a nonzero coefficient and an exponent that already fit are packed unchanged |
| PackProperties.PackedCanonicalFields | src/dec64.c:124-204 | packing the fields of any canonical word other than nan gives the word back |
| PackProperties.BelowOverflow | src/dec64.c:162-164 | at or below exponent 127, a number too large gives nan and no other outcome |
| PackProperties.BelowZero | src/dec64.c:198-199 | a rounded magnitude of 0, or an exponent left below -127, gives zero, and the number underflows |
| PackProperties.BelowBuild | src/dec64.c:202-203 | a nonzero rounded magnitude at an exponent in [-127, 127] is built with the original sign |
| PackProperties.PackedBelow | src/dec64.c:158-203 | at or below exponent 127: nan exactly when too large, zero exactly when underflowing, and always canonical |
| PackProperties.PackedZero | src/dec64.c:126-128 | the result is zero exactly when the coefficient is 0 (with an exponent other than -128) or the nonzero number underflows |
| PackProperties.PackedNan | src/dec64.c:130-132 | the result is nan exactly for coefficient 0 at exponent -128 or a nonzero number too large for the format |
| PackProperties.PackedRounds | src/dec64.c:177-203 | a result that is a number has the sign of c, an exponent no lower than e, and the coefficient c*10^e rounded to the nearest at that exponent; one exponent lower the rounded value would not fit, so no precision is lost needlessly |
| PackProperties.PackedCanonical | src/dec64.c:124-204 | whatever the arguments, the result is canonical: nan, zero, or a nonzero coefficient with an exponent in [-127, 127] |
| PackProperties.UnderflowRoundsToHuge | src/dec64.c:177-203 | as written, 5e-130 packs to a word that reads as 1e127; corrected, it packs to zero |
| PackProperties.RoundingOverflowMakesNonCanonicalNan | src/dec64.c:185-191 | as written, 360287970189639679e126 packs to a nan-tagged word other than 0x80; corrected, it packs to the canonical nan |
| PackProperties.WrappedProductPassesOverflowTest | src/dec64.c:146-152 | as written, 1844674407370955162e128 packs to 4e127, because ten times the coefficient wraps to 4; corrected, it packs to nan |
| PackProperties.ScaleToMinimum | src/dec64.c:158-174 | below exponent -127 the loop divides until exponent -127 and stops there at a quotient that fits |
| Add.AlignStart | src/dec64.c:276 | checkPowerOf10 on a 56-bit magnitude gives its digit count d, 1 <= d <= 17 |
| Add.AlignExact | src/dec64.c:279-290 | the alignment loop multiplies the magnitude by ten once for each step the exponent goes down; the exponent stays between the two operands' exponents and the magnitude below 10^18; the loop stops at the first exponent where the exponents match, where the magnitude has 18 digits, or, when the signs do not force it on, where ten times the magnitude would reach MAXNUM (the last step taken was still allowed) |
| Add.ShiftRound | src/dec64.c:304-307 | the rounded smaller magnitude is at most one more than the magnitude itself |
| Add.ShiftRoundNearest | src/dec64.c:299-308 | the division and carry round the smaller magnitude to the nearest multiple of 10^expdiff, a half up |
| Add.SumAlignedFar | src/dec64.c:293-297 | corrected, a smaller operand still more than 17 places away leaves the signed aligned operand, packed |
| Add.SumAlignedNear | src/dec64.c:299-322 | otherwise the smaller magnitude is rounded to the common exponent, to at most MAXNUM + 2, and the two are combined |
| Add.CombineNonzero | src/dec64.c:327-338 | when the rounded magnitude is not 0, the result is the sum or difference of the signed magnitudes, packed at the common exponent |
| Add.AddTailSplit | src/dec64.c:279-291 | after ordering, add_proc aligns the larger-exponent magnitude exactly, stopping where the loop stops (AlignedFrom), and continues from there |
| Add.AlignLoop | src/dec64.c:281-290 | the alignment `while` loop computes Align |
| Add.RoundDown | src/dec64.c:304-307 | the division by powers10[expdiff-1] and the rounding compute ShiftRound |
| Add.AlignedSum | src/dec64.c:269-338 | the steps after ordering compute the corrected AddTail |
| Add.SumMagnitudes | src/dec64.c:293-338 | the steps after alignment compute the corrected SumAligned |
| Add.CombineMagnitudes | src/dec64.c:324-338 | the last step computes the corrected Combine |
| Add.AddProc | src/dec64.c:222-340 | dec64_add_proc computes Added; the properties of Added are in AddProperties |
| Add.Add | src/dec64.c:386-389 | dec64_add is Added without subtraction |
| Add.Subtract | src/dec64.c:391-394 | dec64_subtract is Added with subtraction |
| Add.StepAtExponentZero | src/dec64.c:342-384 | at exponent 0, incrementing or decrementing the coefficient and packing gives the same as adding or subtracting one |
| Add.Inc | src/dec64.c:342-362 | dec64_inc equals the addition of one |
| Add.Dec | src/dec64.c:364-384 | dec64_dec equals the subtraction of one |
| AddProperties.AddedSpecial | src/dec64.c:228-241 | a nan operand gives nan; a zero augend gives the addend (packed and negated for a subtraction), or zero when both are zero; a zero addend gives the augend |
| AddProperties.CombineSum | src/dec64.c:324-338 | the last step forms SumOf: the sum or difference packed, or the operand with the larger exponent when the other rounds to 0 (negated when it is a subtrahend) |
| AddProperties.FarCase | src/dec64.c:293-297 | with a smaller operand more than 17 places below the aligned one, the result is the larger-exponent operand alone, exactly, at the aligned exponent (negated when it is a subtrahend) |
| AddProperties.NearCase | src/dec64.c:299-338 | otherwise the result is that operand exactly, combined with the other rounded to the nearest at the aligned exponent |
| AddProperties.AddTailAligned | src/dec64.c:256-338 | for two nonzero operands, the ordered sum is made at an exponent x between the two exponents, reached by exact alignment that stops at the first exponent where it meets the other exponent, where the magnitude has 18 digits, or (unless forced by the signs) where ten times the magnitude would reach MAXNUM; the larger operand is taken exactly; the smaller is rounded to the nearest at x, or dropped when more than 17 places below x |
| AddProperties.AddedEqualExponents | src/dec64.c:222-338 | at equal exponents the coefficients are added or subtracted exactly and packed once |
| AddProperties.AddSameExponent | src/dec64.c:222-338 | two nonzero coefficients built at one exponent add or subtract exactly, then pack |
| AddProperties.FarOperandNegligible | src/dec64.c:243-254 | when add_proc returns one operand because the other lies more than 17 places below it, the dropped coefficient's magnitude is below 10^(gap - 18), so the dropped number is below 10^-18 of a unit at the returned operand's exponent; a returned subtrahend is negated |
| AddProperties.AddedCanonical | src/dec64.c:222-340 | the corrected sum or difference of any two words is canonical |
| AddProperties.CombineCanonical | src/dec64.c:324-338 | the last step, given canonical operands, gives a canonical word |
| AddProperties.AddTailCanonical | src/dec64.c:256-338 | the ordered sum of canonical nonzero operands is canonical |
| AddProperties.AddTailInverted | src/dec64.c:256-267 | for an addition, the swap changes nothing: the ordered sum is the same whichever operand was the augend |
| AddProperties.AddedCommutative | src/dec64.c:386-389 | the corrected addition is commutative for all words |
| AddProperties.SubtractSelf | src/dec64.c:391-394 | any word other than a nan minus itself is zero |
| AddFindings.FarSumLosesSign | src/dec64.c:296-297 | as written, -36028797018963967e20 + 12345678901234567 gives +36028797018963967e20; corrected, it keeps the sign |
| AddFindings.SubtractMostNegative | src/dec64.c:253-254 | as written, 1 - (-36028797018963968e19) wraps to -36028797018963968e19; corrected, it gives 3602879701896397e20 |
| AddFindings.VanishedSubtrahendNotNegated | src/dec64.c:324-325 | as written, 1 - 36028797018963967e10 gives +36028797018963967e10; corrected, it gives the negation |
| AddFindings.NegativeAddendDropped | src/dec64.c:246-251 | as written, 1e18 + (-36028797018963967) returns 1e18 unchanged; corrected, it gives 9639712029810360e2 |
| AddFindings.FarAugendDropped | src/dec64.c:253-254 | as written, 36028797018963967 + 1e18 returns 1e18, while the swapped order gives 10360287970189640e2; corrected, both orders give 10360287970189640e2 |
| AddFindings.OneAtEighteen | src/dec64.c:279-338 | 1e18 plus or minus 36028797018963967 aligns to 10^16 at exponent 2 and adds the rounded 360287970189640 |
| TestHelpers.TruncDivExact | test/dec64_cpp_test.cpp:123-124 | `coefficient != coef * 10` with C's truncating division is exactly the remainder test |
| TestHelpers.TruncDivCoefficient | test/dec64_cpp_test.cpp:123 | truncating division by ten keeps a 56-bit coefficient within 56 bits |
| TestHelpers.ShrinkLoopSpec | test/dec64_cpp_test.cpp:121-129 | the `exponent < 0` loop strips trailing zero digits: it keeps the number, ends at an exponent in [e, 0], and stops below 0 only at a coefficient not divisible by ten |
| TestHelpers.GrowLoopSpec | test/dec64_cpp_test.cpp:130-139 | the `exponent > 0` loop moves powers of ten into the coefficient: it keeps the number, ends at an exponent in [0, e], and stops above 0 only when another factor of ten would not fit 56 bits |
| TestHelpers.NormalLoopSpec | test/dec64_cpp_test.cpp:118-139 | the loops of normal keep the number and leave a coefficient that fits, with the stop conditions above |
| TestHelpers.Normal | test/dec64_cpp_test.cpp:114-141 | the method with normal's two loops computes Normalized |
| TestHelpers.NormalizedSpec | test/dec64_cpp_test.cpp:114-141 | normal of a word other than a nan denotes the same number, in the normal form described by the stop conditions |
| TestHelpers.NormalizedIdempotent | test/dec64_cpp_test.cpp:114-141 | normalizing twice gives the same word as normalizing once |
| TestHelpers.NormalFormUnique | test/dec64_cpp_test.cpp:114-141 | two coefficient and exponent pairs in normal form that denote the same number are the same pair |
| TestHelpers.NormalizedSame | test/dec64_cpp_test.cpp:114-141 | two words other than nans have the same normal form if and only if they denote the same number |
| TestHelpers.CompareMeans | test/dec64_cpp_test.cpp:143-149 | for two words that are not nan-tagged, compare holds if and only if they denote the same number, zeros of any exponent included; for a pair with a nan-tagged word, if and only if the words are equal |
| TestHelpers.CompareEquivalence | test/dec64_cpp_test.cpp:143-149 | compare is reflexive, symmetric and transitive |
| TestCases.NewOneE1000 | test/dec64_cpp_test.cpp:1066 | Dec64(1, 1000) is nan |
| TestCases.NewMinusOneE128 | test/dec64_cpp_test.cpp:1069 | Dec64(-1, 128) is -10e127 |
| TestCases.NewOneEMinus128 | test/dec64_cpp_test.cpp:1070 | Dec64(1, -128) is zero |
| TestCases.NewMaxintEMinus143 | test/dec64_cpp_test.cpp:1093 | Dec64(36028797018963967, -143) is 4e-127 |
| TestCases.NewFiftyEMinus129 | test/dec64_cpp_test.cpp:1124 | Dec64(50, -129) rounds up to the smallest positive number, 1e-127 |
| TestCases.NewFortyNineEMinus129 | test/dec64_cpp_test.cpp:1123 | Dec64(49, -129) rounds down to zero |
| TestCases.NewMaxintEMinus144 | test/dec64_cpp_test.cpp:1094 | Dec64(36028797018963967, -144) is zero |
| TestCases.NewDropsTwoDigits | test/dec64_cpp_test.cpp:1099 | Dec64(3602879701896396701, 0) is 36028797018963967e2 |
| TestCases.AlmostOnePlusEpsilon | test/dec64_cpp_test.cpp:405 | 9999999999999999e-16 + 1e-16 is 10000000000000000e-16 |
| TestCases.ComparedWithOne | test/dec64_cpp_test.cpp:143-149 | 10000000000000000e-16 differs from one as a word, but compare finds them equal |
| TestCases.OnePlusEpsilon | test/dec64_cpp_test.cpp:410 | 1 + 1e-16 is 10000000000000001e-16: the alignment reaches exponent -16 |
| TestCases.OneE18PlusFortyFive | src/dec64.c:281-325 | 1e18 + 45 is 1e18: the alignment stops at exponent 2, where 45 rounds to 0 |
| TestCases.ZeroEqualsZip | test/dec64_cpp_test.cpp:614 | the word 250, a zero with exponent -6, is equal to zero under dec64_equal and compare |
| TestCases.HundredMinusCent | test/dec64_cpp_test.cpp:413 | 1e2 + (-1e-2) is 9999e-2 |
| TestCases.TenE10PlusTwentyE10 | test/dec64_cpp_test.cpp:414 | 10e10 + 20e10 is 30e10 |
| TestCases.NinesPlusOne | test/dec64_cpp_test.cpp:417 | 9999999999999999 + 1 is 10000000000000000 |
| TestCases.MaxintPlusOne | test/dec64_cpp_test.cpp:420 | 36028797018963967 + 1 is 3602879701896397e1 |
| TestCases.MaxintPlusMaxint | test/dec64_cpp_test.cpp:424 | 36028797018963967 + 36028797018963967 is 7205759403792793e1 |
| TestCases.MaxnumPlusOne | test/dec64_cpp_test.cpp:431 | 36028797018963967e127 + 1 is 36028797018963967e127 |
| TestCases.MaxnumPlusOneE127 | test/dec64_cpp_test.cpp:433 | 36028797018963967e127 + 1e127 is nan |
| TestCases.ExtremeZero | test/dec64_cpp_test.cpp:439 | 36028797018963967e127 + (-36028797018963967e127) is zero |
| TestCases.TenthPlusTwoTenths | test/dec64_cpp_test.cpp:447 | 0.1 + 0.2 is 3e-1 |
| TestCases.DecZeroAndOne | test/dec64_cpp_test.cpp:506-508 | dec64_dec(0) is -1 and dec64_dec(1) is 0 |
| TestCases.IncZero | test/dec64_cpp_test.cpp:712 | dec64_inc(0) is 1 |

## Left out

- Integer width: the magnitude of a negative coefficient is taken as a mathematical integer. In C, negating INT64_MIN wraps. The only such input is the coefficient -2^63 passed to dec64_pack; in the model its magnitude is 2^63 and it is scaled like any other.
- Signed overflow is undefined behaviour in C. Pack.PackedAsWritten takes the multiplication in the overflow test `tcoeff < 0` of dec64_pack's loop to wrap modulo 2^64, as that test presumes; Pack.Packed tests whether the product exceeds INT64_MAX.
- powers10 entries 20 and 21 (10^20 and 10^21) are never read and are not modelled. Entry 19 is modelled as 10^19 narrowed to 64 bits.
- `pow10coeff2` in dec64_add_proc is computed and never used. It is not modelled.
- `compare` ends with `Dec64::operator==`, which calls dec64_equal. dec64_equal exists only in assembly (src/dec64.cpp:76-78 calls it, src/dec64.c:862-891 holds it as text), so TestHelpers.Equal models it by what it documents: identical words are equal; otherwise two words that are not nan-tagged are equal when they denote the same number, zeros of every exponent included; nan words are equal only when identical. Its subtraction step is not modelled instruction by instruction.
- The C++ class `Dec64` (src/dec64.cpp) is used only as its constructor, which calls dec64_new, and its accessors. It is not modelled as a class.
- The rest of src/dec64.c holds multiplication, division, rounding and comparison in assembly text inside comments. These operations, and the test driver's printing and counting, are not part of this model.
- Pack.Pack, Add.AddProc, Add.Add, Add.Subtract, Add.Inc, Add.Dec: these methods implement the corrected behaviour (Packed, Added). The code as written is modelled by the functions Pack.PackedAsWritten and Add.AddedAsWritten. The differences are exhibited under "## Findings".
- AddProperties.AddedCommutative: proved for the corrected addition only. AddFindings.FarAugendDropped shows that the addition as written is not commutative.
- Nothing was compiled or executed; the model is checked only by the verifier.

## Findings

| source | as written | input that shows it | evidently intended | confidence | as-written member | corrected member |
|---|---|---|---|---|---|---|
| src/dec64.c:177-203 | after the loop has divided a magnitude to 0 below exponent -127, rounding can bring it back to 1; nothing re-checks the exponent, and dec64_build keeps only its low byte | dec64_pack(5, -130): the result reads as 1e127 | zero (the number underflows) | high; not executed | PackProperties.UnderflowRoundsToHuge | PackProperties.PackedZero |
| src/dec64.c:185-191 | rounding that overflows at exponent 127 raises the exponent to 128, whose low byte is the nan byte under a nonzero coefficient | dec64_pack(360287970189639679, 126) | the canonical nan 0x80 | high; not executed | PackProperties.RoundingOverflowMakesNonCanonicalNan | PackProperties.PackedCanonical |
| src/dec64.c:296-297 | when the smaller operand is still more than 17 places away after alignment, the aligned magnitude is packed without its sign | -36028797018963967e20 + 12345678901234567 | -36028797018963967e20 | high; not executed | AddFindings.FarSumLosesSign | AddProperties.AddTailAligned |
| src/dec64.c:253-254 | the negated subtrahend is built with a shift instead of being packed, so -(-2^55) wraps back to -2^55 | 1 - (-36028797018963968e19) | 3602879701896397e20 | high; not executed | AddFindings.SubtractMostNegative | AddProperties.AddedCanonical |
| src/dec64.c:324-325 | when the smaller operand rounds to 0 after a swap, the unchanged addend is returned even in a subtraction | 1 - 36028797018963967e10 | -36028797018963967e10 | high; not executed | AddFindings.VanishedSubtrahendNotNegated | AddProperties.AddTailAligned |
| src/dec64.c:246-251 | checkPowerOf10 is given the signed coefficient, which counts 0 digits for a negative one, so a far negative addend that matters is dropped | 1e18 + (-36028797018963967) | 9639712029810360e2 | high; not executed | AddFindings.NegativeAddendDropped | AddProperties.FarOperandNegligible |
| src/dec64.c:253-254 | when the augend has the smaller exponent, more than 17 places down, it is dropped without counting its digits, unlike the mirror case | 36028797018963967 + 1e18 | 10360287970189640e2, as the swapped order gives | high; not executed | AddFindings.FarAugendDropped | AddProperties.FarOperandNegligible |
| src/dec64.c:146-152 | the overflow test `tcoeff < 0` only catches a product that wraps to a negative value; one that wraps past 2^64 to a nonnegative value goes on being scaled | dec64_pack(1844674407370955162, 128): the result is 4e127 | nan (the number is too large) | high; not executed | PackProperties.WrappedProductPassesOverflowTest | PackProperties.PackedNan |
