/**
  dec64_add_proc and the operations built on it: dec64_add, dec64_subtract,
  dec64_inc and dec64_dec.

  AddedWith describes add_proc once, with a flag choosing between the code
  as written and the corrected behaviour; Added is the corrected one, which
  the methods implement and the lemmas are about.
*/
module Add {
  import opened Powers
  import opened Encoding
  import opened Pack
  import opened PackProperties

  /** The exponent gap beyond which the smaller operand is ignored. */
  const MaxGap: int := 17

  /**
    The alignment loop of dec64_add_proc: scale the magnitude of the operand
    with the larger exponent up by ten, lowering its exponent, while the
    product stays below MAXNUM (or `force` holds), the exponent is still
    above the other one and fewer than 18 digits have been counted.
  */
  function Align(a1: int, e1: int, e2: int, digits: int, force: bool): (int, int)
    decreases 18 - digits
  {
    if (a1 * 10 < MaxNum || force) && e1 > e2 && digits < 18 then
      Align(a1 * 10, e1 - 1, e2, digits + 1, force)
    else
      (a1, e1)
  }

  /** checkPowerOf10 counts the digits of a magnitude that fits 56 bits. */
  lemma AlignStart(a: int)
    requires 1 <= a <= MaxNum + 1
    ensures 1 <= PowerIndex(a) <= 17
    ensures Pow10(PowerIndex(a) - 1) <= a < Pow10(PowerIndex(a))
  {
    LargePowers();
    Pow10Monotone(17, 18);
    DecimalDigitsBounds(a);
    var d := DecimalDigits(a);
    if d > 17 {
      Pow10Monotone(17, d - 1);
    }
  }

  /**
    The operand signs under which the alignment loop goes on scaling past
    MAXNUM: a subtraction of two nonnegative operands, or a negative operand
    with the larger exponent and a nonnegative one with the smaller.
  */
  predicate Forced(subtraction: bool, neg1: bool, neg2: bool) {
    (subtraction && !neg1 && !neg2) || (neg1 && !neg2)
  }

  /**
    Alignment is exact: the magnitude is multiplied by ten once for each
    step the exponent goes down, the exponent stays between the two
    operands' exponents, and the magnitude stays below 10^18.  It stops
    at the first exponent where the exponents match, where the magnitude
    has 18 digits, or, unless forced, where ten times the magnitude would
    reach MAXNUM: the last step taken, if any, was still allowed.
  */
  predicate AlignedFrom(a1: int, e1: int, e2: int, force: bool, aligned: (int, int)) {
    var (b, x) := aligned;
    e2 <= x <= e1 && b == a1 * Pow10(e1 - x) && 1 <= b < 1_000_000_000_000_000_000 &&
    (x == e2 || b >= 100_000_000_000_000_000 || (!force && b * 10 >= MaxNum)) &&
    (x == e1 || force || b < MaxNum)
  }

  lemma {:induction false} AlignExact(a1: int, e1: int, e2: int, digits: int, force: bool)
    requires 1 <= digits <= 18 && Pow10(digits - 1) <= a1 < Pow10(digits)
    requires e2 <= e1
    ensures AlignedFrom(a1, e1, e2, force, Align(a1, e1, e2, digits, force))
    decreases 18 - digits
  {
    if (a1 * 10 < MaxNum || force) && e1 > e2 && digits < 18 {
      var t := a1 * 10;
      MulLe(Pow10(digits - 1), a1, 10);
      MulLe(a1 + 1, Pow10(digits), 10);
      assert Pow10(digits) <= t < Pow10(digits + 1);
      AlignExact(t, e1 - 1, e2, digits + 1, force);
      var (b, x) := Align(t, e1 - 1, e2, digits + 1, force);
      var P := Pow10(e1 - 1 - x);
      assert Pow10(e1 - x) == 10 * P;
      assert b == t * P;
      MulAssoc(a1, 10, P);
    } else {
      Pow10Monotone(digits, 18);
      if digits == 18 {
        assert a1 >= Pow10(17);
      }
      LargePowers();
    }
  }

  /**
    The rounding of the other magnitude to the aligned exponent: divide by
    10^(expdiff-1), then round the last digit away half up.
  */
  function ShiftRound(a2: int, expdiff: int): (r: int)
    requires a2 >= 0 && 1 <= expdiff <= MaxGap
    ensures 0 <= r <= a2 + 1
  {
    var q := a2 / Pow10(expdiff - 1);
    DivLe(a2, Pow10(expdiff - 1));
    DivLe(q, 10);
    var round := q % 10;
    (q + (if round >= 5 then 10 - round else 0)) / 10
  }

  /** ShiftRound rounds to the nearest multiple of 10^expdiff, a half rounded up. */
  lemma ShiftRoundNearest(a2: int, expdiff: int)
    requires a2 >= 0 && 1 <= expdiff <= MaxGap
    ensures ShiftRound(a2, expdiff) == Nearest(a2, expdiff)
  {
    var p := Pow10(expdiff - 1);
    var q := a2 / p;
    DivPow10(a2, expdiff - 1, 1);
    assert expdiff - 1 + 1 == expdiff;
    assert q / 10 == a2 / Pow10(expdiff);
    var up := if q % 10 >= 5 then 1 else 0;
    DivUnique(q + (if q % 10 >= 5 then 10 - q % 10 else 0), 10, q / 10 + up, if up == 1 then 0 else q % 10);
    RoundHalfUp(a2, expdiff);
    RoundsToUnique(a2, expdiff, a2 / Pow10(expdiff) + up, Nearest(a2, expdiff));
  }

  /** SumAligned, corrected, when the smaller operand is too far away to matter. */
  lemma SumAlignedFar(b1: int, x: int, neg1: bool, c2: int, e2: int, subtraction: bool, inverted: bool,
                      augend: int, addend: int, signed: int)
    requires 1 <= b1 < 1_000_000_000_000_000_000 && -MaxExp <= e2 <= x <= MaxExp
    requires IsCoefficient(c2) && c2 != 0 && IsInt64(addend)
    requires x - e2 > MaxGap && signed == if neg1 != (subtraction && inverted) then -b1 else b1
    ensures IsInt64(signed)
    ensures SumAligned(b1, x, neg1, c2, e2, subtraction, inverted, augend, addend, false) == Packed(signed, x)
  {
  }

  /** SumAligned, corrected, once the smaller operand has been rounded to b2. */
  lemma SumAlignedNear(b1: int, x: int, neg1: bool, c2: int, e2: int, subtraction: bool, inverted: bool,
                       augend: int, addend: int, neg2: bool, b2: int)
    requires 1 <= b1 < 1_000_000_000_000_000_000 && -MaxExp <= e2 <= x <= MaxExp
    requires IsCoefficient(c2) && c2 != 0 && IsInt64(addend)
    requires x - e2 <= MaxGap && neg2 == (c2 < 0)
    requires b2 == if x - e2 > 0 then ShiftRound(Abs(c2), x - e2) else Abs(c2)
    ensures 0 <= b2 <= MaxNum + 2
    ensures SumAligned(b1, x, neg1, c2, e2, subtraction, inverted, augend, addend, false)
      == Combine(b1, x, neg1, neg2, b2, subtraction, inverted, augend, addend, false)
  {
  }

  /** Combine, corrected, when the smaller operand did not round away. */
  lemma CombineNonzero(b1: int, x: int, neg1: bool, neg2: bool, b2: int, subtraction: bool, inverted: bool,
                       augend: int, addend: int, result: int)
    requires 1 <= b1 < 1_000_000_000_000_000_000 && 0 < b2 <= MaxNum + 2 && -MaxExp <= x <= MaxExp
    requires IsInt64(addend)
    requires var s1, s2 := (if neg1 then -b1 else b1), (if neg2 then -b2 else b2);
      result == if subtraction then (if inverted then s2 - s1 else s1 - s2) else s1 + s2
    ensures IsInt64(result)
    ensures Combine(b1, x, neg1, neg2, b2, subtraction, inverted, augend, addend, false) == Packed(result, x)
  {
  }

  /** dec64_pack, as written or corrected. */
  function PackWith(asWritten: bool, c: int, e: int): int
    requires IsInt64(c) && IsInt64(e)
  {
    if asWritten then PackedAsWritten(c, e) else Packed(c, e)
  }

  /**
    add_proc after the operands have been ordered so that e1 >= e2:
    `inverted` says they were swapped, so that c1 belongs to the addend.
  */
  function AddTail(c1: int, e1: int, c2: int, e2: int, subtraction: bool, inverted: bool,
                   augend: int, addend: int, asWritten: bool): int
    requires IsCoefficient(c1) && IsCoefficient(c2) && c1 != 0 && c2 != 0
    requires -MaxExp <= e2 <= e1 <= MaxExp
    requires IsInt64(addend)
  {
    var neg1, neg2 := c1 < 0, c2 < 0;
    var force := Forced(subtraction, neg1, neg2);
    AlignStart(Abs(c1));
    AlignExact(Abs(c1), e1, e2, PowerIndex(Abs(c1)), force);
    var aligned := Align(Abs(c1), e1, e2, PowerIndex(Abs(c1)), force);
    SumAligned(aligned.0, aligned.1, neg1, c2, e2, subtraction, inverted, augend, addend, asWritten)
  }

  /** AddTail, corrected, with the alignment it performs named: magnitude b1 at exponent x. */
  lemma AddTailSplit(c1: int, e1: int, c2: int, e2: int, subtraction: bool, inverted: bool,
                     augend: int, addend: int) returns (b1: int, x: int)
    requires IsCoefficient(c1) && IsCoefficient(c2) && c1 != 0 && c2 != 0
    requires -MaxExp <= e2 <= e1 <= MaxExp
    requires IsInt64(addend)
    ensures AlignedFrom(Abs(c1), e1, e2, Forced(subtraction, c1 < 0, c2 < 0), (b1, x))
    ensures AddTail(c1, e1, c2, e2, subtraction, inverted, augend, addend, false)
      == SumAligned(b1, x, c1 < 0, c2, e2, subtraction, inverted, augend, addend, false)
  {
    var force := Forced(subtraction, c1 < 0, c2 < 0);
    AlignStart(Abs(c1));
    AlignExact(Abs(c1), e1, e2, PowerIndex(Abs(c1)), force);
    var (b, y) := Align(Abs(c1), e1, e2, PowerIndex(Abs(c1)), force);
    b1, x := b, y;
  }

  /**
    The rest of add_proc once the magnitude b1 of the operand with the
    larger exponent has been aligned to exponent x.  As written, a smaller
    operand too far away packs b1 without its sign; the corrected behaviour
    keeps the sign.
  */
  function SumAligned(b1: int, x: int, neg1: bool, c2: int, e2: int, subtraction: bool, inverted: bool,
                      augend: int, addend: int, asWritten: bool): int
    requires 1 <= b1 < 1_000_000_000_000_000_000 && -MaxExp <= e2 <= x <= MaxExp
    requires IsCoefficient(c2) && c2 != 0 && IsInt64(addend)
  {
    var expdiff := x - e2;
    if expdiff > MaxGap then
      PackWith(asWritten, if !asWritten && neg1 != (subtraction && inverted) then -b1 else b1, x)
    else
      var b2 := if expdiff > 0 then ShiftRound(Abs(c2), expdiff) else Abs(c2);
      Combine(b1, x, neg1, c2 < 0, b2, subtraction, inverted, augend, addend, asWritten)
  }

  /**
    The last step of add_proc, on the two magnitudes at the common
    exponent x.  As written, a smaller operand that rounded away returns
    the unswapped operand even for a subtraction; the corrected behaviour
    negates the subtrahend.
  */
  function Combine(b1: int, x: int, neg1: bool, neg2: bool, b2: int, subtraction: bool, inverted: bool,
                   augend: int, addend: int, asWritten: bool): int
    requires 1 <= b1 < 1_000_000_000_000_000_000 && 0 <= b2 <= MaxNum + 2 && -MaxExp <= x <= MaxExp
    requires IsInt64(addend)
  {
    if b2 == 0 then
      if !asWritten && subtraction && inverted then Packed(-Coefficient(addend), Exponent(addend))
      else if inverted then addend
      else augend
    else
      var s1 := if neg1 then -b1 else b1;
      var s2 := if neg2 then -b2 else b2;
      var result := if subtraction then (if inverted then s2 - s1 else s1 - s2) else s1 + s2;
      PackWith(asWritten, result, x)
  }

  /**
    dec64_add_proc.  As written, the test that lets a far smaller addend go
    counts the digits of the signed coefficient, which is 0 for a negative
    one, and there is no such test at all when the augend is the smaller
    operand; the corrected behaviour counts the digits of the magnitude in
    both directions, and packs the negated subtrahend instead of building
    it, which overflows for -2^55.
  */
  function AddedWith(asWritten: bool, augend: int, addend: int, subtraction: bool): int
    requires IsInt64(augend) && IsInt64(addend)
  {
    var e1, e2 := Exponent(augend), Exponent(addend);
    if e1 == NanExp || e2 == NanExp then Nan
    else
      var c1, c2 := Coefficient(augend), Coefficient(addend);
      if c1 == 0 then
        (if c2 == 0 then Zero else if subtraction then PackWith(asWritten, -c2, e2) else addend)
      else if c2 == 0 then augend
      else if e1 - e2 > MaxGap && e1 - e2 - PowerIndex(if asWritten then c2 else Abs(c2)) > MaxGap then augend
      else if e2 - e1 > MaxGap && (asWritten || e2 - e1 - PowerIndex(Abs(c1)) > MaxGap) then
        (if !subtraction then addend else if asWritten then Build(-c2, e2) else Packed(-c2, e2))
      else if e1 < e2 then AddTail(c2, e2, c1, e1, subtraction, true, augend, addend, asWritten)
      else AddTail(c1, e1, c2, e2, subtraction, false, augend, addend, asWritten)
  }

  /** add_proc with the corrections described at AddedWith. */
  function Added(augend: int, addend: int, subtraction: bool): int
    requires IsInt64(augend) && IsInt64(addend)
  {
    AddedWith(false, augend, addend, subtraction)
  }

  /** add_proc exactly as written. */
  function AddedAsWritten(augend: int, addend: int, subtraction: bool): int
    requires IsInt64(augend) && IsInt64(addend)
  {
    AddedWith(true, augend, addend, subtraction)
  }

  /** The alignment loop of dec64_add_proc, on the magnitude with the larger exponent. */
  method AlignLoop(coeff: int, exp1: int, exp2: int, digits: int, force: bool) returns (c: int, e: int)
    requires digits <= 18
    ensures (c, e) == Align(coeff, exp1, exp2, digits, force)
  {
    c, e := coeff, exp1;
    var pow10coeff1 := digits;
    var tcoeff1 := c * 10;
    var texp1 := e - 1;
    while (tcoeff1 < MaxNum || force) && e > exp2 && pow10coeff1 < 18
      invariant tcoeff1 == c * 10 && texp1 == e - 1
      invariant Align(c, e, exp2, pow10coeff1, force) == Align(coeff, exp1, exp2, digits, force)
      decreases 18 - pow10coeff1
    {
      c := tcoeff1;
      e := texp1;
      tcoeff1 := tcoeff1 * 10;
      texp1 := texp1 - 1;
      pow10coeff1 := pow10coeff1 + 1;
    }
  }

  /** The `expdiff > 0` block of dec64_add_proc: drop expdiff digits, rounding. */
  method RoundDown(coeff2: int, expdiff: int) returns (c: int)
    requires coeff2 >= 0 && 1 <= expdiff <= MaxGap
    ensures c == ShiftRound(coeff2, expdiff)
  {
    c := coeff2 / Powers10[expdiff - 1];
    Powers10Table(expdiff - 1);
    var round := c % 10;
    c := c + (if round >= 5 then 10 - round else 0);
    c := c / 10;
  }

  /**
    dec64_add_proc from the point where coeff1/exp1 hold the operand with
    the larger exponent: align, round the other operand, add and pack.
  */
  method AlignedSum(coeff1: int, exp1: int, coeff2: int, exp2: int, subtraction: bool, inverted: bool,
                    augend: int, addend: int) returns (r: int)
    requires IsCoefficient(coeff1) && IsCoefficient(coeff2) && coeff1 != 0 && coeff2 != 0
    requires -MaxExp <= exp2 <= exp1 <= MaxExp
    requires IsInt64(addend)
    ensures r == AddTail(coeff1, exp1, coeff2, exp2, subtraction, inverted, augend, addend, false)
  {
    var neg1, neg2 := coeff1 < 0, coeff2 < 0;
    var a1 := if neg1 then -coeff1 else coeff1;
    var pow10coeff1 := CheckPowerOf10(a1);
    var force := Forced(subtraction, neg1, neg2);
    var b1, x := AlignLoop(a1, exp1, exp2, pow10coeff1, force);
    assert 1 <= b1 < 1_000_000_000_000_000_000 && exp2 <= x <= exp1 by {
      AlignStart(a1);
      AlignExact(a1, exp1, exp2, pow10coeff1, force);
    }
    assert a1 == Abs(coeff1) && pow10coeff1 == PowerIndex(Abs(coeff1));
    assert AddTail(coeff1, exp1, coeff2, exp2, subtraction, inverted, augend, addend, false)
      == SumAligned(b1, x, neg1, coeff2, exp2, subtraction, inverted, augend, addend, false);

    r := SumMagnitudes(b1, x, neg1, coeff2, exp2, subtraction, inverted, augend, addend);
  }

  /**
    The rest of dec64_add_proc: round the operand with the smaller exponent
    to the aligned exponent x, then add or subtract and pack.
  */
  method SumMagnitudes(b1: int, x: int, neg1: bool, coeff2: int, exp2: int, subtraction: bool, inverted: bool,
                       augend: int, addend: int) returns (r: int)
    requires 1 <= b1 < 1_000_000_000_000_000_000 && -MaxExp <= exp2 <= x <= MaxExp
    requires IsCoefficient(coeff2) && coeff2 != 0 && IsInt64(addend)
    ensures r == SumAligned(b1, x, neg1, coeff2, exp2, subtraction, inverted, augend, addend, false)
  {
    var neg2 := coeff2 < 0;
    var a2 := if neg2 then -coeff2 else coeff2;
    var expdiff := x - exp2;
    if expdiff > MaxGap {
      var signed := if neg1 != (subtraction && inverted) then -b1 else b1;
      SumAlignedFar(b1, x, neg1, coeff2, exp2, subtraction, inverted, augend, addend, signed);
      r := Pack.Pack(signed, x);
      return;
    }
    var b2 := a2;
    if expdiff > 0 {
      b2 := RoundDown(a2, expdiff);
    }
    SumAlignedNear(b1, x, neg1, coeff2, exp2, subtraction, inverted, augend, addend, neg2, b2);
    r := CombineMagnitudes(b1, x, neg1, neg2, b2, subtraction, inverted, augend, addend);
  }

  /** The end of dec64_add_proc: restore the signs, add or subtract, and pack. */
  method CombineMagnitudes(b1: int, x: int, neg1: bool, neg2: bool, b2: int, subtraction: bool, inverted: bool,
                           augend: int, addend: int) returns (r: int)
    requires 1 <= b1 < 1_000_000_000_000_000_000 && 0 <= b2 <= MaxNum + 2 && -MaxExp <= x <= MaxExp
    requires IsInt64(addend)
    ensures r == Combine(b1, x, neg1, neg2, b2, subtraction, inverted, augend, addend, false)
  {
    if b2 == 0 {
      if subtraction && inverted {
        r := Pack.Pack(-Coefficient(addend), Exponent(addend));
        return;
      }
      return if inverted then addend else augend;
    }
    var s1 := if neg1 then -b1 else b1;
    var s2 := if neg2 then -b2 else b2;
    var result := if subtraction then (if inverted then s2 - s1 else s1 - s2) else s1 + s2;
    CombineNonzero(b1, x, neg1, neg2, b2, subtraction, inverted, augend, addend, result);
    r := Pack.Pack(result, x);
  }

  /** dec64_add_proc, with the corrections of Added. */
  method AddProc(augend: int, addend: int, subtraction: bool) returns (r: int)
    requires IsInt64(augend) && IsInt64(addend)
    ensures r == Added(augend, addend, subtraction)
  {
    var exp1, exp2 := Exponent(augend), Exponent(addend);
    if exp1 == NanExp || exp2 == NanExp {
      return Nan;
    }
    var coeff1, coeff2 := Coefficient(augend), Coefficient(addend);
    if coeff1 == 0 {
      if coeff2 == 0 {
        return Zero;
      }
      if subtraction {
        r := Pack.Pack(-coeff2, exp2);
        return;
      }
      return addend;
    }
    if coeff2 == 0 {
      return augend;
    }
    if exp1 - exp2 > MaxGap {
      var k := CheckPowerOf10(Abs(coeff2));
      if exp1 - exp2 - k > MaxGap {
        return augend;
      }
    }
    if exp2 - exp1 > MaxGap {
      var k := CheckPowerOf10(Abs(coeff1));
      if exp2 - exp1 - k > MaxGap {
        if subtraction {
          r := Pack.Pack(-coeff2, exp2);
          return;
        }
        return addend;
      }
    }
    // keep the larger exponent in exp1
    var inverted := false;
    if exp1 < exp2 {
      exp1, exp2 := exp2, exp1;
      coeff1, coeff2 := coeff2, coeff1;
      inverted := true;
    }
    r := AlignedSum(coeff1, exp1, coeff2, exp2, subtraction, inverted, augend, addend);
  }

  /** dec64_add. */
  method Add(augend: int, addend: int) returns (r: int)
    requires IsInt64(augend) && IsInt64(addend)
    ensures r == Added(augend, addend, false)
  {
    r := AddProc(augend, addend, false);
  }

  /** dec64_subtract. */
  method Subtract(minuend: int, subtrahend: int) returns (r: int)
    requires IsInt64(minuend) && IsInt64(subtrahend)
    ensures r == Added(minuend, subtrahend, true)
  {
    r := AddProc(minuend, subtrahend, true);
  }

  /**
    At exponent 0 the fast path of dec64_inc and dec64_dec, packing the
    coefficient plus or minus one, agrees with adding or subtracting one.
  */
  lemma StepAtExponentZero(v: int)
    requires IsInt64(v) && Exponent(v) == 0
    ensures Added(v, One, false) == Packed(Coefficient(v) + 1, 0)
    ensures Added(v, One, true) == Packed(Coefficient(v) - 1, 0)
  {
    assert Coefficient(One) == 1 && Exponent(One) == 0;
    if Coefficient(v) == 0 {
      PackedExact(1, 0);
    }
  }

  /** dec64_inc: add one, at exponent 0 without aligning. */
  method Inc(augend: int) returns (r: int)
    requires IsInt64(augend)
    ensures r == Added(augend, One, false)
  {
    var exp := Exponent(augend);
    if exp == NanExp {
      return Nan;
    }
    if exp != 0 {
      r := Add(augend, One);
      return;
    }
    var coeff := Coefficient(augend);
    coeff := coeff + 1;
    r := Pack.Pack(coeff, exp);
    StepAtExponentZero(augend);
  }

  /** dec64_dec: subtract one, at exponent 0 without aligning. */
  method Dec(minuend: int) returns (r: int)
    requires IsInt64(minuend)
    ensures r == Added(minuend, One, true)
  {
    var exp := Exponent(minuend);
    if exp == NanExp {
      return Nan;
    }
    if exp != 0 {
      r := Subtract(minuend, One);
      return;
    }
    var coeff := Coefficient(minuend);
    coeff := coeff - 1;
    r := Pack.Pack(coeff, exp);
    StepAtExponentZero(minuend);
  }
}
