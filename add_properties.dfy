/**
  What dec64_add_proc (corrected, as Added) promises: the special cases
  for nan and zero, exact addition at equal exponents, the alignment and
  rounding it performs otherwise, canonical results, commutativity of
  addition and x - x = 0.  Then the inputs on which the code as written
  (AddedAsWritten) departs from that.
*/
module AddProperties {
  import opened Powers
  import opened Encoding
  import opened Pack
  import opened PackProperties
  import opened Add

  /**
    A nan operand gives nan; two zero operands give zero; a zero augend
    gives the addend, or the subtrahend negated and packed; a zero addend
    gives the augend unchanged.
  */
  lemma AddedSpecial(x: int, y: int, subtraction: bool)
    requires IsInt64(x) && IsInt64(y)
    ensures IsNan(x) || IsNan(y) ==> Added(x, y, subtraction) == Nan
    ensures !IsNan(x) && !IsNan(y) && Coefficient(x) == 0 ==>
      Added(x, y, subtraction) ==
        if Coefficient(y) == 0 then Zero
        else if subtraction then Packed(-Coefficient(y), Exponent(y))
        else y
    ensures !IsNan(x) && !IsNan(y) && Coefficient(x) != 0 && Coefficient(y) == 0 ==>
      Added(x, y, subtraction) == x
  {
  }

  /** Rounding to a multiple of 10^0 changes nothing. */
  lemma NearestZero(a: int)
    ensures Nearest(a, 0) == a
  {
    RoundsToUnique(a, 0, a, Nearest(a, 0));
  }

  /**
    The sum when the smaller operand is too far away: the operand with the
    larger exponent, exactly, at exponent x, negated for a subtrahend.
  */
  predicate FarSum(c1: int, e1: int, x: int, subtraction: bool, inverted: bool, v: int)
    requires -MaxExp <= x <= e1 <= MaxExp
  {
    var m1 := c1 * Pow10(e1 - x);
    -1_000_000_000_000_000_000 < m1 < 1_000_000_000_000_000_000 &&
    v == Packed(if subtraction && inverted then -m1 else m1, x)
  }

  /**
    The sum of m1 and the magnitude r with sign neg2 at exponent x, as the
    last step of add_proc forms it: if r is 0, the operand with the larger
    exponent, negated for a subtrahend; otherwise the sum or difference,
    packed.
  */
  predicate SumOf(m1: int, r: int, neg2: bool, x: int, subtraction: bool, inverted: bool,
                  augend: int, addend: int, v: int)
    requires -1_000_000_000_000_000_000 < m1 < 1_000_000_000_000_000_000 && 0 <= r <= MaxNum + 2
    requires -MaxExp <= x <= MaxExp && IsInt64(addend)
  {
    var n2 := if neg2 then -r else r;
    v == if r == 0 then
           (if subtraction && inverted then Packed(-Coefficient(addend), Exponent(addend))
            else if inverted then addend
            else augend)
         else
           Packed(if subtraction then (if inverted then n2 - m1 else m1 - n2) else m1 + n2, x)
  }

  /**
    The sum otherwise: the operand with the larger exponent, exactly, and
    the other rounded to the nearest multiple of 10^x (a half away from
    zero), combined as SumOf says.
  */
  predicate NearSum(c1: int, e1: int, c2: int, e2: int, x: int, subtraction: bool, inverted: bool,
                    augend: int, addend: int, v: int)
    requires -MaxExp <= e2 <= x <= e1 <= MaxExp && IsInt64(addend)
  {
    var m1 := c1 * Pow10(e1 - x);
    var r := Nearest(Abs(c2), x - e2);
    -1_000_000_000_000_000_000 < m1 < 1_000_000_000_000_000_000 && 0 <= r <= MaxNum + 2 &&
    SumOf(m1, r, c2 < 0, x, subtraction, inverted, augend, addend, v)
  }

  /** Combine, corrected, forms SumOf its signed magnitudes. */
  lemma CombineSum(b1: int, x: int, neg1: bool, neg2: bool, b2: int, subtraction: bool, inverted: bool,
                   augend: int, addend: int, m1: int)
    requires 1 <= b1 < 1_000_000_000_000_000_000 && 0 <= b2 <= MaxNum + 2 && -MaxExp <= x <= MaxExp
    requires IsInt64(addend) && m1 == if neg1 then -b1 else b1
    ensures SumOf(m1, b2, neg2, x, subtraction, inverted, augend, addend,
                  Combine(b1, x, neg1, neg2, b2, subtraction, inverted, augend, addend, false))
  {
    if b2 != 0 {
      var n2 := if neg2 then -b2 else b2;
      var result := if subtraction then (if inverted then n2 - m1 else m1 - n2) else m1 + n2;
      CombineNonzero(b1, x, neg1, neg2, b2, subtraction, inverted, augend, addend, result);
    }
  }

  /** The signed coefficient scaled as its magnitude was. */
  lemma ScaledSign(c1: int, p: int, b1: int)
    requires b1 == Abs(c1) * p
    ensures c1 * p == if c1 < 0 then -b1 else b1
  {
    if c1 < 0 {
      assert c1 * p == -(Abs(c1) * p);
    }
  }

  lemma FarCase(c1: int, e1: int, b1: int, x: int, c2: int, e2: int, subtraction: bool, inverted: bool,
                augend: int, addend: int)
    requires IsCoefficient(c2) && c2 != 0 && IsInt64(addend)
    requires -MaxExp <= e2 && e1 <= MaxExp && AlignedFrom(Abs(c1), e1, e2, Forced(subtraction, c1 < 0, c2 < 0), (b1, x))
    requires x - e2 > MaxGap
    ensures FarSum(c1, e1, x, subtraction, inverted,
                   SumAligned(b1, x, c1 < 0, c2, e2, subtraction, inverted, augend, addend, false))
  {
    ScaledSign(c1, Pow10(e1 - x), b1);
    var signed := if (c1 < 0) != (subtraction && inverted) then -b1 else b1;
    SumAlignedFar(b1, x, c1 < 0, c2, e2, subtraction, inverted, augend, addend, signed);
  }

  lemma NearCase(c1: int, e1: int, b1: int, x: int, c2: int, e2: int, subtraction: bool, inverted: bool,
                 augend: int, addend: int)
    requires IsCoefficient(c2) && c2 != 0 && IsInt64(addend)
    requires -MaxExp <= e2 && e1 <= MaxExp && AlignedFrom(Abs(c1), e1, e2, Forced(subtraction, c1 < 0, c2 < 0), (b1, x))
    requires x - e2 <= MaxGap
    ensures NearSum(c1, e1, c2, e2, x, subtraction, inverted, augend, addend,
                    SumAligned(b1, x, c1 < 0, c2, e2, subtraction, inverted, augend, addend, false))
  {
    var m1 := c1 * Pow10(e1 - x);
    ScaledSign(c1, Pow10(e1 - x), b1);
    var b2 := if x - e2 > 0 then ShiftRound(Abs(c2), x - e2) else Abs(c2);
    SumAlignedNear(b1, x, c1 < 0, c2, e2, subtraction, inverted, augend, addend, c2 < 0, b2);
    if x - e2 > 0 {
      ShiftRoundNearest(Abs(c2), x - e2);
    } else {
      NearestZero(Abs(c2));
    }
    CombineSum(b1, x, c1 < 0, c2 < 0, b2, subtraction, inverted, augend, addend, m1);
  }

  /**
    What add_proc computes once the operands are ordered, e1 >= e2: it
    scales the operand with the larger exponent, exactly, down to an
    exponent x between the two, stopping only at e2, at 18 digits or (when
    not forced) below MAXNUM; FarSum when x is still more than 17 above e2,
    NearSum otherwise.
  */
  lemma AddTailAligned(c1: int, e1: int, c2: int, e2: int, subtraction: bool, inverted: bool,
                       augend: int, addend: int) returns (x: int)
    requires IsCoefficient(c1) && IsCoefficient(c2) && c1 != 0 && c2 != 0
    requires -MaxExp <= e2 <= e1 <= MaxExp
    requires IsInt64(addend)
    ensures e2 <= x <= e1
    ensures AlignedFrom(Abs(c1), e1, e2, Forced(subtraction, c1 < 0, c2 < 0), (Abs(c1) * Pow10(e1 - x), x))
    ensures x - e2 > MaxGap ==>
      FarSum(c1, e1, x, subtraction, inverted, AddTail(c1, e1, c2, e2, subtraction, inverted, augend, addend, false))
    ensures x - e2 <= MaxGap ==>
      NearSum(c1, e1, c2, e2, x, subtraction, inverted, augend, addend,
              AddTail(c1, e1, c2, e2, subtraction, inverted, augend, addend, false))
  {
    var b1;
    b1, x := AddTailSplit(c1, e1, c2, e2, subtraction, inverted, augend, addend);
    if x - e2 > MaxGap {
      FarCase(c1, e1, b1, x, c2, e2, subtraction, inverted, augend, addend);
    } else {
      NearCase(c1, e1, b1, x, c2, e2, subtraction, inverted, augend, addend);
    }
  }

  /** At equal exponents the coefficients are added or subtracted exactly, then packed once. */
  lemma AddedEqualExponents(x: int, y: int, subtraction: bool)
    requires IsInt64(x) && IsInt64(y) && !IsNan(x) && Exponent(x) == Exponent(y)
    requires Coefficient(x) != 0 && Coefficient(y) != 0
    ensures Added(x, y, subtraction) ==
      Packed(if subtraction then Coefficient(x) - Coefficient(y) else Coefficient(x) + Coefficient(y),
             Exponent(x))
  {
    var c1, c2, e := Coefficient(x), Coefficient(y), Exponent(x);
    AddedInOrder(x, y, subtraction);
    AddTailInPlace(c1, e, c2, subtraction, x, y);
    SumAlignedInPlace(c1, e, c2, subtraction, x, y);
  }

  /** Two nonzero operands at one exponent are added or subtracted exactly, then packed. */
  lemma AddSameExponent(c1: int, c2: int, e: int, subtraction: bool)
    requires IsCoefficient(c1) && IsCoefficient(c2) && c1 != 0 && c2 != 0
    requires -MaxExp <= e <= MaxExp
    ensures Added(Build(c1, e), Build(c2, e), subtraction) == Packed(if subtraction then c1 - c2 else c1 + c2, e)
  {
    var x, y := Build(c1, e), Build(c2, e);
    BuildFields(c1, e);
    BuildFields(c2, e);
    assert !IsNan(x) && Coefficient(x) == c1 && Coefficient(y) == c2 && Exponent(x) == Exponent(y) == e;
    AddedEqualExponents(x, y, subtraction);
    var sum := if subtraction then Coefficient(x) - Coefficient(y) else Coefficient(x) + Coefficient(y);
    assert sum == if subtraction then c1 - c2 else c1 + c2;
  }

  lemma SumAlignedInPlace(c1: int, e: int, c2: int, subtraction: bool, augend: int, addend: int)
    requires IsCoefficient(c1) && IsCoefficient(c2) && c1 != 0 && c2 != 0
    requires -MaxExp <= e <= MaxExp && IsInt64(addend)
    ensures SumAligned(Abs(c1), e, c1 < 0, c2, e, subtraction, false, augend, addend, false)
      == Packed(if subtraction then c1 - c2 else c1 + c2, e)
  {
    SumAlignedNear(Abs(c1), e, c1 < 0, c2, e, subtraction, false, augend, addend, c2 < 0, Abs(c2));
    var result := if subtraction then c1 - c2 else c1 + c2;
    CombineNonzero(Abs(c1), e, c1 < 0, c2 < 0, Abs(c2), subtraction, false, augend, addend, result);
  }

  lemma AddedInOrder(x: int, y: int, subtraction: bool)
    requires IsInt64(x) && IsInt64(y) && !IsNan(x) && Exponent(x) == Exponent(y)
    requires Coefficient(x) != 0 && Coefficient(y) != 0
    ensures Added(x, y, subtraction) ==
      AddTail(Coefficient(x), Exponent(x), Coefficient(y), Exponent(x), subtraction, false, x, y, false)
  {
  }

  /** Alignment between equal exponents leaves the magnitude alone. */
  lemma AddTailInPlace(c1: int, e: int, c2: int, subtraction: bool, augend: int, addend: int)
    requires IsCoefficient(c1) && IsCoefficient(c2) && c1 != 0 && c2 != 0
    requires -MaxExp <= e <= MaxExp && IsInt64(addend)
    ensures AddTail(c1, e, c2, e, subtraction, false, augend, addend, false)
      == SumAligned(Abs(c1), e, c1 < 0, c2, e, subtraction, false, augend, addend, false)
  {
    var b1, x := AddTailSplit(c1, e, c2, e, subtraction, false, augend, addend);
    assert Pow10(0) == 1;
  }

  /** Addition and subtraction return canonical numbers when given canonical numbers. */
  lemma AddedCanonical(x: int, y: int, subtraction: bool)
    requires Canonical(x) && Canonical(y)
    ensures Canonical(Added(x, y, subtraction))
  {
    var e1, e2 := Exponent(x), Exponent(y);
    if e1 != NanExp && e2 != NanExp {
      var c1, c2 := Coefficient(x), Coefficient(y);
      if c1 == 0 && c2 != 0 && subtraction {
        PackedCanonical(-c2, e2);
      } else if c1 != 0 && c2 != 0 {
        if e2 - e1 > MaxGap && e2 - e1 - PowerIndex(Abs(c1)) > MaxGap {
          PackedCanonical(-c2, e2);
        } else if e1 < e2 {
          AddTailCanonical(c2, e2, c1, e1, subtraction, true, x, y);
        } else {
          AddTailCanonical(c1, e1, c2, e2, subtraction, false, x, y);
        }
      }
    }
  }

  lemma CombineCanonical(b1: int, x: int, neg1: bool, neg2: bool, b2: int, subtraction: bool, inverted: bool,
                         augend: int, addend: int)
    requires 1 <= b1 < 1_000_000_000_000_000_000 && 0 <= b2 <= MaxNum + 2 && -MaxExp <= x <= MaxExp
    requires Canonical(augend) && Canonical(addend) && IsInt64(addend)
    ensures Canonical(Combine(b1, x, neg1, neg2, b2, subtraction, inverted, augend, addend, false))
  {
    if b2 == 0 {
      if subtraction && inverted {
        PackedCanonical(-Coefficient(addend), Exponent(addend));
      }
    } else {
      var s1 := if neg1 then -b1 else b1;
      var s2 := if neg2 then -b2 else b2;
      var result := if subtraction then (if inverted then s2 - s1 else s1 - s2) else s1 + s2;
      CombineNonzero(b1, x, neg1, neg2, b2, subtraction, inverted, augend, addend, result);
      PackedCanonical(result, x);
    }
  }

  lemma AddTailCanonical(c1: int, e1: int, c2: int, e2: int, subtraction: bool, inverted: bool,
                         augend: int, addend: int)
    requires IsCoefficient(c1) && IsCoefficient(c2) && c1 != 0 && c2 != 0
    requires -MaxExp <= e2 <= e1 <= MaxExp
    requires Canonical(augend) && Canonical(addend) && IsInt64(addend)
    ensures Canonical(AddTail(c1, e1, c2, e2, subtraction, inverted, augend, addend, false))
  {
    var b1, x := AddTailSplit(c1, e1, c2, e2, subtraction, inverted, augend, addend);
    var neg1 := c1 < 0;
    if x - e2 > MaxGap {
      var signed := if neg1 != (subtraction && inverted) then -b1 else b1;
      SumAlignedFar(b1, x, neg1, c2, e2, subtraction, inverted, augend, addend, signed);
      PackedCanonical(signed, x);
    } else {
      var b2 := if x - e2 > 0 then ShiftRound(Abs(c2), x - e2) else Abs(c2);
      SumAlignedNear(b1, x, neg1, c2, e2, subtraction, inverted, augend, addend, c2 < 0, b2);
      CombineCanonical(b1, x, neg1, c2 < 0, b2, subtraction, inverted, augend, addend);
    }
  }

  /** With the operands swapped, addition takes the same path with `inverted` flipped. */
  lemma AddTailInverted(c1: int, e1: int, c2: int, e2: int, augend: int, addend: int)
    requires IsCoefficient(c1) && IsCoefficient(c2) && c1 != 0 && c2 != 0
    requires -MaxExp <= e2 <= e1 <= MaxExp
    requires IsInt64(augend) && IsInt64(addend)
    ensures AddTail(c1, e1, c2, e2, false, true, augend, addend, false)
      == AddTail(c1, e1, c2, e2, false, false, addend, augend, false)
  {
    var b1, x := AddTailSplit(c1, e1, c2, e2, false, true, augend, addend);
    var b1', x' := AddTailSplit(c1, e1, c2, e2, false, false, addend, augend);
    var neg1 := c1 < 0;
    if x - e2 > MaxGap {
      var signed := if neg1 then -b1 else b1;
      SumAlignedFar(b1, x, neg1, c2, e2, false, true, augend, addend, signed);
      SumAlignedFar(b1, x, neg1, c2, e2, false, false, addend, augend, signed);
    } else {
      var b2 := if x - e2 > 0 then ShiftRound(Abs(c2), x - e2) else Abs(c2);
      SumAlignedNear(b1, x, neg1, c2, e2, false, true, augend, addend, c2 < 0, b2);
      SumAlignedNear(b1, x, neg1, c2, e2, false, false, addend, augend, c2 < 0, b2);
      if b2 != 0 {
        var result := (if neg1 then -b1 else b1) + (if c2 < 0 then -b2 else b2);
        CombineNonzero(b1, x, neg1, c2 < 0, b2, false, true, augend, addend, result);
        CombineNonzero(b1, x, neg1, c2 < 0, b2, false, false, addend, augend, result);
      }
    }
  }

  /**
    The bigger number is not affected: when add_proc returns an operand
    because the other lies more than 17 places below it, the magnitude of
    the dropped coefficient is below 10^(gap - 18), so the dropped number is
    below 10^(e - 18) for the exponent e of the operand returned.  A
    subtrahend is returned negated.
  */
  lemma FarOperandNegligible(x: int, y: int, subtraction: bool)
    requires IsInt64(x) && IsInt64(y) && !IsNan(x) && !IsNan(y)
    requires Coefficient(x) != 0 && Coefficient(y) != 0
    ensures var c1, e1, c2, e2 := Coefficient(x), Exponent(x), Coefficient(y), Exponent(y);
      e1 - e2 > MaxGap && e1 - e2 - PowerIndex(Abs(c2)) > MaxGap ==>
        Added(x, y, subtraction) == x && e1 - e2 > 18 && Abs(c2) < Pow10(e1 - e2 - 18)
    ensures var c1, e1, c2, e2 := Coefficient(x), Exponent(x), Coefficient(y), Exponent(y);
      e2 - e1 > MaxGap && e2 - e1 - PowerIndex(Abs(c1)) > MaxGap ==>
        Added(x, y, subtraction) == (if subtraction then Packed(-c2, e2) else y) &&
        e2 - e1 > 18 && Abs(c1) < Pow10(e2 - e1 - 18)
  {
    var c1, e1, c2, e2 := Coefficient(x), Exponent(x), Coefficient(y), Exponent(y);
    AlignStart(Abs(c1));
    AlignStart(Abs(c2));
    if e1 - e2 > MaxGap && e1 - e2 - PowerIndex(Abs(c2)) > MaxGap {
      Pow10Monotone(PowerIndex(Abs(c2)), e1 - e2 - 18);
    }
    if e2 - e1 > MaxGap && e2 - e1 - PowerIndex(Abs(c1)) > MaxGap {
      Pow10Monotone(PowerIndex(Abs(c1)), e2 - e1 - 18);
    }
  }

  /** Addition is commutative. */
  lemma AddedCommutative(x: int, y: int)
    requires IsInt64(x) && IsInt64(y)
    ensures Added(x, y, false) == Added(y, x, false)
  {
    var e1, e2 := Exponent(x), Exponent(y);
    if e1 != NanExp && e2 != NanExp {
      var c1, c2 := Coefficient(x), Coefficient(y);
      if c1 != 0 && c2 != 0 {
        if e1 == e2 {
          AddedEqualExponents(x, y, false);
          AddedEqualExponents(y, x, false);
        } else if e1 < e2 {
          AddTailInverted(c2, e2, c1, e1, x, y);
        } else {
          AddTailInverted(c1, e1, c2, e2, y, x);
        }
      }
    }
  }

  /** A number minus itself is zero, whatever its exponent. */
  lemma SubtractSelf(x: int)
    requires IsInt64(x) && !IsNan(x)
    ensures Added(x, x, true) == Zero
  {
    if Coefficient(x) != 0 {
      AddedEqualExponents(x, x, true);
    }
  }
}
