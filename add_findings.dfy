/**
  Inputs on which dec64_add_proc as written (AddedAsWritten) departs from
  the behaviour its comments and the rest of the library describe, each
  next to what the corrected Added returns.
*/
module AddFindings {
  import opened Powers
  import opened Encoding
  import opened Pack
  import opened PackProperties
  import opened Add

  /** The digits of MAXNUM and of 12345678901234567: 17 each. */
  lemma SeventeenDigits()
    ensures PowerIndex(MaxNum) == 17 && PowerIndex(12345678901234567) == 17
  {
    LargePowers();
    PowerIndexOf(MaxNum, 17);
    PowerIndexOf(12345678901234567, 17);
  }

  /** Aligning MAXNUM, with `force` set, stops after one step at 18 digits. */
  lemma AlignMaxForced(e1: int, e2: int)
    requires e1 > e2
    ensures Align(MaxNum, e1, e2, 17, true) == (MaxNum * 10, e1 - 1)
  {
  }

  /** Aligning 10^(k-1) from exponent 19 - k down to 0 stops at 10^16, the last power below MAXNUM. */
  lemma {:induction false} AlignPowersOfTen(k: nat)
    requires 1 <= k <= 17
    ensures Align(Pow10(k - 1), 19 - k, 0, k, false) == (10_000_000_000_000_000, 2)
    decreases 17 - k
  {
    LargePowers();
    if k < 17 {
      Pow10Monotone(k, 16);
      assert Pow10(k) == Pow10(k - 1) * 10;
      AlignPowersOfTen(k + 1);
    }
  }

  /**
    -36028797018963967e20 + 12345678901234567: the augend is aligned to
    exponent 19 and the addend is too far below to matter, but the
    aligned magnitude is packed without its sign, so the sum comes out
    positive.  The corrected sum is the augend itself.
  */
  lemma FarSumLosesSign()
    ensures AddedAsWritten(Build(-MaxNum, 20), Build(12345678901234567, 0), false) == Build(MaxNum, 20)
    ensures Added(Build(-MaxNum, 20), Build(12345678901234567, 0), false) == Build(-MaxNum, 20)
  {
    var x, y := Build(-MaxNum, 20), Build(12345678901234567, 0);
    FarSumPath(true);
    FarSumPath(false);
    FarSumTail(x, y, true);
    FarSumTail(x, y, false);
    PackTenMaxNum();
  }

  /** Neither operand is nan or zero, and the addend is not dropped early. */
  lemma FarSumPath(asWritten: bool)
    ensures var x, y := Build(-MaxNum, 20), Build(12345678901234567, 0);
      AddedWith(asWritten, x, y, false) == AddTail(-MaxNum, 20, 12345678901234567, 0, false, false, x, y, asWritten)
  {
    BuildFields(-MaxNum, 20);
    BuildFields(12345678901234567, 0);
    SeventeenDigits();
  }

  lemma FarSumTail(x: int, y: int, asWritten: bool)
    requires IsInt64(y)
    ensures AddTail(-MaxNum, 20, 12345678901234567, 0, false, false, x, y, asWritten)
      == PackWith(asWritten, if asWritten then MaxNum * 10 else -MaxNum * 10, 19)
  {
    SeventeenDigits();
    AlignMaxForced(20, 0);
  }

  /** Ten times MAXNUM at exponent 19 packs, exactly, to MAXNUM at exponent 20. */
  lemma PackTenMaxNum()
    ensures PackedAsWritten(MaxNum * 10, 19) == Build(MaxNum, 20)
    ensures Packed(-MaxNum * 10, 19) == Build(-MaxNum, 20)
  {
    assert ScaleLoop(MaxNum * 10, 19, MaxNum) == Fits(MaxNum, 20);
    assert ScaleLoop(MaxNum * 10, 19, MaxNum + 1) == Fits(MaxNum, 20);
  }

  /**
    1 - (-36028797018963968e19): the subtrahend is too far above to be
    affected, and the code builds its negation with a shift that does not
    fit 64 bits, so the difference comes back as the subtrahend itself.
    The corrected difference packs the negation: 3602879701896397e20.
  */
  lemma SubtractMostNegative()
    ensures AddedAsWritten(Build(1, 0), Build(-(MaxNum + 1), 19), true) == Build(-(MaxNum + 1), 19)
    ensures Added(Build(1, 0), Build(-(MaxNum + 1), 19), true) == Build(3602879701896397, 20)
  {
    BuildFields(1, 0);
    BuildFields(-(MaxNum + 1), 19);
    PowerIndexOf(1, 1);
    assert Build(MaxNum + 1, 19) == Build(-(MaxNum + 1), 19);
    assert ScaleLoop(MaxNum + 1, 19, MaxNum) == Fits(3602879701896396, 20);
    assert RoundStep(MaxNum + 1, 19, 3602879701896396, 20, MaxNum) == (3602879701896397, 20);
  }

  /**
    1 - 36028797018963967e10: the operands are swapped, the subtrahend is
    aligned to exponent 9 and the 1 rounds away to 0; the code then returns
    the subtrahend instead of its negation.  The corrected difference is
    -36028797018963967e10.
  */
  lemma VanishedSubtrahendNotNegated()
    ensures AddedAsWritten(Build(1, 0), Build(MaxNum, 10), true) == Build(MaxNum, 10)
    ensures Added(Build(1, 0), Build(MaxNum, 10), true) == Build(-MaxNum, 10)
  {
    var x, y := Build(1, 0), Build(MaxNum, 10);
    VanishedPath(true);
    VanishedPath(false);
    VanishedTail(x, y, true);
    VanishedTail(x, y, false);
    BuildFields(MaxNum, 10);
    PackedExact(-MaxNum, 10);
  }

  lemma VanishedTail(x: int, y: int, asWritten: bool)
    requires IsInt64(y)
    ensures AddTail(MaxNum, 10, 1, 0, true, true, x, y, asWritten)
      == Combine(MaxNum * 10, 9, false, false, 0, true, true, x, y, asWritten)
  {
    SeventeenDigits();
    AlignMaxForced(10, 0);
    assert ShiftRound(1, 9) == 0 by {
      assert Pow10(8) == 100_000_000;
    }
  }

  lemma VanishedPath(asWritten: bool)
    ensures var x, y := Build(1, 0), Build(MaxNum, 10);
      AddedWith(asWritten, x, y, true) == AddTail(MaxNum, 10, 1, 0, true, true, x, y, asWritten)
  {
    BuildFields(1, 0);
    BuildFields(MaxNum, 10);
  }

  /** MAXNUM rounded to a multiple of 100. */
  lemma ShiftRoundMaxNum()
    ensures ShiftRound(MaxNum, 2) == 360287970189640
  {
    assert Pow10(1) == 10;
  }

  /**
    1e18 plus or minus MAXNUM at exponent 0: 1 is aligned to 10^16 at
    exponent 2, and MAXNUM rounds to 360287970189640 there.
  */
  lemma OneAtEighteen(c2: int, inverted: bool, augend: int, addend: int, asWritten: bool)
    requires c2 == MaxNum || c2 == -MaxNum
    requires IsInt64(addend)
    ensures AddTail(1, 18, c2, 0, false, inverted, augend, addend, asWritten)
      == PackWith(asWritten, 10_000_000_000_000_000 + (if c2 < 0 then -360287970189640 else 360287970189640), 2)
  {
    PowerIndexOf(1, 1);
    AlignPowersOfTen(1);
    ShiftRoundMaxNum();
  }

  /**
    1e18 + -36028797018963967: checkPowerOf10 is given the signed addend,
    finds no digits in a negative number, and the addend, which matters in
    the 16th digit, is dropped.  The corrected sum is 9639712029810360e2.
  */
  lemma NegativeAddendDropped()
    ensures AddedAsWritten(Build(1, 18), Build(-MaxNum, 0), false) == Build(1, 18)
    ensures Added(Build(1, 18), Build(-MaxNum, 0), false) == Build(9639712029810360, 2)
  {
    var x, y := Build(1, 18), Build(-MaxNum, 0);
    BuildFields(1, 18);
    BuildFields(-MaxNum, 0);
    SeventeenDigits();
    assert PowerIndex(-MaxNum) == 0;
    assert Added(x, y, false) == AddTail(1, 18, -MaxNum, 0, false, false, x, y, false);
    OneAtEighteen(-MaxNum, false, x, y, false);
    PackedExact(9639712029810360, 2);
  }

  /**
    36028797018963967 + 1e18: with the augend the smaller operand, the code
    returns the addend at once, without the digit test it applies the
    other way round, although the augend matters in the 16th digit.  The
    same operands the other way round, and the corrected sum, give
    10360287970189640e2; addition as written is not commutative.
  */
  lemma FarAugendDropped()
    ensures AddedAsWritten(Build(MaxNum, 0), Build(1, 18), false) == Build(1, 18)
    ensures AddedAsWritten(Build(1, 18), Build(MaxNum, 0), false) == Build(10360287970189640, 2)
    ensures Added(Build(MaxNum, 0), Build(1, 18), false) == Build(10360287970189640, 2)
  {
    var x, y := Build(MaxNum, 0), Build(1, 18);
    FarAugendPath();
    OneAtEighteen(MaxNum, false, y, x, true);
    OneAtEighteen(MaxNum, true, x, y, false);
    assert ScaleLoop(10360287970189640, 2, MaxNum) == Fits(10360287970189640, 2);
    PackedExact(10360287970189640, 2);
  }

  lemma FarAugendPath()
    ensures var x, y := Build(MaxNum, 0), Build(1, 18);
      AddedAsWritten(x, y, false) == y &&
      AddedAsWritten(y, x, false) == AddTail(1, 18, MaxNum, 0, false, false, y, x, true) &&
      Added(x, y, false) == AddTail(1, 18, MaxNum, 0, false, true, x, y, false)
  {
    BuildFields(MaxNum, 0);
    BuildFields(1, 18);
    SeventeenDigits();
  }
}
