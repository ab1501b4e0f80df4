/**
  Worked cases from the C++ test driver: each lemma pins the model to the
  value the test expects for one row of the test tables.
*/
module TestCases {
  import opened Powers
  import opened Encoding
  import opened Pack
  import opened PackProperties
  import opened Add
  import opened AddProperties
  import opened TestHelpers

  /** Dec64(-1, 128) is -10e127: the exponent is brought down by one. */
  lemma NewMinusOneE128()
    ensures Packed(-1, 128) == Build(-10, 127)
  {
  }

  /** Dec64(1, 1000) is nan. */
  lemma NewOneE1000()
    ensures Packed(1, 1000) == Nan
  {
    LargePowers();
    Pow10Monotone(17, 873);
    PackedNan(1, 1000);
  }

  /** Dec64(1, -128) underflows to zero. */
  lemma NewOneEMinus128()
    ensures Packed(1, -128) == Zero
  {
    PackedZero(1, -128);
  }

  /** Dec64(36028797018963967, -144) underflows to zero: every digit is lost. */
  lemma NewMaxintEMinus144()
    ensures Packed(MaxNum, -144) == Zero
  {
    LargePowers();
    PackedZero(MaxNum, -144);
  }

  /** Dec64(36028797018963967, -143) keeps one rounded digit at exponent -127. */
  lemma NewMaxintEMinus143()
    ensures Packed(MaxNum, -143) == Build(4, -127)
  {
    LargePowers();
    assert Pow10(15) == 1_000_000_000_000_000;
    ScaleToMinimum(MaxNum, -143);
    assert RoundStep(MaxNum, -143, 3, -127, MaxNum) == (4, -127);
  }

  /** 50e-129 rounds up to the smallest positive number, 1e-127. */
  lemma NewFiftyEMinus129()
    ensures Packed(50, -129) == Build(1, -MaxExp)
  {
    assert ScaleLoop(50, -129, MaxNum) == Fits(0, -MaxExp);
    assert RoundStep(50, -129, 0, -MaxExp, MaxNum) == (1, -MaxExp);
  }

  /** 49e-129 rounds down to zero. */
  lemma NewFortyNineEMinus129()
    ensures Packed(49, -129) == Zero
  {
    assert ScaleLoop(49, -129, MaxNum) == Fits(0, -MaxExp);
    assert RoundStep(49, -129, 0, -MaxExp, MaxNum) == (0, -MaxExp);
  }

  /** Dec64(3602879701896396701, 0) drops two digits, rounding the first of them. */
  lemma NewDropsTwoDigits()
    ensures Packed(3602879701896396701, 0) == Build(MaxNum, 2)
  {
  }

  /** 10e10 + 20e10 = 30e10. */
  lemma TenE10PlusTwentyE10()
    ensures Added(Packed(10, 10), Packed(20, 10), false) == Packed(30, 10)
  {
    PackedExact(10, 10);
    PackedExact(20, 10);
    AddSameExponent(10, 20, 10, false);
  }

  /** 0.1 + 0.2 = 0.3, exactly. */
  lemma TenthPlusTwoTenths()
    ensures Added(Packed(1, -1), Packed(2, -1), false) == Packed(3, -1)
  {
    PackedExact(1, -1);
    PackedExact(2, -1);
    AddSameExponent(1, 2, -1, false);
  }

  /** 9999999999999999 + 1 carries into a seventeenth digit. */
  lemma NinesPlusOne()
    ensures Added(Build(9999999999999999, 0), One, false) == Build(10000000000000000, 0)
  {
    AddSameExponent(9999999999999999, 1, 0, false);
    PackedExact(10000000000000000, 0);
  }

  /** maxint + maxint loses its last digit to rounding. */
  lemma MaxintPlusMaxint()
    ensures Added(Build(MaxNum, 0), Build(MaxNum, 0), false) == Build(7205759403792793, 1)
  {
    AddSameExponent(MaxNum, MaxNum, 0, false);
  }

  /** maxnum + 1e127 overflows the exponent. */
  lemma MaxnumPlusOneE127()
    ensures Added(Build(MaxNum, MaxExp), Build(1, MaxExp), false) == Nan
  {
    AddSameExponent(MaxNum, 1, MaxExp, false);
    PackedNan(MaxNum + 1, MaxExp);
  }

  /** maxnum + -36028797018963967e127 is zero. */
  lemma ExtremeZero()
    ensures Added(Build(MaxNum, MaxExp), Build(-MaxNum, MaxExp), false) == Zero
  {
    AddSameExponent(MaxNum, -MaxNum, MaxExp, false);
  }

  /** dec64_inc(0) = 1. */
  lemma IncZero()
    ensures Added(Zero, One, false) == One
  {
    AddedSpecial(Zero, One, false);
  }

  /** dec64_dec(0) = -1 and dec64_dec(1) = 0. */
  lemma DecZeroAndOne()
    ensures Added(Zero, One, true) == NegativeOne
    ensures Added(One, One, true) == Zero
  {
    BuildFields(1, 0);
    AddedSpecial(Zero, One, true);
    AddSameExponent(1, 1, 0, true);
  }

  /** 100 - 0.01 = 99.99: the augend is scaled to the addend's exponent. */
  lemma HundredMinusCent()
    ensures Added(Build(1, 2), Build(-1, -2), false) == Build(9999, -2)
  {
    var augend, addend := Build(1, 2), Build(-1, -2);
    BuildFields(1, 2);
    BuildFields(-1, -2);
    PowerIndexOf(1, 1);
    assert Align(1, 2, -2, 1, false) == (10000, -2);
    assert Added(augend, addend, false) == AddTail(1, 2, -1, -2, false, false, augend, addend, false);
    assert AddTail(1, 2, -1, -2, false, false, augend, addend, false)
        == SumAligned(10000, -2, false, -1, -2, false, false, augend, addend, false);
    SumAlignedNear(10000, -2, false, -1, -2, false, false, augend, addend, true, 1);
    CombineNonzero(10000, -2, false, true, 1, false, false, augend, addend, 9999);
    PackedExact(9999, -2);
  }

  /**
    1 + 1e-16 keeps every digit: ten times 10^15 is still below MAXNUM, so
    the alignment reaches exponent -16.
  */
  lemma OnePlusEpsilon()
    ensures Added(One, Build(1, -16), false) == Build(10000000000000001, -16)
  {
    var augend, addend := One, Build(1, -16);
    BuildFields(1, 0);
    BuildFields(1, -16);
    assert Added(augend, addend, false) == AddTail(1, 0, 1, -16, false, false, augend, addend, false);
    var x := AddTailAligned(1, 0, 1, -16, false, false, augend, addend);
    LargePowers();
    if x > -16 {
      Pow10Monotone(-x, 15);
      assert false;
    }
    NearestZero(1);
    PackedExact(10000000000000001, -16);
  }

  /**
    1e18 + 45 is 1e18: the alignment stops at exponent 2, the first where
    ten times the magnitude would reach MAXNUM, and 45 rounds to 0 there.
  */
  lemma OneE18PlusFortyFive()
    ensures Added(Build(1, 18), Build(45, 0), false) == Build(1, 18)
  {
    var augend, addend := Build(1, 18), Build(45, 0);
    BuildFields(1, 18);
    BuildFields(45, 0);
    PowerIndexOf(45, 2);
    assert Added(augend, addend, false) == AddTail(1, 18, 45, 0, false, false, augend, addend, false);
    var x := AddTailAligned(1, 18, 45, 0, false, false, augend, addend);
    LargePowers();
    if x == 0 || x == 1 {
      assert false;
    }
    if x > 2 {
      Pow10Monotone(18 - x, 15);
      assert false;
    }
    ShiftRoundNearest(45, 2);
    assert ShiftRound(45, 2) == 0;
  }

  /** maxnum + 1: the addend is too far below to matter. */
  lemma MaxnumPlusOne()
    ensures Added(Build(MaxNum, MaxExp), One, false) == Build(MaxNum, MaxExp)
  {
    BuildFields(MaxNum, MaxExp);
    BuildFields(1, 0);
    PowerIndexOf(1, 1);
  }

  /** maxint + 1 no longer fits the coefficient and is rounded at exponent 1. */
  lemma MaxintPlusOne()
    ensures Added(Build(MaxNum, 0), One, false) == Build(3602879701896397, 1)
  {
    AddSameExponent(MaxNum, 1, 0, false);
    assert ScaleLoop(MaxNum + 1, 0, MaxNum) == Fits(3602879701896396, 1);
  }

  /** almost_one + epsilon is 10000000000000000e-16. */
  lemma AlmostOnePlusEpsilon()
    ensures Added(Build(9999999999999999, -16), Build(1, -16), false) == Build(10000000000000000, -16)
  {
    AddSameExponent(9999999999999999, 1, -16, false);
    PackedExact(10000000000000000, -16);
  }

  /**
    10000000000000000e-16 does not have the bits of one, but the test
    driver's compare finds it equal to one.
  */
  lemma ComparedWithOne()
    ensures Build(10000000000000000, -16) != One
    ensures Compare(Build(10000000000000000, -16), One)
  {
    var v := Build(10000000000000000, -16);
    BuildFields(10000000000000000, -16);
    BuildFields(1, 0);
    LargePowers();
    MagnifiedShift(1, -16, 16);
    CompareMeans(v, One);
  }

  /** The word 250 is a zero with exponent -6: dec64_equal and compare find it equal to zero. */
  lemma ZeroEqualsZip()
    ensures Zero != 250 && Equal(Zero, 250) && Compare(Zero, 250)
  {
    assert Coefficient(250) == 0 && Exponent(250) == -6;
  }
}
