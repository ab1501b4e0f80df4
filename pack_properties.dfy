/**
  What dec64_pack computes, stated about the number a coefficient and an
  exponent denote: a result that is exact when the exponent is too large,
  rounded to the nearest when digits have to be dropped, as precise as the
  56-bit coefficient allows, zero exactly when the number underflows and nan
  exactly when it is too large.  Then the inputs on which dec64_pack as
  written (PackedAsWritten) departs from that.
*/
module PackProperties {
  import opened Powers
  import opened Encoding
  import opened Pack

  /** 3602879701896397: the coefficient dec64_pack settles on when rounding pushes a magnitude past maxval. */
  const RoundedOverflow: int := 3602879701896397

  /**
    Above exponent 127 the loop only multiplies: the result is the exact
    coefficient at exponent 127, or nan when it does not fit maxval.
  */
  lemma {:induction false} ScaleUp(a: int, exp: int, maxval: int)
    requires 0 <= a && exp > MaxExp && 0 <= maxval <= Int64Max
    ensures ScaleLoop(a, exp, maxval) ==
      (if a * Pow10(exp - MaxExp) <= maxval then Fits(a * Pow10(exp - MaxExp), MaxExp) else Overflow)
    decreases exp
  {
    var k := exp - MaxExp;
    assert Pow10(k) == 10 * Pow10(k - 1);
    if a * 10 > Int64Max {
      Pow10Monotone(1, k);
      MulLe(10, Pow10(k), a);
    } else if exp - 1 > MaxExp {
      ScaleUp(a * 10, exp - 1, maxval);
      assert (a * 10) * Pow10(k - 1) == a * Pow10(k);
    }
  }

  /**
    The state of the loop after it has divided the magnitude a, given at
    exponent e0, down to exponent x: each division it made was needed, because
    the quotient before it was nonzero and either too large or below exponent
    -127.
  */
  predicate DownState(a: int, e0: int, x: int, maxval: int) {
    e0 <= x <= MaxExp && x - e0 <= 19 &&
    (x > e0 ==>
      var previous := a / Pow10(x - e0 - 1);
      previous != 0 && (previous > maxval || x - 1 < -MaxExp))
  }

  /** The magnitude of an int64, 2^63 at most, survives at most 19 divisions by ten. */
  lemma StepsBound(a: int, n: nat)
    requires 1 <= a <= -Int64Min && n > 0 && a / Pow10(n - 1) != 0
    ensures n <= 19
  {
    if n - 1 >= 19 {
      LargePowers();
      DivPow10Small(a, 19, n - 1);
    }
  }

  /**
    What the dividing half of the loop guarantees about where it stops: nan
    only when even the quotient at exponent 127 exceeds maxval; otherwise a
    quotient reached by needed divisions (at most 19), that fits at an
    exponent of at least -127 or is 0 below -127.
  */
  predicate ScaledDown(a: int, e0: int, s: Scaled, maxval: int)
    requires e0 <= MaxExp
  {
    match s
    case Overflow => a / Pow10(MaxExp - e0) > maxval
    case Fits(c, y) =>
      DownState(a, e0, y, maxval) && c == a / Pow10(y - e0) &&
      ((c <= maxval && y >= -MaxExp) || (c == 0 && y < -MaxExp)) &&
      (c == 0 ==> e0 < y <= -MaxExp)
  }

  /** One division of the loop keeps DownState. */
  lemma DownStep(a: int, e0: int, x: int, maxval: int)
    requires 1 <= a <= -Int64Min && DownState(a, e0, x, maxval) && x < MaxExp
    requires var c := a / Pow10(x - e0); c != 0 && (c > maxval || x < -MaxExp)
    ensures DownState(a, e0, x + 1, maxval)
    ensures a / Pow10(x + 1 - e0) == a / Pow10(x - e0) / 10
  {
    var n := x - e0;
    DivPow10(a, n, 1);
    assert Pow10(1) == 10;
    assert x + 1 - e0 == n + 1;
    StepsBound(a, n + 1);
  }

  /** Where the loop stops without dividing again, ScaledDown holds. */
  lemma DownStop(a: int, e0: int, x: int, maxval: int)
    requires 1 <= a && 10 <= maxval && DownState(a, e0, x, maxval)
    requires var c := a / Pow10(x - e0); (c <= maxval && x >= -MaxExp) || (c == 0 && x < -MaxExp)
    ensures ScaledDown(a, e0, Fits(a / Pow10(x - e0), x), maxval)
  {
    var n := x - e0;
    if a / Pow10(n) == 0 {
      if n > 0 && -MaxExp <= x - 1 {
        // the quotient one exponent lower exceeded maxval, so this one is not 0
        DivPow10(a, n - 1, 1);
      }
    }
  }

  /** The dividing half of the loop, from any state it can reach, stops as ScaledDown says. */
  lemma {:induction false} ScaleDown(a: int, e0: int, x: int, maxval: int)
    requires 1 <= a <= -Int64Min && 10 <= maxval && DownState(a, e0, x, maxval)
    ensures ScaledDown(a, e0, ScaleLoop(a / Pow10(x - e0), x, maxval), maxval)
    decreases MaxExp - x
  {
    var c := a / Pow10(x - e0);
    if c > maxval || x < -MaxExp {
      if x == MaxExp {
        assert ScaleLoop(c, x, maxval) == Overflow;
      } else if c == 0 {
        assert ScaleLoop(c, x, maxval) == Fits(c, x);
        DownStop(a, e0, x, maxval);
      } else {
        DownStep(a, e0, x, maxval);
        assert ScaleLoop(c, x, maxval) == ScaleLoop(a / Pow10(x + 1 - e0), x + 1, maxval);
        ScaleDown(a, e0, x + 1, maxval);
      }
    } else {
      assert ScaleLoop(c, x, maxval) == Fits(c, x);
      DownStop(a, e0, x, maxval);
    }
  }

  /**
    Rounding a magnitude that has reached maxval + 1 at scale 10^n, by
    dropping one more digit, gives RoundedOverflow at scale 10^(n+1).
  */
  lemma OverflowRound(a: int, n: nat, up: int)
    requires up == MaxNum + 1 || up == MaxNum + 2
    requires RoundsTo(a, n, up)
    ensures RoundsTo(a, n + 1, RoundedOverflow)
  {
    var P := Pow10(n);
    assert Pow10(n + 1) == 10 * P;
    assert (2 * RoundedOverflow - 1) * (10 * P) == 72057594037927930 * P;
    assert (2 * RoundedOverflow + 1) * (10 * P) == 72057594037927950 * P;
    if up == MaxNum + 1 {
      assert (2 * up - 1) * P == 72057594037927935 * P;
      assert (2 * up + 1) * P == 72057594037927937 * P;
    } else {
      assert (2 * up - 1) * P == 72057594037927937 * P;
      assert (2 * up + 1) * P == 72057594037927939 * P;
    }
  }

  /**
    What the rounding step leaves, given where the loop stopped at exponent
    x: a magnitude r at exponent y (x or, when rounding reached maxval + 1,
    x + 1) that is a/10^(y-e0) rounded to the nearest; 0 or 1 below exponent
    -127; and one exponent lower the rounded magnitude would not have fitted.
  */
  predicate RoundedUp(a: int, e0: int, x: int, r: int, y: int, maxval: int) {
    0 <= r <= maxval && x <= y <= x + 1 && e0 <= y && RoundsTo(a, y - e0, r) &&
    (y == x + 1 ==> e0 <= x && RoundsTo(a, x - e0, maxval + 1)) &&
    (x < -MaxExp ==> r <= 1 && y == x) &&
    (r == 0 ==> e0 < y <= -MaxExp) &&
    (e0 < y && -MaxExp <= y - 1 ==> Nearest(a, y - 1 - e0) > maxval)
  }

  /** Nothing is dropped: the rounding step keeps the magnitude. */
  lemma RoundNone(a: int, e0: int, c: int, x: int, maxval: int)
    requires 1 <= a && 1 <= maxval && e0 <= MaxExp && x == e0
    requires ScaledDown(a, e0, Fits(c, x), maxval)
    ensures RoundStep(a, e0, c, x, maxval) == (a, e0)
    ensures RoundedUp(a, e0, x, a, e0, maxval)
  {
    assert Pow10(0) == 1;
  }

  /** Digits were dropped and rounding up still fits maxval. */
  lemma RoundFits(a: int, e0: int, c: int, x: int, maxval: int)
    requires 1 <= a && 1 <= maxval && e0 <= MaxExp && x > e0
    requires ScaledDown(a, e0, Fits(c, x), maxval)
    requires var up := c + (if (a / Pow10(x - e0 - 1)) % 10 >= 5 then 1 else 0); up <= maxval
    ensures RoundStep(a, e0, c, x, maxval) == (c + (if (a / Pow10(x - e0 - 1)) % 10 >= 5 then 1 else 0), x)
    ensures RoundedUp(a, e0, x, c + (if (a / Pow10(x - e0 - 1)) % 10 >= 5 then 1 else 0), x, maxval)
  {
    var n := x - e0;
    var up := c + (if (a / Pow10(n - 1)) % 10 >= 5 then 1 else 0);
    RoundHalfUp(a, n);
    DivLe(a, Pow10(n));
    assert 0 <= up <= maxval;
    assert RoundsTo(a, x - e0, up);
    assert x < -MaxExp ==> c == 0;
    if -MaxExp <= x - 1 {
      NearestAtLeastQuotient(a, n - 1);
      assert Nearest(a, x - 1 - e0) > maxval;
    }
  }

  /** Digits were dropped and rounding up reached maxval + 1: one more digit goes. */
  lemma RoundPast(a: int, e0: int, c: int, x: int, maxval: int)
    requires 1 <= a && (maxval == MaxNum || maxval == MaxNum + 1) && e0 < x <= e0 + 19
    requires c == a / Pow10(x - e0) && 0 <= c <= maxval && -MaxExp <= x
    requires var up := c + (if (a / Pow10(x - e0 - 1)) % 10 >= 5 then 1 else 0); up > maxval
    ensures RoundStep(a, e0, c, x, maxval) == (RoundedOverflow, x + 1)
    ensures RoundedUp(a, e0, x, RoundedOverflow, x + 1, maxval)
  {
    var n := x - e0;
    var up := c + (if (a / Pow10(n - 1)) % 10 >= 5 then 1 else 0);
    assert up == maxval + 1;
    assert RoundsTo(a, n, up) by {
      RoundHalfUp(a, n);
    }
    assert (up + (if up % 10 >= 5 && up > 10 then 10 - up % 10 else 0)) / 10 == RoundedOverflow by {
      if maxval == MaxNum {
        assert up == 36028797018963968;
      } else {
        assert up == 36028797018963969;
      }
    }
    assert RoundStep(a, e0, c, x, maxval) == (RoundedOverflow, x + 1);
    assert RoundsTo(a, n + 1, RoundedOverflow) by {
      OverflowRound(a, n, up);
    }
    assert Nearest(a, n) == maxval + 1 by {
      RoundsToUnique(a, n, up, Nearest(a, n));
    }
    assert x + 1 - e0 == n + 1 && x + 1 - 1 - e0 == n;
    assert RoundsTo(a, x + 1 - e0, RoundedOverflow);
    assert Nearest(a, x + 1 - 1 - e0) > maxval;
    assert RoundsTo(a, x - e0, maxval + 1);
  }

  /** The rounding step, wherever the loop stopped, leaves what RoundedUp says. */
  lemma RoundFacts(a: int, e0: int, c: int, x: int, maxval: int)
    requires 1 <= a && (maxval == MaxNum || maxval == MaxNum + 1) && e0 <= MaxExp
    requires ScaledDown(a, e0, Fits(c, x), maxval)
    ensures var (r, y) := RoundStep(a, e0, c, x, maxval); RoundedUp(a, e0, x, r, y, maxval)
  {
    if x == e0 {
      RoundNone(a, e0, c, x, maxval);
    } else if c + (if (a / Pow10(x - e0 - 1)) % 10 >= 5 then 1 else 0) <= maxval {
      RoundFits(a, e0, c, x, maxval);
    } else {
      assert 0 <= c <= maxval && -MaxExp <= x by {
        DivLe(a, Pow10(x - e0));
      }
      RoundPast(a, e0, c, x, maxval);
    }
  }

  /** The number c * 10^e is too small for any nonzero DEC64: it rounds to 0 at exponent -127. */
  predicate Underflows(c: int, e: int) {
    e < -MaxExp && 2 * Abs(c) < Pow10(-MaxExp - e)
  }

  /**
    The number c * 10^e is too large for the coefficient of its sign: above
    exponent 127 its exact coefficient at 127 exceeds maxval; otherwise it
    rounds, at exponent 127, to more than maxval.
  */
  predicate TooLarge(c: int, e: int) {
    if e > MaxExp then Abs(c) * Pow10(e - MaxExp) > MaxMagnitude(c < 0)
    else 2 * Abs(c) >= (2 * MaxMagnitude(c < 0) + 1) * Pow10(MaxExp - e)
  }

  /** Packed once the loop has stopped at Fits(cc, x). */
  lemma PackedFits(c: int, e: int, cc: int, x: int)
    requires IsInt64(c) && IsInt64(e) && c != 0
    requires ScaleLoop(Abs(c), e, MaxMagnitude(c < 0)) == Fits(cc, x)
    ensures var (r, y) := RoundStep(Abs(c), e, cc, x, MaxMagnitude(c < 0));
      Packed(c, e) == (if r == 0 || y < -MaxExp then Zero else if y > MaxExp then Nan else Build(if c < 0 then -r else r, y))
  {
  }

  /**
    What dec64_pack's loop and rounding step leave for c * 10^e: a magnitude
    r at exponent y that is the number rounded to the nearest multiple of
    10^y; y is 128 only if the number is too large; below -127 r is 0 or 1;
    r is 0 only below -127; and one exponent lower the rounded magnitude
    would not have fitted.
  */
  predicate RoundedResult(c: int, e: int, r: int, y: int) {
    var a, M := Abs(c), MaxMagnitude(c < 0);
    0 <= r <= M && e <= y <= MaxExp + 1 && RoundsTo(a, y - e, r) &&
    (y > MaxExp ==> TooLarge(c, e)) &&
    (y < -MaxExp ==> r <= 1) &&
    (r == 0 ==> e < y <= -MaxExp) &&
    (e < y && -MaxExp <= y - 1 ==> Nearest(a, y - 1 - e) > M)
  }

  /** RoundedUp, restated about the number c * 10^e. */
  lemma OutcomeFits(c: int, e: int, x: int, r: int, y: int)
    requires c != 0 && e <= MaxExp && RoundedUp(Abs(c), e, x, r, y, MaxMagnitude(c < 0)) && x <= MaxExp
    ensures RoundedResult(c, e, r, y)
  {
    var M := MaxMagnitude(c < 0);
    if y > MaxExp {
      assert RoundsTo(Abs(c), MaxExp - e, M + 1);
      assert 2 * (M + 1) - 1 == 2 * M + 1;
    }
  }

  /**
    dec64_pack at or below exponent 127, in one place: either the loop gave
    up (the number is too large), or the result is made from a magnitude r
    at exponent y that is the number rounded to the nearest multiple of
    10^y, with the facts the theorems below need about r and y.
  */
  lemma Outcome(c: int, e: int) returns (overflow: bool, r: int, y: int)
    requires IsInt64(c) && IsInt64(e) && c != 0 && e <= MaxExp
    ensures overflow ==> Packed(c, e) == Nan && TooLarge(c, e)
    ensures !overflow ==>
      Packed(c, e) == (if r == 0 || y < -MaxExp then Zero else if y > MaxExp then Nan else Build(if c < 0 then -r else r, y))
    ensures !overflow ==> RoundedResult(c, e, r, y)
  {
    var a, M := Abs(c), MaxMagnitude(c < 0);
    assert a / Pow10(e - e) == a by {
      assert Pow10(e - e) == 1;
    }
    ScaleDown(a, e, e, M);
    var s := ScaleLoop(a, e, M);
    assert ScaledDown(a, e, s, M);
    overflow := s.Overflow?;
    if overflow {
      QuotientAbove(a, MaxExp - e, M);
      r, y := 0, 0;
    } else {
      var x := s.exp;
      RoundFacts(a, e, s.coeff, x, M);
      PackedFits(c, e, s.coeff, x);
      r, y := RoundStep(a, e, s.coeff, x, M).0, RoundStep(a, e, s.coeff, x, M).1;
      OutcomeFits(c, e, x, r, y);
    }
  }

  /** A nonzero coefficient and an exponent in [-127, 127] build a canonical number, neither zero nor nan. */
  lemma BuildCanonical(k: int, y: int)
    requires IsCoefficient(k) && k != 0 && -MaxExp <= y <= MaxExp
    ensures Canonical(Build(k, y)) && Build(k, y) != Zero && Build(k, y) != Nan
    ensures Coefficient(Build(k, y)) == k && Exponent(Build(k, y)) == y
  {
    BuildFields(k, y);
  }

  /** A magnitude that rounds to 0, or to 1 below exponent -127, underflows. */
  lemma ZeroIsSmall(c: int, e: int, r: int, y: int)
    requires RoundedResult(c, e, r, y) && (r == 0 || y < -MaxExp)
    ensures Underflows(c, e)
  {
    var a := Abs(c);
    if r == 0 {
      Pow10Monotone(y - e, -MaxExp - e);
    } else {
      Pow10Monotone(y - e, -MaxExp - 1 - e);
      assert Pow10(-MaxExp - e) == 10 * Pow10(-MaxExp - 1 - e);
    }
  }

  /** A number too large for exponent 127 is not small enough to underflow. */
  lemma LargeIsNotSmall(c: int, e: int)
    requires e <= MaxExp && TooLarge(c, e)
    ensures !Underflows(c, e)
  {
    if e < -MaxExp {
      Pow10Monotone(-MaxExp - e, MaxExp - e);
      MulLe(1, 2 * MaxMagnitude(c < 0) + 1, Pow10(MaxExp - e));
    }
  }

  /** Above exponent 127 dec64_pack is exact: c * 10^(e-127) at exponent 127, or nan. */
  lemma PackedAbove(c: int, e: int)
    requires IsInt64(c) && IsInt64(e) && c != 0 && e > MaxExp
    ensures Packed(c, e) == (if TooLarge(c, e) then Nan else Build(c * Pow10(e - MaxExp), MaxExp))
  {
    var a, M, P := Abs(c), MaxMagnitude(c < 0), Pow10(e - MaxExp);
    ScaleUp(a, e, M);
    if !TooLarge(c, e) {
      MulLe(1, a, P);
      assert RoundStep(a, e, a * P, MaxExp, M) == (a * P, MaxExp);
      assert (if c < 0 then -(a * P) else a * P) == c * P;
    }
  }

  /** The exact coefficient above exponent 127, when not too large, is a nonzero coefficient. */
  lemma AboveFits(c: int, e: int)
    requires c != 0 && e > MaxExp && !TooLarge(c, e)
    ensures IsCoefficient(c * Pow10(e - MaxExp)) && c * Pow10(e - MaxExp) != 0
  {
    var P := Pow10(e - MaxExp);
    assert Abs(c) * P == Abs(c * P);
  }

  /** Above exponent 127, for a nonzero coefficient, the result is nan or a canonical number. */
  lemma PackedAboveCanonical(c: int, e: int)
    requires IsInt64(c) && IsInt64(e) && c != 0 && e > MaxExp
    ensures Packed(c, e) == Nan <==> TooLarge(c, e)
    ensures Packed(c, e) != Zero && Canonical(Packed(c, e))
  {
    PackedAbove(c, e);
    if !TooLarge(c, e) {
      AboveFits(c, e);
      BuildCanonical(c * Pow10(e - MaxExp), MaxExp);
    }
  }

  /** dec64_pack keeps a number whose coefficient and exponent already fit. */
  lemma PackedExact(c: int, e: int)
    requires IsCoefficient(c) && c != 0 && -MaxExp <= e <= MaxExp
    ensures Packed(c, e) == Build(c, e)
  {
    assert ScaleLoop(Abs(c), e, MaxMagnitude(c < 0)) == Fits(Abs(c), e);
  }

  /** Packing the fields of a canonical number other than nan gives the number back. */
  lemma PackedCanonicalFields(v: int)
    requires Canonical(v) && v != Nan
    ensures Packed(Coefficient(v), Exponent(v)) == v
  {
    if v != Zero {
      PackedExact(Coefficient(v), Exponent(v));
      FieldsBuild(v);
    }
  }

  /**
    What dec64_pack promises about its result v for a nonzero coefficient c
    at exponent e <= 127: nan exactly when the number is too large, zero
    exactly when it underflows, and always canonical.
  */
  predicate PackedBelowFacts(c: int, e: int, v: int) {
    (v == Nan <==> TooLarge(c, e)) && (v == Zero <==> Underflows(c, e)) && Canonical(v)
  }

  lemma BelowOverflow(c: int, e: int)
    requires e <= MaxExp && TooLarge(c, e)
    ensures PackedBelowFacts(c, e, Nan)
  {
    LargeIsNotSmall(c, e);
  }

  lemma BelowZero(c: int, e: int, r: int, y: int)
    requires e <= MaxExp && RoundedResult(c, e, r, y) && (r == 0 || y < -MaxExp)
    ensures PackedBelowFacts(c, e, Zero)
  {
    ZeroIsSmall(c, e, r, y);
    RoundsBelow(Abs(c), y - e, r, MaxMagnitude(c < 0), MaxExp - e);
  }

  lemma BelowBuild(c: int, e: int, r: int, y: int)
    requires e <= MaxExp && RoundedResult(c, e, r, y) && r != 0 && -MaxExp <= y <= MaxExp
    ensures PackedBelowFacts(c, e, Build(if c < 0 then -r else r, y))
  {
    BuildCanonical(if c < 0 then -r else r, y);
    RoundsBelow(Abs(c), y - e, r, MaxMagnitude(c < 0), MaxExp - e);
    if e < -MaxExp {
      RoundsAbove(Abs(c), y - e, r, -MaxExp - e);
    }
  }

  /** At or below exponent 127, for a nonzero coefficient, dec64_pack keeps PackedBelowFacts. */
  lemma PackedBelow(c: int, e: int)
    requires IsInt64(c) && IsInt64(e) && c != 0 && e <= MaxExp
    ensures PackedBelowFacts(c, e, Packed(c, e))
  {
    var overflow, r, y := Outcome(c, e);
    if overflow {
      BelowOverflow(c, e);
    } else if r == 0 || y < -MaxExp {
      BelowZero(c, e, r, y);
    } else if y > MaxExp {
      BelowOverflow(c, e);
    } else {
      BelowBuild(c, e, r, y);
    }
  }

  /** dec64_pack returns zero exactly for a zero coefficient (but not exponent -128) and for a number that underflows. */
  lemma PackedZero(c: int, e: int)
    requires IsInt64(c) && IsInt64(e)
    ensures Packed(c, e) == Zero <==> (c == 0 && e != NanExp) || (c != 0 && Underflows(c, e))
  {
    if c != 0 && e > MaxExp {
      PackedAboveCanonical(c, e);
    } else if c != 0 {
      PackedBelow(c, e);
    }
  }

  /** dec64_pack returns nan exactly for the zero coefficient with exponent -128 and for a number too large. */
  lemma PackedNan(c: int, e: int)
    requires IsInt64(c) && IsInt64(e)
    ensures Packed(c, e) == Nan <==> (c == 0 && e == NanExp) || (c != 0 && TooLarge(c, e))
  {
    if c != 0 && e > MaxExp {
      PackedAboveCanonical(c, e);
    } else if c != 0 {
      PackedBelow(c, e);
    }
  }

  /**
    v has the sign of c, an exponent no smaller than e, and the coefficient
    c * 10^e rounded to the nearest at that exponent; and it is as precise
    as the coefficient allows: one exponent lower the rounded coefficient
    would exceed maxval.
  */
  predicate RoundedFrom(c: int, e: int, v: int)
    requires IsInt64(v)
  {
    (Coefficient(v) < 0 <==> c < 0) && e <= Exponent(v) &&
    Abs(Coefficient(v)) == Nearest(Abs(c), Exponent(v) - e) &&
    (e < Exponent(v) && -MaxExp < Exponent(v) ==> Nearest(Abs(c), Exponent(v) - 1 - e) > MaxMagnitude(c < 0))
  }

  /** When dec64_pack returns a number (neither zero nor nan) at or below exponent 127, it is RoundedFrom c * 10^e. */
  lemma PackedRounds(c: int, e: int)
    requires IsInt64(c) && IsInt64(e) && c != 0 && e <= MaxExp
    ensures var v := Packed(c, e); v != Nan && v != Zero ==> RoundedFrom(c, e, v)
  {
    var overflow, r, y := Outcome(c, e);
    if !overflow && r != 0 && -MaxExp <= y <= MaxExp {
      var k := if c < 0 then -r else r;
      BuildCanonical(k, y);
      RoundsToUnique(Abs(c), y - e, r, Nearest(Abs(c), y - e));
      assert RoundedFrom(c, e, Build(k, y));
    }
  }

  /** Whatever its arguments, dec64_pack returns a canonical number. */
  lemma PackedCanonical(c: int, e: int)
    requires IsInt64(c) && IsInt64(e)
    ensures Canonical(Packed(c, e))
  {
    if c != 0 && e > MaxExp {
      PackedAboveCanonical(c, e);
    } else if c != 0 {
      PackedBelow(c, e);
    }
  }

  /**
    Below exponent -127 the loop of dec64_pack divides by ten until the
    exponent is -127; when the quotient there is nonzero and fits, it stops.
  */
  lemma {:induction false} ScaleToMinimum(c: int, e: int)
    requires c >= 0 && e <= -MaxExp
    requires 1 <= c / Pow10(-MaxExp - e) <= MaxNum
    ensures ScaleLoop(c, e, MaxNum) == Fits(c / Pow10(-MaxExp - e), -MaxExp)
    decreases -MaxExp - e
  {
    if e < -MaxExp {
      DivPow10(c, 1, -MaxExp - e - 1);
      assert 1 + (-MaxExp - e - 1) == -MaxExp - e;
      ScaleToMinimum(c / 10, e + 1);
    }
  }

  /**
    dec64_pack as written turns 5e-130 into 1e127: the magnitude runs out at
    exponent -129, rounding brings it back to 1, and the exponent's low
    byte, 0x7F, reads as 127.  The corrected pack gives zero.
  */
  lemma UnderflowRoundsToHuge()
    ensures PackedAsWritten(5, -130) == Build(1, -129)
    ensures Coefficient(Build(1, -129)) == 1 && Exponent(Build(1, -129)) == MaxExp
    ensures Packed(5, -130) == Zero
  {
    assert ScaleLoop(0, -129, MaxNum) == Fits(0, -129);
    assert ScaleLoop(5, -130, MaxNum) == Fits(0, -129);
    assert RoundStep(5, -130, 0, -129, MaxNum) == (1, -129);
  }

  /**
    dec64_pack as written turns 360287970189639679e126 into a nan that is
    not the canonical one: rounding at exponent 127 overflows maxval, the
    exponent becomes 128, and its low byte is the nan byte 0x80 under a
    nonzero coefficient.  The corrected pack gives the canonical nan.
  */
  lemma RoundingOverflowMakesNonCanonicalNan()
    ensures var v := PackedAsWritten(360287970189639679, 126);
      IsNan(v) && v != Nan && !Canonical(v)
    ensures Packed(360287970189639679, 126) == Nan
  {
    assert ScaleLoop(36028797018963967, 127, MaxNum) == Fits(36028797018963967, 127);
    assert ScaleLoop(360287970189639679, 126, MaxNum) == Fits(36028797018963967, 127);
    assert RoundStep(360287970189639679, 126, 36028797018963967, 127, MaxNum) == (RoundedOverflow, 128);
    var v := Build(RoundedOverflow, 128);
    assert v == RoundedOverflow * 256 + 128;
    assert Exponent(v) == NanExp;
  }

  /**
    dec64_pack as written turns 1844674407370955162e128 into 4e127: ten
    times the coefficient is 2^64 + 4, which wraps to 4 rather than to a
    negative value, so the overflow test lets it through.  The corrected
    pack gives nan, the product being beyond 64 bits.
  */
  lemma WrappedProductPassesOverflowTest()
    ensures PackedAsWritten(1844674407370955162, 128) == Build(4, MaxExp)
    ensures Packed(1844674407370955162, 128) == Nan
  {
    assert ToInt64(1844674407370955162 * 10) == 4;
    assert ScaleLoopAsWritten(1844674407370955162, 128, MaxNum) == Fits(4, MaxExp);
  }
}
