/**
  dec64_pack and dec64_new: fit an unconstrained coefficient and exponent
  into the encoding, scaling by powers of ten, rounding the digits that are
  dropped half away from zero, and returning the canonical zero or nan where
  the number underflows or cannot be represented.
*/
module Pack {
  import opened Powers
  import opened Encoding

  /** Where the scaling loop of dec64_pack leaves the magnitude and exponent. */
  datatype Scaled = Overflow | Fits(coeff: int, exp: int)

  /** maxval: the largest magnitude a coefficient of the given sign may have. */
  function MaxMagnitude(negative: bool): int {
    if negative then MaxNum + 1 else MaxNum
  }

  /**
    The `while (1)` loop of dec64_pack on a magnitude: multiply by ten while
    the exponent is above 127 (nan once the product leaves int64), divide by
    ten while the magnitude is above maxval or the exponent below -127 (nan
    once the exponent is 127, stop once the magnitude is 0).
  */
  function ScaleLoop(coeff: int, exp: int, maxval: int): Scaled
    decreases if exp > MaxExp then exp - MaxExp else 0, MaxExp - exp
  {
    if exp > MaxExp then
      if coeff * 10 > Int64Max then Overflow
      else ScaleLoop(coeff * 10, exp - 1, maxval)
    else if coeff > maxval || exp < -MaxExp then
      if exp == MaxExp then Overflow
      else if coeff == 0 then Fits(coeff, exp)
      else ScaleLoop(coeff / 10, exp + 1, maxval)
    else
      Fits(coeff, exp)
  }

  /**
    The loop as written, on a machine where signed multiplication wraps:
    above exponent 127 the product is narrowed to 64 bits and only a
    negative result is taken for overflow, so a product that wraps past
    2^64 to a nonnegative value goes on being scaled.
  */
  function ScaleLoopAsWritten(coeff: int, exp: int, maxval: int): Scaled
    decreases if exp > MaxExp then exp - MaxExp else 0
  {
    if exp > MaxExp then
      var tcoeff := ToInt64(coeff * 10);
      if tcoeff < 0 then Overflow else ScaleLoopAsWritten(tcoeff, exp - 1, maxval)
    else
      ScaleLoop(coeff, exp, maxval)
  }

  /**
    The rounding step that follows the loop: when 1 <= muls <= 19 digits were
    dropped, add one if the first dropped digit is 5 or more; if that pushes
    the magnitude past maxval, drop one more digit, again rounding.
  */
  function RoundStep(original: int, originalExp: int, coeff: int, exp: int, maxval: int): (int, int)
  {
    var muls := exp - originalExp;
    if 0 < muls <= 19 then
      var up := coeff + (if (original / Pow10(muls - 1)) % 10 >= 5 then 1 else 0);
      if up > maxval then
        var digit := up % 10;
        ((up + (if digit >= 5 && up > 10 then 10 - digit else 0)) / 10, exp + 1)
      else
        (up, exp)
    else
      (coeff, exp)
  }

  /**
    dec64_pack exactly as written: the overflow test of the scaling loop
    misses a product that wraps to a nonnegative value, and the rounding
    step may leave the exponent at -128 or below (when the magnitude ran
    out at an exponent below -127 and was then rounded up to 1) or at 128
    (when rounding overflowed at exponent 127); dec64_build then keeps only
    the exponent's low byte.
  */
  function PackedAsWritten(coeff: int, exp: int): int
    requires IsInt64(coeff) && IsInt64(exp)
  {
    if coeff == 0 then
      (if exp != NanExp then Zero else Nan)
    else
      var maxval := MaxMagnitude(coeff < 0);
      match ScaleLoopAsWritten(Abs(coeff), exp, maxval)
      case Overflow => Nan
      case Fits(c, e) =>
        var (r, x) := RoundStep(Abs(coeff), exp, c, e, maxval);
        if r == 0 then Zero else Build(if coeff < 0 then -r else r, x)
  }

  /**
    The value dec64_pack is meant to produce: as written, except that a
    number that has underflowed below exponent -127 is zero and a number
    whose rounding overflows exponent 127 is nan.
  */
  function Packed(coeff: int, exp: int): int
    requires IsInt64(coeff) && IsInt64(exp)
  {
    if coeff == 0 then
      (if exp != NanExp then Zero else Nan)
    else
      var maxval := MaxMagnitude(coeff < 0);
      match ScaleLoop(Abs(coeff), exp, maxval)
      case Overflow => Nan
      case Fits(c, e) =>
        var (r, x) := RoundStep(Abs(coeff), exp, c, e, maxval);
        if r == 0 || x < -MaxExp then Zero
        else if x > MaxExp then Nan
        else Build(if coeff < 0 then -r else r, x)
  }

  /** The scaling loop of dec64_pack, run on the magnitude of the coefficient. */
  method Scale(coeff: int, exp: int, maxval: int) returns (s: Scaled)
    requires coeff >= 0
    ensures s == ScaleLoop(coeff, exp, maxval)
  {
    var c, e := coeff, exp;
    while true
      invariant c >= 0
      invariant ScaleLoop(c, e, maxval) == ScaleLoop(coeff, exp, maxval)
      decreases if e > MaxExp then e - MaxExp else 0, MaxExp - e
    {
      if e > MaxExp {
        var t := c * 10;
        if t > Int64Max {
          return Overflow;
        }
        c := t;
        e := e - 1;
        continue;
      }
      if c > maxval || e < -MaxExp {
        if e == MaxExp {
          return Overflow;
        }
        if c == 0 {
          break;
        }
        c := c / 10;
        e := e + 1;
        continue;
      }
      break;
    }
    s := Fits(c, e);
  }

  /** The rounding step of dec64_pack, after the scaling loop. */
  method Round(originalCoeff: int, originalExp: int, coeff: int, exp: int, maxval: int) returns (c: int, e: int)
    requires originalCoeff >= 0
    ensures (c, e) == RoundStep(originalCoeff, originalExp, coeff, exp, maxval)
  {
    c, e := coeff, exp;
    var muls := e - originalExp;
    if 0 < muls <= 19 {
      var temp2 := originalCoeff / Powers10[muls - 1];
      Powers10Table(muls - 1);
      c := c + (if temp2 % 10 >= 5 then 1 else 0);
      if c > maxval {
        var round := c % 10;
        c := c + (if round >= 5 && c > 10 then 10 - round else 0);
        c := c / 10;
        e := e + 1;
      }
    }
  }

  /** dec64_pack, with the two exponent checks of Packed after the rounding step. */
  method Pack(coeff: int, exp: int) returns (r: int)
    requires IsInt64(coeff) && IsInt64(exp)
    ensures r == Packed(coeff, exp)
  {
    if coeff == 0 && exp != NanExp {
      return Zero;
    }
    if coeff == 0 && exp == NanExp {
      return Nan;
    }
    var negc := coeff < 0;
    var maxval := if negc then MaxNum + 1 else MaxNum;
    var originalCoeff := if negc then -coeff else coeff;
    var originalExp := exp;
    var scaled := Scale(originalCoeff, originalExp, maxval);
    assert scaled == ScaleLoop(Abs(coeff), exp, MaxMagnitude(coeff < 0));
    if scaled.Overflow? {
      return Nan;
    }
    var c, e := Round(originalCoeff, originalExp, scaled.coeff, scaled.exp, maxval);
    if c == 0 || e < -MaxExp {
      return Zero;
    }
    if e > MaxExp {
      return Nan;
    }
    r := Build(if negc then -c else c, e);
  }

  /** dec64_new: packs its arguments. */
  method New(coeff: int, exp: int) returns (r: int)
    requires IsInt64(coeff) && IsInt64(exp)
    ensures r == Packed(coeff, exp)
  {
    r := Pack(coeff, exp);
  }
}
