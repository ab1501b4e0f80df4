/**
  The test suite's `normal` and `compare` helpers.  normal rewrites a DEC64
  number with its exponent pushed toward zero and its value unchanged;
  compare, the oracle every test result is judged by, compares the normal
  forms.
*/
module TestHelpers {
  import opened Powers
  import opened Encoding
  import opened Pack
  import opened PackProperties

  /** C's `/` on int64: the quotient truncated toward zero. */
  function TruncDiv(a: int, b: int): int
    requires b > 0
  {
    if a >= 0 then a / b else -((-a) / b)
  }

  /** The test `coefficient != coef * 10` of normal is the remainder test. */
  lemma TruncDivExact(a: int)
    ensures a == TruncDiv(a, 10) * 10 <==> a % 10 == 0
  {
    if a < 0 {
      var n := -a;
      if n % 10 == 0 {
        DivUnique(a, 10, -(n / 10), 0);
      }
      if a % 10 == 0 {
        DivUnique(n, 10, -(a / 10), 0);
      }
    }
  }

  /** C's division by ten moves a 56-bit coefficient toward zero. */
  lemma TruncDivCoefficient(a: int)
    requires IsCoefficient(a)
    ensures IsCoefficient(TruncDiv(a, 10))
  {
    if a >= 0 {
      DivLe(a, 10);
    } else {
      DivLe(-a, 10);
    }
  }

  /**
    The number coefficient * 10^exponent multiplied by 10^128, an integer
    for every exponent byte; two coefficient and exponent pairs denote the
    same number exactly when their Magnified values agree.
  */
  function Magnified(c: int, e: int): int
    requires e >= NanExp
  {
    c * Pow10(e - NanExp)
  }

  /** Moving k factors of ten from the coefficient to the exponent keeps the number. */
  lemma MagnifiedShift(c: int, e: int, k: nat)
    requires e >= NanExp
    ensures Magnified(c * Pow10(k), e) == Magnified(c, e + k)
  {
    Pow10Add(k, e - NanExp);
    MulAssoc(c, Pow10(k), Pow10(e - NanExp));
  }

  /**
    The `exponent < 0` loop of normal: divide the coefficient by ten, raising
    the exponent, while the division is exact and the exponent is below 0.
  */
  function ShrinkLoop(c: int, e: int): (int, int)
    requires e < 0
    decreases -e
  {
    var q := TruncDiv(c, 10);
    if c != q * 10 then (c, e)
    else if e + 1 < 0 then ShrinkLoop(q, e + 1)
    else (q, e + 1)
  }

  /**
    The `exponent > 0` loop of normal: multiply the coefficient by ten,
    lowering the exponent, while the product stays within 56 bits and the
    exponent is above 0.
  */
  function GrowLoop(c: int, e: int): (int, int)
    requires e > 0
    decreases e
  {
    var p := c * 10;
    if p >= MaxNum + 1 || p < -(MaxNum + 1) then (c, e)
    else if e - 1 > 0 then GrowLoop(p, e - 1)
    else (p, e - 1)
  }

  lemma {:induction false} ShrinkLoopSpec(c: int, e: int)
    requires e < 0 && IsCoefficient(c)
    ensures var (c', e') := ShrinkLoop(c, e);
      e <= e' <= 0 && c == c' * Pow10(e' - e) && IsCoefficient(c') && (e' < 0 ==> c' % 10 != 0)
    decreases -e
  {
    var q := TruncDiv(c, 10);
    TruncDivExact(c);
    if c == q * 10 {
      TruncDivCoefficient(c);
      if e + 1 < 0 {
        ShrinkLoopSpec(q, e + 1);
        var (c', e') := ShrinkLoop(q, e + 1);
        assert Pow10(e' - e) == Pow10(e' - (e + 1)) * 10;
        MulAssoc(c', Pow10(e' - (e + 1)), 10);
      } else {
        assert Pow10(1) == 10;
      }
    } else {
      assert Pow10(0) == 1;
    }
  }

  lemma {:induction false} GrowLoopSpec(c: int, e: int)
    requires e > 0 && IsCoefficient(c)
    ensures var (c', e') := GrowLoop(c, e);
      0 <= e' <= e && c' == c * Pow10(e - e') && IsCoefficient(c') && (e' > 0 ==> !IsCoefficient(c' * 10))
    decreases e
  {
    var p := c * 10;
    if p >= MaxNum + 1 || p < -(MaxNum + 1) {
      assert Pow10(0) == 1;
    } else if e - 1 > 0 {
      GrowLoopSpec(p, e - 1);
      var (c', e') := GrowLoop(p, e - 1);
      assert Pow10(e - e') == 10 * Pow10(e - 1 - e');
      MulAssoc(c, 10, Pow10(e - 1 - e'));
    } else {
      assert Pow10(1) == 10;
    }
  }

  /** The loop normal runs, chosen by the sign of the exponent. */
  function NormalLoop(c: int, e: int): (int, int)
    requires e != 0
  {
    if e < 0 then ShrinkLoop(c, e) else GrowLoop(c, e)
  }

  /**
    What the loops of normal leave: the same number, a coefficient within
    56 bits, an exponent between the original one and 0, and a reason to
    stop: a negative exponent is left only with a coefficient that is not
    a multiple of ten, a positive one only when ten times the coefficient
    would not fit 56 bits.
  */
  lemma NormalLoopSpec(c: int, e: int)
    requires IsCoefficient(c) && e != 0 && e >= NanExp
    ensures var (c', e') := NormalLoop(c, e);
      IsCoefficient(c') && e' >= NanExp && Magnified(c', e') == Magnified(c, e) &&
      (e < 0 ==> e <= e' <= 0 && (e' < 0 ==> c' % 10 != 0)) &&
      (e > 0 ==> 0 <= e' <= e && (e' > 0 ==> !IsCoefficient(c' * 10)))
  {
    if e < 0 {
      ShrinkLoopSpec(c, e);
      var (c', e') := ShrinkLoop(c, e);
      MagnifiedShift(c', e, e' - e);
    } else {
      GrowLoopSpec(c, e);
      var (c', e') := GrowLoop(c, e);
      MagnifiedShift(c, e', e - e');
    }
  }

  /**
    normal: the number itself when its exponent is 0; otherwise the result
    of the loop, rebuilt by dec64_new.
  */
  function Normalized(v: int): int
    requires IsInt64(v)
  {
    var c, e := Coefficient(v), Exponent(v);
    if e == 0 then v
    else
      NormalLoopSpec(c, e);
      Packed(NormalLoop(c, e).0, NormalLoop(c, e).1)
  }

  /** normal, with its two do-while loops. */
  method Normal(number: int) returns (r: int)
    requires IsInt64(number)
    ensures r == Normalized(number)
  {
    var coefficient := Coefficient(number);
    var exponent := Exponent(number);
    if exponent == 0 {
      return number;
    }
    ghost var target := NormalLoop(coefficient, exponent);
    NormalLoopSpec(coefficient, exponent);
    if exponent < 0 {
      while true
        invariant exponent < 0 && ShrinkLoop(coefficient, exponent) == target
        decreases -exponent
      {
        var coef := TruncDiv(coefficient, 10);
        if coefficient != coef * 10 {
          break;
        }
        coefficient := coef;
        exponent := exponent + 1;
        if exponent >= 0 {
          break;
        }
      }
    } else {
      while true
        invariant exponent > 0 && GrowLoop(coefficient, exponent) == target
        decreases exponent
      {
        var coef := coefficient * 10;
        if coef >= MaxNum + 1 || coef < -(MaxNum + 1) {
          break;
        }
        coefficient := coef;
        exponent := exponent - 1;
        if exponent <= 0 {
          break;
        }
      }
    }
    r := New(coefficient, exponent);
  }

  /**
    The number normal returns for one that is not nan: the same number,
    not nan, its exponent between the original one and 0, in normal form
    (a negative exponent only under a coefficient that is not a multiple of
    ten, a positive one only under a coefficient ten times which would not
    fit), and the canonical zero for a zero coefficient.
  */
  predicate NormalFormOf(v: int, r: int)
    requires IsInt64(v) && IsInt64(r) && !IsNan(v)
  {
    var c, e := Coefficient(v), Exponent(v);
    var c', e' := Coefficient(r), Exponent(r);
    e' != NanExp && Magnified(c', e') == Magnified(c, e) &&
    (e <= 0 ==> e <= e' <= 0) && (e >= 0 ==> 0 <= e' <= e) &&
    (e' < 0 ==> c' % 10 != 0) && (e' > 0 ==> !IsCoefficient(c' * 10)) &&
    (c == 0 ==> r == Zero)
  }

  lemma NormalizedSpec(v: int)
    requires IsInt64(v) && !IsNan(v)
    ensures NormalFormOf(v, Normalized(v))
  {
    var c, e := Coefficient(v), Exponent(v);
    if e != 0 {
      NormalLoopSpec(c, e);
      var (c', e') := NormalLoop(c, e);
      if c == 0 {
        assert c' == 0 by {
          MulCancel(c', 0, Pow10(e' - NanExp));
        }
        assert Magnified(c, e) == 0;
      } else {
        assert c' != 0;
        PackedExact(c', e');
        BuildFields(c', e');
      }
    }
  }

  lemma MulCancel(a: int, b: int, p: int)
    requires p >= 1 && a * p == b * p
    ensures a == b
  {
    if a < b {
      MulLe(a + 1, b, p);
    } else if b < a {
      MulLe(b + 1, a, p);
    }
  }

  /** normal leaves a number in normal form alone: applying it twice is applying it once. */
  lemma NormalizedIdempotent(v: int)
    requires IsInt64(v) && !IsNan(v)
    ensures Normalized(Normalized(v)) == Normalized(v)
  {
    var r := Normalized(v);
    NormalizedSpec(v);
    var c, e := Coefficient(r), Exponent(r);
    if e < 0 {
      TruncDivExact(c);
      assert ShrinkLoop(c, e) == (c, e);
    } else if e > 0 {
      assert GrowLoop(c, e) == (c, e);
    }
    if e != 0 {
      PackedExact(c, e);
      FieldsBuild(r);
    }
  }

  /** A factor of ten or more keeps a coefficient's sign and does not shrink it. */
  lemma ScaledCoefficient(a: int, p: int)
    requires p >= 1 && IsCoefficient(a * p)
    ensures IsCoefficient(a)
  {
    if a >= 0 {
      MulLe(1, p, a);
    } else {
      MulLe(1, p, -a);
    }
  }

  /**
    Two pairs in normal form that denote the same number are the same
    pair: normal forms are unique.
  */
  lemma NormalFormUnique(c1: int, e1: int, c2: int, e2: int)
    requires IsCoefficient(c1) && IsCoefficient(c2) && NanExp <= e1 && NanExp <= e2
    requires e1 < 0 ==> c1 % 10 != 0
    requires e1 > 0 ==> !IsCoefficient(c1 * 10)
    requires e2 < 0 ==> c2 % 10 != 0
    requires e2 > 0 ==> !IsCoefficient(c2 * 10)
    requires Magnified(c1, e1) == Magnified(c2, e2)
    ensures c1 == c2 && e1 == e2
  {
    if e1 == e2 {
      MulCancel(c1, c2, Pow10(e1 - NanExp));
    } else if e1 < e2 {
      HigherNotNormal(c1, e1, c2, e2);
      assert false;
    } else {
      HigherNotNormal(c2, e2, c1, e1);
      assert false;
    }
  }

  /**
    A number in normal form at exponent e1 written at a higher exponent e2
    has a positive e2 and a coefficient that ten times still fits, so it
    is not in normal form there.
  */
  lemma HigherNotNormal(c1: int, e1: int, c2: int, e2: int)
    requires IsCoefficient(c1) && NanExp <= e1 < e2
    requires e1 < 0 ==> c1 % 10 != 0
    requires Magnified(c1, e1) == Magnified(c2, e2)
    ensures e2 > 0 && IsCoefficient(c2 * 10)
  {
    var k := e2 - e1;
    var m := c2 * Pow10(k - 1);
    TenfoldBelow(c1, e1, c2, k);
    if e1 < 0 {
      DivUnique(c1, 10, m, 0);
      assert false;
    } else {
      MulAssoc(c2, 10, Pow10(k - 1));
      ScaledCoefficient(c2 * 10, Pow10(k - 1));
    }
  }

  /** The same number k >= 1 exponents lower has its coefficient multiplied by 10^k. */
  lemma TenfoldBelow(c1: int, e1: int, c2: int, k: int)
    requires NanExp <= e1 && k >= 1 && Magnified(c1, e1) == Magnified(c2, e1 + k)
    ensures c1 == c2 * Pow10(k - 1) * 10
  {
    MagnifiedShift(c2, e1, k);
    MulCancel(c1, c2 * Pow10(k), Pow10(e1 - NanExp));
    assert Pow10(k) == Pow10(k - 1) * 10;
    MulAssoc(c2, Pow10(k - 1), 10);
  }

  /** Two numbers that are not nan have the same normal form exactly when they are the same number. */
  lemma NormalizedSame(x: int, y: int)
    requires IsInt64(x) && IsInt64(y) && !IsNan(x) && !IsNan(y)
    ensures Normalized(x) == Normalized(y) <==>
      Magnified(Coefficient(x), Exponent(x)) == Magnified(Coefficient(y), Exponent(y))
  {
    var rx, ry := Normalized(x), Normalized(y);
    NormalizedSpec(x);
    NormalizedSpec(y);
    if Magnified(Coefficient(x), Exponent(x)) == Magnified(Coefficient(y), Exponent(y)) {
      NormalFormUnique(Coefficient(rx), Exponent(rx), Coefficient(ry), Exponent(ry));
      FieldsBuild(rx);
      FieldsBuild(ry);
    }
  }

  /**
    dec64_equal, which exists only as assembly text, by what it documents
    and does: two identical words are equal; otherwise two words neither of
    which carries the nan exponent byte are equal when they denote the same
    number, so that zeros of every exponent are equal, while two different
    nan words never are.
  */
  predicate Equal(x: int, y: int)
    requires IsInt64(x) && IsInt64(y)
  {
    x == y ||
    (!IsNan(x) && !IsNan(y) && Magnified(Coefficient(x), Exponent(x)) == Magnified(Coefficient(y), Exponent(y)))
  }

  /**
    compare: unless either value is zero or carries the nan exponent byte,
    both are normalized first; the final comparison is dec64_equal.
  */
  function Compare(first: int, second: int): bool
    requires IsInt64(first) && IsInt64(second)
  {
    if first != 0 && second != 0 && first % 256 != 128 && second % 256 != 128 then
      Equal(Normalized(first), Normalized(second))
    else
      Equal(first, second)
  }

  /**
    compare holds for two values that are not nan-tagged exactly when they
    denote the same number, a zero of any exponent included, and for a
    pair with a nan-tagged value exactly when the words are equal.
  */
  lemma CompareMeans(x: int, y: int)
    requires IsInt64(x) && IsInt64(y)
    ensures !IsNan(x) && !IsNan(y) ==>
      (Compare(x, y) <==> Magnified(Coefficient(x), Exponent(x)) == Magnified(Coefficient(y), Exponent(y)))
    ensures IsNan(x) || IsNan(y) ==> (Compare(x, y) <==> x == y)
  {
    assert IsNan(x) <==> x % 256 == 128;
    assert IsNan(y) <==> y % 256 == 128;
    if x != 0 && y != 0 && !IsNan(x) && !IsNan(y) {
      NormalizedSpec(x);
      NormalizedSpec(y);
    }
  }

  /** compare is an equivalence relation. */
  lemma CompareEquivalence(x: int, y: int, z: int)
    requires IsInt64(x) && IsInt64(y) && IsInt64(z)
    ensures Compare(x, x)
    ensures Compare(x, y) ==> Compare(y, x)
    ensures Compare(x, y) && Compare(y, z) ==> Compare(x, z)
  {
    CompareMeans(x, x);
    CompareMeans(x, y);
    CompareMeans(y, x);
    CompareMeans(y, z);
    CompareMeans(x, z);
  }
}
