/**
  The DEC64 encoding: a 64-bit two's-complement integer whose high 56 bits
  hold a signed coefficient and whose low 8 bits hold a signed exponent, the
  number being coefficient * 10^exponent.  Values are modelled as `int`s that
  satisfy IsInt64; ToInt64 narrows to 64 bits where the C code builds a word
  by shifting and where the scaling loop of dec64_pack as written tests a
  product for overflow by its sign.  The negation of INT64_MIN is taken
  mathematically.
*/
module Encoding {
  import opened Powers

  const Int64Min: int := -0x8000_0000_0000_0000
  const Int64Max: int := 0x7FFF_FFFF_FFFF_FFFF
  const Word: int := 0x1_0000_0000_0000_0000

  /** MAXNUM: the largest positive coefficient, 2^55 - 1. */
  const MaxNum: int := 0x007F_FFFF_FFFF_FFFF
  /** MAXEXP: the largest exponent. */
  const MaxExp: int := 0x7F
  /** The exponent byte that marks not-a-number. */
  const NanExp: int := -128

  const Nan: int := 0x80
  const Zero: int := 0x00
  const One: int := 0x100
  /** 0xFFFFFFFFFFFFFF00 read as a signed 64-bit integer. */
  const NegativeOne: int := -0x100

  predicate IsInt64(x: int) {
    Int64Min <= x <= Int64Max
  }

  /** A coefficient that fits the signed 56-bit field. */
  predicate IsCoefficient(c: int) {
    -(MaxNum + 1) <= c <= MaxNum
  }

  /** An exponent that fits the signed 8-bit field. */
  predicate IsExponent(e: int) {
    NanExp <= e <= MaxExp
  }

  function Abs(x: int): int {
    if x < 0 then -x else x
  }

  /** Two's-complement narrowing to 64 bits. */
  function ToInt64(x: int): (r: int)
    ensures IsInt64(r)
    ensures (x - r) % Word == 0
    ensures IsInt64(x) ==> r == x
  {
    var m := x % Word;
    if m > Int64Max then m - Word else m
  }

  /** dec64_coefficient: arithmetic shift right by 8, i.e. division rounded down. */
  function Coefficient(v: int): (c: int)
    requires IsInt64(v)
    ensures IsCoefficient(c)
    ensures c * 256 <= v < c * 256 + 256
  {
    v / 256
  }

  /** dec64_exponent: the low byte, sign-extended. */
  function Exponent(v: int): (e: int)
    ensures IsExponent(e)
    ensures (v - e) % 256 == 0
  {
    var b := v % 256;
    if b < 128 then b else b - 256
  }

  /**
    dec64_build: (coeff << 8) | (exp & 0xFF), with no range check; a
    coefficient outside 56 bits is shifted out of the 64-bit word and an
    exponent outside 8 bits keeps only its low byte.
  */
  function Build(c: int, e: int): (v: int)
    ensures IsInt64(v)
    ensures (v - e) % 256 == 0
    ensures IsCoefficient(c) ==> v == c * 256 + e % 256
  {
    ToInt64(c * 256 + e % 256)
  }

  lemma BuildFields(c: int, e: int)
    requires IsCoefficient(c) && IsExponent(e)
    ensures Coefficient(Build(c, e)) == c
    ensures Exponent(Build(c, e)) == e
  {
    var v := Build(c, e);
    assert v == c * 256 + e % 256;
    assert v % 256 == e % 256;
  }

  lemma FieldsBuild(v: int)
    requires IsInt64(v)
    ensures Build(Coefficient(v), Exponent(v)) == v
  {
    var c, e := Coefficient(v), Exponent(v);
    assert e % 256 == v % 256;
  }

  /** Any value whose exponent byte is 0x80 is a nan, canonical or not. */
  predicate IsNan(v: int) {
    Exponent(v) == NanExp
  }

  /**
    The values a producing operation may return: the canonical nan, the
    canonical zero, or a nonzero coefficient with an exponent in [-127, 127].
  */
  predicate Canonical(v: int) {
    v == Nan || v == Zero ||
    (IsInt64(v) && Coefficient(v) != 0 && -MaxExp <= Exponent(v) <= MaxExp)
  }

  /**
    The powers10 table as far as it is ever read: 10^0 to 10^18, then 10^19
    narrowed to 64 bits, which is negative.
  */
  const Powers10: seq<int> := [
    1, 10, 100, 1000, 10000, 100000, 1000000, 10000000, 100000000,
    1000000000, 10000000000, 100000000000, 1000000000000, 10000000000000,
    100000000000000, 1000000000000000, 10000000000000000,
    100000000000000000, 1000000000000000000, -8446744073709551616 ]

  lemma Powers10Table(i: nat)
    requires i < 19
    ensures Powers10[i] == Pow10(i)
  {
    LargePowers();
  }

  /** The last entry the search reads is 10^19 wrapped around. */
  lemma Powers10Wrapped()
    ensures |Powers10| == 20 && Powers10[19] == ToInt64(10 * Pow10(18)) < 0
  {
    LargePowers();
  }

  /**
    What checkPowerOf10 returns: the index of the first table entry above
    the argument, or 0 when there is none.  A negative or zero argument
    stops at the first entry; from 10^18 on the last entry, being
    negative, is not above it either.
  */
  function PowerIndex(c: int): int {
    if c <= 0 || c >= Pow10(18) then 0 else DecimalDigits(c)
  }

  /** A number of d digits, d <= 18, has power index d. */
  lemma PowerIndexOf(c: int, d: int)
    requires 1 <= d <= 18 && Pow10(d - 1) <= c < Pow10(d)
    ensures PowerIndex(c) == d
  {
    Pow10Monotone(d, 18);
    DecimalDigitsUnique(c, d);
  }

  /** checkPowerOf10: linear search of the powers10 table. */
  method CheckPowerOf10(c: int) returns (k: int)
    ensures k == PowerIndex(c)
    ensures 0 <= k <= 18
  {
    var i := 0;
    while i < 20
      invariant 0 <= i <= 20
      invariant 0 < i <= 19 ==> c >= Pow10(i - 1)
      invariant i == 20 ==> c >= Pow10(18)
    {
      var power := Powers10[i];
      if i < 19 {
        Powers10Table(i);
      }
      if c < power {
        if i > 0 {
          DecimalDigitsUnique(c, i);
          Pow10Monotone(i, 18);
        }
        return i;
      }
      i := i + 1;
    }
    k := 0;
  }
}
