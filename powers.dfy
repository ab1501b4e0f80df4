/**
  Powers of ten and the integer facts about them that the rounding and
  scaling proofs rest on.
*/
module Powers {

  /** 10^n. */
  function Pow10(n: nat): (p: int)
    ensures p >= 1
  {
    if n == 0 then 1 else 10 * Pow10(n - 1)
  }

  lemma {:induction false} Pow10Add(m: nat, n: nat)
    ensures Pow10(m + n) == Pow10(m) * Pow10(n)
  {
    if n > 0 {
      Pow10Add(m, n - 1);
    }
  }

  lemma {:induction false} Pow10Monotone(m: nat, n: nat)
    requires m <= n
    ensures Pow10(m) <= Pow10(n)
  {
    if m < n {
      Pow10Monotone(m, n - 1);
    }
  }

  /** The powers of ten near the 64-bit bounds. */
  lemma LargePowers()
    ensures Pow10(16) == 10_000_000_000_000_000
    ensures Pow10(17) == 100_000_000_000_000_000
    ensures Pow10(18) == 1_000_000_000_000_000_000
    ensures Pow10(19) == 10_000_000_000_000_000_000
  {
    assert Pow10(9) == 1_000_000_000;
  }

  lemma MulAssoc(x: int, y: int, z: int)
    ensures (x * y) * z == x * (y * z)
  {}

  lemma MulLe(x: int, y: int, z: int)
    requires 0 <= z && x <= y
    ensures x * z <= y * z
  {}

  /** Quotient and remainder are the only pair with a == q * b + r, 0 <= r < b. */
  lemma DivUnique(a: int, b: int, q: int, r: int)
    requires b > 0 && 0 <= r < b && a == q * b + r
    ensures a / b == q && a % b == r
  {
    var q0, r0 := a / b, a % b;
    assert q0 * b + r0 == q * b + r;
    if q0 < q {
      MulLe(q0 + 1, q, b);
      assert false;
    } else if q < q0 {
      MulLe(q + 1, q0, b);
      assert false;
    }
  }

  /** Dividing twice is dividing by the product. */
  lemma DivDiv(a: int, b: int, c: int)
    requires a >= 0 && b > 0 && c > 0
    ensures (a / b) / c == a / (b * c)
  {
    var q, r := a / b, a % b;
    var q2, r2 := q / c, q % c;
    assert a == q * b + r;
    assert q == q2 * c + r2;
    assert q * b == q2 * (b * c) + r2 * b by {
      assert (q2 * c + r2) * b == q2 * (c * b) + r2 * b;
    }
    MulLe(r2, c - 1, b);
    DivUnique(a, b * c, q2, r2 * b + r);
  }

  /** Dividing a natural number never makes it larger. */
  lemma DivLe(a: int, b: int)
    requires a >= 0 && b >= 1
    ensures 0 <= a / b <= a
  {
    var q := a / b;
    assert q * b <= a;
    MulLe(1, b, q);
  }

  /** a / 10^(m+n) == (a / 10^m) / 10^n */
  lemma DivPow10(a: int, m: nat, n: nat)
    requires a >= 0
    ensures a / Pow10(m + n) == (a / Pow10(m)) / Pow10(n)
  {
    Pow10Add(m, n);
    DivDiv(a, Pow10(m), Pow10(n));
  }

  /** A quotient by a larger power of ten is no larger. */
  lemma DivPow10Monotone(a: int, m: nat, n: nat)
    requires a >= 0 && m <= n
    ensures a / Pow10(n) <= a / Pow10(m)
  {
    var k := n - m;
    DivPow10(a, m, k);
    assert m + k == n;
    DivLe(a, Pow10(m));
    DivLe(a / Pow10(m), Pow10(k));
  }

  /** A number below 10^n has quotient 0 by 10^n and anything larger. */
  lemma DivPow10Small(a: int, n: nat, k: nat)
    requires 0 <= a < Pow10(n) && n <= k
    ensures a / Pow10(k) == 0
  {
    Pow10Monotone(n, k);
    DivUnique(a, Pow10(k), 0, a);
  }

  /**
    r * 10^m is the multiple of 10^m nearest to a, a half rounded up:
    a lies in [(r - 1/2) * 10^m, (r + 1/2) * 10^m).
  */
  predicate RoundsTo(a: int, m: nat, r: int) {
    (2 * r - 1) * Pow10(m) <= 2 * a < (2 * r + 1) * Pow10(m)
  }

  lemma RoundCore(a: int, p: int, P: int, q: int, s: int, c: int, d: int, r: int)
    requires p >= 1 && P == p * 10 && a == q * p + s && 0 <= s < p
    requires q == 10 * c + d && 0 <= d < 10 && r == c + (if d >= 5 then 1 else 0)
    ensures (2 * r - 1) * P <= 2 * a < (2 * r + 1) * P
  {
    var cp, dp := c * p, d * p;
    assert a == 10 * cp + dp + s;
    if d >= 5 {
      MulLe(5, d, p);
      MulLe(d, 9, p);
      assert (2 * r - 1) * P == 20 * cp + 10 * p;
      assert (2 * r + 1) * P == 20 * cp + 30 * p;
    } else {
      MulLe(0, d, p);
      MulLe(d, 4, p);
      assert (2 * r - 1) * P == 20 * cp - 10 * p;
      assert (2 * r + 1) * P == 20 * cp + 10 * p;
    }
  }

  /** Two values can both be nearest to a at one scale only if they are equal. */
  lemma RoundsToUnique(a: int, m: nat, r1: int, r2: int)
    requires RoundsTo(a, m, r1) && RoundsTo(a, m, r2)
    ensures r1 == r2
  {
    var P := Pow10(m);
    if r1 < r2 {
      MulLe(2 * r1 + 1, 2 * r2 - 1, P);
    } else if r2 < r1 {
      MulLe(2 * r2 + 1, 2 * r1 - 1, P);
    }
  }

  /** a / 10^m rounded to the nearest integer, a half rounded up. */
  function Nearest(a: int, m: nat): (r: int)
    ensures RoundsTo(a, m, r)
  {
    var P := Pow10(m);
    var q := (2 * a + P) / (2 * P);
    assert q * (2 * P) <= 2 * a + P < q * (2 * P) + 2 * P;
    assert (2 * q - 1) * P == q * (2 * P) - P;
    assert (2 * q + 1) * P == q * (2 * P) + P;
    q
  }

  /** Rounding to the nearest never gives less than truncating. */
  lemma NearestAtLeastQuotient(a: int, m: nat)
    ensures Nearest(a, m) >= a / Pow10(m)
  {
    var P := Pow10(m);
    var q, r := a / P, Nearest(a, m);
    assert q * P <= a;
    if r < q {
      MulLe(2 * r + 1, 2 * q, P);
    }
  }

  /** A quotient by 10^k above M puts a at or above M + 1/2 units of 10^k. */
  lemma QuotientAbove(a: int, k: nat, M: int)
    requires a >= 0 && a / Pow10(k) > M
    ensures 2 * a >= (2 * M + 1) * Pow10(k)
  {
    var P := Pow10(k);
    var q := a / P;
    assert q * P <= a;
    MulLe(M + 1, q, P);
  }

  /** A value that rounds to at most M at scale 10^m lies below M + 1/2 units of any 10^k, k >= m. */
  lemma RoundsBelow(a: int, m: nat, r: int, M: int, k: nat)
    requires RoundsTo(a, m, r) && 0 <= r <= M && m <= k
    ensures 2 * a < (2 * M + 1) * Pow10(k)
  {
    MulLe(2 * r + 1, 2 * M + 1, Pow10(m));
    Pow10Monotone(m, k);
    MulLe(Pow10(m), Pow10(k), 2 * M + 1);
  }

  /** A value that rounds to a positive multiple of 10^m is at least half of 10^k, k <= m. */
  lemma RoundsAbove(a: int, m: nat, r: int, k: nat)
    requires RoundsTo(a, m, r) && r >= 1 && k <= m
    ensures Pow10(k) <= 2 * a
  {
    MulLe(1, 2 * r - 1, Pow10(m));
    Pow10Monotone(k, m);
  }

  /**
    Dropping m digits and adding one when the first dropped digit is 5 or
    more rounds to the nearest multiple of 10^m.
  */
  lemma RoundHalfUp(a: int, m: nat)
    requires a >= 0 && m >= 1
    ensures RoundsTo(a, m, a / Pow10(m) + (if (a / Pow10(m - 1)) % 10 >= 5 then 1 else 0))
  {
    var p := Pow10(m - 1);
    var P := Pow10(m);
    assert P == p * 10;
    var q := a / p;
    DivDiv(a, p, 10);
    assert q / 10 == a / P;
    var r := q / 10 + (if q % 10 >= 5 then 1 else 0);
    RoundCore(a, p, P, q, a % p, q / 10, q % 10, r);
  }

  /** Number of decimal digits of a positive number (0 for 0). */
  function DecimalDigits(n: nat): nat {
    if n == 0 then 0 else 1 + DecimalDigits(n / 10)
  }

  lemma {:induction false} DecimalDigitsBounds(n: nat)
    requires n >= 1
    ensures DecimalDigits(n) >= 1
    ensures Pow10(DecimalDigits(n) - 1) <= n < Pow10(DecimalDigits(n))
  {
    if n >= 10 {
      DecimalDigitsBounds(n / 10);
    }
  }

  lemma {:induction false} DecimalDigitsUnique(n: nat, k: nat)
    requires k >= 1 && Pow10(k - 1) <= n < Pow10(k)
    ensures DecimalDigits(n) == k
  {
    if k > 1 {
      DecimalDigitsUnique(n / 10, k - 1);
    }
  }

}
