/** Python's `int(x)` applied to a number: truncation toward zero, written out
    over exact reals, and the percentage computation the report performs with it. */
module Truncation {

  /** `int(x)`: the integer nearest to x in the direction of zero. */
  function Trunc(x: real): (n: int)
    ensures 0.0 <= x ==> 0 <= n && n as real <= x < n as real + 1.0
    ensures x < 0.0 ==> n <= 0 && x <= n as real < x + 1.0
  {
    if x >= 0.0 then x.Floor else -((-x).Floor)
  }

  /** Integer division rounding toward zero, as in C or Java; a reference
      definition built from Dafny's Euclidean division on magnitudes. */
  function TruncDiv(a: int, b: int): int
    requires b != 0
  {
    var q := (if a < 0 then -a else a) / (if b < 0 then -b else b);
    if (a < 0) == (b < 0) then q else -q
  }

  /** `int(100 * (count / float(total)))`: a count as a whole percentage of a
      total, truncated toward zero. The caller guarantees a non-zero total
      (the script divides unguarded). */
  function Percent(count: int, total: int): (p: int)
    requires total != 0
    ensures p == TruncDiv(100 * count, total)
  {
    var x := 100.0 * (count as real / total as real);
    assert x == (100 * count) as real / total as real;
    TruncOfQuotient(100 * count, total);
    Trunc(x)
  }

  /** Truncation is determined by its defining inequalities. */
  lemma TruncUnique(x: real, n: int)
    requires 0.0 <= x ==> 0 <= n && n as real <= x < n as real + 1.0
    requires x < 0.0 ==> n <= 0 && x <= n as real < x + 1.0
    ensures Trunc(x) == n
  {
  }

  /** Dividing by a positive real keeps the bounds it keeps before scaling. */
  lemma DivBetween(z: real, d: real, lo: real, hi: real)
    requires 0.0 < d && lo * d <= z < hi * d
    ensures lo <= z / d < hi
  {
    assert z / d * d == z;
  }

  /** For non-negative a and positive b the real quotient truncates to a / b. */
  lemma TruncOfNonNegQuotient(a: int, b: int)
    requires 0 <= a && 0 < b
    ensures Trunc(a as real / b as real) == a / b
  {
    var q, r := a / b, a % b;
    assert a == q * b + r && 0 <= r < b;
    assert q as real * b as real <= a as real;
    assert a as real < (q as real + 1.0) * b as real;
    DivBetween(a as real, b as real, q as real, q as real + 1.0);
    TruncUnique(a as real / b as real, q);
  }

  /** Truncation commutes with negation. */
  lemma TruncNeg(x: real)
    ensures Trunc(-x) == -Trunc(x)
  {
    if x > 0.0 {
      TruncUnique(-x, -Trunc(x));
    } else if x < 0.0 {
      TruncUnique(-x, -Trunc(x));
    }
  }

  /** Moving a sign from the denominator to the quotient. */
  lemma QuotientNegDenominator(a: int, b: int)
    requires b != 0
    ensures a as real / b as real == -(a as real / (-b) as real)
  {
  }

  /** Moving a sign from the numerator to the quotient. */
  lemma QuotientNegNumerator(a: int, b: int)
    requires b != 0
    ensures a as real / b as real == -((-a) as real / b as real)
  {
  }

  /** Truncating the exact quotient of two integers is integer division
      rounding toward zero. */
  lemma TruncOfQuotient(a: int, b: int)
    requires b != 0
    ensures Trunc(a as real / b as real) == TruncDiv(a, b)
  {
    var na := if a < 0 then -a else a;
    var nb := if b < 0 then -b else b;
    TruncOfNonNegQuotient(na, nb);
    var y := na as real / nb as real;
    if a < 0 && b < 0 {
      QuotientNegDenominator(a, b);
      QuotientNegNumerator(a, -b);
      assert a as real / b as real == y;
    } else if a < 0 {
      QuotientNegNumerator(a, b);
      assert a as real / b as real == -y;
      TruncNeg(y);
    } else if b < 0 {
      QuotientNegDenominator(a, b);
      assert a as real / b as real == -y;
      TruncNeg(y);
    } else {
      assert a as real / b as real == y;
    }
  }

  /** A share of a total lies between 0 and 100 percent, and all of it is 100. */
  lemma PercentBounds(count: int, total: int)
    requires 0 <= count <= total && total != 0
    ensures 0 <= Percent(count, total) <= 100
    ensures count == total ==> Percent(count, total) == 100
    ensures count == 0 ==> Percent(count, total) == 0
  {
    var x := 100.0 * (count as real / total as real);
    assert count as real / total as real <= 1.0;
    assert 0.0 <= x <= 100.0;
    if count == total {
      assert x == 100.0;
      TruncUnique(x, 100);
    }
  }

  /** A share truncated to a whole percentage never exceeds its exact value:
      percent * total <= 100 * count. */
  lemma PercentTimesTotal(count: int, total: int)
    requires 0 <= count && 0 < total
    ensures 0 <= Percent(count, total)
    ensures Percent(count, total) * total <= 100 * count
  {
    assert Percent(count, total) == (100 * count) / total;
  }

  /** Cancelling a positive factor from both sides of an inequality. */
  lemma CancelPositive(s: int, t: int, bound: int)
    requires 0 < t && s * t <= bound * t
    ensures s <= bound
  {
  }

  /** Multiplication distributes over a sum of four terms. */
  lemma Distribute4(a: int, b: int, c: int, d: int, t: int)
    ensures (a + b + c + d) * t == a * t + b * t + c * t + d * t
  {
  }

  /** Four disjoint shares of one total, each truncated on its own, add up to
      at most 100 percent. */
  lemma PercentSumAtMost100(c2: int, c3: int, c4: int, c5: int, total: int)
    requires 0 <= c2 && 0 <= c3 && 0 <= c4 && 0 <= c5
    requires c2 + c3 + c4 + c5 <= total && total != 0
    ensures Percent(c2, total) + Percent(c3, total) + Percent(c4, total) + Percent(c5, total) <= 100
  {
    var p2, p3, p4, p5 := Percent(c2, total), Percent(c3, total), Percent(c4, total), Percent(c5, total);
    PercentTimesTotal(c2, total);
    PercentTimesTotal(c3, total);
    PercentTimesTotal(c4, total);
    PercentTimesTotal(c5, total);
    var s := p2 + p3 + p4 + p5;
    Distribute4(p2, p3, p4, p5, total);
    assert s * total <= 100 * total;
    CancelPositive(s, total, 100);
  }
}
