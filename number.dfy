/** The numeric-difference scorer: it compares a produced number with an
    expected one and scores how close the smaller magnitude comes to the
    larger, as a fraction of the larger. Numbers are exact reals. */
module Number {
  import opened Wrappers

  /** Why a call to the scorer fails. */
  datatype ScoreError = MissingExpected

  /** Absolute value, as Python's `abs`. */
  function Abs(x: real): (r: real)
    ensures 0.0 <= r
    ensures r == x || r == -x
  {
    if x < 0.0 then -x else x
  }

  /** The larger of two values, as Python's `max`. */
  function Max(a: real, b: real): (r: real)
    ensures a <= r && b <= r
    ensures r == a || r == b
  {
    if a < b then b else a
  }

  /** The smaller of two values. */
  function Min(a: real, b: real): (r: real)
    ensures r <= a && r <= b
    ensures r == a || r == b
  {
    if a < b then a else b
  }

  /** Both values lie on the same side of zero (zero counts as either side). */
  predicate SameSign(x: real, y: real) {
    (0.0 <= x && 0.0 <= y) || (x <= 0.0 && y <= 0.0)
  }

  /** The divisor of the relative difference: the larger magnitude of the
      two values. It bounds both magnitudes and is zero only when both
      values are, so the division in `Score` is defined on every pair
      except the one the scorer handles separately. */
  function Divisor(output: real, expected: real): (d: real)
    ensures Abs(expected) <= d && Abs(output) <= d
    ensures d == 0.0 <==> expected == 0.0 && output == 0.0
  {
    Max(Abs(expected), Abs(output))
  }

  /** The score of a pair whose expected value is present: 1 when both are
      zero, otherwise one minus the relative difference. */
  function Score(output: real, expected: real): (s: real) {
    if expected == 0.0 && output == 0.0 then 1.0
    else 1.0 - Abs(expected - output) / Divisor(output, expected)
  }

  /** The scorer's entry point. It fails when `expected` is absent and
      otherwise yields a score in [-1, 1] that is 1 exactly when the two
      numbers are equal. */
  function NumericDiff(output: real, expected: Option<real>): (r: Result<real, ScoreError>)
    ensures r.Failure? <==> expected.None?
    ensures r.Failure? ==> r.error == MissingExpected
    ensures r.Success? ==> -1.0 <= r.value <= 1.0
    ensures r.Success? ==> (r.value == 1.0 <==> output == expected.value)
    ensures r.Success? ==> (r.value < 0.0 <==> !SameSign(output, expected.value))
  {
    match expected
    case None => Failure(MissingExpected)
    case Some(e) =>
      ScoreBounds(output, e);
      ScoreOneIffEqual(output, e);
      ScoreNegativeIffOppositeSigns(output, e);
      Success(Score(output, e))
  }

  /** Reference definition: away from (0, 0) the score is the smaller
      magnitude as a fraction of the larger, negated when the two values lie
      strictly on opposite sides of zero. */
  lemma ScoreAsRatio(output: real, expected: real)
    requires !(expected == 0.0 && output == 0.0)
    ensures SameSign(output, expected) ==>
      Score(output, expected) == Min(Abs(expected), Abs(output)) / Divisor(output, expected)
    ensures !SameSign(output, expected) ==>
      Score(output, expected) == -(Min(Abs(expected), Abs(output)) / Divisor(output, expected))
  {
    var d := Divisor(output, expected);
    var m := Min(Abs(expected), Abs(output));
    assert d != 0.0;
    if SameSign(output, expected) {
      SameSignDistance(output, expected);
      ScoreOfParts(output, expected, d - m, d);
      OneMinusQuotient(d, m);
    } else {
      OppositeSignDistance(output, expected);
      ScoreOfParts(output, expected, d + m, d);
      OneMinusQuotient(d, m);
    }
  }

  /** Away from (0, 0) the score is fixed by the distance and the divisor. */
  lemma ScoreOfParts(output: real, expected: real, n: real, d: real)
    requires !(expected == 0.0 && output == 0.0)
    requires Abs(expected - output) == n && Divisor(output, expected) == d
    ensures Score(output, expected) == 1.0 - n / d
  {
  }

  /** On the same side of zero the distance is the larger magnitude less the smaller. */
  lemma SameSignDistance(output: real, expected: real)
    requires SameSign(output, expected)
    ensures Abs(expected - output) == Divisor(output, expected) - Min(Abs(expected), Abs(output))
  {
  }

  /** On opposite sides of zero the distance is the sum of the magnitudes. */
  lemma OppositeSignDistance(output: real, expected: real)
    requires !SameSign(output, expected)
    ensures Abs(expected - output) == Divisor(output, expected) + Min(Abs(expected), Abs(output))
  {
  }

  /** Over a nonzero `d`, one less `(d - m) / d` is `m / d` and one less
      `(d + m) / d` is `-(m / d)`. */
  lemma OneMinusQuotient(d: real, m: real)
    requires d != 0.0
    ensures 1.0 - (d - m) / d == m / d
    ensures 1.0 - (d + m) / d == -(m / d)
  {
    assert d / d == 1.0;
    assert (d - m) / d == d / d - m / d by {
      assert (d / d - m / d) * d == d - m;
    }
    assert (d + m) / d == d / d + m / d by {
      assert (d / d + m / d) * d == d + m;
    }
  }

  /** The fraction the ratio form is built from lies in [0, 1]. */
  lemma RatioInUnit(output: real, expected: real)
    requires !(expected == 0.0 && output == 0.0)
    ensures 0.0 <= Min(Abs(expected), Abs(output)) / Divisor(output, expected) <= 1.0
  {
    var d := Divisor(output, expected);
    var m := Min(Abs(expected), Abs(output));
    assert 0.0 <= m <= d && d > 0.0;
    assert m / d <= d / d;
  }

  /** No expected value: the scorer fails and yields no score. */
  lemma MissingExpectedFails(output: real)
    ensures NumericDiff(output, None) == Failure(MissingExpected)
  {
  }

  /** Both values zero: the score is exactly 1. */
  lemma BothZeroScoresOne()
    ensures Score(0.0, 0.0) == 1.0
  {
  }

  /** The score never exceeds 1 and never falls below -1. */
  lemma ScoreBounds(output: real, expected: real)
    ensures -1.0 <= Score(output, expected) <= 1.0
  {
    if !(expected == 0.0 && output == 0.0) {
      ScoreAsRatio(output, expected);
      RatioInUnit(output, expected);
    }
  }

  /** On the same side of zero the score lies in [0, 1]: it is one minus the
      percentage difference of the smaller magnitude from the larger, which
      is the smaller magnitude as a fraction of the larger. */
  lemma ScoreSameSignNonNegative(output: real, expected: real)
    requires SameSign(output, expected)
    ensures 0.0 <= Score(output, expected) <= 1.0
  {
    if !(expected == 0.0 && output == 0.0) {
      ScoreAsRatio(output, expected);
      RatioInUnit(output, expected);
    }
  }

  /** The score is negative exactly when the two values lie strictly on
      opposite sides of zero. */
  lemma ScoreNegativeIffOppositeSigns(output: real, expected: real)
    ensures Score(output, expected) < 0.0 <==> !SameSign(output, expected)
  {
    if !(expected == 0.0 && output == 0.0) {
      ScoreAsRatio(output, expected);
      var d := Divisor(output, expected);
      var m := Min(Abs(expected), Abs(output));
      if !SameSign(output, expected) {
        assert m > 0.0 && d > 0.0;
        assert m / d > 0.0;
      } else {
        RatioInUnit(output, expected);
      }
    }
  }

  /** A quotient by a nonzero value is 0 exactly when the dividend is 0,
      and 1 exactly when dividend and divisor agree. */
  lemma QuotientZeroOrOne(n: real, d: real)
    requires d != 0.0
    ensures n / d == 0.0 <==> n == 0.0
    ensures n / d == 1.0 <==> n == d
  {
    assert n == (n / d) * d;
  }

  /** The score is 1 exactly when the two values are equal, zero or not. */
  lemma ScoreOneIffEqual(output: real, expected: real)
    ensures Score(output, expected) == 1.0 <==> output == expected
  {
    if !(expected == 0.0 && output == 0.0) {
      QuotientZeroOrOne(Abs(expected - output), Divisor(output, expected));
    }
  }

  /** The score is 0 exactly when one value is zero and the other is not. */
  lemma ScoreZeroIffOneZero(output: real, expected: real)
    ensures Score(output, expected) == 0.0 <==> (expected == 0.0) != (output == 0.0)
  {
    if !(expected == 0.0 && output == 0.0) {
      ScoreAsRatio(output, expected);
      QuotientZeroOrOne(Min(Abs(expected), Abs(output)), Divisor(output, expected));
    }
  }

  /** The score is -1 exactly when the values are nonzero opposites. */
  lemma ScoreMinusOneIffOpposite(output: real, expected: real)
    ensures Score(output, expected) == -1.0 <==> expected != 0.0 && output == -expected
  {
    if !(expected == 0.0 && output == 0.0) {
      ScoreAsRatio(output, expected);
      ScoreNegativeIffOppositeSigns(output, expected);
      QuotientZeroOrOne(Min(Abs(expected), Abs(output)), Divisor(output, expected));
    }
  }

  /** Swapping the expected and the produced value leaves the score unchanged. */
  lemma ScoreSymmetric(output: real, expected: real)
    ensures Score(output, expected) == Score(expected, output)
  {
    assert Abs(expected - output) == Abs(output - expected);
    assert Divisor(output, expected) == Divisor(expected, output);
  }

  /** Negating both values leaves the score unchanged. */
  lemma ScoreNegationInvariant(output: real, expected: real)
    ensures Score(-output, -expected) == Score(output, expected)
  {
    assert -expected - -output == -(expected - output);
  }
}
