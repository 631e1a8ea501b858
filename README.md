# NumericDiff scorer, verified in Dafny

This project models the `NumericDiff` scorer of the autoevals library. The
scorer compares a produced number (`output`) with an expected one
(`expected`):

- with no expected value, the call fails;
- when both numbers are zero, the score is 1;
- otherwise the score is `1 - |expected - output| / max(|expected|, |output|)`.

The model is pure and sits in module `Number` (`number.dfy`). The small
`Wrappers` module (`wrappers.dfy`) holds `Option` for the optional
`expected` argument and `Result` for the failing call. Numbers are exact
Dafny `real`s. `Number.NumericDiff` is the scorer's entry point.
`Number.Score` is the formula for a present `expected` value.
`Number.Divisor` is the guarded divisor `max(|expected|, |output|)`.

The formula also has an independent reference form, `Number.ScoreAsRatio`.
Away from (0, 0), the score is the smaller magnitude as a fraction of the
larger. It is negated when the two numbers lie strictly on opposite sides of
zero. Five of the lemmas below are derived from that form: `ScoreBounds`,
`ScoreSameSignNonNegative`, `ScoreNegativeIffOppositeSigns`,
`ScoreZeroIffOneZero` and `ScoreMinusOneIffOpposite`.

## Model

| member | source | states |
|---|---|---|
| `Number.NumericDiff` | py/autoevals/number.py:10-18 | fails with `MissingExpected` exactly when `expected` is absent; otherwise the score lies in [-1, 1], is 1 exactly when the two numbers are equal, and is negative exactly when they lie strictly on opposite sides of zero |
| `Number.MissingExpectedFails` | py/autoevals/number.py:11-12 | an absent `expected` yields a failure and no score, whatever `output` is |
| `Number.Divisor` | py/autoevals/number.py:14-17 | the divisor bounds both magnitudes and is zero only for the pair (0, 0), which the preceding branch handles, so the division is always defined |
| `Number.BothZeroScoresOne` | py/autoevals/number.py:14-15 | when both numbers are 0 the score is exactly 1 |
| `Number.ScoreAsRatio` | py/autoevals/number.py:5-8 | away from (0, 0), the score is min(abs)/max(abs) when the numbers share a sign and -(min(abs)/max(abs)) otherwise; the doc comment describes "the percentage difference of the smaller number from the larger one", and the score is one minus that difference, which for same-sign pairs is min(abs)/max(abs); the doc comment is silent on the negative scores of opposite-sign pairs |
| `Number.ScoreBounds` | py/autoevals/number.py:14-17 | the score always lies in [-1, 1] |
| `Number.ScoreSameSignNonNegative` | py/autoevals/number.py:5-8 | when the numbers lie on the same side of zero, the score lies in [0, 1]: one minus the percentage difference of the smaller number from the larger |
| `Number.ScoreNegativeIffOppositeSigns` | py/autoevals/number.py:17 | the score is negative if and only if the numbers lie strictly on opposite sides of zero |
| `Number.ScoreOneIffEqual` | py/autoevals/number.py:14-17 | the score is 1 if and only if `expected == output`, zero or not |
| `Number.ScoreZeroIffOneZero` | py/autoevals/number.py:14-17 | the score is 0 if and only if exactly one of the two numbers is 0 |
| `Number.ScoreMinusOneIffOpposite` | py/autoevals/number.py:17 | the score is -1 if and only if the numbers are nonzero opposites |
| `Number.ScoreSymmetric` | py/autoevals/number.py:17 | swapping `expected` and `output` leaves the score unchanged |
| `Number.ScoreNegationInvariant` | py/autoevals/number.py:17 | negating both numbers leaves the score unchanged |

## Left out

- The `Score` and `Scorer` base classes and `self._name()` come from `.base`, which is not part of this model. The result is just the numeric score.
- Floating-point behaviour is not modelled: rounding, NaN, infinities, and Python's mix of `int` and `float` (both-zero gives the integer `1`). Numbers are exact reals.
- An `output` that is `None` or not a number is not modelled. The code does not check it, and it would only surface as a Python `TypeError`.
- The text of the `ValueError` message is not modelled. The message names `LevenshteinScorer`, though the raising class is `NumericDiff`. The model records only that the call fails with `MissingExpected`.
- Extra keyword arguments (`**kwargs`) are accepted and ignored by the scorer. The model has no parameter for them.
