/** Two-place decimal quantities.
    Every quantity column of the system is a DecimalField with two decimal
    places; the model keeps quantities as exact reals and writes Python's
    `round(x, 2)` out as `Round2`, which rounds half to even as the default
    Decimal context does. */
module Decimal {

  /** x is a whole number of hundredths (fits a two-place column exactly). */
  predicate IsCents(x: real) {
    (x * 100.0).Floor as real == x * 100.0
  }

  /** Round a real to the nearest integer, ties to the even neighbour. */
  function RoundHalfEven(y: real): (n: int)
    ensures y - 0.5 <= n as real <= y + 0.5
  {
    var f := y.Floor;
    var frac := y - f as real;
    if frac < 0.5 then f
    else if frac > 0.5 then f + 1
    else if f % 2 == 0 then f
    else f + 1
  }

  /** Python's `round(d, 2)` on a Decimal: quantize to hundredths, half-even. */
  function Round2(x: real): real {
    RoundHalfEven(x * 100.0) as real / 100.0
  }

  /** `max(x, 0)` as the handlers write it. */
  function Max0(x: real): (r: real)
    ensures r >= 0.0 && r >= x
    ensures r == x || r == 0.0
  {
    if x > 0.0 then x else 0.0
  }

  /** The rounded value is within half a hundredth of the exact one. */
  lemma Round2Error(x: real)
    ensures x - 0.005 <= Round2(x) <= x + 0.005
  {
    var n := RoundHalfEven(x * 100.0);
    assert Round2(x) * 100.0 == n as real;
  }

  /** The rounded value always fits a two-place column. */
  lemma Round2IsCents(x: real)
    ensures IsCents(Round2(x))
  {
    var n := RoundHalfEven(x * 100.0);
    assert Round2(x) * 100.0 == n as real;
  }

  /** A value that already has two places is left alone. */
  lemma Round2OfCents(x: real)
    requires IsCents(x)
    ensures Round2(x) == x
  {
    var y := x * 100.0;
    assert y.Floor as real == y;
    assert RoundHalfEven(y) == y.Floor;
  }

  /** Rounding twice is rounding once. */
  lemma Round2Idempotent(x: real)
    ensures Round2(Round2(x)) == Round2(x)
  {
    Round2IsCents(x);
    Round2OfCents(Round2(x));
  }

  /** A non-negative share never rounds to a negative one. */
  lemma Round2NonNegative(x: real)
    requires x >= 0.0
    ensures Round2(x) >= 0.0
  {
    var y := x * 100.0;
    assert y >= 0.0;
    assert y.Floor >= 0;
  }

  /** Rounding preserves order. */
  lemma Round2Monotonic(x: real, x': real)
    requires x <= x'
    ensures Round2(x) <= Round2(x')
  {
    var y, y' := x * 100.0, x' * 100.0;
    var f, f' := y.Floor, y'.Floor;
    assert f <= f';
    if f == f' {
      assert y - f as real <= y' - f' as real;
    } else {
      assert f + 1 <= f';
    }
  }

  /** Ties go to the even hundredth: a value exactly halfway between two
      hundredths rounds to the one with an even count of hundredths, down
      when the lower neighbour is even and up otherwise. */
  lemma Round2TiesToEven(x: real)
    requires x * 100.0 - (x * 100.0).Floor as real == 0.5
    ensures RoundHalfEven(x * 100.0) % 2 == 0
    ensures Round2(x) == if (x * 100.0).Floor % 2 == 0 then x - 0.005 else x + 0.005
  {
    var n := RoundHalfEven(x * 100.0);
    assert Round2(x) * 100.0 == n as real;
  }
}
