/** Rounding of exact reals, with the conventions of the program's host language. */
module Numeric {

  function AbsR(x: real): real {
    if x < 0.0 then -x else x
  }

  function MinR(x: real, y: real): real {
    if x < y then x else y
  }

  function MaxR(x: real, y: real): real {
    if x < y then y else x
  }

  // round(): to the nearest integer, halves to the even one.
  function Round(x: real): int {
    var f := x.Floor;
    var rest := x - f as real;
    if rest < 0.5 then f
    else if rest > 0.5 then f + 1
    else if f % 2 == 0 then f else f + 1
  }

  // math.ceil()
  function Ceil(x: real): int {
    -((-x).Floor)
  }

  // int(): truncation toward zero.
  function Trunc(x: real): int {
    if x >= 0.0 then x.Floor else Ceil(x)
  }

  // x % 1.0: the fractional part, in [0, 1).
  function Frac(x: real): (f: real)
    ensures 0.0 <= f < 1.0
  {
    x - x.Floor as real
  }

  lemma RoundError(x: real)
    ensures AbsR(x - Round(x) as real) <= 0.5
  {
  }

  /** Halfway between two integers, the even one is taken. */
  lemma RoundTies(x: real)
    requires AbsR(x - Round(x) as real) == 0.5
    ensures Round(x) % 2 == 0
  {
  }

  /** No integer is closer to x than Round(x). */
  lemma RoundIsNearest(x: real, k: int)
    ensures AbsR(x - Round(x) as real) <= AbsR(x - k as real)
  {
    RoundError(x);
    if k != Round(x) {
      var d := k - Round(x);
      assert d >= 1 || d <= -1;
      assert k as real - Round(x) as real == d as real;
    }
  }

  lemma CeilBounds(x: real)
    ensures x <= Ceil(x) as real < x + 1.0
  {
  }

  // Reals in [0, 1) that differ by an integer are equal.
  lemma UnitIntervalUnique(f: real, g: real, k: int)
    requires 0.0 <= f < 1.0 && 0.0 <= g < 1.0
    requires f - g == k as real
    ensures f == g && k == 0
  {
  }

  lemma FracEqual(x: real, y: real)
    requires Frac(x) == Frac(y)
    ensures x - y == (x.Floor - y.Floor) as real
  {
  }

  lemma FracOfUnit(x: real)
    requires 0.0 <= x < 1.0
    ensures Frac(x) == x
  {
  }

  lemma MulMono(x: real, y: real, z: real)
    requires x <= y && z >= 0.0
    ensures x * z <= y * z
  {
  }
}
