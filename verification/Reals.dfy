/** Products of real numbers. */
module Reals {

  function Times(x: real, y: real): real {
    x * y
  }

  lemma {:induction false} TimesOrdered(c: real, a: real, b: real)
    ensures c >= 0.0 && a <= b ==> Times(c, a) <= Times(c, b)
    ensures c > 0.0 && a < b ==> Times(c, a) < Times(c, b)
  {
  }

  lemma {:induction false} TimesCommutes(a: real, b: real)
    ensures Times(a, b) == Times(b, a)
  {
  }

  lemma {:induction false} SameSigns(x: real, y: real)
    ensures (x > 0.0 && y > 0.0) || (x < 0.0 && y < 0.0) ==> Times(x, y) > 0.0
    ensures x == 0.0 ==> Times(x, y) == 0.0
  {
    assert x * y == (-x) * (-y);
  }

  /** Non-negative numbers are ordered as their squares are. */
  lemma {:induction false} SquaresOrdered(x: real, y: real)
    requires 0.0 <= x && 0.0 <= y
    ensures x < y <==> Times(x, x) < Times(y, y)
    ensures x <= y <==> Times(x, x) <= Times(y, y)
  {
    LessSquares(x, y);
    LessSquares(y, x);
  }

  lemma {:induction false} LessSquares(x: real, y: real)
    requires 0.0 <= x && 0.0 <= y
    ensures x < y ==> Times(x, x) < Times(y, y)
  {
    TimesOrdered(x, x, y);
    TimesOrdered(y, x, y);
    TimesCommutes(x, y);
  }
}
