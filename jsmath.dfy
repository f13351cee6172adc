/**
 * The JavaScript arithmetic the app relies on, over unbounded integers.
 * Every quotient the app rounds has integer operands, so `Math.round(a / b)`
 * is computed exactly by `RoundDiv`.
 */
module JsMath {

  /** `Math.max(a, b)` on integers. */
  function Max(a: int, b: int): (r: int)
    ensures r >= a && r >= b && (r == a || r == b)
  {
    if a >= b then a else b
  }

  /** `Math.min(a, b)` on integers. */
  function Min(a: int, b: int): (r: int)
    ensures r <= a && r <= b && (r == a || r == b)
  {
    if a <= b then a else b
  }

  /**
   * `Math.round(a / b)` for integers `a` and `b > 0`: the nearest integer,
   * halves rounded towards +infinity (`Math.round(-2.5) == -2`).
   */
  function RoundDiv(a: int, b: int): (r: int)
    requires b > 0
    ensures 2 * b * r - b <= 2 * a < 2 * b * r + b
  {
    var q := (2 * a + b) / (2 * b);
    DivBounds(2 * a + b, 2 * b);
    q
  }

  /** The JavaScript `%` operator: the remainder takes the sign of the dividend. */
  function JsRem(a: int, b: int): (r: int)
    requires b != 0
  {
    var m := if b < 0 then -b else b;
    if a >= 0 then a % m else -((-a) % m)
  }

  /** Floor division bounds: `b * (a / b) <= a < b * (a / b) + b`. */
  lemma DivBounds(a: int, b: int)
    requires b > 0
    ensures b * (a / b) <= a < b * (a / b) + b
  {
  }

  /** Quotient and remainder are unique: they are the only pair with `a == q * b + r`, `0 <= r < b`. */
  lemma DivModUnique(a: int, b: int, q: int, r: int)
    requires b > 0 && 0 <= r < b && a == q * b + r
    ensures q == a / b && r == a % b
  {
    var q', r' := a / b, a % b;
    assert a == q' * b + r';
    if q > q' {
      MulMonotone(q - q', b);
    } else if q < q' {
      MulMonotone(q' - q, b);
    }
  }

  /** A positive multiple of `b > 0` is at least `b`. */
  lemma MulMonotone(k: int, b: int)
    requires k >= 1 && b > 0
    ensures k * b >= b
  {
    assert k * b == (k - 1) * b + b;
  }
}
