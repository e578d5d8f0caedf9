/** JavaScript's `Math.round`, taken on exact values. */
module Rounding {

  /** `Math.round(x)`: the integer nearest to `x`, halves rounding up. */
  function Round(x: real): (n: int)
    ensures n as real - 0.5 <= x < n as real + 0.5
  {
    (x + 0.5).Floor
  }

  /** Rounding never reverses order. */
  lemma RoundMonotone(x: real, y: real)
    requires x <= y
    ensures Round(x) <= Round(y)
  {
  }

  /** An integer is its own rounding. */
  lemma RoundInt(n: int)
    ensures Round(n as real) == n
  {
  }

  /** Rounding a ratio of integers needs no reals:
      `Math.round(a / b)` is `(2a + b) div 2b` with floor division. */
  lemma RoundRatio(a: int, b: int)
    requires b > 0
    ensures Round(a as real / b as real) == (2 * a + b) / (2 * b)
  {
    var q := (2 * a + b) / (2 * b);
    var r := (2 * a + b) % (2 * b);
    var x := a as real / b as real;
    var y := x + 0.5;
    var bb := (2 * b) as real;
    assert y * bb == (2 * a + b) as real by {
      assert x * b as real == a as real;
    }
    assert (2 * a + b) as real == q as real * bb + r as real by {
      assert 2 * a + b == q * (2 * b) + r;
      IntMulReal(q, 2 * b);
    }
    BetweenMultiples(y, q as real, bb, r as real);
    FloorOf(y, q);
  }

  lemma IntMulReal(i: int, j: int)
    ensures (i * j) as real == i as real * j as real
  {
  }

  /** If `y·k` is `q·k` plus a remainder in [0, k), then `y` lies in [q, q + 1). */
  lemma BetweenMultiples(y: real, q: real, k: real, rem: real)
    requires k > 0.0 && 0.0 <= rem < k && y * k == q * k + rem
    ensures q <= y < q + 1.0
  {
    if y < q {
      ScaleStrict(y, q, k);
    }
    if y >= q + 1.0 {
      ScaleWeak(q + 1.0, y, k);
    }
  }

  lemma FloorOf(y: real, q: int)
    requires q as real <= y < (q + 1) as real
    ensures Round(y - 0.5) == q
  {
  }

  lemma ScaleStrict(u: real, v: real, k: real)
    requires k > 0.0 && u < v
    ensures u * k < v * k
  {
  }

  lemma ScaleWeak(u: real, v: real, k: real)
    requires k > 0.0 && u <= v
    ensures u * k <= v * k
  {
  }
}
