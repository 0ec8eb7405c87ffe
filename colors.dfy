/** Colour interpolation used to show how long a live cell has been alive
    (`color_smooth` in main.py). Arithmetic is exact over `real`; the
    conversion back to an integer channel truncates toward zero, as Python's
    `int(...)` does on a float. */
module Colors {

  /** An RGB triple; channels are unbounded integers as in the source tuples. */
  datatype Rgb = Rgb(r: int, g: int, b: int)

  /** Colour of a dead cell and the initial colour of every cell. */
  const Black: Rgb := Rgb(0, 0, 0)
  /** Colour of a cell that has just become alive. */
  const Red: Rgb := Rgb(255, 0, 0)
  /** Colour of a cell that has been alive for five seconds or more. */
  const Blue: Rgb := Rgb(0, 0, 255)

  /** `p` limited to [0, 1], as the two `if`s at the top of `color_smooth`. */
  function Clamp(p: real): (q: real)
    ensures 0.0 <= q <= 1.0
    ensures p <= 0.0 ==> q == 0.0
    ensures p >= 1.0 ==> q == 1.0
    ensures 0.0 <= p <= 1.0 ==> q == p
  {
    if p < 0.0 then 0.0 else if p > 1.0 then 1.0 else p
  }

  /** Python's `int(x)` on a float: truncation toward zero. */
  function Trunc(x: real): (n: int)
    ensures x >= 0.0 ==> 0 <= n && n as real <= x < n as real + 1.0
    ensures x < 0.0 ==> n <= 0 && n as real - 1.0 < x <= n as real
  {
    if x >= 0.0 then x.Floor else -((-x).Floor)
  }

  /** The weighted mix `a*(1-p) + b*p` of one channel. */
  function Mix(a: int, b: int, p: real): real
  {
    a as real * (1.0 - p) + b as real * p
  }

  /** Rounding a value that lies between two integers toward zero keeps it between them. */
  lemma TruncBetween(x: real, lo: int, hi: int)
    requires lo as real <= x <= hi as real
    ensures lo <= Trunc(x) <= hi
  {
  }

  /** For a weight in [0, 1], the mix of two channels is a convex combination. */
  lemma {:induction false} MixBetween(a: int, b: int, p: real)
    requires 0.0 <= p <= 1.0
    ensures a <= b ==> a as real <= Mix(a, b, p) <= b as real
    ensures b <= a ==> b as real <= Mix(a, b, p) <= a as real
  {
    var d := (b - a) as real;
    assert Mix(a, b, p) == a as real + d * p;
    if a <= b {
      assert 0.0 <= d * p <= d * 1.0;
    } else {
      assert d * 1.0 <= d * p <= 0.0;
    }
  }

  /** One output channel: the truncated mix, for a weight already clamped. */
  function Channel(a: int, b: int, q: real): (n: int)
    requires 0.0 <= q <= 1.0
    ensures q == 0.0 ==> n == a
    ensures q == 1.0 ==> n == b
    ensures Min(a, b) <= n <= Max(a, b)
  {
    MixBetween(a, b, q);
    TruncBetween(Mix(a, b, q), Min(a, b), Max(a, b));
    Trunc(Mix(a, b, q))
  }

  /** `color_smooth(col1, col2, p)`: componentwise linear interpolation with the
      weight clamped to [0, 1] and each channel truncated toward zero. */
  function ColorSmooth(col1: Rgb, col2: Rgb, p: real): (c: Rgb)
    ensures p <= 0.0 ==> c == col1
    ensures p >= 1.0 ==> c == col2
    ensures Min(col1.r, col2.r) <= c.r <= Max(col1.r, col2.r)
    ensures Min(col1.g, col2.g) <= c.g <= Max(col1.g, col2.g)
    ensures Min(col1.b, col2.b) <= c.b <= Max(col1.b, col2.b)
  {
    var q := Clamp(p);
    Rgb(Channel(col1.r, col2.r, q), Channel(col1.g, col2.g, q), Channel(col1.b, col2.b, q))
  }

  function Min(a: int, b: int): int { if a <= b then a else b }
  function Max(a: int, b: int): int { if a <= b then b else a }

  /** Out-of-range weights behave exactly like the nearest end of [0, 1]:
      `p = -1` gives the same colour as `p = 0`, and `p = 1.5` as `p = 1`. */
  lemma ClampedWeightSameColor(col1: Rgb, col2: Rgb, p: real)
    ensures ColorSmooth(col1, col2, p) == ColorSmooth(col1, col2, Clamp(p))
    ensures ColorSmooth(col1, col2, -1.0) == ColorSmooth(col1, col2, 0.0) == col1
    ensures ColorSmooth(col1, col2, 1.5) == ColorSmooth(col1, col2, 1.0) == col2
  {
  }

  /** The age colour of a live cell, `color_smooth(red, blue, elapsed / 5)`. */
  function AgeColor(elapsed: real): (c: Rgb)
    ensures c.g == 0 && 0 <= c.r <= 255 && 0 <= c.b <= 255
    ensures elapsed <= 0.0 ==> c == Red
    ensures elapsed >= 5.0 ==> c == Blue
  {
    ColorSmooth(Red, Blue, elapsed / 5.0)
  }

  /** Along the age gradient the red and blue channels add up to 255, or to
      254 when truncation cuts both. */
  lemma {:induction false} AgeColorShape(elapsed: real)
    ensures 254 <= AgeColor(elapsed).r + AgeColor(elapsed).b <= 255
  {
    var q := Clamp(elapsed / 5.0);
    var u := 255.0 * q;
    assert Mix(255, 0, q) == 255.0 - u;
    assert Mix(0, 0, q) == 0.0;
    assert Mix(0, 255, q) == u;
    assert AgeColor(elapsed).r == Trunc(255.0 - u);
    assert AgeColor(elapsed).b == Trunc(u);
  }

  /** Channels are truncated, not rounded: a cell alive for any time strictly
      between 0 and 5/255 seconds is drawn (254, 0, 0), where rounding would
      still give pure red below 1/102 seconds. */
  lemma {:induction false} AgeColorTruncates(elapsed: real)
    requires 0.0 < elapsed < 5.0 / 255.0
    ensures AgeColor(elapsed) == Rgb(254, 0, 0)
  {
    var q := Clamp(elapsed / 5.0);
    var u := 255.0 * q;
    assert 0.0 < u < 1.0;
    assert Mix(255, 0, q) == 255.0 - u;
    assert Mix(0, 0, q) == 0.0;
    assert Mix(0, 255, q) == u;
  }

  /** As a live cell ages, its colour moves monotonically from red toward blue. */
  lemma {:induction false} AgeColorMonotone(e1: real, e2: real)
    requires e1 <= e2
    ensures AgeColor(e2).r <= AgeColor(e1).r
    ensures AgeColor(e1).b <= AgeColor(e2).b
  {
    var q1, q2 := Clamp(e1 / 5.0), Clamp(e2 / 5.0);
    assert q1 <= q2;
    assert Mix(255, 0, q1) == 255.0 - 255.0 * q1;
    assert Mix(255, 0, q2) == 255.0 - 255.0 * q2;
    assert Mix(0, 255, q1) == 255.0 * q1;
    assert Mix(0, 255, q2) == 255.0 * q2;
    assert AgeColor(e1).r == Trunc(255.0 - 255.0 * q1);
    assert AgeColor(e2).r == Trunc(255.0 - 255.0 * q2);
    assert AgeColor(e1).b == Trunc(255.0 * q1);
    assert AgeColor(e2).b == Trunc(255.0 * q2);
  }
}
