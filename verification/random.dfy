/**
  The two draws of Python's `random` module that the game uses, written as
  functions of an arbitrary raw draw so that the generator's state stays out
  of the model (code/main.py:4, 93-96, 195-196).

  - `randint(a, b)` is `a + _randbelow(b - a + 1)`; every result in `[a, b]`
    is possible, which `RandInt` keeps by reducing the raw draw modulo the
    range size.
  - `random()` builds a 53-bit integer `k` and returns `k / 2^53`, and
    `uniform(a, b)` is `a + (b - a) * random()`.
 */
module Random {

  /** 2^53, the denominator of every value `random()` returns. */
  const Denominator53: nat := 0x20_0000_0000_0000

  function RandInt(a: int, b: int, draw: nat): (r: int)
    requires a <= b
    ensures a <= r <= b
  {
    a + draw % (b - a + 1)
  }

  /** Every value of the range is produced by some draw. */
  lemma RandIntReachesEveryValue(a: int, b: int, v: int)
    requires a <= v <= b
    ensures exists draw: nat :: RandInt(a, b, draw) == v
  {
    var draw: nat := v - a;
    assert draw % (b - a + 1) == draw;
    assert RandInt(a, b, draw) == v;
  }

  /** `random()`: a multiple of 2^-53 in `[0, 1)`. */
  function Unit(draw: nat): (r: real)
    ensures 0.0 <= r < 1.0
    ensures r * Denominator53 as real == (draw % Denominator53) as real
  {
    (draw % Denominator53) as real / Denominator53 as real
  }

  function Uniform(a: real, b: real, draw: nat): (r: real)
    requires a <= b
    ensures a <= r <= b
    ensures a < b ==> r < b
  {
    var u := Unit(draw);
    UniformBounds(a, b, u, a + (b - a) * u);
    a + (b - a) * u
  }

  /** `a + (b - a) * u` with `u` in `[0, 1)` lies in `[a, b]`, and below `b` when `a < b`. */
  lemma UniformBounds(a: real, b: real, u: real, r: real)
    requires a <= b && 0.0 <= u < 1.0 && r == a + (b - a) * u
    ensures a <= r <= b
    ensures a < b ==> r < b
  {
    var w := b - a;
    var o := w * u;
    assert r == a + o;
    ScaleBelow(w, u, o);
    assert a + o <= a + w;
  }

  /** Scaling by a factor in `[0, 1)` keeps a non-negative width within itself. */
  lemma ScaleBelow(w: real, u: real, o: real)
    requires 0.0 <= w && 0.0 <= u < 1.0 && o == w * u
    ensures 0.0 <= o <= w
    ensures 0.0 < w ==> o < w
  {
    if 0.0 < w {
      assert w * u < w * 1.0;
    } else {
      assert o == 0.0;
    }
  }
}
