/** C integer semantics used by the planner's C++ code.

  Dafny integers are unbounded and its `/` and `%` are Euclidean; C `int`
  is 32 bits wide and its `/` truncates toward zero.  The models use these
  definitions where the difference matters.
*/
module CInt {

  const IntMin: int := -0x8000_0000
  const IntMax: int := 0x7fff_ffff
  const UShortMax: int := 0xffff

  /** `x` fits in a C `int`. */
  predicate InInt(x: int) { IntMin <= x <= IntMax }

  function Abs(x: int): nat { if x < 0 then -x else x }

  /** C's `/`: the quotient truncated toward zero. */
  function CDiv(a: int, b: int): int
    requires b != 0
  {
    if (a < 0) == (b < 0) then Abs(a) / Abs(b) else -(Abs(a) / Abs(b))
  }

  /** C's `%`: the remainder has the sign of the dividend. */
  function CMod(a: int, b: int): int
    requires b != 0
  {
    a - CDiv(a, b) * b
  }

  /** `k * g` is a multiple of a positive `g`, and dividing gives `k` back. */
  lemma MulDivMod(k: int, g: int)
    requires g > 0
    ensures (k * g) % g == 0 && (k * g) / g == k
  {
    var q, r := (k * g) / g, (k * g) % g;
    assert k * g == q * g + r && 0 <= r < g;
    assert (k - q) * g == r;
    assert k - q >= 1 ==> (k - q) * g >= g;
    assert k - q <= -1 ==> (k - q) * g <= -g;
  }

  /** A multiple of a positive `g` is `g` times the quotient. */
  lemma ModZeroIsMultiple(x: int, g: int)
    requires g > 0 && x % g == 0
    ensures x == (x / g) * g
  {
  }

  /** Integer combinations of multiples of `g` are multiples of `g`. */
  lemma CombinationMod(g: int, x: int, y: int, p: int, q: int)
    requires g > 0 && x % g == 0 && y % g == 0
    ensures (p * x + q * y) % g == 0
  {
    var i, j := x / g, y / g;
    assert x == i * g && y == j * g;
    assert p * x + q * y == (p * i + q * j) * g;
    MulDivMod(p * i + q * j, g);
  }

  /** When the division is exact, C's truncating division and Dafny's
      Euclidean division agree. */
  lemma ExactDivisionAgrees(a: int, d: int)
    requires d > 0 && a % d == 0
    ensures CDiv(a, d) == a / d && (a / d) * d == a
  {
    var k := a / d;
    assert a == k * d;
    if a < 0 {
      assert -a == (-k) * d;
      MulDivMod(-k, d);
    } else {
      MulDivMod(k, d);
    }
  }
}
