/** Exact rationals of the planner, Rational_mGPT
  (ssipp-solver/ext/mgpt/rational.cc).

  A rational is a pair of C ints.  Every constructor reduces the pair by the
  gcd; the (int, int) constructor also makes the denominator positive.
  Comparisons and sums bring both operands to a common denominator
  obtained from lcm, which stops the process when that lcm overflows.
  Only that lcm is C-int arithmetic here: the cross products of the
  comparisons, the numerators and denominators of `+ - * /` and the
  digits the parser accumulates are unbounded integers, so the model gives
  the exact answer where the source's int arithmetic would overflow.
*/
module Rationals {
  import opened Wrappers
  import opened CInt

  // ---------------------------------------------------------------------
  // gcd and lcm

  /** Euclid's algorithm on non-negative numbers. */
  function GcdNat(a: nat, b: nat): nat
    decreases b
  {
    if b == 0 then a else GcdNat(b, a % b)
  }

  /** gcd(n, m): Euclid on the absolute values. */
  function Gcd(n: int, m: int): nat {
    GcdNat(Abs(n), Abs(m))
  }

  /** The loop of gcd, proved to compute Gcd. */
  method GcdLoop(n: int, m: int) returns (g: int)
    ensures g == Gcd(n, m)
    ensures g >= 0 && (m != 0 ==> g > 0)
  {
    var a: nat := Abs(n);
    var b: nat := Abs(m);
    while b > 0
      invariant GcdNat(a, b) == Gcd(n, m)
      invariant m != 0 ==> a > 0 || b > 0
      decreases b
    {
      var c := b;
      b := a % b;
      a := c;
    }
    g := a;
  }

  lemma {:induction false} GcdNatDivides(a: nat, b: nat)
    ensures GcdNat(a, b) == 0 <==> a == 0 && b == 0
    ensures GcdNat(a, b) > 0 ==> a % GcdNat(a, b) == 0 && b % GcdNat(a, b) == 0
    decreases b
  {
    if b != 0 {
      GcdNatDivides(b, a % b);
      var g := GcdNat(b, a % b);
      assert a == (a / b) * b + 1 * (a % b);
      CombinationMod(g, b, a % b, a / b, 1);
    }
  }

  lemma {:induction false} GcdNatGreatest(a: nat, b: nat, c: int)
    requires c > 0 && a % c == 0 && b % c == 0
    ensures GcdNat(a, b) % c == 0
    decreases b
  {
    if b != 0 {
      assert a % b == 1 * a + (-(a / b)) * b;
      CombinationMod(c, a, b, 1, -(a / b));
      GcdNatGreatest(b, a % b, c);
    }
  }

  lemma AbsMod(x: int, c: int)
    requires c > 0
    ensures x % c == 0 <==> Abs(x) % c == 0
  {
    if x < 0 {
      if x % c == 0 {
        assert -x == (-(x / c)) * c;
        MulDivMod(-(x / c), c);
      }
      if (-x) % c == 0 {
        assert x == (-((-x) / c)) * c;
        MulDivMod(-((-x) / c), c);
      }
    }
  }

  /** Gcd divides both arguments and is positive unless both are zero. */
  lemma GcdDivides(n: int, m: int)
    ensures Gcd(n, m) == 0 <==> n == 0 && m == 0
    ensures Gcd(n, m) > 0 ==> n % Gcd(n, m) == 0 && m % Gcd(n, m) == 0
  {
    GcdNatDivides(Abs(n), Abs(m));
    if Gcd(n, m) > 0 {
      AbsMod(n, Gcd(n, m));
      AbsMod(m, Gcd(n, m));
    }
  }

  /** Every positive common divisor divides Gcd. */
  lemma GcdGreatest(n: int, m: int, c: int)
    requires c > 0 && n % c == 0 && m % c == 0
    ensures Gcd(n, m) % c == 0
  {
    AbsMod(n, c);
    AbsMod(m, c);
    GcdNatGreatest(Abs(n), Abs(m), c);
  }

  /** gcd(n, 0) is |n|. */
  lemma GcdZero(n: int)
    ensures Gcd(n, 0) == Abs(n)
  {
  }

  /** A divisor e of n' times d divides n' * d. */
  lemma ScaledDivisor(n': int, e: int, d: int)
    requires e > 0 && d > 0 && n' % e == 0
    ensures (n' * d) % (e * d) == 0
  {
    ModZeroIsMultiple(n', e);
    assert n' * d == (n' / e) * (e * d);
    MulDivMod(n' / e, e * d);
  }

  /** A positive d that is a multiple of e * d (e > 0) forces e == 1. */
  lemma MultipleOfItselfTimes(d: int, e: int)
    requires d > 0 && e > 0 && d % (e * d) == 0
    ensures e == 1
  {
    ModZeroIsMultiple(d, e * d);
    var k := d / (e * d);
    assert d == k * (e * d);
    assert k <= 0 ==> k * (e * d) <= 0;
    assert k >= 1 ==> k * (e * d) >= e * d;
    assert e >= 2 ==> e * d >= 2 * d;
  }

  /** Dividing two numbers by their gcd leaves coprime numbers. */
  lemma ReducedCoprime(n: int, m: int)
    requires m != 0
    ensures Gcd(n, m) > 0
    ensures Gcd(n / Gcd(n, m), m / Gcd(n, m)) == 1
  {
    GcdDivides(n, m);
    var d := Gcd(n, m);
    var n', m' := n / d, m / d;
    ModZeroIsMultiple(n, d);
    ModZeroIsMultiple(m, d);
    assert m' != 0;
    GcdDivides(n', m');
    var e := Gcd(n', m');
    ScaledDivisor(n', e, d);
    ScaledDivisor(m', e, d);
    GcdGreatest(n, m, e * d);
    MultipleOfItselfTimes(d, e);
  }

  /** A 32-bit two's-complement wrap-around of an unbounded integer. */
  function Wrap32(x: int): (w: int)
    ensures InInt(w)
    ensures InInt(x) ==> w == x
  {
    var u := x % 0x1_0000_0000;
    if u > IntMax then u - 0x1_0000_0000 else u
  }

  /** n / gcd(n, m) * m computed without bounds: the lcm of n and m. */
  function LcmValue(n: int, m: int): (f: int)
    requires n > 0 && m > 0
    ensures f > 0 && f % n == 0 && f % m == 0 && f * Gcd(n, m) == n * m
  {
    GcdDivides(n, m);
    var g := Gcd(n, m);
    ModZeroIsMultiple(n, g);
    ModZeroIsMultiple(m, g);
    var a := n / g;
    assert a > 0;
    assert a * m == (m / g) * n;
    MulDivMod(a, m);
    MulDivMod(m / g, n);
    a * m
  }

  /** lcm(n, m): n / gcd * m computed in C ints; the process stops when
      dividing the product back by m does not give n / gcd, which is how
      the source detects overflow.  Only called on positive denominators. */
  function Lcm(n: int, m: int): Result<int>
    requires n > 0 && m > 0
  {
    var g := Gcd(n, m);
    GcdDivides(n, m);
    var l := Wrap32(n / g * m);
    if CDiv(l, m) != n / g then Err(Die) else Ok(l)
  }

  /** A wrapped product that overflowed does not divide back. */
  lemma WrappedQuotientDiffers(a: int, m: int)
    requires a > 0 && m > 0 && !InInt(a * m)
    ensures CDiv(Wrap32(a * m), m) != a
  {
    var p := a * m;
    assert p >= m;
    QuotientBelow(Wrap32(p), m, a, p);
  }

  /** A number below a * m has a truncated quotient by m below a. */
  lemma QuotientBelow(l: int, m: int, a: int, p: int)
    requires m > 0 && a > 0 && p == a * m && l < p
    ensures CDiv(l, m) < a
  {
    if l >= 0 {
      var q := l / m;
      assert q * m <= l;
      assert (a - q) * m == a * m - q * m;
      assert (a - q) * m > 0;
    }
  }

  /** The overflow test of lcm is exact: lcm stops the process precisely
      when n / gcd * m is not a C int, and otherwise returns the lcm. */
  lemma LcmDiesExactlyOnOverflow(n: int, m: int)
    requires 0 < n && 0 < m
    ensures Lcm(n, m).Err? <==> !InInt(LcmValue(n, m))
    ensures Lcm(n, m).Ok? ==> Lcm(n, m).value == LcmValue(n, m)
  {
    GcdDivides(n, m);
    var g := Gcd(n, m);
    var a := n / g;
    ModZeroIsMultiple(n, g);
    if InInt(a * m) {
      MulDivMod(a, m);
    } else {
      WrappedQuotientDiffers(a, m);
    }
  }

  // ---------------------------------------------------------------------
  // Rational_mGPT values

  datatype Rational = Rational(num: int, den: int)

  /** The canonical form every (int, int) construction produces. */
  predicate Normal(q: Rational) {
    q.den > 0 && Gcd(q.num, q.den) == 1
  }

  /** Same value: cross-multiplied equality of the exact fractions. */
  predicate SameValue(q: Rational, p: Rational)
    requires q.den != 0 && p.den != 0
  {
    q.num * p.den == p.num * q.den
  }

  /** Rational_mGPT(int n = 0): n / 1. */
  function FromInt(n: int): (r: Rational)
    ensures Normal(r) && r.num == n
  {
    Rational(n, 1)
  }

  /** Rational_mGPT(n, m): dies on m == 0, otherwise n / m reduced by the
      gcd, with the signs flipped if the denominator came out negative. */
  function Make(n: int, m: int): (r: Result<Rational>)
    ensures r.Err? <==> m == 0
    ensures r.Ok? ==> Normal(r.value) && r.value.num * m == n * r.value.den
  {
    if m == 0 then Err(Die)
    else
      ReducedParts(n, m);
      var d := Gcd(n, m);
      var num, den := CDiv(n, d), CDiv(m, d);
      if den < 0 then Ok(Rational(-num, -den)) else Ok(Rational(num, den))
  }

  /** n and m divided by their gcd: exact C quotients, coprime, in the
      same ratio as n and m, also with both signs flipped. */
  lemma ReducedParts(n: int, m: int)
    requires m != 0
    ensures Gcd(n, m) > 0
    ensures CDiv(n, Gcd(n, m)) == n / Gcd(n, m) && CDiv(m, Gcd(n, m)) == m / Gcd(n, m)
    ensures Gcd(n / Gcd(n, m), m / Gcd(n, m)) == 1 && Gcd(-(n / Gcd(n, m)), -(m / Gcd(n, m))) == 1
    ensures (n / Gcd(n, m)) * m == n * (m / Gcd(n, m))
    ensures (-(n / Gcd(n, m))) * m == n * (-(m / Gcd(n, m)))
  {
    ReducedCoprime(n, m);
    GcdDivides(n, m);
    var d := Gcd(n, m);
    ExactDivisionAgrees(n, d);
    ExactDivisionAgrees(m, d);
    GcdNegated(n / d, m / d);
    SameRatio(n, m, d, n / d, m / d);
  }

  /** gcd ignores signs. */
  lemma GcdNegated(x: int, y: int)
    ensures Gcd(-x, -y) == Gcd(x, y)
  {
    assert Abs(-x) == Abs(x) && Abs(-y) == Abs(y);
  }

  /** n = num * d and m = den * d are in the ratio num : den. */
  lemma SameRatio(n: int, m: int, d: int, num: int, den: int)
    requires n == num * d && m == den * d
    ensures num * m == n * den && (-num) * m == n * (-den)
  {
    assert num * m == num * (den * d) == (num * d) * den;
    assert (-num) * m == -(num * m) && n * (-den) == -(n * den);
  }

  /** multipliers(n, m): lcm(n, m) / n and lcm(n, m) / m. */
  function Multipliers(n: int, m: int): (r: Result<(int, int)>)
    requires n > 0 && m > 0
    ensures r.Ok? ==> Gcd(n, m) > 0 && r.value.0 == m / Gcd(n, m) && r.value.1 == n / Gcd(n, m)
  {
    var f :- Lcm(n, m);
    LcmDiesExactlyOnOverflow(n, m);
    LcmQuotients(n, m);
    Ok((f / n, f / m))
  }

  /** The lcm divided by either argument is the other divided by the gcd. */
  lemma LcmQuotients(n: int, m: int)
    requires n > 0 && m > 0
    ensures Gcd(n, m) > 0
    ensures LcmValue(n, m) / n == m / Gcd(n, m) && LcmValue(n, m) / m == n / Gcd(n, m)
  {
    GcdDivides(n, m);
    var g := Gcd(n, m);
    var f := LcmValue(n, m);
    ModZeroIsMultiple(n, g);
    ModZeroIsMultiple(m, g);
    assert f == (n / g) * m;
    assert f == (m / g) * n;
    MulDivMod(m / g, n);
    MulDivMod(n / g, m);
  }

  /** The two numerators brought to the common denominator; multiplied by
      the gcd of the denominators they are the cross products. */
  function CrossTerms(q: Rational, p: Rational): (r: Result<(int, int)>)
    requires q.den > 0 && p.den > 0
    ensures r.Err? <==> Multipliers(q.den, p.den).Err?
    ensures r.Ok? ==> (Gcd(q.den, p.den) > 0 &&
      r.value.0 * Gcd(q.den, p.den) == q.num * p.den &&
      r.value.1 * Gcd(q.den, p.den) == p.num * q.den)
  {
    var m :- Multipliers(q.den, p.den);
    GcdDivides(q.den, p.den);
    CrossScaled(q.num, p.num, q.den, p.den, Gcd(q.den, p.den), m.0, m.1);
    Ok((q.num * m.0, p.num * m.1))
  }

  lemma CrossScaled(qn: int, pn: int, qd: int, pd: int, g: int, m0: int, m1: int)
    requires g > 0 && qd % g == 0 && pd % g == 0 && m0 == pd / g && m1 == qd / g
    ensures (qn * m0) * g == qn * pd && (pn * m1) * g == pn * qd
  {
    ModZeroIsMultiple(qd, g);
    ModZeroIsMultiple(pd, g);
  }

  /** Scaling both sides by a positive factor keeps every comparison. */
  lemma ScaledCompare(x: int, y: int, g: int)
    requires g > 0
    ensures x < y <==> x * g < y * g
    ensures x == y <==> x * g == y * g
  {
    assert x < y ==> (y - x) * g > 0;
    assert x > y ==> (x - y) * g > 0;
  }

  lemma CrossTermsOrder(q: Rational, p: Rational)
    requires q.den > 0 && p.den > 0 && CrossTerms(q, p).Ok?
    ensures var t := CrossTerms(q, p).value;
      (t.0 < t.1 <==> q.num * p.den < p.num * q.den) &&
      (t.0 == t.1 <==> q.num * p.den == p.num * q.den)
  {
    var t := CrossTerms(q, p).value;
    ScaledCompare(t.0, t.1, Gcd(q.den, p.den));
  }

  /** operator<: true iff the exact value of q is below that of p. */
  function Less(q: Rational, p: Rational): (r: Result<bool>)
    requires q.den > 0 && p.den > 0
    ensures r.Err? <==> CrossTerms(q, p).Err?
    ensures r.Ok? ==> (r.value <==> q.num * p.den < p.num * q.den)
  {
    var t :- CrossTerms(q, p);
    CrossTermsOrder(q, p);
    Ok(t.0 < t.1)
  }

  /** operator<=. */
  function LessEq(q: Rational, p: Rational): (r: Result<bool>)
    requires q.den > 0 && p.den > 0
    ensures r.Err? <==> CrossTerms(q, p).Err?
    ensures r.Ok? ==> (r.value <==> q.num * p.den <= p.num * q.den)
  {
    var t :- CrossTerms(q, p);
    CrossTermsOrder(q, p);
    Ok(t.0 <= t.1)
  }

  /** operator==: equality of the exact values. */
  function Equal(q: Rational, p: Rational): (r: Result<bool>)
    requires q.den > 0 && p.den > 0
    ensures r.Err? <==> CrossTerms(q, p).Err?
    ensures r.Ok? ==> (r.value <==> SameValue(q, p))
  {
    var t :- CrossTerms(q, p);
    CrossTermsOrder(q, p);
    Ok(t.0 == t.1)
  }

  /** operator!=. */
  function NotEqual(q: Rational, p: Rational): (r: Result<bool>)
    requires q.den > 0 && p.den > 0
    ensures r.Err? <==> CrossTerms(q, p).Err?
    ensures r.Ok? ==> (r.value <==> !SameValue(q, p))
  {
    var t :- CrossTerms(q, p);
    CrossTermsOrder(q, p);
    Ok(t.0 != t.1)
  }

  /** operator>=. */
  function GreaterEq(q: Rational, p: Rational): (r: Result<bool>)
    requires q.den > 0 && p.den > 0
    ensures r.Err? <==> CrossTerms(q, p).Err?
    ensures r.Ok? ==> (r.value <==> q.num * p.den >= p.num * q.den)
  {
    var t :- CrossTerms(q, p);
    CrossTermsOrder(q, p);
    Ok(t.0 >= t.1)
  }

  /** operator>. */
  function Greater(q: Rational, p: Rational): (r: Result<bool>)
    requires q.den > 0 && p.den > 0
    ensures r.Err? <==> CrossTerms(q, p).Err?
    ensures r.Ok? ==> (r.value <==> q.num * p.den > p.num * q.den)
  {
    var t :- CrossTerms(q, p);
    CrossTermsOrder(q, p);
    Ok(t.0 > t.1)
  }

  /** With C-sized denominators the comparisons can only fail by lcm
      overflow, and never when one denominator divides the other. */
  lemma CompareDiesOnlyOnOverflow(q: Rational, p: Rational)
    requires 0 < q.den && 0 < p.den
    ensures CrossTerms(q, p).Err? <==> !InInt(LcmValue(q.den, p.den))
  {
    LcmDiesExactlyOnOverflow(q.den, p.den);
  }

  // ---------------------------------------------------------------------
  // Arithmetic

  lemma SumScaled(qn: int, qd: int, pn: int, pd: int, g: int, rn: int, rd: int)
    requires g > 0 && qd % g == 0 && pd % g == 0
    requires rn * (qd * (pd / g)) == (qn * (pd / g) + pn * (qd / g)) * rd
    ensures rn * (qd * pd) == (qn * pd + pn * qd) * rd
  {
    var a, b := qd / g, pd / g;
    ModZeroIsMultiple(qd, g);
    ModZeroIsMultiple(pd, g);
    calc {
      rn * (qd * pd);
      (rn * (qd * b)) * g;
      ((qn * b + pn * a) * rd) * g;
      (qn * pd + pn * qd) * rd;
    }
  }

  /** operator+: the exact sum, reduced. */
  function Add(q: Rational, p: Rational): (r: Result<Rational>)
    requires q.den > 0 && p.den > 0
    ensures r.Err? <==> Multipliers(q.den, p.den).Err?
    ensures r.Ok? ==> (Normal(r.value) &&
      r.value.num * (q.den * p.den) == (q.num * p.den + p.num * q.den) * r.value.den)
  {
    var m :- Multipliers(q.den, p.den);
    var g := Gcd(q.den, p.den);
    GcdDivides(q.den, p.den);
    ModZeroIsMultiple(p.den, g);
    assert q.den * m.0 != 0;
    var r := Make(q.num * m.0 + p.num * m.1, q.den * m.0);
    SumScaled(q.num, q.den, p.num, p.den, g, r.value.num, r.value.den);
    r
  }

  /** operator-: the exact difference, reduced. */
  function Sub(q: Rational, p: Rational): (r: Result<Rational>)
    requires q.den > 0 && p.den > 0
    ensures r.Err? <==> Multipliers(q.den, p.den).Err?
    ensures r.Ok? ==> (Normal(r.value) &&
      r.value.num * (q.den * p.den) == (q.num * p.den - p.num * q.den) * r.value.den)
  {
    var m :- Multipliers(q.den, p.den);
    var g := Gcd(q.den, p.den);
    GcdDivides(q.den, p.den);
    ModZeroIsMultiple(p.den, g);
    assert q.den * m.0 != 0;
    var r := Make(q.num * m.0 - p.num * m.1, q.den * m.0);
    assert q.num * m.0 - p.num * m.1 == q.num * m.0 + (-p.num) * m.1;
    SumScaled(q.num, q.den, -p.num, p.den, g, r.value.num, r.value.den);
    r
  }

  lemma ProductScaled(a: int, b: int, c: int, d: int, d1: int, d2: int, rn: int, rd: int)
    requires d1 > 0 && d2 > 0 && a % d1 == 0 && d % d1 == 0 && b % d2 == 0 && c % d2 == 0
    requires rn * ((c / d2) * (d / d1)) == ((a / d1) * (b / d2)) * rd
    ensures rn * (c * d) == (a * b) * rd
  {
    ModZeroIsMultiple(a, d1);
    ModZeroIsMultiple(d, d1);
    ModZeroIsMultiple(b, d2);
    ModZeroIsMultiple(c, d2);
    var a', b', c', d' := a / d1, b / d2, c / d2, d / d1;
    calc {
      rn * (c * d);
      (rn * (c' * d')) * (d1 * d2);
      ((a' * b') * rd) * (d1 * d2);
      (a * b) * rd;
    }
  }

  /** operator*: cross-cancels by two gcds, then builds the exact product. */
  function Mul(q: Rational, p: Rational): (r: Rational)
    requires q.den > 0 && p.den > 0
    ensures Normal(r) && r.num * (q.den * p.den) == (q.num * p.num) * r.den
  {
    var d1 := Gcd(q.num, p.den);
    var d2 := Gcd(p.num, q.den);
    GcdDivides(q.num, p.den);
    GcdDivides(p.num, q.den);
    ExactDivisionAgrees(q.num, d1);
    ExactDivisionAgrees(p.den, d1);
    ExactDivisionAgrees(p.num, d2);
    ExactDivisionAgrees(q.den, d2);
    ModZeroIsMultiple(q.den, d2);
    ModZeroIsMultiple(p.den, d1);
    assert CDiv(q.den, d2) * CDiv(p.den, d1) != 0;
    var r := Make(CDiv(q.num, d1) * CDiv(p.num, d2), CDiv(q.den, d2) * CDiv(p.den, d1));
    ProductScaled(q.num, p.num, q.den, p.den, d1, d2, r.value.num, r.value.den);
    r.value
  }

  /** p != 0 for a positive-denominator p compares against 0/1, where the
      lcm is p's own denominator and so cannot overflow. */
  lemma NonZeroTest(p: Rational)
    requires 0 < p.den <= IntMax
    ensures NotEqual(p, FromInt(0)) == Ok(p.num != 0)
  {
    LcmDiesExactlyOnOverflow(p.den, 1);
    assert Gcd(p.den, 1) == 1 by {
      assert GcdNat(p.den, 1) == GcdNat(1, 0);
    }
    assert LcmValue(p.den, 1) == p.den;
  }

  /** operator/: dies on a zero divisor; otherwise the exact quotient. */
  function Div(q: Rational, p: Rational): (r: Result<Rational>)
    requires 0 < q.den && 0 < p.den <= IntMax
    ensures r.Err? <==> p.num == 0
    ensures r.Ok? ==> Normal(r.value) && r.value.num * (q.den * p.num) == (q.num * p.den) * r.value.den
  {
    NonZeroTest(p);
    var nonZero := NotEqual(p, FromInt(0)).value;
    if !nonZero then Err(Die)
    else
      var d1 := Gcd(q.num, p.num);
      var d2 := Gcd(p.den, q.den);
      GcdDivides(q.num, p.num);
      GcdDivides(p.den, q.den);
      ExactDivisionAgrees(q.num, d1);
      ExactDivisionAgrees(p.num, d1);
      ExactDivisionAgrees(p.den, d2);
      ExactDivisionAgrees(q.den, d2);
      ModZeroIsMultiple(q.den, d2);
      ModZeroIsMultiple(p.num, d1);
      assert CDiv(q.den, d2) * CDiv(p.num, d1) != 0;
      var r := Make(CDiv(q.num, d1) * CDiv(p.den, d2), CDiv(q.den, d2) * CDiv(p.num, d1));
      ProductScaled(q.num, p.den, q.den, p.num, d1, d2, r.value.num, r.value.den);
      r
  }

  // ---------------------------------------------------------------------
  // Printing and parsing

  function DigitChar(d: nat): char
    requires d < 10
  {
    ('0' as int + d) as char
  }

  predicate IsDigit(c: char) { '0' <= c <= '9' }

  /** The value the parser gives a character: its code minus that of '0'
      (also for characters that are not digits). */
  function CharValue(c: char): int { c as int - '0' as int }

  /** Decimal digits of a natural number, most significant first. */
  function NatToString(n: nat): (s: string)
    ensures |s| > 0 && forall i :: 0 <= i < |s| ==> IsDigit(s[i])
  {
    if n < 10 then [DigitChar(n)] else NatToString(n / 10) + [DigitChar(n % 10)]
  }

  /** What `os << n` prints for a C int. */
  function IntToString(n: int): string {
    if n < 0 then "-" + NatToString(-n) else NatToString(n)
  }

  /** operator<<: "n", or "n/d" when the denominator is not 1. */
  function Print(q: Rational): string {
    IntToString(q.num) + if q.den != 1 then "/" + IntToString(q.den) else ""
  }

  /** The parser's accumulation 10 * acc + (c - '0') over a string. */
  function DigitsValue(s: string): int {
    if s == [] then 0 else 10 * DigitsValue(s[..|s| - 1]) + CharValue(s[|s| - 1])
  }

  function Pow10(k: nat): (p: nat)
    ensures p > 0
  {
    if k == 0 then 1 else 10 * Pow10(k - 1)
  }

  /** Where the numerator digits stop: '\0', '.' or '/'. */
  predicate NumeratorStop(c: char) { c == '\0' || c == '.' || c == '/' }

  /** Where a C string stops: '\0'. */
  predicate EndOfString(c: char) { c == '\0' }

  predicate Stop(c: char, numerator: bool) {
    if numerator then NumeratorStop(c) else EndOfString(c)
  }

  /** The first index at or after i whose character is a stop (numerator
      stops when `numerator`, else the end of the C string), or |s|. */
  function StopAt(s: string, i: nat, numerator: bool): (j: nat)
    requires i <= |s|
    ensures i <= j <= |s|
    decreases |s| - i
  {
    if i == |s| || Stop(s[i], numerator) then i else StopAt(s, i + 1, numerator)
  }

  /** The numerator of an "n/d" string: the digits reduced by the gcd. */
  function ParseOverSlash(s: string, k: nat, n: int): Result<Rational>
    requires k < |s|
  {
    var j := StopAt(s, k + 1, false);
    var den := DigitsValue(s[k + 1..j]);
    if den == 0 then Err(Die)
    else
      var d := Gcd(n, den);
      GcdDivides(n, den);
      Ok(Rational(CDiv(n, d), CDiv(den, d)))
  }

  /** The value of an "a.f" string with integer part n: a + f / 10^k with
      the fraction reduced first. */
  function ParseAfterPoint(s: string, k: nat, n: int): Result<Rational>
    requires k < |s|
  {
    var j := StopAt(s, k + 1, false);
    var f := DigitsValue(s[k + 1..j]);
    var p := Pow10(j - (k + 1));
    var d := Gcd(f, p);
    GcdDivides(f, p);
    Ok(Rational(CDiv(f, d) + n * CDiv(p, d), CDiv(p, d)))
  }

  /** Rational_mGPT(const char*): digits up to '.', '/' or the end; then
      either a denominator (dying on 0, reduced by the gcd), or a fraction
      f of k digits giving a + f / 10^k, or an integer. */
  function Parse(s: string): Result<Rational> {
    var k := StopAt(s, 0, true);
    var n := DigitsValue(s[..k]);
    if k < |s| && s[k] == '/' then ParseOverSlash(s, k, n)
    else if k < |s| && s[k] == '.' then ParseAfterPoint(s, k, n)
    else Ok(Rational(n, 1))
  }

  /** One character loop of the string constructor: accumulates
      10 * acc + (c - '0') from index i up to the next stop, and counts a
      factor 10 per character. */
  method ReadDigits(s: string, i: nat, numerator: bool) returns (value: int, j: nat, scale: int)
    requires i <= |s|
    ensures j == StopAt(s, i, numerator)
    ensures value == DigitsValue(s[i..j]) && scale == Pow10(j - i)
  {
    value, j, scale := 0, i, 1;
    while j < |s| && !Stop(s[j], numerator)
      invariant i <= j <= |s| && value == DigitsValue(s[i..j]) && scale == Pow10(j - i)
      invariant forall k :: i <= k < j ==> !Stop(s[k], numerator)
    {
      assert s[i..j + 1][..j - i] == s[i..j];
      value := 10 * value + CharValue(s[j]);
      scale := scale * 10;
      j := j + 1;
    }
    StopAtFirst(s, i, j, numerator);
  }

  /** The string constructor as the source runs it, proved to compute
      Parse. */
  method ParseLoop(s: string) returns (r: Result<Rational>)
    ensures r == Parse(s)
  {
    var numerator, i, _ := ReadDigits(s, 0, true);
    if i < |s| && s[i] == '/' {
      var denominator, _, _ := ReadDigits(s, i + 1, false);
      if denominator == 0 {
        return Err(Die);
      }
      var d := GcdLoop(numerator, denominator);
      r := Ok(Rational(CDiv(numerator, d), CDiv(denominator, d)));
    } else if i < |s| && s[i] == '.' {
      var a := numerator;
      var fraction, _, denominator := ReadDigits(s, i + 1, false);
      var d := GcdLoop(fraction, denominator);
      numerator := CDiv(fraction, d);
      denominator := CDiv(denominator, d);
      numerator := numerator + a * denominator;
      r := Ok(Rational(numerator, denominator));
    } else {
      r := Ok(Rational(numerator, 1));
    }
  }

  /** StopAt is the first stop: any index with no stop before it and a stop
      (or the end) at it is the one StopAt returns. */
  lemma {:induction false} StopAtFirst(s: string, i: nat, j: nat, numerator: bool)
    requires i <= j <= |s|
    requires forall k :: i <= k < j ==> !Stop(s[k], numerator)
    requires j < |s| ==> Stop(s[j], numerator)
    ensures StopAt(s, i, numerator) == j
    decreases j - i
  {
    if i < j {
      StopAtFirst(s, i + 1, j, numerator);
    }
  }

  lemma {:induction false} DigitsValueOfNat(n: nat)
    ensures DigitsValue(NatToString(n)) == n
  {
    if n >= 10 {
      DigitsValueOfNat(n / 10);
      var s := NatToString(n);
      assert s[..|s| - 1] == NatToString(n / 10);
    } else {
      assert NatToString(n)[..0] == [];
    }
  }

  /** Printing and parsing back gives the same rational for every
      non-negative value in canonical form. */
  lemma PrintParseRoundTrip(q: Rational)
    requires Normal(q) && q.num >= 0
    ensures Parse(Print(q)) == Ok(q)
  {
    var a := NatToString(q.num);
    var s := Print(q);
    DigitsValueOfNat(q.num);
    StopAtFirst(s, 0, |a|, true);
    assert s[..|a|] == a;
    if q.den != 1 {
      var b := NatToString(q.den);
      assert s == a + "/" + b;
      StopAtFirst(s, |a| + 1, |s|, false);
      assert s[|a| + 1..|s|] == b;
      DigitsValueOfNat(q.den);
      assert CDiv(q.num, 1) == q.num && CDiv(q.den, 1) == q.den;
    }
  }

  /** No digit is a stop character. */
  lemma DigitsReachStop(a: string, rest: string, numerator: bool)
    requires forall i :: 0 <= i < |a| ==> IsDigit(a[i])
    requires rest != [] ==> Stop(rest[0], numerator)
    ensures StopAt(a + rest, 0, numerator) == |a| && (a + rest)[..|a|] == a
  {
    StopAtFirst(a + rest, 0, |a|, numerator);
  }

  /** Dividing numerator and positive denominator by their gcd keeps the
      value and leaves a positive denominator in lowest terms. */
  lemma ReducedFraction(n: int, den: int)
    requires den > 0
    ensures Gcd(n, den) > 0
    ensures var d := Gcd(n, den);
      CDiv(den, d) > 0 && Gcd(CDiv(n, d), CDiv(den, d)) == 1 &&
      CDiv(n, d) * den == n * CDiv(den, d)
  {
    ReducedCoprime(n, den);
    GcdDivides(n, den);
    var d := Gcd(n, den);
    ExactDivisionAgrees(n, d);
    ExactDivisionAgrees(den, d);
    var n', den' := CDiv(n, d), CDiv(den, d);
    assert n == n' * d && den == den' * d;
    assert den' > 0;
    assert n' * den == n' * den' * d == n * den';
  }

  /** "n/d" with digit strings n and d != 0 parses to the exact value n/d
      in lowest terms. */
  lemma ParseFraction(a: string, b: string)
    requires forall i :: 0 <= i < |a| ==> IsDigit(a[i])
    requires forall i :: 0 <= i < |b| ==> IsDigit(b[i])
    requires DigitsValue(b) != 0
    ensures var r := Parse(a + "/" + b);
      r.Ok? && r.value.den > 0 && Gcd(r.value.num, r.value.den) == 1 &&
      r.value.num * DigitsValue(b) == DigitsValue(a) * r.value.den
  {
    var s := a + "/" + b;
    assert s == a + ("/" + b);
    DigitsReachStop(a, "/" + b, true);
    assert Parse(s) == ParseOverSlash(s, |a|, DigitsValue(a));
    StopAtFirst(s, |a| + 1, |s|, false);
    assert s[|a| + 1..|s|] == b;
    DigitsNonNegative(b);
    ReducedFraction(DigitsValue(a), DigitsValue(b));
  }

  lemma DecimalValue(n: int, fv: int, p: int)
    requires p > 0
    ensures Gcd(fv, p) > 0
    ensures var d := Gcd(fv, p);
      CDiv(p, d) > 0 &&
      (CDiv(fv, d) + n * CDiv(p, d)) * p == (n * p + fv) * CDiv(p, d)
  {
    ReducedFraction(fv, p);
    var d := Gcd(fv, p);
    var fd, pd := CDiv(fv, d), CDiv(p, d);
    assert fd * p == fv * pd;
    calc {
      (fd + n * pd) * p;
      fd * p + n * pd * p;
      fv * pd + n * p * pd;
      (n * p + fv) * pd;
    }
  }

  lemma DecimalShape(a: string, f: string)
    requires forall i :: 0 <= i < |a| ==> IsDigit(a[i])
    requires forall i :: 0 <= i < |f| ==> IsDigit(f[i])
    ensures var s := a + "." + f;
      Parse(s) == ParseAfterPoint(s, |a|, DigitsValue(a)) &&
      StopAt(s, |a| + 1, false) == |s| && s[|a| + 1..|s|] == f
  {
    var s := a + "." + f;
    assert s == a + ("." + f);
    DigitsReachStop(a, "." + f, true);
    StopAtFirst(s, |a| + 1, |s|, false);
    assert s[|a| + 1..|s|] == f;
  }

  /** r is a rational with positive denominator whose value is
      n + fv / p. */
  predicate IsDecimal(r: Result<Rational>, n: int, fv: int, p: int) {
    r.Ok? && r.value.den > 0 && r.value.num * p == (n * p + fv) * r.value.den
  }

  lemma AfterPointValue(s: string, k: nat, n: int, fv: int, p: int)
    requires k < |s|
    requires fv == DigitsValue(s[k + 1..StopAt(s, k + 1, false)])
    requires p == Pow10(StopAt(s, k + 1, false) - (k + 1))
    ensures IsDecimal(ParseAfterPoint(s, k, n), n, fv, p)
  {
    DecimalValue(n, fv, p);
  }

  /** "a.f" with k fraction digits parses to the exact value a + f / 10^k. */
  lemma ParseDecimal(a: string, f: string)
    requires forall i :: 0 <= i < |a| ==> IsDigit(a[i])
    requires forall i :: 0 <= i < |f| ==> IsDigit(f[i])
    ensures IsDecimal(Parse(a + "." + f), DigitsValue(a), DigitsValue(f), Pow10(|f|))
  {
    var s := a + "." + f;
    DecimalShape(a, f);
    AfterPointTo(s, |a|, DigitsValue(a), f);
  }

  /** The digits after the point running to the end of `s` are `f`. */
  lemma AfterPointTo(s: string, k: nat, n: int, f: string)
    requires k < |s| && StopAt(s, k + 1, false) == |s| && s[k + 1..|s|] == f
    ensures IsDecimal(ParseAfterPoint(s, k, n), n, DigitsValue(f), Pow10(|f|))
  {
    AfterPointValue(s, k, n, DigitsValue(f), Pow10(|f|));
  }

  lemma {:induction false} DigitsNonNegative(s: string)
    requires forall i :: 0 <= i < |s| ==> IsDigit(s[i])
    ensures DigitsValue(s) >= 0
  {
    if s != [] {
      DigitsNonNegative(s[..|s| - 1]);
    }
  }

  /** A leading minus sign is not understood: its code is read as the digit
      value -3, so "-1" parses as -29 rather than -1. */
  lemma ParseMinusSign()
    ensures Parse("-1") == Ok(Rational(-29, 1))
  {
    StopAtFirst("-1", 0, 2, true);
    assert "-1"[..2] == "-1";
    assert "-1"[..1] == "-";
    assert "-"[..0] == [];
  }
}
