/*
 * Integer rationals of the mruby-rational gem.
 *
 * A Rational object holds two `mrb_int` fields and is frozen as soon as it
 * is built, so it is a value here.  `Rational(n, d)` reduces the pair by
 * Euclid's algorithm, run with C's truncating remainder, and `rational_new`
 * moves the sign of the denominator onto the numerator.
 */
module Rational {
  import opened CInt

  datatype Rational = Rational(numerator: int, denominator: int)

  /** The errors: RangeError, the StandardError "divided by 0" of `to_i`,
      and a C division with no defined result (signed overflow of `%` or
      `/`, or division by zero), which traps on common hardware. */
  datatype RationalError = RangeError | StandardError | UndefinedDivision

  datatype Result<T> = Ok(value: T) | Err(error: RationalError)

  // ---------------------------------------------------------------- divisibility and gcd

  /** `c` divides `x`. */
  ghost predicate Dvd(c: int, x: int) {
    exists k :: x == c * k
  }

  /** Euclid's algorithm on magnitudes. */
  function Gcd(x: nat, y: nat): (g: nat)
    decreases y
  {
    if y == 0 then x else Gcd(y, x % y)
  }

  lemma MulAssoc(a: int, b: int, c: int)
    ensures (a * b) * c == a * (b * c)
  {
  }

  lemma MulSub(c: int, u: int, v: int)
    ensures c * u - c * v == c * (u - v)
  {
  }

  lemma MulAdd(c: int, u: int, v: int)
    ensures c * u + c * v == c * (u + v)
  {
  }

  /** A multiple of `c` times anything is a multiple of `c`. */
  lemma DvdMul(c: int, x: int, m: int)
    requires Dvd(c, x)
    ensures Dvd(c, m * x)
  {
    var k :| x == c * k;
    MulAssoc(m, c, k);
    assert m * x == c * (m * k);
  }

  lemma DvdSub(c: int, x: int, y: int)
    requires Dvd(c, x) && Dvd(c, y)
    ensures Dvd(c, x - y)
  {
    var u :| x == c * u;
    var v :| y == c * v;
    MulSub(c, u, v);
  }

  lemma DvdAdd(c: int, x: int, y: int)
    requires Dvd(c, x) && Dvd(c, y)
    ensures Dvd(c, x + y)
  {
    var u :| x == c * u;
    var v :| y == c * v;
    MulAdd(c, u, v);
  }

  lemma DvdRefl(x: int)
    ensures Dvd(x, x) && Dvd(x, 0)
  {
    assert x == x * 1 && 0 == x * 0;
  }

  /** The gcd of two numbers, not both zero, is positive. */
  lemma {:induction false} GcdPositive(x: nat, y: nat)
    requires x != 0 || y != 0
    ensures Gcd(x, y) > 0
    decreases y
  {
    if y != 0 {
      GcdPositive(y, x % y);
    }
  }

  /** The gcd divides both numbers. */
  lemma {:induction false} GcdDivides(x: nat, y: nat)
    ensures Dvd(Gcd(x, y), x) && Dvd(Gcd(x, y), y)
    decreases y
  {
    if y == 0 {
      DvdRefl(x);
    } else {
      var g := Gcd(y, x % y);
      GcdDivides(y, x % y);
      DivModNat(x, y);
      DvdMul(g, y, x / y);
      assert (x / y) * y == y * (x / y);
      DvdAdd(g, (x / y) * y, x % y);
    }
  }

  /** Every common divisor divides the gcd. */
  lemma {:induction false} GcdGreatest(x: nat, y: nat, c: int)
    requires Dvd(c, x) && Dvd(c, y)
    ensures Dvd(c, Gcd(x, y))
    decreases y
  {
    if y != 0 {
      DivModNat(x, y);
      DvdMul(c, y, x / y);
      assert (x / y) * y == y * (x / y);
      DvdSub(c, x, (x / y) * y);
      assert x - (x / y) * y == x % y;
      GcdGreatest(y, x % y, c);
    }
  }

  lemma MulOneCases(c: nat, w: int)
    requires c * w == 1
    ensures c == 1
  {
    if c > 1 && w > 0 {
      MulAtLeast(c, w);
    }
  }

  lemma Cancel(g: int, a: int, b: int)
    requires g != 0 && g * a == g * b
    ensures a == b
  {
    MulSub(g, a, b);
  }

  /** Scaling both sides keeps divisibility. */
  lemma DvdScale(g: int, c: int, x: int)
    requires Dvd(c, x)
    ensures Dvd(g * c, g * x)
  {
    var u :| x == c * u;
    MulAssoc(g, c, u);
  }

  /** If `g * c` divides a positive `g`, then `c` is 1. */
  lemma DvdFactorOne(g: nat, c: nat)
    requires g > 0 && Dvd(g * c, g)
    ensures c == 1
  {
    var w :| g == (g * c) * w;
    MulAssoc(g, c, w);
    assert g * (c * w) == g * 1;
    Cancel(g, c * w, 1);
    MulOneCases(c, w);
  }

  /** Dividing both numbers by their gcd leaves two coprime numbers. */
  lemma GcdReduced(x: nat, y: nat, g: nat, x': nat, y': nat)
    requires x != 0 || y != 0
    requires g == Gcd(x, y) && x == g * x' && y == g * y'
    ensures Gcd(x', y') == 1
  {
    GcdPositive(x, y);
    assert x' != 0 || y' != 0;
    var c := Gcd(x', y');
    GcdDivides(x', y');
    DvdScale(g, c, x');
    DvdScale(g, c, y');
    GcdGreatest(x, y, g * c);
    DvdFactorOne(g, c);
  }

  // ---------------------------------------------------------------- rational_new

  const WORD: nat := 0x1_0000_0000_0000_0000

  /** Two's-complement wrap-around of a 64-bit result. */
  function Wrap64(x: int): (r: int)
    ensures IsInt64(r) && (r - x) % WORD == 0
    ensures IsInt64(x) ==> r == x
  {
    (x - INT64_MIN) % WORD + INT64_MIN
  }

  /** `rational_new` as written: a negative denominator is negated together
      with the numerator, in 64-bit arithmetic. */
  function RationalNewAsWritten(n: int, d: int): (r: Rational)
    requires IsInt64(n) && IsInt64(d)
  {
    if d < 0 then Rational(Wrap64(-n), Wrap64(-d)) else Rational(n, d)
  }

  /** The negation cannot make the smallest `mrb_int` positive: the
      denominator stays negative, and a numerator of INT64_MIN keeps its
      sign, so 1/-2^63 and -2^63/-1 come out with the wrong sign. */
  lemma RationalNewAsWrittenOverflows()
    ensures RationalNewAsWritten(1, INT64_MIN).denominator < 0
    ensures RationalNewAsWritten(INT64_MIN, -1) == Rational(INT64_MIN, 1)
  {
  }

  /** `rational_new`: the denominator is made non-negative by moving its
      sign onto the numerator, which keeps the value.  A negation that does
      not fit in an `mrb_int` is reported as an error. */
  function RationalNew(n: int, d: int): (r: Result<Rational>)
    requires IsInt64(n) && IsInt64(d)
    ensures r.Ok? <==> !(d < 0 && (n == INT64_MIN || d == INT64_MIN))
    ensures r.Ok? ==>
      && r.value.denominator >= 0 && IsInt64(r.value.numerator) && IsInt64(r.value.denominator)
      && r.value.numerator * d == n * r.value.denominator
      && Abs(r.value.numerator) == Abs(n) && r.value.denominator == Abs(d)
  {
    if d < 0 then
      if n == INT64_MIN || d == INT64_MIN then Err(RangeError)
      else
        MulSigns(n, d);
        Ok(Rational(-n, -d))
    else Ok(Rational(n, d))
  }

  /** Where no negation overflows, the correction agrees with the code. */
  lemma RationalNewAgrees(n: int, d: int)
    requires IsInt64(n) && IsInt64(d) && RationalNew(n, d).Ok?
    ensures RationalNew(n, d).value == RationalNewAsWritten(n, d)
  {
  }

  // ---------------------------------------------------------------- Rational(n, d)

  lemma RemainderStep(a: int, b: int)
    requires b != 0
    ensures Gcd(Abs(a), Abs(b)) == Gcd(Abs(b), Abs(CRem(a, b)))
  {
  }

  /** Magnitudes of an exact quotient: `|n| = |a| * |n / a|`. */
  lemma ExactQuotient(n: int, a: int)
    requires a != 0 && Dvd(Abs(a), Abs(n))
    ensures n == CQuot(n, a) * a && Abs(n) == Abs(a) * Abs(CQuot(n, a))
  {
    var m :| Abs(n) == Abs(a) * m;
    var k := if (n < 0) == (a < 0) then m else -m;
    assert n == k * a by {
      MulSigns(m, a);
      MulSigns(a, m);
      assert Abs(n) == m * Abs(a);
    }
    CQuotExact(n, a, k);
    AbsMul(k, a);
  }

  /** `|x| = g * |y|` with `g >= 2` keeps `|y|` below 2^63. */
  lemma SmallerQuotient(x: int, g: nat, y: int)
    requires IsInt64(x) && Abs(x) == g * Abs(y) && g >= 2
    ensures IsInt64(y) && y != INT64_MIN
  {
    MulAtLeast(Abs(y), g);
    assert g * Abs(y) == Abs(y) * (g - 1) + Abs(y);
    if Abs(y) > 0 {
      MulAtLeast(Abs(y), g - 1);
    }
  }

  /** Euclid's loop of `rational_m_int` as written, on `mrb_int`
      operands: the final `a`, or UndefinedDivision when a step computes
      `INT64_MIN % -1`, which overflows. */
  function EuclidLoop(a: int, b: int): (r: Result<int>)
    requires IsInt64(a) && IsInt64(b)
    ensures r.Ok? ==> Abs(r.value) == Gcd(Abs(a), Abs(b))
    ensures r.Err? ==> r.error == UndefinedDivision
    decreases Abs(b)
  {
    if b == 0 then Ok(a)
    else if a == INT64_MIN && b == -1 then Err(UndefinedDivision)
    else
      RemainderStep(a, b);
      EuclidLoop(b, CRem(a, b))
  }

  /** Once neither operand is INT64_MIN, every remainder is smaller than
      2^63 in magnitude and the loop never overflows. */
  lemma {:induction false} EuclidNoOverflow(a: int, b: int)
    requires IsInt64(a) && IsInt64(b) && a != INT64_MIN && b != INT64_MIN
    ensures EuclidLoop(a, b).Ok?
    decreases Abs(b)
  {
    if b != 0 {
      EuclidNoOverflow(b, CRem(a, b));
    }
  }

  /** The remainder by INT64_MIN is -1 exactly for -1. */
  lemma RemMinusOne(n: int)
    requires IsInt64(n)
    ensures CRem(n, INT64_MIN) == -1 <==> n == -1
  {
    var r := CRem(n, INT64_MIN);
    var q := CQuot(n, INT64_MIN);
    assert r == n - q * INT64_MIN;
    if n == INT64_MIN {
      assert Abs(r) == 0;
    } else {
      assert Abs(n) < Abs(INT64_MIN);
      assert Abs(r) == Abs(n);
      assert r == 0 || (r < 0) == (n < 0);
    }
  }

  /** Euclid's loop overflows for exactly two argument pairs: it starts on
      `INT64_MIN % -1`, or -1 and INT64_MIN lead to it in one step. */
  lemma {:induction false} EuclidOverflowsExactly(n: int, d: int)
    requires IsInt64(n) && IsInt64(d)
    ensures EuclidLoop(n, d).Err? <==> (n == INT64_MIN && d == -1) || (n == -1 && d == INT64_MIN)
  {
    if d != 0 && !(n == INT64_MIN && d == -1) {
      var r := CRem(n, d);
      assert Abs(r) < Abs(d);
      assert r != INT64_MIN;
      if d != INT64_MIN {
        EuclidNoOverflow(d, r);
      } else {
        RemMinusOne(n);
        if r != 0 && r != -1 {
          var r' := CRem(INT64_MIN, r);
          assert Abs(r') < Abs(r);
          EuclidNoOverflow(r, r');
        }
      }
    }
  }

  /** The two pairs, and a third where the loop ends on -1 beside
      INT64_MIN so that the final `n/a` overflows. */
  lemma UndefinedDivisionExamples()
    ensures EuclidLoop(INT64_MIN, -1) == Err(UndefinedDivision)
    ensures EuclidLoop(-1, INT64_MIN) == Err(UndefinedDivision)
    ensures EuclidLoop(INT64_MIN, -3) == Ok(-1)
    ensures EuclidLoop(0, 0) == Ok(0)
  {
    EuclidOverflowsExactly(INT64_MIN, -1);
    EuclidOverflowsExactly(-1, INT64_MIN);
    assert CRem(INT64_MIN, -3) == -2;
    assert CRem(-3, -2) == -1;
    assert CRem(-2, -1) == 0;
  }

  /** `Rational(n, d)` (`rational_m_int`): Euclid's loop with C's remainder
      leaves the gcd, up to sign, in `a`; both parts are divided by it and
      passed to `rational_new`.  The result has the value n/d, a
      non-negative denominator, and is in lowest terms.  Where C's `%` or
      `/` has no defined result the outcome is UndefinedDivision: for 0/0,
      for the two pairs on which the loop overflows, and wherever it ends
      on -1 beside INT64_MIN.  Otherwise only a pair in lowest terms that
      involves INT64_MIN fails, when `rational_new` would negate it. */
  method RationalMInt(n: int, d: int) returns (r: Result<Rational>)
    requires IsInt64(n) && IsInt64(d)
    ensures r.Ok? ==>
      && r.value.denominator >= 0 && IsInt64(r.value.numerator) && IsInt64(r.value.denominator)
      && r.value.numerator * d == n * r.value.denominator
      && Gcd(Abs(r.value.numerator), r.value.denominator) == 1
    ensures (n == 0 && d == 0) || (n == INT64_MIN && d == -1) || (n == -1 && d == INT64_MIN) ==>
      r == Err(UndefinedDivision)
    ensures r.Err? ==> (n == 0 && d == 0) || (Gcd(Abs(n), Abs(d)) == 1 && (n == INT64_MIN || d == INT64_MIN))
  {
    EuclidOverflowsExactly(n, d);
    var a, b := n, d;
    while b != 0
      invariant IsInt64(a) && IsInt64(b)
      invariant EuclidLoop(a, b) == EuclidLoop(n, d)
      decreases Abs(b)
    {
      if a == INT64_MIN && b == -1 {
        // `a % b` overflows
        assert Gcd(Abs(n), Abs(d)) == 1;
        r := Err(UndefinedDivision);
        return;
      }
      var tmp := b;
      b := CRem(a, b);
      a := tmp;
    }
    r := DivideByGcd(n, d, a);
  }

  /** The last line of `rational_m_int`: both parts divided by the `a`
      Euclid's loop left, then `rational_new`.  `n/a` divides by zero
      exactly for 0/0, and overflows when `a` is -1 beside INT64_MIN. */
  method DivideByGcd(n: int, d: int, a: int) returns (r: Result<Rational>)
    requires IsInt64(n) && IsInt64(d) && IsInt64(a) && Abs(a) == Gcd(Abs(n), Abs(d))
    ensures r.Ok? ==>
      && r.value.denominator >= 0 && IsInt64(r.value.numerator) && IsInt64(r.value.denominator)
      && r.value.numerator * d == n * r.value.denominator
      && Gcd(Abs(r.value.numerator), r.value.denominator) == 1
    ensures r == Err(UndefinedDivision) <==> a == 0 || (a == -1 && (n == INT64_MIN || d == INT64_MIN))
    ensures r.Err? ==> (n == 0 && d == 0) || (Gcd(Abs(n), Abs(d)) == 1 && (n == INT64_MIN || d == INT64_MIN))
  {
    if a == 0 {
      // `n/a` divides by zero: both arguments were 0
      if n != 0 || d != 0 {
        GcdPositive(Abs(n), Abs(d));
      }
      return Err(UndefinedDivision);
    }
    if a == -1 && (n == INT64_MIN || d == INT64_MIN) {
      // `n/a` or `d/a` overflows
      return Err(UndefinedDivision);
    }
    Reduce(n, d, a);
    var num, den := CQuot(n, a), CQuot(d, a);
    r := RationalNew(num, den);
    if r.Ok? && den < 0 {
      MulSigns(num, d);
      MulSigns(n, den);
    }
  }

  /** What dividing by the gcd `a` left by Euclid's loop gives: exact
      quotients, the same value, lowest terms; with `|a| >= 2` the parts
      shrink well inside the `mrb_int` range, and with `|a| = 1` they keep
      their magnitudes. */
  lemma Reduce(n: int, d: int, a: int)
    requires IsInt64(n) && IsInt64(d) && (n != 0 || d != 0) && Abs(a) == Gcd(Abs(n), Abs(d))
    ensures a != 0 && n == CQuot(n, a) * a && d == CQuot(d, a) * a
    ensures CQuot(n, a) * d == n * CQuot(d, a)
    ensures Gcd(Abs(CQuot(n, a)), Abs(CQuot(d, a))) == 1
    ensures Abs(a) >= 2 ==>
      IsInt64(CQuot(n, a)) && CQuot(n, a) != INT64_MIN && IsInt64(CQuot(d, a)) && CQuot(d, a) != INT64_MIN
    ensures Abs(a) == 1 ==> Abs(CQuot(n, a)) == Abs(n) && Abs(CQuot(d, a)) == Abs(d)
  {
    var g := Gcd(Abs(n), Abs(d));
    GcdPositive(Abs(n), Abs(d));
    GcdDivides(Abs(n), Abs(d));
    var num, den := CQuot(n, a), CQuot(d, a);
    ExactQuotient(n, a);
    ExactQuotient(d, a);
    GcdReduced(Abs(n), Abs(d), g, Abs(num), Abs(den));
    if g >= 2 {
      SmallerQuotient(n, g, num);
      SmallerQuotient(d, g, den);
    }
    ValueKept(n, d, a, num, den);
  }

  lemma ValueKept(n: int, d: int, a: int, num: int, den: int)
    requires n == num * a && d == den * a
    ensures num * d == n * den
  {
    MulAssoc(num, den, a);
    MulAssoc(den, num, a);
  }

  // ---------------------------------------------------------------- queries

  /** `to_i`: "divided by 0" for a zero denominator, otherwise the quotient
      rounded toward zero. */
  function ToI(x: Rational): (r: Result<int>)
    ensures r.Err? <==> x.denominator == 0
    ensures r.Ok? ==>
      var rest := x.numerator - r.value * x.denominator;
      Abs(rest) < Abs(x.denominator) && (rest == 0 || (rest < 0) == (x.numerator < 0))
  {
    if x.denominator == 0 then Err(StandardError) else Ok(CQuot(x.numerator, x.denominator))
  }

  /** `negative?`: the sign of the numerator. */
  predicate NegativeP(x: Rational): (b: bool) {
    x.numerator < 0
  }

  /** For a rational built by `rational_new` from a non-zero denominator,
      `negative?` holds exactly when n/d is below zero. */
  lemma NegativeMeansBelowZero(n: int, d: int)
    requires IsInt64(n) && IsInt64(d) && d != 0 && RationalNew(n, d).Ok?
    ensures NegativeP(RationalNew(n, d).value) <==> (n < 0 && d > 0) || (n > 0 && d < 0)
  {
  }

  /** `Integer#to_r`: n/1. */
  function FixToR(n: int): (r: Rational)
    requires IsInt64(n)
    ensures r.numerator == n && r.denominator == 1
  {
    RationalNew(n, 1).value
  }

  /** `to_i` recovers the integer `to_r` was built from. */
  lemma FixToRToI(n: int)
    requires IsInt64(n)
    ensures ToI(FixToR(n)) == Ok(n) && (NegativeP(FixToR(n)) <==> n < 0)
  {
    CQuotExact(n, 1, n);
  }
}
