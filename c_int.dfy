/*
 * C integer arithmetic on mathematical integers: the 64-bit `mrb_int`
 * range and C's division, which truncates toward zero (Dafny's `/` and `%`
 * are Euclidean).
 */
module CInt {

  const INT64_MIN: int := -0x8000_0000_0000_0000
  const INT64_MAX: int := 0x7fff_ffff_ffff_ffff

  predicate IsInt64(x: int) { INT64_MIN <= x <= INT64_MAX }

  function Abs(x: int): nat { if x < 0 then -x else x }

  lemma {:induction false} MulAtLeast(m: nat, y: nat)
    requires y > 0
    ensures m * y >= m
  {
    if y > 1 {
      MulAtLeast(m, y - 1);
      assert m * y == m * (y - 1) + m;
    }
  }

  /** Euclidean division of naturals, with the quotient bounded by the dividend. */
  lemma DivModNat(x: nat, y: nat)
    requires y > 0
    ensures x == (x / y) * y + x % y && 0 <= x % y < y && 0 <= x / y <= x
  {
    var m := x / y;
    assert x == m * y + x % y;
    MulAtLeast(m, y);
  }

  lemma MulSigns(m: int, y: int)
    ensures (-m) * (-y) == m * y && (-m) * y == -(m * y) && m * (-y) == -(m * y)
  {
  }

  /** C's `a / b`: the quotient rounded toward zero, so that the remainder
      `a - q * b` is smaller than `b` in magnitude and never has the
      opposite sign of `a`. */
  function CQuot(a: int, b: int): (q: int)
    requires b != 0
    ensures Abs(a - q * b) < Abs(b)
    ensures a - q * b == 0 || (a - q * b < 0) == (a < 0)
    ensures Abs(q) <= Abs(a)
  {
    var x, y := Abs(a), Abs(b);
    var m := x / y;
    DivModNat(x, y);
    MulSigns(m, y);
    if (a < 0) == (b < 0) then
      assert a - m * b == (if a < 0 then -(x % y) else x % y);
      m
    else
      assert a - (-m) * b == (if a < 0 then -(x % y) else x % y);
      -m
  }

  /** C's `a % b`: the remainder `CQuot` leaves; its magnitude is
      `|a| mod |b|`. */
  function CRem(a: int, b: int): (r: int)
    requires b != 0
    ensures r == a - CQuot(a, b) * b
    ensures Abs(r) == Abs(a) % Abs(b)
  {
    var x, y := Abs(a), Abs(b);
    var m := x / y;
    DivModNat(x, y);
    MulSigns(m, y);
    var q := CQuot(a, b);
    assert q == (if (a < 0) == (b < 0) then m else -m);
    assert a - q * b == (if a < 0 then -(x % y) else x % y);
    a - q * b
  }

  lemma Distrib(k: int, q: int, b: int)
    ensures k * b - q * b == (k - q) * b
  {
  }

  lemma AbsMul(d: int, b: int)
    ensures Abs(d * b) == Abs(d) * Abs(b)
  {
    MulSigns(d, b);
    if d < 0 && b < 0 {
      assert d * b == (-d) * (-b);
    }
  }

  /** A divisor that goes into `a` exactly gives the exact quotient. */
  lemma CQuotExact(a: int, b: int, k: int)
    requires b != 0 && a == k * b
    ensures CQuot(a, b) == k
  {
    var q := CQuot(a, b);
    var d := k - q;
    Distrib(k, q, b);
    if d != 0 {
      AbsMul(d, b);
      MulAtLeast(Abs(b), Abs(d));
    }
  }
}
