/*
 * The integer parser behind `String#to_i` and `Integer()`
 * (`mrb_str_len_to_integer` and `trailingbad` in src/string.c), for the
 * build without big integers: a value outside the 64-bit range raises a
 * RangeError.
 *
 * The parser is specified by functions that follow the C control flow
 * step by step (one recursive function per loop); `LenToInteger` is the
 * loop program, proved to compute them.
 */
module StrInteger {
  import opened CInt
  import opened StrBytes

  const PLUS: byte := 43
  const MINUS: byte := 45
  const ZERO: byte := 48
  const UNDERSCORE: byte := 95

  /** The errors the parser raises: "invalid string for number" (and
      "illegal radix") are ArgumentErrors, "string contains null byte"
      too; "too big for integer" is a RangeError. */
  datatype IntError = Invalid | IllegalRadix | NullByte | TooBig

  datatype IntResult = Int(value: int) | Fail(error: IntError)

  /** The byte at `i`; one past the end a string buffer holds its NUL terminator. */
  function At(s: seq<byte>, i: nat): byte
  {
    if i < |s| then s[i] else NUL
  }

  /** `conv_digit`: the value of a digit or letter, -1 for anything else. */
  function ConvDigit(c: byte): (d: int)
    ensures -1 <= d < 36
    ensures d == -1 <==> !IsDigit(c) && !IsAlpha(c)
    ensures IsDigit(c) ==> d == c as int - 48
  {
    if IsDigit(c) then c as int - 48
    else if IsLower(c) then c as int - 97 + 10
    else if IsUpper(c) then c as int - 65 + 10
    else -1
  }

  /** The first index at or after `i` that holds no white space. */
  function SkipSpace(s: seq<byte>, i: nat): (j: nat)
    requires i <= |s|
    ensures i <= j <= |s|
    ensures forall k :: i <= k < j ==> IsSpace(s[k])
    ensures j < |s| ==> !IsSpace(s[j])
    decreases |s| - i
  {
    if i < |s| && IsSpace(s[i]) then SkipSpace(s, i + 1) else i
  }

  /** The base a non-positive `base` stands for: the prefix after a
      leading "0" decides (x: 16, b: 2, o: 8, d: 10, otherwise 8);
      without one, `-b` for `b < -1`, else 10. */
  function AutoBase(s: seq<byte>, p: nat, base: int): (b: int)
    requires base <= 0
    ensures b >= 2 || b == -base
  {
    if At(s, p) == ZERO then
      var c := At(s, p + 1);
      if c == 120 || c == 88 then 16        // 'x' 'X'
      else if c == 98 || c == 66 then 2     // 'b' 'B'
      else if c == 111 || c == 79 then 8    // 'o' 'O'
      else if c == 100 || c == 68 then 10   // 'd' 'D'
      else 8
    else if base < -1 then -base
    else 10
  }

  /** Past the radix prefix ("0b", "0o", "0d", "0x", either case) that
      matches the base, if any. */
  function PrefixEnd(s: seq<byte>, p: nat, base: int): (q: nat)
    requires p <= |s|
    ensures q == p || (q == p + 2 && q <= |s|)
  {
    var c := At(s, p + 1);
    if At(s, p) != ZERO then p
    else if base == 2 && (c == 98 || c == 66) then p + 2
    else if base == 8 && (c == 111 || c == 79) then p + 2
    else if base == 10 && (c == 100 || c == 68) then p + 2
    else if base == 16 && (c == 120 || c == 88) then p + 2
    else p
  }

  /** Where a scan stopped, or that it was refused. */
  datatype Squeezed = Pos(p: nat) | Refused

  /** The loop that squeezes the zeros after a leading "0": it skips
      zeros and single underscores and stops before the first other
      byte; a double underscore is refused under `badcheck` and ends the
      number otherwise. */
  function SqueezeLoop(s: seq<byte>, p: nat, badcheck: bool): (r: Squeezed)
    requires 1 <= p <= |s|
    ensures r.Pos? ==> p <= r.p <= |s|
    ensures r.Refused? ==> badcheck
    decreases |s| - p
  {
    if p == |s| then Pos(p)
    else if s[p] == UNDERSCORE then
      if p + 1 < |s| && s[p + 1] == UNDERSCORE then
        if badcheck then Refused else Pos(p + 1)
      else SqueezeLoop(s, p + 1, badcheck)
    else if s[p] != ZERO then Pos(p)
    else SqueezeLoop(s, p + 1, badcheck)
  }

  /** The whole squeeze: after the loop, step back onto a final zero so
      that the number still has a digit. */
  function Squeeze(s: seq<byte>, p: nat, badcheck: bool): (r: Squeezed)
    requires p < |s| && s[p] == ZERO
    ensures r.Pos? ==> p <= r.p <= |s|
    ensures r.Refused? ==> badcheck
  {
    match SqueezeLoop(s, p + 1, badcheck)
    case Refused => Refused
    case Pos(q) => if s[q - 1] == ZERO then Pos(q - 1) else Pos(q)
  }

  /** Where the digit loop stopped, the value so far and the sign flag,
      or the error it raised. */
  datatype Scan = Scan(p: nat, n: int, neg: bool) | Abort(error: IntError)

  /**
   * The digit loop.  `n` accumulates the magnitude; a single underscore
   * between digits is skipped.  The 64-bit overflow checks of the source
   * are explicit.  When a negative number reaches exactly
   * `-INT64_MIN`, the value becomes `INT64_MIN` with a positive sign; with
   * `fixMin` false the loop then stops ON that last digit, as written in
   * the source, with `fixMin` true it moves past it and carries on (any
   * further digit then overflows).
   */
  function DigitLoop(s: seq<byte>, p: nat, base: int, n: int, neg: bool, badcheck: bool, fixMin: bool): (r: Scan)
    requires p <= |s| && 2 <= base <= 36
    ensures r.Scan? ==> r.p <= |s|
    ensures !badcheck ==> r.Scan? || r.error == TooBig
    ensures r.Abort? ==> r.error != IllegalRadix
    decreases |s| - p
  {
    if p == |s| then Scan(p, n, neg)
    else if s[p] == UNDERSCORE && p + 1 == |s| then
      if badcheck then Abort(Invalid) else Scan(p + 1, n, neg)
    else
      var q := if s[p] == UNDERSCORE then p + 1 else p;
      if s[p] == UNDERSCORE && s[q] == UNDERSCORE then
        if badcheck then Abort(Invalid) else Scan(q, n, neg)
      else if badcheck && s[q] == NUL then Abort(NullByte)
      else
        var c := ConvDigit(s[q]);
        if c < 0 || c >= base then Scan(q, n, neg)
        else if !IsInt64(n * base) then Abort(TooBig)
        else if INT64_MAX - c < n * base then
          if neg && INT64_MAX - n * base == c - 1 then
            if fixMin then DigitLoop(s, q + 1, base, INT64_MIN, false, badcheck, fixMin)
            else Scan(q, INT64_MIN, false)
          else Abort(TooBig)
        else DigitLoop(s, q + 1, base, n * base + c, neg, badcheck, fixMin)
  }

  /** `trailingbad`: no digit at all, a trailing underscore, or anything
      but white space after the number. */
  predicate TrailingBad(s: seq<byte>, p: nat)
    requires p <= |s|
  {
    p == 0 || s[p - 1] == UNDERSCORE || SkipSpace(s, p) < |s|
  }

  /** No number: 0, or "invalid string" under `badcheck`. */
  function NoNumber(badcheck: bool): IntResult
  {
    if badcheck then Fail(Invalid) else Int(0)
  }

  /** A minus sign after the leading white space. */
  predicate Negative(s: seq<byte>)
  {
    At(s, SkipSpace(s, 0)) == MINUS
  }

  /** Past the leading white space and an optional sign. */
  function SignEnd(s: seq<byte>): (p: nat)
    ensures p <= |s|
  {
    var p0 := SkipSpace(s, 0);
    if At(s, p0) == PLUS || At(s, p0) == MINUS then p0 + 1 else p0
  }

  /**
   * `mrb_str_len_to_integer(str, len, base, badcheck)`: leading white
   * space, a sign, the base (detected from a prefix when `base <= 0`),
   * a radix prefix, leading zeros, the digits, and under `badcheck` the
   * check that only white space follows.
   */
  function ParseInteger(s: seq<byte>, base: int, badcheck: bool, fixMin: bool): IntResult
  {
    var neg := Negative(s);
    var p1 := SignEnd(s);
    var b := if base <= 0 then AutoBase(s, p1, base) else base;
    if b < 2 || 36 < b then Fail(IllegalRadix)
    else ParseDigits(s, PrefixEnd(s, p1, b), b, neg, badcheck, fixMin)
  }

  /** From the first digit on, once the base is known: leading zeros, the
      digit loop, and the check of what follows. */
  function ParseDigits(s: seq<byte>, p2: nat, b: int, neg: bool, badcheck: bool, fixMin: bool): IntResult
    requires p2 <= |s| && 2 <= b <= 36
  {
    if p2 >= |s| then NoNumber(badcheck)
    else
      match (if s[p2] == ZERO then Squeeze(s, p2, badcheck) else Pos(p2))
      case Refused => Fail(Invalid)
      case Pos(p3) => ParseValue(s, p3, b, neg, badcheck, fixMin)
  }

  /** Once the zeros are squeezed: the digit loop and the check of what follows. */
  function ParseValue(s: seq<byte>, p3: nat, b: int, neg: bool, badcheck: bool, fixMin: bool): IntResult
    requires p3 <= |s| && 2 <= b <= 36
  {
    if p3 == |s| || s[p3] == UNDERSCORE then NoNumber(badcheck)
    else
      match DigitLoop(s, p3, b, 0, neg, badcheck, fixMin)
      case Abort(e) => Fail(e)
      case Scan(p, n, ng) =>
        if badcheck && TrailingBad(s, p) then Fail(Invalid)
        else Int(if ng then -n else n)
  }

  /** The squeeze loop of `mrb_str_len_to_integer`, from a leading "0" at `p0`. */
  method SqueezeZeros(s: seq<byte>, p0: nat, badcheck: bool) returns (r: Squeezed)
    requires p0 < |s| && s[p0] == ZERO
    ensures r == Squeeze(s, p0, badcheck)
  {
    var p := p0 + 1;
    while p < |s|
      invariant p0 + 1 <= p <= |s|
      invariant SqueezeLoop(s, p, badcheck) == SqueezeLoop(s, p0 + 1, badcheck)
    {
      var c := s[p];
      p := p + 1;
      if c == UNDERSCORE {
        if p < |s| && s[p] == UNDERSCORE {
          if badcheck {
            return Refused;
          }
          break;
        }
        continue;
      }
      if c != ZERO {
        p := p - 1;
        break;
      }
    }
    if s[p - 1] == ZERO {
      p := p - 1;
    }
    r := Pos(p);
  }

  /** The digit loop of `mrb_str_len_to_integer`, from `p0` with nothing
      accumulated yet; a `break` of the source returns where it stopped. */
  method ScanDigits(s: seq<byte>, p0: nat, base: int, neg0: bool, badcheck: bool) returns (r: Scan)
    requires p0 <= |s| && 2 <= base <= 36
    ensures r == DigitLoop(s, p0, base, 0, neg0, badcheck, true)
  {
    var p, n, neg := p0, 0, neg0;
    while p < |s|
      invariant p0 <= p <= |s|
      invariant DigitLoop(s, p, base, n, neg, badcheck, true) == DigitLoop(s, p0, base, 0, neg0, badcheck, true)
    {
      if s[p] == UNDERSCORE {
        p := p + 1;
        if p == |s| {
          if badcheck {
            return Abort(Invalid);
          }
          return Scan(p, n, neg);
        }
        if s[p] == UNDERSCORE {
          if badcheck {
            return Abort(Invalid);
          }
          return Scan(p, n, neg);
        }
      }
      if badcheck && s[p] == NUL {
        return Abort(NullByte);
      }
      var c := ConvDigit(s[p]);
      if c < 0 || c >= base {
        return Scan(p, n, neg);
      }
      if !IsInt64(n * base) {
        return Abort(TooBig);
      }
      n := n * base;
      if INT64_MAX - c < n {
        if neg && INT64_MAX - n == c - 1 {
          n, neg := INT64_MIN, false;
          p := p + 1;
          continue;
        }
        return Abort(TooBig);
      }
      n := n + c;
      p := p + 1;
    }
    r := Scan(p, n, neg);
  }

  /** `trailingbad(str, p, pend)`. */
  method TrailingBadCheck(s: seq<byte>, p0: nat) returns (bad: bool)
    requires p0 <= |s|
    ensures bad == TrailingBad(s, p0)
  {
    if p0 == 0 || s[p0 - 1] == UNDERSCORE {
      return true;
    }
    var p := p0;
    while p < |s| && IsSpace(s[p])
      invariant p0 <= p <= |s|
      invariant SkipSpace(s, p) == SkipSpace(s, p0)
    {
      p := p + 1;
    }
    bad := p < |s|;
  }

  /** The white space and sign at the head of `mrb_str_len_to_integer`. */
  method ReadSign(s: seq<byte>) returns (p: nat, neg: bool)
    ensures p == SignEnd(s) && neg == Negative(s)
  {
    p := 0;
    while p < |s| && IsSpace(s[p])
      invariant p <= |s|
      invariant SkipSpace(s, p) == SkipSpace(s, 0)
    {
      p := p + 1;
    }
    neg := false;
    if At(s, p) == PLUS {
      p := p + 1;
    } else if At(s, p) == MINUS {
      p := p + 1;
      neg := true;
    }
  }

  /** `mrb_str_len_to_integer(str, len, base, badcheck)`, with the digit
      loop moving past the digit that makes `INT64_MIN`. */
  method LenToInteger(s: seq<byte>, base: int, badcheck: bool) returns (r: IntResult)
    ensures r == ParseInteger(s, base, badcheck, true)
  {
    var p, neg := ReadSign(s);
    var b := base;
    if b <= 0 {
      if At(s, p) == ZERO {
        var c := At(s, p + 1);
        if c == 120 || c == 88 {
          b := 16;
        } else if c == 98 || c == 66 {
          b := 2;
        } else if c == 111 || c == 79 {
          b := 8;
        } else if c == 100 || c == 68 {
          b := 10;
        } else {
          b := 8;
        }
      } else if b < -1 {
        b := -b;
      } else {
        b := 10;
      }
    }
    var c := At(s, p + 1);
    if b == 2 {
      if At(s, p) == ZERO && (c == 98 || c == 66) {
        p := p + 2;
      }
    } else if b == 8 {
      if At(s, p) == ZERO && (c == 111 || c == 79) {
        p := p + 2;
      }
    } else if b == 10 {
      if At(s, p) == ZERO && (c == 100 || c == 68) {
        p := p + 2;
      }
    } else if b == 16 {
      if At(s, p) == ZERO && (c == 120 || c == 88) {
        p := p + 2;
      }
    } else if b < 2 || 36 < b {
      return Fail(IllegalRadix);
    }
    r := ReadDigits(s, p, b, neg, badcheck);
  }

  /** The part of `mrb_str_len_to_integer` after the radix prefix. */
  method ReadDigits(s: seq<byte>, p0: nat, b: int, neg: bool, badcheck: bool) returns (r: IntResult)
    requires p0 <= |s| && 2 <= b <= 36
    ensures r == ParseDigits(s, p0, b, neg, badcheck, true)
  {
    var p := p0;
    if p >= |s| {
      return NoNumber(badcheck);
    }
    ghost var squeezed := if s[p0] == ZERO then Squeeze(s, p0, badcheck) else Pos(p0);
    if s[p] == ZERO {
      var sq := SqueezeZeros(s, p, badcheck);
      if sq.Refused? {
        return Fail(Invalid);
      }
      p := sq.p;
    }
    assert squeezed == Pos(p);
    r := ReadValue(s, p, b, neg, badcheck);
  }

  /** The digits after the squeezed zeros, and what follows them. */
  method ReadValue(s: seq<byte>, p: nat, b: int, neg: bool, badcheck: bool) returns (r: IntResult)
    requires p <= |s| && 2 <= b <= 36
    ensures r == ParseValue(s, p, b, neg, badcheck, true)
  {
    if p == |s| || s[p] == UNDERSCORE {
      return NoNumber(badcheck);
    }
    var scan := ScanDigits(s, p, b, neg, badcheck);
    match scan
    case Abort(e) =>
      r := Fail(e);
    case Scan(q, n, ng) =>
      var bad := false;
      if badcheck {
        bad := TrailingBadCheck(s, q);
      }
      r := if bad then Fail(Invalid) else Int(if ng then -n else n);
  }

  /** `String#to_i(base)`: a base outside 0..36 is refused up front, then
      the parser runs without `badcheck`. */
  function StrToI(s: seq<byte>, base: int): (r: IntResult)
  {
    if base < 0 || 36 < base then Fail(IllegalRadix)
    else ParseInteger(s, base, false, true)
  }

  /** `"12345".to_i`. */
  lemma ToIExample()
    ensures StrToI([49, 50, 51, 52, 53], 10) == Int(12345)
  {
    var s: seq<byte> := [49, 50, 51, 52, 53];
    ValNext(s, 0, 0, 10, 0);
    ValNext(s, 0, 1, 10, 1);
    ValNext(s, 0, 2, 10, 12);
    ValNext(s, 0, 3, 10, 123);
    ValNext(s, 0, 4, 10, 1234);
    PlainNumber(s, 10, false, true);
  }

  /** `"99 red balloons".to_i`: the number stops at the space. */
  lemma ToIPrefixExample()
    ensures StrToI([57, 57, 32, 114, 101, 100, 32, 98, 97, 108, 108, 111, 111, 110, 115], 10) == Int(99)
  {
  }

  /** `"0a".to_i`, `"0a".to_i(16)` and `"hello".to_i`. */
  lemma ToILetterExamples()
    ensures StrToI([48, 97], 10) == Int(0)
    ensures StrToI([48, 97], 16) == Int(10)
    ensures StrToI([104, 101, 108, 108, 111], 10) == Int(0)
  {
  }

  /** Every byte of `s[a..j)` is a digit of `base`: no sign, underscore,
      space or other byte. */
  predicate AllDigits(s: seq<byte>, a: nat, j: nat, base: int)
    requires a <= j <= |s|
  {
    forall k :: a <= k < j ==> 0 <= ConvDigit(s[k]) < base
  }

  /** The value of a digit of `base`; anything else counts as zero. */
  function Digit(c: byte, base: int): (d: nat)
    ensures 0 <= ConvDigit(c) < base ==> d == ConvDigit(c)
  {
    var d := ConvDigit(c);
    if 0 <= d < base then d else 0
  }

  /** The value of the digits `s[a..j)` read in `base`. */
  function Val(s: seq<byte>, a: nat, j: nat, base: nat): nat
    requires a <= j <= |s|
    decreases j - a
  {
    if j == a then 0 else Val(s, a, j - 1, base) * base + Digit(s[j - 1], base)
  }

  /** Appending digits never lowers the value, and appending at least one
      multiplies it by the base or more. */
  lemma {:induction false} ValGrows(s: seq<byte>, a: nat, j: nat, k: nat, base: nat)
    requires a <= j <= k <= |s| && 1 <= base
    ensures Val(s, a, j, base) <= Val(s, a, k, base)
    ensures j < k ==> base * Val(s, a, j, base) <= Val(s, a, k, base)
    decreases k - j
  {
    if j < k {
      ValGrows(s, a, j, k - 1, base);
      var x := Val(s, a, k - 1, base);
      assert Val(s, a, k, base) == x * base + Digit(s[k - 1], base);
      Scale(x, base);
    }
  }

  lemma Scale(x: nat, b: nat)
    requires 1 <= b
    ensures x <= x * b && b * x == x * b
  {
  }

  /** The digit loop over digits whose value fits in 64 bits reads them
      all and yields their value. */
  lemma {:induction false} DigitLoopValue(s: seq<byte>, a: nat, p: nat, base: nat, neg: bool, badcheck: bool, fixMin: bool)
    requires a <= p <= |s| && 2 <= base <= 36 && AllDigits(s, a, |s|, base)
    requires Val(s, a, |s|, base) <= INT64_MAX
    ensures DigitLoop(s, p, base, Val(s, a, p, base), neg, badcheck, fixMin) == Scan(|s|, Val(s, a, |s|, base), neg)
    decreases |s| - p
  {
    if p < |s| {
      ValGrows(s, a, p + 1, |s|, base);
      ValGrows(s, a, p, p + 1, base);
      DigitLoopValue(s, a, p + 1, base, neg, badcheck, fixMin);
    }
  }

  /** A decimal number of magnitude 2^63 behind a minus sign: the loop
      reaches the `INT64_MIN` case on its last digit, where the as-written
      loop stops one byte short. */
  lemma {:induction false} DigitLoopMin(s: seq<byte>, a: nat, p: nat, badcheck: bool, fixMin: bool)
    requires a <= p <= |s| && AllDigits(s, a, |s|, 10)
    requires Val(s, a, p, 10) <= INT64_MAX && Val(s, a, |s|, 10) == INT64_MAX + 1
    ensures |s| > 0 && DigitLoop(s, p, 10, Val(s, a, p, 10), true, badcheck, fixMin) ==
      Scan(if fixMin then |s| else |s| - 1, INT64_MIN, false)
    decreases |s| - p
  {
    if p < |s| {
      ValGrows(s, a, p + 1, |s|, 10);
      var n := Val(s, a, p, 10);
      var c := ConvDigit(s[p]);
      assert Val(s, a, p + 1, 10) == n * 10 + c;
      if n * 10 + c <= INT64_MAX {
        DigitLoopMin(s, a, p + 1, badcheck, fixMin);
      } else {
        assert p + 1 == |s|;
      }
    }
  }

  /** A number of an explicit base, without a leading zero, that fits in
      64 bits parses to its value, with or without `badcheck`. */
  lemma PlainNumber(s: seq<byte>, base: nat, badcheck: bool, fixMin: bool)
    requires 2 <= base <= 36 && |s| > 0 && AllDigits(s, 0, |s|, base) && s[0] != ZERO
    requires Val(s, 0, |s|, base) <= INT64_MAX
    ensures ParseInteger(s, base, badcheck, fixMin) == Int(Val(s, 0, |s|, base))
  {
    DigitLoopValue(s, 0, 0, base, false, badcheck, fixMin);
  }

  /** The same behind a minus sign: the negated value. */
  lemma NegativeNumber(s: seq<byte>, base: nat, badcheck: bool, fixMin: bool)
    requires 2 <= base <= 36 && |s| > 1 && s[0] == MINUS && AllDigits(s, 1, |s|, base) && s[1] != ZERO
    requires Val(s, 1, |s|, base) <= INT64_MAX
    ensures ParseInteger(s, base, badcheck, fixMin) == Int(-(Val(s, 1, |s|, base) as int))
  {
    DigitLoopValue(s, 1, 1, base, true, badcheck, fixMin);
  }

  /** A minus sign and the 19 digits of 2^63: `INT64_MIN` as written out. */
  lemma {:induction false} MinMagnitude(s: seq<byte>)
    requires |s| > 1 && s[0] == MINUS && AllDigits(s, 1, |s|, 10) && s[1] != ZERO
    requires Val(s, 1, |s|, 10) == INT64_MAX + 1
    ensures ParseInteger(s, 10, false, false) == Int(INT64_MIN)
    ensures ParseInteger(s, 10, true, false) == Fail(Invalid)
    ensures ParseInteger(s, 10, true, true) == Int(INT64_MIN)
  {
    DigitLoopMin(s, 1, 1, false, false);
    DigitLoopMin(s, 1, 1, true, false);
    DigitLoopMin(s, 1, 1, true, true);
    ValGrows(s, 1, 2, |s|, 10);
    assert |s| > 2;
  }

  /** One more digit: the value so far times the base, plus the digit. */
  lemma ValNext(s: seq<byte>, a: nat, j: nat, base: nat, v: nat)
    requires a <= j < |s| && Val(s, a, j, base) == v && 0 <= ConvDigit(s[j]) < base
    ensures Val(s, a, j + 1, base) == v * base + ConvDigit(s[j])
  {
  }

  function Pow(base: nat, n: nat): nat
  {
    if n == 0 then 1 else base * Pow(base, n - 1)
  }

  lemma ShiftBase(x: int, p: int, y: int, d: int, base: int)
    ensures (x * p + y) * base + d == x * (base * p) + (y * base + d)
  {
  }

  /** The value of `s[a..k)` is that of `s[a..j)` shifted left by the
      digits of `s[j..k)`, plus theirs. */
  lemma {:induction false} ValConcat(s: seq<byte>, a: nat, j: nat, k: nat, base: nat)
    requires a <= j <= k <= |s|
    ensures Val(s, a, k, base) == Val(s, a, j, base) * Pow(base, k - j) + Val(s, j, k, base)
    decreases k - j
  {
    if j < k {
      ValConcat(s, a, j, k - 1, base);
      var x, p, y, d := Val(s, a, j, base), Pow(base, k - 1 - j), Val(s, j, k - 1, base), Digit(s[k - 1], base);
      assert Pow(base, k - j) == base * p;
      ShiftBase(x, p, y, d, base);
    }
  }

  /** "1100101" read in base 2. */
  lemma ToIBinaryExample()
    ensures StrToI([49, 49, 48, 48, 49, 48, 49], 2) == Int(101)
  {
    var s: seq<byte> := [49, 49, 48, 48, 49, 48, 49];
    ValNext(s, 0, 0, 2, 0);
    ValNext(s, 0, 1, 2, 1);
    ValNext(s, 0, 2, 2, 3);
    ValNext(s, 0, 3, 2, 6);
    ValNext(s, 0, 4, 2, 12);
    ValNext(s, 0, 5, 2, 25);
    ValNext(s, 0, 6, 2, 50);
    PlainNumber(s, 2, false, true);
  }

  /** "1100101" read in base 8. */
  lemma ToIOctalExample()
    ensures StrToI([49, 49, 48, 48, 49, 48, 49], 8) == Int(294977)
  {
    var s: seq<byte> := [49, 49, 48, 48, 49, 48, 49];
    ValNext(s, 0, 0, 8, 0);
    ValNext(s, 0, 1, 8, 1);
    ValNext(s, 0, 2, 8, 9);
    ValNext(s, 0, 3, 8, 72);
    ValNext(s, 0, 4, 8, 576);
    ValNext(s, 0, 5, 8, 4609);
    ValNext(s, 0, 6, 8, 36872);
    PlainNumber(s, 8, false, true);
  }

  /** "1100101" read in base 10. */
  lemma ToIDecimalExample()
    ensures StrToI([49, 49, 48, 48, 49, 48, 49], 10) == Int(1100101)
  {
    var s: seq<byte> := [49, 49, 48, 48, 49, 48, 49];
    ValNext(s, 0, 0, 10, 0);
    ValNext(s, 0, 1, 10, 1);
    ValNext(s, 0, 2, 10, 11);
    ValNext(s, 0, 3, 10, 110);
    ValNext(s, 0, 4, 10, 1100);
    ValNext(s, 0, 5, 10, 11001);
    ValNext(s, 0, 6, 10, 110010);
    PlainNumber(s, 10, false, true);
  }

  /** "1100101" read in base 16. */
  lemma ToIHexExample()
    ensures StrToI([49, 49, 48, 48, 49, 48, 49], 16) == Int(17826049)
  {
    var s: seq<byte> := [49, 49, 48, 48, 49, 48, 49];
    ValNext(s, 0, 0, 16, 0);
    ValNext(s, 0, 1, 16, 1);
    ValNext(s, 0, 2, 16, 17);
    ValNext(s, 0, 3, 16, 272);
    ValNext(s, 0, 4, 16, 4352);
    ValNext(s, 0, 5, 16, 69633);
    ValNext(s, 0, 6, 16, 1114128);
    PlainNumber(s, 16, false, true);
  }

  /** A radix is refused exactly when it is 1 or above 36 (a non-positive
      base is first replaced by the detected one). */
  lemma IllegalRadixExactly(s: seq<byte>, base: int, badcheck: bool, fixMin: bool)
    requires base >= 1
    ensures ParseInteger(s, base, badcheck, fixMin) == Fail(IllegalRadix) <==> base == 1 || 36 < base
  {
  }

  /** Without `badcheck` nothing is "invalid": `to_i` gives a number, or
      fails only on the radix or on a value beyond 64 bits. */
  lemma ToINeverInvalid(s: seq<byte>, base: int)
    ensures StrToI(s, base).Fail? ==> StrToI(s, base).error == IllegalRadix || StrToI(s, base).error == TooBig
    ensures 2 <= base <= 36 ==> StrToI(s, base) != Fail(IllegalRadix)
  {
  }

  /** The text "-9223372036854775808". */
  const MIN_TEXT: seq<byte> := [45, 57, 50, 50, 51, 51, 55, 50, 48, 51, 54, 56, 53, 52, 55, 55, 53, 56, 48, 56]

  /** Every byte after the sign is a decimal digit. */
  lemma MinTextDigits()
    ensures AllDigits(MIN_TEXT, 1, |MIN_TEXT|, 10)
  {
  }

  lemma MinTextHead()
    ensures Val(MIN_TEXT, 1, 8, 10) == 9223372
  {
    MinTextHigh();
    MinTextLow();
    ValConcat(MIN_TEXT, 1, 5, 8, 10);
    assert Pow(10, 3) == 1000;
  }

  lemma MinTextHigh()
    ensures Val(MIN_TEXT, 1, 5, 10) == 9223
  {
    var s := MIN_TEXT;
    ValNext(s, 1, 1, 10, 0);
    ValNext(s, 1, 2, 10, 9);
    ValNext(s, 1, 3, 10, 92);
    ValNext(s, 1, 4, 10, 922);
  }

  lemma MinTextLow()
    ensures Val(MIN_TEXT, 5, 8, 10) == 372
  {
    var s := MIN_TEXT;
    ValNext(s, 5, 5, 10, 0);
    ValNext(s, 5, 6, 10, 3);
    ValNext(s, 5, 7, 10, 37);
  }

  lemma MinTextMiddle()
    ensures Val(MIN_TEXT, 8, 14, 10) == 36854
  {
    var s := MIN_TEXT;
    ValNext(s, 8, 8, 10, 0);
    ValNext(s, 8, 9, 10, 0);
    ValNext(s, 8, 10, 10, 3);
    ValNext(s, 8, 11, 10, 36);
    ValNext(s, 8, 12, 10, 368);
    ValNext(s, 8, 13, 10, 3685);
  }

  lemma MinTextTail()
    ensures Val(MIN_TEXT, 14, 20, 10) == 775808
  {
    var s := MIN_TEXT;
    ValNext(s, 14, 14, 10, 0);
    ValNext(s, 14, 15, 10, 7);
    ValNext(s, 14, 16, 10, 77);
    ValNext(s, 14, 17, 10, 775);
    ValNext(s, 14, 18, 10, 7758);
    ValNext(s, 14, 19, 10, 77580);
  }

  /** The digits of the text are 2^63. */
  lemma MinTextValue()
    ensures AllDigits(MIN_TEXT, 1, |MIN_TEXT|, 10)
    ensures Val(MIN_TEXT, 1, |MIN_TEXT|, 10) == INT64_MAX + 1
  {
    var s := MIN_TEXT;
    MinTextDigits();
    MinTextHead();
    MinTextMiddle();
    MinTextTail();
    ValConcat(s, 1, 8, 14, 10);
    ValConcat(s, 1, 14, 20, 10);
    assert Pow(10, 6) == 1000000;
  }

  /** `Integer("-9223372036854775808")`: refused as written although it
      is `INT64_MIN`; accepted once the loop moves past the last digit. */
  lemma MinValueExample()
    ensures ParseInteger(MIN_TEXT, 10, true, false) == Fail(Invalid)
    ensures ParseInteger(MIN_TEXT, 10, true, true) == Int(INT64_MIN)
  {
    MinTextValue();
    MinMagnitude(MIN_TEXT);
  }

  // ---------------------------------------------------------------- what the correction changes

  /** Until the as-written loop reaches the `INT64_MIN` case, the two loops
      take the same steps; where it does reach it, it ends there with that
      value and a positive sign. */
  lemma {:induction false} DigitLoopAgrees(s: seq<byte>, p: nat, base: int, n: int, neg: bool, badcheck: bool)
    requires p <= |s| && 2 <= base <= 36 && n >= 0
    ensures var r := DigitLoop(s, p, base, n, neg, badcheck, false);
      || (r.Scan? && r.n == INT64_MIN && !r.neg)
      || (r == DigitLoop(s, p, base, n, neg, badcheck, true) && (r.Scan? ==> r.n >= 0))
    decreases |s| - p
  {
    if p < |s| && !(s[p] == UNDERSCORE && p + 1 == |s|) {
      var q := if s[p] == UNDERSCORE then p + 1 else p;
      var c := ConvDigit(s[q]);
      if 0 <= c < base {
        assert n * base >= 0;
        DigitLoopAgrees(s, q + 1, base, n * base + c, neg, badcheck);
      }
    }
  }

  /** The same for the digits after the squeezed zeros and what follows
      them. */
  lemma ParseValueAgrees(s: seq<byte>, p3: nat, b: int, neg: bool, badcheck: bool)
    requires p3 <= |s| && 2 <= b <= 36
    ensures var w := ParseValue(s, p3, b, neg, badcheck, false);
      w == Int(INT64_MIN) || w == Fail(Invalid) || ParseValue(s, p3, b, neg, badcheck, true) == w
  {
    if p3 < |s| && s[p3] != UNDERSCORE {
      DigitLoopAgrees(s, p3, b, 0, neg, badcheck);
    }
  }

  /** The correction changes the parse only where the code as written
      yields INT64_MIN or "invalid string"; everywhere else the two agree. */
  lemma CorrectionOnlyAtMin(s: seq<byte>, base: int, badcheck: bool)
    ensures var w := ParseInteger(s, base, badcheck, false);
      w == Int(INT64_MIN) || w == Fail(Invalid) || ParseInteger(s, base, badcheck, true) == w
  {
    var p1 := SignEnd(s);
    var b := if base <= 0 then AutoBase(s, p1, base) else base;
    if 2 <= b <= 36 {
      var p2 := PrefixEnd(s, p1, b);
      if p2 < |s| && (s[p2] != ZERO || Squeeze(s, p2, badcheck).Pos?) {
        var p3 := if s[p2] == ZERO then Squeeze(s, p2, badcheck).p else p2;
        ParseValueAgrees(s, p3, b, Negative(s), badcheck);
      }
    }
  }

  /** Bytes appended after position `j` do not change the value of the
      digits before it. */
  lemma {:induction false} ValAppend(s: seq<byte>, u: seq<byte>, a: nat, j: nat, base: nat)
    requires a <= j <= |s|
    ensures Val(s + u, a, j, base) == Val(s, a, j, base)
    decreases j - a
  {
    if j > a {
      ValAppend(s, u, a, j - 1, base);
      assert (s + u)[j - 1] == s[j - 1];
    }
  }

  /** The digits `s[a..k)` read 2^63 behind a minus sign: as written the
      loop stops on the last of them with `INT64_MIN`; corrected it moves
      on to byte `k` with `INT64_MIN`, whatever follows. */
  lemma {:induction false} DigitLoopMinAt(s: seq<byte>, a: nat, p: nat, k: nat, badcheck: bool, fixMin: bool)
    requires a <= p <= k <= |s| && AllDigits(s, a, k, 10)
    requires Val(s, a, p, 10) <= INT64_MAX && Val(s, a, k, 10) == INT64_MAX + 1
    ensures k > 0
    ensures fixMin ==>
      DigitLoop(s, p, 10, Val(s, a, p, 10), true, badcheck, true) == DigitLoop(s, k, 10, INT64_MIN, false, badcheck, true)
    ensures !fixMin ==> DigitLoop(s, p, 10, Val(s, a, p, 10), true, badcheck, false) == Scan(k - 1, INT64_MIN, false)
    decreases k - p
  {
    if p < k {
      ValGrows(s, a, p + 1, k, 10);
      var n := Val(s, a, p, 10);
      var c := ConvDigit(s[p]);
      assert Val(s, a, p + 1, 10) == n * 10 + c;
      if n * 10 + c <= INT64_MAX {
        DigitLoopMinAt(s, a, p + 1, k, badcheck, fixMin);
      } else {
        assert p + 1 == k;
      }
    }
  }

  /** The text "-92233720368547758080": the digits of 2^63 and one more. */
  lemma MinTextZeroDigits()
    ensures AllDigits(MIN_TEXT + [ZERO], 1, 20, 10) && Val(MIN_TEXT + [ZERO], 1, 20, 10) == INT64_MAX + 1
    ensures Val(MIN_TEXT + [ZERO], 1, 1, 10) == 0
  {
    var s := MIN_TEXT + [ZERO];
    MinTextValue();
    ValAppend(MIN_TEXT, [ZERO], 1, 20, 10);
    forall j | 1 <= j < 20
      ensures 0 <= ConvDigit(s[j]) < 10
    {
      assert s[j] == MIN_TEXT[j];
    }
  }

  /** Parsing "-92233720368547758080" in base 10 is the digit loop from
      byte 1 behind a minus sign. */
  lemma MinTextZeroParse(badcheck: bool, fixMin: bool)
    ensures ParseInteger(MIN_TEXT + [ZERO], 10, badcheck, fixMin) ==
      ParseValue(MIN_TEXT + [ZERO], 1, 10, true, badcheck, fixMin)
  {
    var s := MIN_TEXT + [ZERO];
    assert s[0] == MINUS && s[1] != ZERO && s[1] != UNDERSCORE;
  }

  /** `"-92233720368547758080".to_i`: as written the loop stops at 2^63 and
      yields INT64_MIN without reading the final "0"; corrected it reads
      that digit and the value no longer fits in 64 bits. */
  lemma MinOverflowExample()
    ensures ParseInteger(MIN_TEXT + [ZERO], 10, false, false) == Int(INT64_MIN)
    ensures StrToI(MIN_TEXT + [ZERO], 10) == Fail(TooBig)
  {
    var s := MIN_TEXT + [ZERO];
    MinTextZeroDigits();
    MinTextZeroParse(false, false);
    MinTextZeroParse(false, true);
    DigitLoopMinAt(s, 1, 1, 20, false, false);
    DigitLoopMinAt(s, 1, 1, 20, false, true);
    assert s[20] == ZERO;
  }
}
