/*
 * Bytes and the ASCII character classes the string code uses.  The
 * classes are those of C's <ctype.h> in the "C" locale, which is what the
 * `ISSPACE`/`ISUPPER`/`ISLOWER`/`ISDIGIT`/`TOUPPER`/`TOLOWER` macros of
 * mruby compute (include/mruby.h is not part of this model).
 */
module StrBytes {

  newtype byte = x: int | 0 <= x < 256

  datatype Option<T> = None | Some(value: T)

  const NUL: byte := 0
  const LF: byte := 10
  const CR: byte := 13

  predicate IsSpace(c: byte) { c == 32 || 9 <= c <= 13 }
  predicate IsUpper(c: byte) { 65 <= c <= 90 }
  predicate IsLower(c: byte) { 97 <= c <= 122 }
  predicate IsDigit(c: byte) { 48 <= c <= 57 }
  predicate IsAlpha(c: byte) { IsUpper(c) || IsLower(c) }

  /** `TOUPPER`: a lower-case letter becomes its capital, every other byte stays. */
  function ToUpper(c: byte): (r: byte)
    ensures IsLower(c) ==> IsUpper(r) && r as int == c as int - 32
    ensures !IsLower(c) ==> r == c
  {
    if IsLower(c) then c - 32 else c
  }

  /** `TOLOWER`: a capital becomes its lower-case letter, every other byte stays. */
  function ToLower(c: byte): (r: byte)
    ensures IsUpper(c) ==> IsLower(r) && r as int == c as int + 32
    ensures !IsUpper(c) ==> r == c
  {
    if IsUpper(c) then c + 32 else c
  }
}
