/*
 * Range normalisation, substring search and comparison of byte strings
 * (the single-byte build of src/string.c, where a character is a byte).
 */
module StrSearch {
  import opened StrBytes

  /** A normalised substring range: start offset and length. */
  datatype Range = Range(beg: int, len: int)

  function Min(a: int, b: int): int { if a < b then a else b }

  /**
   * `mrb_str_beg_len`: a start offset (negative counts from the end) and a
   * length become a range inside a string of `strLen` bytes, or nothing.
   */
  function BegLen(strLen: int, beg: int, len: int): (r: Option<Range>)
    requires strLen >= 0
    ensures r.None? <==> strLen < beg || len < 0 || beg + strLen < 0
    ensures r.Some? ==> 0 <= r.value.beg <= strLen && 0 <= r.value.len <= strLen - r.value.beg
    ensures r.Some? ==> r.value.beg == (if beg < 0 then beg + strLen else beg)
    ensures r.Some? ==> r.value.len == Min(len, strLen - r.value.beg)
  {
    if strLen < beg || len < 0 then None
    else
      var b := if beg < 0 then beg + strLen else beg;
      if b < 0 then None
      else
        var l := if len > strLen - b then strLen - b else len;
        Some(Range(b, if l <= 0 then 0 else l))
  }

  /** `x` occurs in `y` at offset `i`. */
  predicate MatchAt(x: seq<byte>, y: seq<byte>, i: int)
  {
    0 <= i && i + |x| <= |y| && y[i..i + |x|] == x
  }

  /** The first occurrence of `x` in `y` at or after `i`, or -1. */
  function FirstMatchFrom(x: seq<byte>, y: seq<byte>, i: nat): (r: int)
    decreases |y| - i
    ensures r == -1 <==> forall j :: i <= j ==> !MatchAt(x, y, j)
    ensures r != -1 ==> i <= r && MatchAt(x, y, r)
    ensures r != -1 ==> forall j :: i <= j < r ==> !MatchAt(x, y, j)
  {
    if i + |x| > |y| then -1
    else if y[i..i + |x|] == x then
      assert MatchAt(x, y, i);
      i
    else FirstMatchFrom(x, y, i + 1)
  }

  /**
   * `mrb_memsearch`: the offset of the first occurrence of `x` in `y`, or
   * -1.  The word-parallel and `memchr` searches it delegates to are
   * represented by their result, `FirstMatchFrom`.
   */
  function MemSearch(x: seq<byte>, y: seq<byte>): (r: int)
    ensures r == -1 <==> forall j :: !MatchAt(x, y, j)
    ensures r != -1 ==> MatchAt(x, y, r) && forall j :: 0 <= j < r ==> !MatchAt(x, y, j)
    ensures |x| > |y| ==> r == -1
    ensures |x| == 0 ==> r == 0
  {
    if |x| > |y| then -1
    else if |x| == |y| then
      assert y[0..|x|] == y;
      if x == y then
        assert MatchAt(x, y, 0);
        0
      else -1
    else if |x| < 1 then
      assert MatchAt(x, y, 0);
      0
    else FirstMatchFrom(x, y, 0)
  }

  lemma MatchShift(x: seq<byte>, y: seq<byte>, off: nat, j: int)
    requires off <= |y| && 0 <= j
    ensures MatchAt(x, y[off..], j) <==> MatchAt(x, y, j + off)
  {
    if 0 <= j && j + |x| <= |y| - off {
      assert y[off..][j..j + |x|] == y[j + off..j + off + |x|];
    }
  }

  /** The offset `mrb_str_index` searches from: a negative one counts from the end. */
  function IndexStart(len: int, offset: int): int
  {
    if offset < 0 then offset + len else offset
  }

  /**
   * `mrb_str_index`: the first occurrence of `sub` in `s` at or after
   * `offset`, or -1.
   */
  function StrIndex(s: seq<byte>, sub: seq<byte>, offset: int): (r: int)
    ensures var off := IndexStart(|s|, offset);
      r == -1 <==> off < 0 || forall j :: off <= j ==> !MatchAt(sub, s, j)
    ensures var off := IndexStart(|s|, offset);
      r != -1 ==> off <= r && MatchAt(sub, s, r) && forall j :: off <= j < r ==> !MatchAt(sub, s, j)
  {
    var len := |s|;
    var off := if offset < 0 then offset + len else offset;
    if off < 0 then -1
    else if len - off < |sub| then -1
    else if |sub| == 0 then
      assert MatchAt(sub, s, off);
      off
    else
      var pos := MemSearch(sub, s[off..]);
      SearchSuffix(sub, s, off);
      if pos < 0 then pos else pos + off
  }

  /** Searching the suffix from `off` finds the first match at or after
      `off`, shifted down by `off`. */
  lemma SearchSuffix(x: seq<byte>, y: seq<byte>, off: nat)
    requires off <= |y|
    ensures var pos := MemSearch(x, y[off..]);
      && (pos == -1 <==> forall j :: off <= j ==> !MatchAt(x, y, j))
      && (pos != -1 ==> 0 <= pos && MatchAt(x, y, pos + off) && forall j :: off <= j < pos + off ==> !MatchAt(x, y, j))
  {
    var pos := MemSearch(x, y[off..]);
    forall j | off <= j ensures MatchAt(x, y, j) <==> MatchAt(x, y[off..], j - off) {
      MatchShift(x, y, off, j - off);
    }
    if pos != -1 {
      assert MatchAt(x, y[off..], (pos + off) - off);
      assert MatchAt(x, y, pos + off);
    }
  }

  /** "hello" */
  const HELLO: seq<byte> := [104, 101, 108, 108, 111]

  /** Forward searches in "hello". */
  lemma StrIndexExamples()
    ensures StrIndex(HELLO, [108], 0) == 2
    ensures StrIndex(HELLO, [108], 3) == 3
    ensures StrIndex(HELLO, [108, 111], -3) == 3
    ensures StrIndex(HELLO, [], 5) == 5
    ensures StrIndex(HELLO, [], 6) == -1
  {
    assert MatchAt([108], HELLO, 2) && MatchAt([108], HELLO, 3) && MatchAt([108, 111], HELLO, 3);
    assert HELLO[0..1][0] == 104 && HELLO[1..2][0] == 101 && HELLO[2..4][1] == 108;
  }

  /** A byte "hello" does not contain is found nowhere. */
  lemma StrIndexMissing()
    ensures StrIndex(HELLO, [120], 0) == -1
  {
    forall j | 0 <= j ensures !MatchAt([120], HELLO, j) {
      if j < 5 {
        assert HELLO[j..j + 1][0] == HELLO[j];
        assert j == 0 || j == 1 || j == 2 || j == 3 || j == 4;
      }
    }
  }

  /** Where `str_rindex` starts its backward scan. */
  function RindexStart(slen: int, len: int, pos: int): int
  {
    if slen - pos < len then slen - len else pos
  }

  /**
   * `str_rindex`: scans backwards from `pos` (pulled back so that `sub`
   * fits) for the last occurrence of `sub` starting at or before it.
   */
  method StrRindex(s: seq<byte>, sub: seq<byte>, pos: int) returns (r: int)
    requires pos >= 0
    ensures var p := RindexStart(|s|, |sub|, pos);
      r == -1 <==> forall j :: 0 <= j <= p ==> !MatchAt(sub, s, j)
    ensures var p := RindexStart(|s|, |sub|, pos);
      r != -1 ==> 0 <= r <= p && MatchAt(sub, s, r) && forall j :: r < j <= p ==> !MatchAt(sub, s, j)
  {
    var len := |sub|;
    var slen := |s|;
    if slen < len {
      return -1;
    }
    var p := pos;
    if slen - p < len {
      p := slen - len;
    }
    if len == 0 {
      assert MatchAt(sub, s, p);
      return p;
    }
    var i := p;
    while 0 <= i
      invariant -1 <= i <= p
      invariant forall j :: i < j <= p ==> !MatchAt(sub, s, j)
    {
      if slen - i >= len && s[i..i + len] == sub {
        assert MatchAt(sub, s, i);
        return i;
      }
      i := i - 1;
    }
    return -1;
  }

  /** The length of the longest common prefix of `a[i..]` and `b[i..]`, plus `i`. */
  function CommonPrefix(a: seq<byte>, b: seq<byte>, i: nat): (k: nat)
    requires i <= |a| && i <= |b|
    decreases |a| - i
    ensures i <= k <= |a| && k <= |b|
    ensures forall j :: i <= j < k ==> a[j] == b[j]
    ensures k < |a| && k < |b| ==> a[k] != b[k]
  {
    if i == |a| || i == |b| || a[i] != b[i] then i else CommonPrefix(a, b, i + 1)
  }

  /**
   * C's `memcmp` over the first `n` bytes, reduced to its sign: the order
   * of the first differing byte, 0 when there is none.
   */
  function Memcmp(a: seq<byte>, b: seq<byte>, n: nat): (r: int)
    requires n <= |a| && n <= |b|
    ensures r == 0 <==> a[..n] == b[..n]
  {
    var k := CommonPrefix(a, b, 0);
    if k >= n then
      assert a[..n] == b[..n];
      0
    else
      assert a[..n][k] != b[..n][k];
      if a[k] < b[k] then -1 else 1
  }

  /**
   * The lexicographic byte order: at the first position where they
   * differ `a` has the smaller byte, or `a` is a proper prefix of `b`.
   */
  ghost predicate LexLess(a: seq<byte>, b: seq<byte>)
  {
    exists k :: 0 <= k <= |a| && k <= |b| && a[..k] == b[..k] &&
      ((k == |a| && k < |b|) || (k < |a| && k < |b| && a[k] < b[k]))
  }

  /** Any witness of `LexLess` sits at the common-prefix length. */
  lemma LexWitness(a: seq<byte>, b: seq<byte>, k: nat)
    requires k <= |a| && k <= |b| && a[..k] == b[..k]
    requires k == |a| || k == |b| || a[k] != b[k]
    ensures k == CommonPrefix(a, b, 0)
  {
    var c := CommonPrefix(a, b, 0);
    if c < k {
      assert false;
    } else if k < c {
      assert false;
    }
  }

  /** `LexLess` is decided at the common-prefix length. */
  lemma LexLessAtPrefix(a: seq<byte>, b: seq<byte>)
    ensures var k := CommonPrefix(a, b, 0);
      LexLess(a, b) <==> (k == |a| && k < |b|) || (k < |a| && k < |b| && a[k] < b[k])
  {
    var k := CommonPrefix(a, b, 0);
    assert a[..k] == b[..k];
    if LexLess(a, b) {
      var k' :| 0 <= k' <= |a| && k' <= |b| && a[..k'] == b[..k'] &&
        ((k' == |a| && k' < |b|) || (k' < |a| && k' < |b| && a[k'] < b[k']));
      LexWitness(a, b, k');
    }
  }

  /**
   * `mrb_str_cmp`: -1, 0 or 1 as `a` sorts before, equal to or after `b`
   * in the lexicographic byte order, a proper prefix sorting first.
   */
  function StrCmp(a: seq<byte>, b: seq<byte>): (r: int)
    ensures r == 0 <==> a == b
    ensures r == -1 <==> LexLess(a, b)
    ensures r == 1 <==> LexLess(b, a)
    ensures r == -1 || r == 0 || r == 1
  {
    var len := if |a| < |b| then |a| else |b|;
    var retval := Memcmp(a, b, len);
    var k := CommonPrefix(a, b, 0);
    LexLessAtPrefix(a, b);
    LexLessAtPrefix(b, a);
    LexWitness(b, a, k);
    if retval == 0 then
      assert k >= len by {
        if k < len { assert false; }
      }
      if |a| == |b| then
        assert a == a[..len] && b == b[..len];
        0
      else if |a| > |b| then
        assert a != b;
        1
      else
        assert a != b;
        -1
    else
      assert a != b by { assert a[k] != b[k]; }
      if retval > 0 then 1 else -1
  }

  /** The comparison `mrb_str_cmp` makes is a strict order: it is transitive. */
  lemma {:induction false} LexLessTransitive(a: seq<byte>, b: seq<byte>, c: seq<byte>)
    requires LexLess(a, b) && LexLess(b, c)
    ensures LexLess(a, c)
  {
    var i :| 0 <= i <= |a| && i <= |b| && a[..i] == b[..i] &&
      ((i == |a| && i < |b|) || (i < |a| && i < |b| && a[i] < b[i]));
    var j :| 0 <= j <= |b| && j <= |c| && b[..j] == c[..j] &&
      ((j == |b| && j < |c|) || (j < |b| && j < |c| && b[j] < c[j]));
    var k := if i < j then i else j;
    assert a[..k] == c[..k] by {
      assert a[..k] == a[..i][..k] && b[..k] == b[..i][..k];
      assert b[..k] == b[..j][..k] && c[..k] == c[..j][..k];
    }
    if i < j {
      assert b[i] == c[i] by { assert b[..j][i] == c[..j][i]; }
    } else if j < i {
      assert a[j] == b[j] by { assert a[..i][j] == b[..i][j]; }
    }
  }

  /** The examples of `String#<=>`, on "abcdef". */
  lemma StrCmpExamples()
    ensures var abcdef: seq<byte> := [97, 98, 99, 100, 101, 102];
      && StrCmp(abcdef, abcdef[..5]) == 1
      && StrCmp(abcdef, abcdef) == 0
      && StrCmp(abcdef, abcdef + [103]) == -1
      && StrCmp(abcdef, [65, 66, 67, 68, 69, 70]) == 1
  {
  }

  /** `str_eql`: byte-for-byte equality. */
  function StrEql(a: seq<byte>, b: seq<byte>): (r: bool)
    ensures r <==> a == b
    ensures r <==> StrCmp(a, b) == 0
  {
    |a| == |b| && Memcmp(a, b, |a|) == 0
  }
}
