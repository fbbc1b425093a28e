/*
 * What the in-place editing methods of `String` compute, as functions on
 * byte sequences (single-byte build of src/string.c).  The buffer class
 * in str_buffer.dfy is proved to leave exactly these contents behind.
 */
module StrEdit {
  import opened CInt
  import opened StrBytes

  /** `upcase!`: every lower-case letter replaced by its capital. */
  function Upcase(s: seq<byte>): (r: seq<byte>)
    ensures |r| == |s|
  {
    seq(|s|, i requires 0 <= i < |s| => ToUpper(s[i]))
  }

  /** `downcase!`: every capital replaced by its lower-case letter. */
  function Downcase(s: seq<byte>): (r: seq<byte>)
    ensures |r| == |s|
  {
    seq(|s|, i requires 0 <= i < |s| => ToLower(s[i]))
  }

  /** `capitalize!`: the first byte upcased, the rest downcased. */
  function Capitalize(s: seq<byte>): (r: seq<byte>)
    ensures |r| == |s|
  {
    if s == [] then [] else [ToUpper(s[0])] + Downcase(s[1..])
  }

  lemma CapitalizeAt(s: seq<byte>, k: nat)
    requires k < |s|
    ensures Capitalize(s)[k] == if k == 0 then ToUpper(s[0]) else ToLower(s[k])
  {
    if k > 0 {
      assert Capitalize(s)[k] == Downcase(s[1..])[k - 1];
    }
  }

  /** `upcase!` leaves the string alone exactly when it holds no lower-case letter. */
  lemma UpcaseUnchanged(s: seq<byte>)
    ensures Upcase(s) == s <==> forall i :: 0 <= i < |s| ==> !IsLower(s[i])
  {
    if Upcase(s) == s {
      forall i | 0 <= i < |s| ensures !IsLower(s[i]) {
        assert Upcase(s)[i] == s[i];
      }
    }
  }

  /** `downcase!` leaves the string alone exactly when it holds no capital. */
  lemma DowncaseUnchanged(s: seq<byte>)
    ensures Downcase(s) == s <==> forall i :: 0 <= i < |s| ==> !IsUpper(s[i])
  {
    if Downcase(s) == s {
      forall i | 0 <= i < |s| ensures !IsUpper(s[i]) {
        assert Downcase(s)[i] == s[i];
      }
    }
  }

  /** A non-empty string survives `capitalize!` exactly when its first byte
      is no lower-case letter and no later byte is a capital. */
  lemma CapitalizeUnchanged(s: seq<byte>)
    requires s != []
    ensures Capitalize(s) == s <==> !IsLower(s[0]) && forall i :: 1 <= i < |s| ==> !IsUpper(s[i])
  {
    DowncaseUnchanged(s[1..]);
    if Capitalize(s) == s {
      assert Capitalize(s)[0] == s[0];
      assert Capitalize(s)[1..] == s[1..];
      forall i | 1 <= i < |s| ensures !IsUpper(s[i]) {
        assert s[1..][i - 1] == s[i];
      }
    }
  }

  /** Case mapping is idempotent, and upcasing ignores an earlier downcasing. */
  lemma CaseMappingsAbsorb(s: seq<byte>)
    ensures Upcase(Upcase(s)) == Upcase(s)
    ensures Downcase(Downcase(s)) == Downcase(s)
    ensures Upcase(Downcase(s)) == Upcase(s)
    ensures Downcase(Upcase(s)) == Downcase(s)
  {
  }

  /** `s` ends with `t`. */
  predicate EndsWith(s: seq<byte>, t: seq<byte>)
  {
    |t| <= |s| && s[|s| - |t|..] == t
  }

  /** The default `chomp!`: one trailing "\n", "\r\n" or "\r" removed. */
  function SmartChomp(s: seq<byte>): (r: seq<byte>)
    ensures EndsWith(s, [CR, LF]) ==> r == s[..|s| - 2]
    ensures !EndsWith(s, [CR, LF]) && (EndsWith(s, [LF]) || EndsWith(s, [CR])) ==> r == s[..|s| - 1]
    ensures !EndsWith(s, [LF]) && !EndsWith(s, [CR]) ==> r == s
  {
    if |s| > 0 && s[|s| - 1] == LF then
      if |s| > 1 && s[|s| - 2] == CR then s[..|s| - 2] else s[..|s| - 1]
    else if |s| > 0 && s[|s| - 1] == CR then s[..|s| - 1]
    else s
  }

  /** `chomp!("")`: every trailing "\n" and "\r\n" removed. */
  function StripNewlines(s: seq<byte>): (r: seq<byte>)
    ensures |r| <= |s| && r == s[..|r|]
    ensures !EndsWith(r, [LF])
    decreases |s|
  {
    if |s| > 0 && s[|s| - 1] == LF then
      var t := if |s| > 1 && s[|s| - 2] == CR then s[..|s| - 2] else s[..|s| - 1];
      var r := StripNewlines(t);
      assert t[..|r|] == s[..|r|];
      r
    else s
  }

  /**
   * `chomp!` with an optional separator (absent: the default).  An empty
   * separator strips all newlines, "\n" means the default, any other
   * separator is removed once when the string ends with it.
   */
  function Chomp(s: seq<byte>, rs: Option<seq<byte>>): (r: seq<byte>)
    ensures |r| <= |s| && r == s[..|r|]
  {
    match rs
    case None => SmartChomp(s)
    case Some(sep) =>
      if sep == [] then StripNewlines(s)
      else if sep == [LF] then SmartChomp(s)
      else if EndsWith(s, sep) then s[..|s| - |sep|]
      else s
  }

  /** "hello" */
  const HELLO: seq<byte> := [104, 101, 108, 108, 111]

  /** The examples of `String#chomp` without a separator. */
  lemma ChompExamples()
    ensures Chomp(HELLO, None) == HELLO
    ensures Chomp(HELLO + [LF], None) == HELLO
    ensures Chomp(HELLO + [CR, LF], None) == HELLO
    ensures Chomp(HELLO + [LF, CR], None) == HELLO + [LF]
    ensures Chomp(HELLO + [CR], None) == HELLO
  {
  }

  /** `"hello \n there".chomp` keeps its inner newline. */
  lemma ChompInnerNewline()
    ensures Chomp(HELLO + [32, LF, 32] + HELLO, None) == HELLO + [32, LF, 32] + HELLO
  {
  }

  /** `"hello".chomp("llo")`, and an empty separator removing every trailing newline. */
  lemma ChompSeparatorExamples()
    ensures Chomp(HELLO, Some([108, 108, 111])) == [104, 101]
    ensures Chomp(HELLO + [CR, LF, LF], Some([])) == HELLO
  {
    assert EndsWith(HELLO, [108, 108, 111]);
    assert (HELLO + [CR, LF, LF])[..7] == HELLO + [CR, LF];
    assert (HELLO + [CR, LF])[..5] == HELLO;
    assert StripNewlines(HELLO) == HELLO;
    assert StripNewlines(HELLO + [CR, LF]) == HELLO;
  }

  /** `chop!`: the last byte removed, or a trailing "\r\n" as a whole. */
  function Chop(s: seq<byte>): (r: seq<byte>)
    ensures s == [] ==> r == []
    ensures EndsWith(s, [CR, LF]) ==> r == s[..|s| - 2]
    ensures s != [] && !EndsWith(s, [CR, LF]) ==> r == s[..|s| - 1]
  {
    if s == [] then []
    else
      var len := |s| - 1;
      if s[len] == LF && len > 0 && s[len - 1] == CR then s[..len - 1] else s[..len]
  }

  /** The examples of `String#chop`, on "string". */
  lemma ChopExamples()
    ensures var str: seq<byte> := [115, 116, 114, 105, 110, 103];
      && Chop(str + [CR, LF]) == str
      && Chop(str + [LF, CR]) == str + [LF]
      && Chop(str + [LF]) == str
      && Chop(str) == str[..5]
      && Chop([120]) == []
  {
  }

  /** The bytes in reverse order. */
  function Reverse(s: seq<byte>): (r: seq<byte>)
    ensures |r| == |s|
  {
    seq(|s|, i requires 0 <= i < |s| => s[|s| - 1 - i])
  }

  lemma ReverseReverse(s: seq<byte>)
    ensures Reverse(Reverse(s)) == s
  {
  }

  /** `s` with `s[pos..end)` replaced by `rep`. */
  function Splice(s: seq<byte>, pos: nat, end: nat, rep: seq<byte>): (r: seq<byte>)
    requires pos <= end <= |s|
    ensures |r| == |s| - (end - pos) + |rep|
  {
    s[..pos] + rep + s[end..]
  }

  /** A splice puts `rep` at `pos` and keeps everything outside the range. */
  lemma SpliceParts(s: seq<byte>, pos: nat, end: nat, rep: seq<byte>)
    requires pos <= end <= |s|
    ensures var r := Splice(s, pos, end, rep);
      r[..pos] == s[..pos] && r[pos..pos + |rep|] == rep && r[pos + |rep|..] == s[end..]
    ensures Splice(s, pos, end, s[pos..end]) == s
  {
    assert s[..pos] + s[pos..end] + s[end..] == s;
  }

  /**
   * The capacity `mrb_str_cat` grows a buffer of capacity `capa` to so
   * that it exceeds `total`: unchanged when it already does, otherwise
   * doubled (from at least 1) until it does; `None` when a doubling
   * leaves the 64-bit range.
   */
  function GrowCapa(capa: nat, total: nat): Option<nat>
  {
    if capa > total then Some(capa)
    else Double(if capa == 0 then 1 else capa, total)
  }

  function Double(c: nat, total: nat): Option<nat>
    requires c > 0
    decreases total - c
  {
    if c > total then Some(c)
    else if !IsInt64(c * 2) then None
    else Double(c * 2, total)
  }

  /** Doubling gives a capacity above `total` that is `c` times a power of
      two, and fails only for totals beyond half the 64-bit range. */
  lemma {:induction false} DoubleBounds(c: nat, total: nat)
    requires c > 0 && c <= INT64_MAX
    ensures Double(c, total).Some? ==> Double(c, total).value > total && IsInt64(Double(c, total).value)
    ensures Double(c, total).Some? && c <= total ==> Double(c, total).value <= 2 * total
    ensures Double(c, total).None? ==> total > INT64_MAX / 2
    decreases total - c
  {
    if c <= total && IsInt64(c * 2) {
      DoubleBounds(c * 2, total);
    }
  }

  lemma GrowCapaBounds(capa: nat, total: nat)
    requires capa <= INT64_MAX
    ensures GrowCapa(capa, total).Some? ==> GrowCapa(capa, total).value > total
    ensures GrowCapa(capa, total).Some? ==> IsInt64(GrowCapa(capa, total).value)
    ensures GrowCapa(capa, total).None? ==> total > INT64_MAX / 2
  {
    if capa <= total {
      DoubleBounds(if capa == 0 then 1 else capa, total);
    }
  }
}
