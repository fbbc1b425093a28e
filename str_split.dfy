/*
 * `String#split` with a string separator (the `string` branch of
 * `mrb_str_split_m` in src/string.c, single-byte build).  The separator
 * " " selects the whitespace-splitting branch, which is not part of this
 * model.
 */
module StrSplit {
  import opened StrBytes
  import opened StrSearch

  const SPACE: byte := 32

  /** `pat` does not occur in `y`. */
  ghost predicate Free(pat: seq<byte>, y: seq<byte>)
  {
    forall j :: !MatchAt(pat, y, j)
  }

  /**
   * The first occurrence of `pat` in `s` at or after `idx`, or -1, stated
   * by what it is rather than by a scan.
   */
  ghost function FirstFrom(pat: seq<byte>, s: seq<byte>, idx: nat): (m: int)
    ensures m == -1 || (idx <= m && m + |pat| <= |s|)
  {
    if forall j :: idx <= j ==> !MatchAt(pat, s, j) then -1
    else
      assert FirstMatchFrom(pat, s, idx) != -1;
      var m :| idx <= m && MatchAt(pat, s, m) && forall k :: idx <= k < m ==> !MatchAt(pat, s, k);
      m
  }

  /** `FirstFrom` is what it says: an occurrence with none before it, or
      -1 when there is none. */
  lemma FirstFromSpec(pat: seq<byte>, s: seq<byte>, idx: nat)
    ensures var m := FirstFrom(pat, s, idx);
      && (m == -1 <==> forall j :: idx <= j ==> !MatchAt(pat, s, j))
      && (m != -1 ==> MatchAt(pat, s, m) && forall k :: idx <= k < m ==> !MatchAt(pat, s, k))
  {
  }

  /** The scan of `mrb_memsearch` (`FirstMatchFrom`) finds exactly the first
      occurrence. */
  lemma FirstMatchFromAgrees(pat: seq<byte>, s: seq<byte>, idx: nat)
    ensures FirstMatchFrom(pat, s, idx) == FirstFrom(pat, s, idx)
  {
    var a := FirstMatchFrom(pat, s, idx);
    var b := FirstFrom(pat, s, idx);
    FirstFromSpec(pat, s, idx);
  }

  /** Searching the rest of the string from `idx`, as the loop does, finds
      the first occurrence at or after `idx`. */
  lemma MemSearchFrom(pat: seq<byte>, s: seq<byte>, idx: nat)
    requires idx <= |s|
    ensures var m := FirstFrom(pat, s, idx);
      MemSearch(pat, s[idx..]) == if m == -1 then -1 else m - idx
  {
    var m := FirstMatchFrom(pat, s, idx);
    FirstMatchFromAgrees(pat, s, idx);
    var r := MemSearch(pat, s[idx..]);
    if m == -1 {
      if r != -1 {
        MatchShift(pat, s, idx, r);
      }
    } else {
      MatchShift(pat, s, idx, m - idx);
      if r != -1 {
        MatchShift(pat, s, idx, r);
      }
    }
  }

  /** The pieces the search loop cut off, and the offset it stopped at. */
  datatype Cut = Cut(pieces: seq<seq<byte>>, beg: nat)

  /** Where the loop's next cut ends: the next occurrence of `pat`, or the
      next byte when `pat` is empty. */
  ghost function NextCut(s: seq<byte>, pat: seq<byte>, idx: nat): (m: int)
    requires idx < |s|
    ensures m == -1 || (idx <= m && m + |pat| <= |s|)
  {
    if |pat| > 0 then FirstFrom(pat, s, idx) else idx + 1
  }

  /**
   * The search loop from offset `idx` with piece counter `i`: cut the bytes
   * up to the next occurrence of `pat` (a single byte when `pat` is
   * empty), step over the separator, and stop at the end of the string,
   * when no occurrence is left, or when a positive limit is reached.
   */
  ghost function SplitFrom(s: seq<byte>, pat: seq<byte>, idx: nat, i: int, limP: bool, lim: int): (r: Cut)
    requires idx <= |s|
    ensures idx <= r.beg <= |s|
    decreases |s| - idx, 0
  {
    if idx == |s| then Cut([], idx)
    else
      var m := NextCut(s, pat, idx);
      if m < 0 then Cut([], idx)
      else if limP && lim <= i + 1 then Cut([s[idx..m]], m + |pat|)
      else
        var rest := Resume(s, pat, m + |pat|, i + 1, limP, lim);
        Cut([s[idx..m]] + rest.pieces, rest.beg)
  }

  /** The loop taken up again at `idx`, with `i` pieces cut so far. */
  ghost function Resume(s: seq<byte>, pat: seq<byte>, idx: nat, i: int, limP: bool, lim: int): (r: Cut)
    requires idx <= |s|
    decreases |s| - idx, 1
  {
    SplitFrom(s, pat, idx, i, limP, lim)
  }

  /** The pieces without their trailing empty strings. */
  function DropTrailingEmpty(ps: seq<seq<byte>>): (r: seq<seq<byte>>)
    ensures |r| <= |ps| && r == ps[..|r|]
    ensures r == [] || r[|r| - 1] != []
    ensures forall k :: |r| <= k < |ps| ==> ps[k] == []
    decreases |ps|
  {
    if ps != [] && ps[|ps| - 1] == [] then
      var r := DropTrailingEmpty(ps[..|ps| - 1]);
      assert ps[..|ps| - 1][..|r|] == ps[..|r|];
      r
    else ps
  }

  /**
   * `str.split(pat)` (`limGiven` false) or `str.split(pat, lim)`: a limit
   * of 1 gives the whole string, a positive limit caps the number of
   * pieces and keeps the rest unsplit as the last one, a negative limit
   * keeps trailing empty pieces, and no limit or 0 removes them.
   */
  ghost function Split(s: seq<byte>, pat: seq<byte>, limGiven: bool, lim: int): seq<seq<byte>>
    requires pat != [SPACE]
  {
    if limGiven && lim == 1 then (if s == [] then [] else [s])
    else
      var limP := limGiven && lim > 0;
      var c := SplitFrom(s, pat, 0, if limGiven then 1 else 0, limP, lim);
      var all := if |s| > 0 && (limP || |s| > c.beg || lim < 0) then c.pieces + [s[c.beg..]] else c.pieces;
      if !limP && lim == 0 then DropTrailingEmpty(all) else all
  }

  /** The pieces, each followed by the separator. */
  function Terminated(ps: seq<seq<byte>>, pat: seq<byte>): seq<byte>
  {
    if ps == [] then [] else ps[0] + pat + Terminated(ps[1..], pat)
  }

  /** The pieces with the separator between each two. */
  function Join(ps: seq<seq<byte>>, pat: seq<byte>): seq<byte>
  {
    if ps == [] then [] else if |ps| == 1 then ps[0] else ps[0] + pat + Join(ps[1..], pat)
  }

  lemma {:induction false} JoinLast(ps: seq<seq<byte>>, t: seq<byte>, pat: seq<byte>)
    ensures Join(ps + [t], pat) == Terminated(ps, pat) + t
    decreases |ps|
  {
    if ps != [] {
      assert (ps + [t])[1..] == ps[1..] + [t];
      JoinLast(ps[1..], t, pat);
    }
  }

  /**
   * The loop at `idx` either stops there (`m` < 0) or cuts the piece up to
   * `m` and goes on after the separator: its one step with the end of the
   * cut named.
   */
  lemma SplitFromCases(s: seq<byte>, pat: seq<byte>, idx: nat, i: int, limP: bool, lim: int) returns (m: int)
    requires idx <= |s|
    ensures m < 0 ==> SplitFrom(s, pat, idx, i, limP, lim) == Cut([], idx)
    ensures m < 0 && |pat| == 0 ==> idx == |s|
    ensures m >= 0 ==> idx < |s| && m == NextCut(s, pat, idx)
    ensures m >= 0 ==> idx <= m && m + |pat| <= |s| && s[idx..m + |pat|] == s[idx..m] + pat
    ensures m >= 0 && limP && lim <= i + 1 ==> SplitFrom(s, pat, idx, i, limP, lim) == Cut([s[idx..m]], m + |pat|)
    ensures m >= 0 && !(limP && lim <= i + 1) ==>
      SplitFrom(s, pat, idx, i, limP, lim)
        == Cut([s[idx..m]] + SplitFrom(s, pat, m + |pat|, i + 1, limP, lim).pieces, SplitFrom(s, pat, m + |pat|, i + 1, limP, lim).beg)
  {
    if idx == |s| {
      m := -1;
    } else {
      m := NextCut(s, pat, idx);
      if m >= 0 {
        assert s[idx..m + |pat|] == s[idx..m] + s[m..m + |pat|];
        if |pat| > 0 {
          FirstFromSpec(pat, s, idx);
        }
      }
    }
  }

  /** Nothing the search passed over holds the separator. */
  lemma NextCutFree(s: seq<byte>, pat: seq<byte>, idx: nat)
    requires idx <= |s| && |pat| > 0
    ensures idx == |s| || NextCut(s, pat, idx) < 0 ==> Free(pat, s[idx..])
    ensures idx < |s| && NextCut(s, pat, idx) >= 0 ==> Free(pat, s[idx..NextCut(s, pat, idx)])
  {
    if idx == |s| {
      assert forall j :: !MatchAt(pat, s[idx..], j);
    } else {
      var m := NextCut(s, pat, idx);
      FirstFromSpec(pat, s, idx);
      if m >= 0 {
        var piece := s[idx..m];
        forall j ensures !MatchAt(pat, piece, j) {
          if MatchAt(pat, piece, j) {
            assert s[idx + j..idx + j + |pat|] == piece[j..j + |pat|];
            assert MatchAt(pat, s, idx + j);
          }
        }
      } else {
        forall j ensures !MatchAt(pat, s[idx..], j) {
          if 0 <= j {
            MatchShift(pat, s, idx, j);
          }
        }
      }
    }
  }

  lemma TerminatedCons(s: seq<byte>, pat: seq<byte>, idx: nat, next: nat, piece: seq<byte>, rest: Cut, c: Cut)
    requires idx <= next <= rest.beg <= |s|
    requires s[idx..next] == piece + pat && s[next..rest.beg] == Terminated(rest.pieces, pat)
    requires c == Cut([piece] + rest.pieces, rest.beg)
    ensures s[idx..c.beg] == Terminated(c.pieces, pat)
  {
    assert ([piece] + rest.pieces)[1..] == rest.pieces;
    assert s[idx..rest.beg] == s[idx..next] + s[next..rest.beg];
  }

  /** The pieces the loop cut, each followed by the separator, are the bytes it passed over. */
  lemma {:induction false} SplitFromTerminated(s: seq<byte>, pat: seq<byte>, idx: nat, i: int, limP: bool, lim: int)
    requires idx <= |s|
    ensures s[idx..SplitFrom(s, pat, idx, i, limP, lim).beg] == Terminated(SplitFrom(s, pat, idx, i, limP, lim).pieces, pat)
    decreases |s| - idx
  {
    var m := SplitFromCases(s, pat, idx, i, limP, lim);
    if m >= 0 {
      var next: nat := m + |pat|;
      if limP && lim <= i + 1 {
        TerminatedCons(s, pat, idx, next, s[idx..m], Cut([], next), SplitFrom(s, pat, idx, i, limP, lim));
      } else {
        SplitFromTerminated(s, pat, next, i + 1, limP, lim);
        TerminatedCons(s, pat, idx, next, s[idx..m], SplitFrom(s, pat, next, i + 1, limP, lim), SplitFrom(s, pat, idx, i, limP, lim));
      }
    }
  }

  /** No piece the loop cut holds the separator. */
  lemma {:induction false} SplitFromPiecesFree(s: seq<byte>, pat: seq<byte>, idx: nat, i: int, limP: bool, lim: int)
    requires idx <= |s| && |pat| > 0
    ensures forall k :: 0 <= k < |SplitFrom(s, pat, idx, i, limP, lim).pieces| ==> Free(pat, SplitFrom(s, pat, idx, i, limP, lim).pieces[k])
    decreases |s| - idx
  {
    var m := SplitFromCases(s, pat, idx, i, limP, lim);
    NextCutFree(s, pat, idx);
    if m >= 0 && !(limP && lim <= i + 1) {
      var rest := SplitFrom(s, pat, m + |pat|, i + 1, limP, lim);
      SplitFromPiecesFree(s, pat, m + |pat|, i + 1, limP, lim);
      var ps := [s[idx..m]] + rest.pieces;
      forall k | 0 <= k < |ps| ensures Free(pat, ps[k]) {
        if k > 0 {
          assert ps[k] == rest.pieces[k - 1];
        }
      }
    }
  }

  /** Unless a limit stopped it, the loop leaves no separator behind; an
      empty separator runs it to the end. */
  lemma {:induction false} SplitFromRest(s: seq<byte>, pat: seq<byte>, idx: nat, i: int, lim: int)
    requires idx <= |s|
    ensures |pat| > 0 ==> Free(pat, s[SplitFrom(s, pat, idx, i, false, lim).beg..])
    ensures |pat| == 0 ==> SplitFrom(s, pat, idx, i, false, lim).beg == |s|
    decreases |s| - idx
  {
    var m := SplitFromCases(s, pat, idx, i, false, lim);
    if m >= 0 {
      SplitFromRest(s, pat, m + |pat|, i + 1, lim);
    } else if |pat| > 0 {
      NextCutFree(s, pat, idx);
    }
  }

  /** A positive limit bounds the number of pieces. */
  lemma {:induction false} SplitFromCount(s: seq<byte>, pat: seq<byte>, idx: nat, i: int, lim: int)
    requires idx <= |s| && i < lim
    ensures |SplitFrom(s, pat, idx, i, true, lim).pieces| <= lim - i
    decreases |s| - idx
  {
    var m := SplitFromCases(s, pat, idx, i, true, lim);
    if m >= 0 && lim > i + 1 {
      SplitFromCount(s, pat, m + |pat|, i + 1, lim);
    }
  }

  /**
   * With a limit other than 0, joining the pieces with the separator gives
   * the string back, and a positive limit is never exceeded.
   */
  lemma SplitJoin(s: seq<byte>, pat: seq<byte>, lim: int)
    requires pat != [SPACE] && s != [] && lim != 0
    ensures Join(Split(s, pat, true, lim), pat) == s
    ensures lim > 0 ==> |Split(s, pat, true, lim)| <= lim
  {
    if lim != 1 {
      var c := SplitFrom(s, pat, 0, 1, lim > 0, lim);
      SplitFromTerminated(s, pat, 0, 1, lim > 0, lim);
      if lim > 0 {
        SplitFromCount(s, pat, 0, 1, lim);
      }
      JoinLast(c.pieces, s[c.beg..], pat);
      assert s[..c.beg] + s[c.beg..] == s;
    }
  }

  /**
   * Without a positive limit no piece holds the separator; without a limit
   * (or with 0) the last piece is not empty.
   */
  lemma SplitSeparatorFree(s: seq<byte>, pat: seq<byte>, limGiven: bool, lim: int)
    requires pat != [SPACE] && |pat| > 0 && (!limGiven || lim <= 0)
    ensures var r := Split(s, pat, limGiven, lim);
      && (forall k :: 0 <= k < |r| ==> Free(pat, r[k]))
      && (lim == 0 ==> r == [] || r[|r| - 1] != [])
  {
    SplitFromPiecesFree(s, pat, 0, if limGiven then 1 else 0, false, lim);
    SplitFromRest(s, pat, 0, if limGiven then 1 else 0, lim);
  }

  /** An empty separator cuts the string into its bytes. */
  lemma {:induction false} SplitFromBytes(s: seq<byte>, idx: nat, i: int, lim: int)
    requires idx <= |s|
    ensures SplitFrom(s, [], idx, i, false, lim) == Cut(seq(|s| - idx, k requires 0 <= k < |s| - idx => [s[idx + k]]), |s|)
    decreases |s| - idx
  {
    var m := SplitFromCases(s, [], idx, i, false, lim);
    if m >= 0 {
      SplitFromBytes(s, idx + 1, i + 1, lim);
      var tail := seq(|s| - (idx + 1), k requires 0 <= k < |s| - (idx + 1) => [s[idx + 1 + k]]);
      assert s[idx..idx + 1] == [s[idx]];
      assert seq(|s| - idx, k requires 0 <= k < |s| - idx => [s[idx + k]]) == [s[idx..idx + 1]] + tail;
    }
  }

  lemma SplitEmptySeparator(s: seq<byte>)
    ensures Split(s, [], false, 0) == seq(|s|, k requires 0 <= k < |s| => [s[k]])
  {
    SplitFromBytes(s, 0, 0, 0);
  }

  /** `mrb_str_split_m` with a string separator. */
  method SplitString(s: seq<byte>, pat: seq<byte>, limGiven: bool, lim: int) returns (result: seq<seq<byte>>)
    requires pat != [SPACE]
    ensures result == Split(s, pat, limGiven, lim)
  {
    if limGiven && lim == 1 {
      if |s| == 0 {
        return [];
      }
      return [s];
    }
    var limP := limGiven && lim > 0;
    var i := if limGiven then 1 else 0;
    var idx;
    result, idx := CutPieces(s, pat, i, limP, lim);
    if |s| > 0 && (limP || |s| > idx || lim < 0) {
      result := result + [s[idx..]];
    }
    if !limP && lim == 0 {
      result := PopEmpty(result);
    }
  }

  /** The cutting loop of `mrb_str_split_m`: pieces up to each separator,
      until the separator is not found or the limit is reached. */
  method CutPieces(s: seq<byte>, pat: seq<byte>, i0: int, limP: bool, lim: int) returns (pieces: seq<seq<byte>>, beg: nat)
    ensures beg <= |s|
    ensures Cut(pieces, beg) == SplitFrom(s, pat, 0, i0, limP, lim)
  {
    ghost var total := SplitFrom(s, pat, 0, i0, limP, lim);
    ghost var cur := total;
    pieces := [];
    var i := i0;
    beg := 0;
    while beg < |s|
      invariant beg <= |s|
      invariant cur == SplitFrom(s, pat, beg, i, limP, lim)
      invariant total == Cut(pieces + cur.pieces, cur.beg)
      decreases |s| - beg
    {
      var end := FindCut(s, pat, beg);
      ghost var next := CutStep(s, pat, beg, i, limP, lim, end);
      if end < 0 {
        assert pieces + cur.pieces == pieces;
        break;
      }
      var piece := s[beg..beg + end];
      ghost var rest := SplitFrom(s, pat, next, i + 1, limP, lim);
      pieces := pieces + [piece];
      beg := beg + end + |pat|;
      i := i + 1;
      if limP && lim <= i {
        break;
      }
      Reassociate(pieces[..|pieces| - 1], piece, rest.pieces);
      cur := rest;
    }
  }

  /** One turn of the cutting loop, with the search result `end` in place of the cut. */
  lemma CutStep(s: seq<byte>, pat: seq<byte>, beg: nat, i: int, limP: bool, lim: int, end: int) returns (next: nat)
    requires beg < |s|
    requires end < 0 <==> NextCut(s, pat, beg) < 0
    requires end >= 0 ==> beg + end == NextCut(s, pat, beg)
    ensures end < 0 ==> SplitFrom(s, pat, beg, i, limP, lim) == Cut([], beg)
    ensures end >= 0 ==> next == beg + end + |pat| <= |s|
    ensures end >= 0 && limP && lim <= i + 1 ==> SplitFrom(s, pat, beg, i, limP, lim) == Cut([s[beg..beg + end]], next)
    ensures end >= 0 && !(limP && lim <= i + 1) ==>
      SplitFrom(s, pat, beg, i, limP, lim)
        == Cut([s[beg..beg + end]] + SplitFrom(s, pat, next, i + 1, limP, lim).pieces, SplitFrom(s, pat, next, i + 1, limP, lim).beg)
  {
    var m := SplitFromCases(s, pat, beg, i, limP, lim);
    next := if end >= 0 then m + |pat| else beg;
  }

  /** Where the next piece ends: the next occurrence of the separator, or one
      byte on when the separator is empty. */
  method FindCut(s: seq<byte>, pat: seq<byte>, idx: nat) returns (end: int)
    requires idx < |s|
    ensures end < 0 <==> NextCut(s, pat, idx) < 0
    ensures end >= 0 ==> idx + end == NextCut(s, pat, idx)
  {
    end := 1;
    if |pat| > 0 {
      end := MemSearch(pat, s[idx..]);
      MemSearchFrom(pat, s, idx);
    }
  }

  lemma Reassociate(a: seq<seq<byte>>, x: seq<byte>, b: seq<seq<byte>>)
    ensures a + ([x] + b) == (a + [x]) + b
  {
  }

  /** The closing loop of `mrb_str_split_m`: pop empty strings off the end. */
  method PopEmpty(all: seq<seq<byte>>) returns (result: seq<seq<byte>>)
    ensures result == DropTrailingEmpty(all)
  {
    result := all;
    while |result| > 0 && result[|result| - 1] == []
      invariant DropTrailingEmpty(result) == DropTrailingEmpty(all)
      decreases |result|
    {
      result := result[..|result| - 1];
    }
  }
}
