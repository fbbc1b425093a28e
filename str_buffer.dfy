/*
 * The byte buffer of an `RString` (src/string.c): its representation
 * kinds, the reference-counted shared buffers, and the methods that edit
 * a string in place.  Each editing method first makes the buffer private
 * (`mrb_str_modify`), then works on it with the pointer loops of the C
 * code, here loops over an array.
 */
module StrBuffer {
  import opened CInt
  import opened StrBytes
  import opened StrEdit

  /** How a heap string holds its bytes: its own buffer, static data it
      must not free, a reference-counted shared buffer, or the buffer of a
      frozen string. */
  datatype StrKind = Normal | NoFree | Shared | FShared

  datatype StrError = FrozenError | IndexError | RuntimeError | ArgumentError

  /** What a bang method returns: the receiver, nil, or a raised error. */
  datatype Outcome = Self | Nil | Raise(error: StrError)

  /* ---------------------------------------------------------------- */
  /* Buffer loops                                                      */
  /* ---------------------------------------------------------------- */

  /** `malloc(capa + 1)` followed by `memcpy` of `n` bytes and the NUL sentinel. */
  method NewBuffer(src: array<byte>, n: nat, capa: nat) returns (dst: array<byte>)
    requires n <= src.Length && n <= capa
    ensures fresh(dst) && dst.Length == capa + 1
    ensures dst[..n] == src[..n] && dst[n] == NUL
  {
    dst := new byte[capa + 1];
    var i := 0;
    while i < n
      invariant 0 <= i <= n
      invariant dst[..i] == src[..i]
    {
      dst[i] := src[i];
      i := i + 1;
    }
    dst[n] := NUL;
  }

  /** `memcpy(a + at, bytes, |bytes|)`. */
  method WriteBytes(a: array<byte>, at: nat, bytes: seq<byte>)
    requires at + |bytes| <= a.Length
    modifies a
    ensures a[..] == old(a[..at]) + bytes + old(a[at + |bytes|..])
  {
    var i := 0;
    while i < |bytes|
      invariant 0 <= i <= |bytes|
      invariant forall j :: 0 <= j < a.Length ==> a[j] == if at <= j < at + i then bytes[j - at] else old(a[j])
    {
      a[at + i] := bytes[i];
      i := i + 1;
    }
    ghost var want := old(a[..at]) + bytes + old(a[at + |bytes|..]);
    assert forall j :: 0 <= j < a.Length ==> a[..][j] == want[j];
  }

  /** `memmove(a + dst, a + src, n)`: the ranges may overlap. */
  method MemMove(a: array<byte>, src: nat, dst: nat, n: nat)
    requires src + n <= a.Length && dst + n <= a.Length
    modifies a
    ensures a[dst..dst + n] == old(a[src..src + n])
    ensures forall j :: 0 <= j < a.Length && !(dst <= j < dst + n) ==> a[j] == old(a[j])
  {
    if dst <= src {
      var i := 0;
      while i < n
        invariant 0 <= i <= n
        invariant forall j :: dst <= j < dst + i ==> a[j] == old(a[j - dst + src])
        invariant forall j :: src + i <= j < src + n ==> a[j] == old(a[j])
        invariant forall j :: 0 <= j < a.Length && !(dst <= j < dst + i) ==> a[j] == old(a[j])
      {
        a[dst + i] := a[src + i];
        i := i + 1;
      }
    } else {
      var i := n;
      while i > 0
        invariant 0 <= i <= n
        invariant forall j :: dst + i <= j < dst + n ==> a[j] == old(a[j - dst + src])
        invariant forall j :: src <= j < src + i ==> a[j] == old(a[j])
        invariant forall j :: 0 <= j < a.Length && !(dst + i <= j < dst + n) ==> a[j] == old(a[j])
      {
        i := i - 1;
        a[dst + i] := a[src + i];
      }
    }
  }

  /** The two moves of `str_replace_partial` on a buffer holding `len0`
      bytes: the tail from `e` to its place after the replacement, then the
      replacement itself to `pos`. */
  method SpliceBuffer(a: array<byte>, len0: nat, pos: nat, e: nat, rep: seq<byte>)
    requires pos <= e <= len0 <= a.Length
    requires len0 - (e - pos) + |rep| <= a.Length
    modifies a
    ensures a[..len0 - (e - pos) + |rep|] == Splice(old(a[..len0]), pos, e, rep)
    ensures forall j :: len0 - (e - pos) + |rep| <= j < a.Length && len0 <= j ==> a[j] == old(a[j])
  {
    ghost var s := a[..len0];
    var newlen := len0 - (e - pos) + |rep|;
    MemMove(a, e, newlen - (len0 - e), len0 - e);
    assert a[..pos] == s[..pos];
    assert a[newlen - (len0 - e)..newlen] == s[e..];
    ghost var moved := a[..];
    WriteBytes(a, pos, rep);
    assert a[..newlen] == a[..pos] + a[pos..pos + |rep|] + a[pos + |rep|..newlen];
    assert a[pos + |rep|..newlen] == moved[pos + |rep|..newlen];
  }

  /** The `upcase!` loop over `a[lo..hi)`; reports whether a byte changed. */
  method UpcaseRange(a: array<byte>, lo: nat, hi: nat) returns (modified: bool)
    requires lo <= hi <= a.Length
    modifies a
    ensures forall k :: 0 <= k < a.Length ==> a[k] == if lo <= k < hi then ToUpper(old(a[k])) else old(a[k])
    ensures modified <==> exists k :: lo <= k < hi && IsLower(old(a[k]))
  {
    var p := lo;
    modified := false;
    while p < hi
      invariant lo <= p <= hi
      invariant forall k :: 0 <= k < a.Length ==> a[k] == if lo <= k < p then ToUpper(old(a[k])) else old(a[k])
      invariant modified <==> exists k :: lo <= k < p && IsLower(old(a[k]))
    {
      if IsLower(a[p]) {
        a[p] := ToUpper(a[p]);
        modified := true;
      }
      p := p + 1;
    }
  }

  /** The `downcase!` loop over `a[lo..hi)`; reports whether a byte changed. */
  /** The loop of `capitalize!` over the first `n` bytes of `a`: the first
      letter up-cased, the rest down-cased; the result says whether any
      byte changed. */
  method CapitalizeRange(a: array<byte>, n: nat) returns (modified: bool)
    requires 0 < n <= a.Length
    modifies a
    ensures a[..n] == Capitalize(old(a[..n]))
    ensures forall k :: n <= k < a.Length ==> a[k] == old(a[k])
    ensures modified <==> a[..n] != old(a[..n])
  {
    ghost var s := a[..n];
    modified := false;
    if IsLower(a[0]) {
      a[0] := ToUpper(a[0]);
      modified := true;
    }
    var rest := DowncaseRange(a, 1, n);
    modified := modified || rest;
    forall k | 0 <= k < n ensures a[..n][k] == Capitalize(s)[k] {
      CapitalizeAt(s, k);
    }
    CapitalizeUnchanged(s);
  }

  method DowncaseRange(a: array<byte>, lo: nat, hi: nat) returns (modified: bool)
    requires lo <= hi <= a.Length
    modifies a
    ensures forall k :: 0 <= k < a.Length ==> a[k] == if lo <= k < hi then ToLower(old(a[k])) else old(a[k])
    ensures modified <==> exists k :: lo <= k < hi && IsUpper(old(a[k]))
  {
    var p := lo;
    modified := false;
    while p < hi
      invariant lo <= p <= hi
      invariant forall k :: 0 <= k < a.Length ==> a[k] == if lo <= k < p then ToLower(old(a[k])) else old(a[k])
      invariant modified <==> exists k :: lo <= k < p && IsUpper(old(a[k]))
    {
      if IsUpper(a[p]) {
        a[p] := ToLower(a[p]);
        modified := true;
      }
      p := p + 1;
    }
  }

  /** `str_reverse(p, e)`: swaps inwards from both ends of `a[lo..hi]`, `hi` included. */
  method ReverseRange(a: array<byte>, lo: nat, hi: nat)
    requires lo <= hi < a.Length
    modifies a
    ensures a[..] == old(a[..lo]) + Reverse(old(a[lo..hi + 1])) + old(a[hi + 1..])
  {
    var p, e := lo, hi;
    while p < e
      invariant lo <= p <= e + 1 && e <= hi && p + e == lo + hi
      invariant forall k :: 0 <= k < a.Length ==>
        a[k] == if lo <= k < p || e < k <= hi then old(a[lo + hi - k]) else old(a[k])
    {
      a[p], a[e] := a[e], a[p];
      p, e := p + 1, e - 1;
    }
    ReversedSegment(a[..], old(a[..]), lo, hi);
  }

  /** A sequence that agrees with `s` outside `[lo, hi]` and holds it
      mirrored inside is `s` with that segment reversed. */
  lemma ReversedSegment(t: seq<byte>, s: seq<byte>, lo: nat, hi: nat)
    requires lo <= hi < |s| == |t|
    requires forall k :: 0 <= k < |s| ==> t[k] == if lo <= k <= hi then s[lo + hi - k] else s[k]
    ensures t == s[..lo] + Reverse(s[lo..hi + 1]) + s[hi + 1..]
  {
    var w := s[..lo] + Reverse(s[lo..hi + 1]) + s[hi + 1..];
    assert |w| == |s|;
    forall k | 0 <= k < |s| ensures t[k] == w[k] {
      assert t[k] == if lo <= k <= hi then s[lo + hi - k] else s[k];
      if k < lo {
        assert w[k] == s[..lo][k] == s[k];
      } else if k <= hi {
        assert w[k] == Reverse(s[lo..hi + 1])[k - lo] == s[lo..hi + 1][hi - k] == s[lo + hi - k];
      } else {
        assert w[k] == s[hi + 1..][k - hi - 1] == s[k];
      }
    }
  }

  /** The backward scan of `chomp!("")`: the length left once every
      trailing "\n" and "\r\n" of `a[..n]` is dropped. */
  method StripNewlinesLength(a: array<byte>, n: nat) returns (m: nat)
    requires n <= a.Length
    ensures m <= n && a[..m] == StripNewlines(a[..n])
  {
    m := n;
    while m > 0 && a[m - 1] == LF
      invariant m <= n
      invariant StripNewlines(a[..m]) == StripNewlines(a[..n])
    {
      ghost var t := a[..m];
      m := m - 1;
      if m > 0 && a[m - 1] == CR {
        m := m - 1;
      }
      assert a[..m] == (if |t| > 1 && t[|t| - 2] == CR then t[..|t| - 2] else t[..|t| - 1]);
    }
    assert a[..m] == StripNewlines(a[..m]);
  }

  /* ---------------------------------------------------------------- */
  /* Shared buffers                                                    */
  /* ---------------------------------------------------------------- */

  /** `mrb_shared_string`: a buffer several strings point into, with the
      number of strings holding it. */
  class SharedString {
    var refcnt: int
    var capa: nat
    var ptr: array<byte>
    /** The strings holding a reference. */
    ghost var owners: set<object>
    /** The record has been freed. */
    ghost var freed: bool

    /** A live record counts exactly its owners. */
    ghost predicate Valid()
      reads this
    {
      ptr.Length == capa + 1 && capa <= INT64_MAX && (!freed ==> refcnt == |owners| && refcnt >= 1)
    }

    /** The record `str_init_shared` allocates for the first sharer. */
    constructor (p: array<byte>, c: nat, owner: object)
      requires p.Length == c + 1 && c <= INT64_MAX
      ensures Valid() && !freed && refcnt == 1 && owners == {owner}
      ensures ptr == p && capa == c
    {
      refcnt := 1;
      capa := c;
      ptr := p;
      owners := {owner};
      freed := false;
    }

    /** `shared->refcnt++` in `str_init_shared`: one more string holds the buffer. */
    method Incref(owner: object)
      requires Valid() && !freed && owner !in owners
      modifies this
      ensures Valid() && !freed
      ensures owners == old(owners) + {owner} && refcnt == old(refcnt) + 1
      ensures ptr == old(ptr) && capa == old(capa)
    {
      refcnt := refcnt + 1;
      owners := owners + {owner};
    }

    /** `str_decref`: one string lets go; the last one frees buffer and record. */
    method Decref(owner: object)
      requires Valid() && !freed && owner in owners
      modifies this
      ensures Valid()
      ensures owners == old(owners) - {owner} && refcnt == old(refcnt) - 1
      ensures freed <==> refcnt == 0
      ensures ptr == old(ptr) && capa == old(capa)
    {
      refcnt := refcnt - 1;
      owners := owners - {owner};
      if refcnt == 0 {
        freed := true;
      }
    }
  }

  /* ---------------------------------------------------------------- */
  /* Strings                                                           */
  /* ---------------------------------------------------------------- */

  /** A heap `RString`: `len` bytes at `ptr`, followed by a NUL sentinel
      in a buffer the string owns. */
  class RString {
    var kind: StrKind
    var ptr: array<byte>
    var len: nat
    var capa: nat
    var shared: SharedString?
    var frozen: bool

    ghost predicate Valid()
      reads this, ptr, shared
    {
      len < ptr.Length && len <= INT64_MAX &&
      (kind == Normal ==> ptr.Length == capa + 1 && capa <= INT64_MAX && ptr[len] == NUL) &&
      (kind == Shared ==> shared != null && shared.Valid() && !shared.freed && this in shared.owners) &&
      (kind != Shared ==> shared == null)
    }

    /** The bytes of the string. */
    ghost function Contents(): seq<byte>
      reads this, ptr
      requires len <= ptr.Length
    {
      ptr[..len]
    }

    /** The case in which `str_unshare_buffer` takes the shared buffer over. */
    ghost predicate SoleSharer()
      reads this, shared
    {
      kind == Shared && shared != null && shared.refcnt == 1 && ptr == shared.ptr
    }

    /**
     * `mrb_str_modify`: raises FrozenError on a frozen string; otherwise
     * makes the buffer private.  A string that is the last holder of a
     * shared buffer takes it over; any other shared, static or frozen-
     * shared string gets a fresh copy and lets go of the old buffer.
     */
    method Modify() returns (ok: bool)
      requires Valid()
      modifies this, ptr, shared
      ensures Valid()
      ensures ok <==> !old(frozen)
      ensures !ok ==> unchanged(this) && unchanged(ptr)
      ensures ok ==> kind == Normal && frozen == old(frozen) && len == old(len)
      ensures Contents() == old(Contents())
      ensures old(kind) == Normal ==> ptr == old(ptr) && capa == old(capa)
      ensures ok && old(SoleSharer()) ==> ptr == old(ptr) && capa == old(shared.capa) && old(shared).freed
      ensures ok && old(kind) != Normal && !old(SoleSharer()) ==>
        fresh(ptr) && capa == old(len) && unchanged(old(ptr))
      ensures ok && old(kind) == Shared && !old(SoleSharer()) ==>
        old(shared).owners == old(shared.owners) - {this} && old(shared).refcnt == old(shared.refcnt) - 1 &&
        old(shared).Valid() && (old(shared).freed <==> old(shared).refcnt == 0)
    {
      if frozen {
        return false;
      }
      ok := true;
      if kind == Shared {
        var sh := shared;
        if sh.refcnt == 1 && ptr == sh.ptr {
          capa := sh.capa;
          ptr[len] := NUL;
          kind := Normal;
          sh.freed := true;
          shared := null;
        } else {
          var p := NewBuffer(ptr, len, len);
          ptr := p;
          capa := len;
          kind := Normal;
          shared := null;
          sh.Decref(this);
        }
      } else if kind == NoFree || kind == FShared {
        var p := NewBuffer(ptr, len, len);
        ptr := p;
        capa := len;
        kind := Normal;
      }
    }

    /** `resize_capa` on a heap buffer: `realloc` to `capacity + 1` bytes. */
    method ResizeCapa(capacity: nat)
      requires Valid() && kind == Normal && len <= capacity <= INT64_MAX
      modifies this
      ensures Valid() && kind == Normal && fresh(ptr)
      ensures capa == capacity && len == old(len) && frozen == old(frozen)
      ensures Contents() == old(Contents())
    {
      var p := NewBuffer(ptr, len, capacity);
      ptr := p;
      capa := capacity;
    }

    /**
     * `str_share(orig, s)` with this string as `orig`: `s` is made to hold
     * the same bytes without copying.  A private buffer is first trimmed to
     * its length and turned into a shared one both strings hold.
     */
    method ShareInto(s: RString)
      requires Valid() && s != this
      requires kind == Shared ==> s !in shared.owners
      modifies this, shared, s
      ensures Valid() && s.Valid()
      ensures ptr == old(ptr) || fresh(ptr)
      ensures s.ptr == ptr && s.len == len && len == old(len)
      ensures Contents() == old(Contents()) && s.Contents() == Contents()
      ensures kind == (if old(kind) == Normal then Shared else old(kind)) && s.kind == kind
      ensures frozen == old(frozen) && s.frozen == old(s.frozen)
      ensures old(kind) == Normal ==> fresh(shared) && s.shared == shared && shared.owners == {s, this} && shared.refcnt == 2
      ensures old(kind) == Shared ==>
        shared == old(shared) && s.shared == shared &&
        shared.owners == old(shared.owners) + {s} && shared.refcnt == old(shared.refcnt) + 1
    {
      if kind == NoFree || kind == FShared {
        s.kind := kind;
        s.ptr := ptr;
        s.len := len;
        s.shared := null;
      } else if kind == Shared {
        shared.Incref(s);
        s.kind := Shared;
        s.ptr := ptr;
        s.len := len;
        s.shared := shared;
      } else {
        if capa > len {
          ResizeCapa(len);
        }
        var sh := new SharedString(ptr, capa, s);
        s.kind := Shared;
        s.ptr := ptr;
        s.len := len;
        s.shared := sh;
        sh.Incref(this);
        kind := Shared;
        shared := sh;
      }
    }

    /**
     * `mrb_str_cat`: appends `bytes`.  The capacity, when too small, is
     * doubled until it exceeds the new length; a length or capacity beyond
     * the 64-bit range raises ArgumentError.
     */
    method Cat(bytes: seq<byte>) returns (r: Outcome)
      requires Valid() && |bytes| <= INT64_MAX
      modifies this, ptr, shared
      ensures Valid()
      ensures old(kind) != Normal && !old(SoleSharer()) ==> unchanged(old(ptr))
      ensures r == Self || r == Raise(FrozenError) || r == Raise(ArgumentError)
      ensures bytes == [] ==> r == Self && unchanged(this)
      ensures bytes != [] ==> (r == Raise(FrozenError) <==> old(frozen))
      ensures r == Raise(ArgumentError) ==> old(len) + |bytes| > INT64_MAX / 2
      ensures bytes != [] && !old(frozen) && old(len) + |bytes| <= INT64_MAX / 2 ==> r == Self
      ensures r == Self ==> Contents() == old(Contents()) + bytes
      ensures r == Self && bytes != [] ==> kind == Normal && capa > len
      ensures r != Self ==> Contents() == old(Contents())
    {
      if |bytes| == 0 {
        return Self;
      }
      var ok := Modify();
      if !ok {
        return Raise(FrozenError);
      }
      var total := len + |bytes|;
      if !IsInt64(total) {
        return Raise(ArgumentError);
      }
      if capa <= total {
        var c := if capa == 0 then 1 else capa;
        while c <= total
          invariant 1 <= c <= INT64_MAX
          invariant Double(c, total) == GrowCapa(capa, total)
          decreases total - c
        {
          if !IsInt64(c * 2) {
            GrowCapaBounds(capa, total);
            return Raise(ArgumentError);
          }
          c := c * 2;
        }
        ResizeCapa(c);
      }
      ghost var before := Contents();
      WriteBytes(ptr, len, bytes);
      assert ptr[..len + |bytes|] == before + bytes;
      len := total;
      ptr[total] := NUL;
      r := Self;
    }

    /**
     * `str_replace_partial`: replaces the bytes `[pos, end)` (`end`
     * clipped to the length) by `rep` (nil counts as empty).  A `pos`
     * outside the string raises IndexError, a new length beyond the 64-bit
     * range RuntimeError.  The buffer grows to exactly the new length when
     * it must, and shrinks to it when 256 or more bytes were removed.
     */
    method ReplacePartial(pos: int, end: int, rep: Option<seq<byte>>) returns (r: Outcome)
      requires Valid() && pos <= end
      requires rep.Some? ==> |rep.value| <= INT64_MAX
      modifies this, ptr, shared
      ensures Valid()
      ensures old(kind) != Normal && !old(SoleSharer()) ==> unchanged(old(ptr))
      ensures pos < 0 || pos > old(len) ==> r == Raise(IndexError) && unchanged(this)
      ensures 0 <= pos <= old(len) && !IsInt64(RepLen(rep) + old(len) - (Clip(end, old(len)) - pos)) ==>
        r == Raise(RuntimeError) && unchanged(this)
      ensures r == Raise(FrozenError) <==>
        0 <= pos <= old(len) && IsInt64(RepLen(rep) + old(len) - (Clip(end, old(len)) - pos)) && old(frozen)
      ensures r == Self || r == Raise(IndexError) || r == Raise(RuntimeError) || r == Raise(FrozenError)
      ensures r == Self ==>
        0 <= pos && Contents() == Splice(old(Contents()), pos, Clip(end, old(len)), RepBytes(rep))
      ensures r != Self ==> Contents() == old(Contents())
    {
      var len0 := len;
      var e := if end > len0 then len0 else end;
      if pos < 0 || pos > len0 {
        return Raise(IndexError);
      }
      var replen := if rep.None? then 0 else |rep.value|;
      var newlen := replen + (len0 - (e - pos));
      if !IsInt64(newlen) {
        return Raise(RuntimeError);
      }
      var ok := Modify();
      if !ok {
        return Raise(FrozenError);
      }
      SpliceOwned(pos, e, RepBytes(rep));
      r := Self;
    }

    /** The part of `mrb_str_replace_partial` after `mrb_str_modify`: grow
        the buffer if needed, move the tail, copy the replacement in, and
        give back memory when the string shrank by 256 bytes or more. */
    method SpliceOwned(pos: nat, e: nat, rep: seq<byte>)
      requires Valid() && kind == Normal && pos <= e <= len
      requires IsInt64(|rep| + (len - (e - pos)))
      modifies this, ptr
      ensures Valid() && kind == Normal && frozen == old(frozen) && shared == old(shared)
      ensures Contents() == Splice(old(Contents()), pos, e, rep)
    {
      var len0 := len;
      var newlen := |rep| + (len0 - (e - pos));
      if len0 < newlen {
        ResizeCapa(newlen);
      }
      SpliceBuffer(ptr, len0, pos, e, rep);
      len := newlen;
      ptr[newlen] := NUL;
      if len0 - newlen >= 256 {
        ResizeCapa(newlen);
      }
    }

    /** `upcase!`: nil when nothing changed. */
    method UpcaseBang() returns (r: Outcome)
      requires Valid()
      modifies this, ptr, shared
      ensures Valid()
      ensures old(kind) != Normal && !old(SoleSharer()) ==> unchanged(old(ptr))
      ensures old(frozen) ==> r == Raise(FrozenError) && Contents() == old(Contents())
      ensures !old(frozen) ==> kind == Normal && Contents() == Upcase(old(Contents()))
      ensures !old(frozen) ==> (r == Self || r == Nil) && (r == Nil <==> Contents() == old(Contents()))
    {
      var ok := Modify();
      if !ok {
        return Raise(FrozenError);
      }
      ghost var s := Contents();
      var modified := UpcaseRange(ptr, 0, len);
      assert ptr[..len] == Upcase(s) by {
        assert forall k :: 0 <= k < len ==> ptr[..len][k] == Upcase(s)[k];
      }
      UpcaseUnchanged(s);
      r := if modified then Self else Nil;
    }

    /** `downcase!`: nil when nothing changed. */
    method DowncaseBang() returns (r: Outcome)
      requires Valid()
      modifies this, ptr, shared
      ensures Valid()
      ensures old(kind) != Normal && !old(SoleSharer()) ==> unchanged(old(ptr))
      ensures old(frozen) ==> r == Raise(FrozenError) && Contents() == old(Contents())
      ensures !old(frozen) ==> kind == Normal && Contents() == Downcase(old(Contents()))
      ensures !old(frozen) ==> (r == Self || r == Nil) && (r == Nil <==> Contents() == old(Contents()))
    {
      var ok := Modify();
      if !ok {
        return Raise(FrozenError);
      }
      ghost var s := Contents();
      var modified := DowncaseRange(ptr, 0, len);
      assert ptr[..len] == Downcase(s) by {
        assert forall k :: 0 <= k < len ==> ptr[..len][k] == Downcase(s)[k];
      }
      DowncaseUnchanged(s);
      r := if modified then Self else Nil;
    }

    /** `capitalize!`: nil for the empty string and when nothing changed. */
    method CapitalizeBang() returns (r: Outcome)
      requires Valid()
      modifies this, ptr, shared
      ensures Valid()
      ensures old(kind) != Normal && !old(SoleSharer()) ==> unchanged(old(ptr))
      ensures old(frozen) ==> r == Raise(FrozenError) && Contents() == old(Contents())
      ensures !old(frozen) ==> kind == Normal && Contents() == Capitalize(old(Contents()))
      ensures !old(frozen) ==> (r == Self || r == Nil) && (r == Nil <==> Contents() == old(Contents()))
    {
      var ok := Modify();
      if !ok {
        return Raise(FrozenError);
      }
      if len == 0 {
        return Nil;
      }
      var modified := CapitalizeRange(ptr, len);
      r := if modified then Self else Nil;
    }

    /** The default `chomp!` on a non-empty private string. */
    method SmartChompBang() returns (r: Outcome)
      requires Valid() && kind == Normal && len > 0
      modifies this, ptr
      ensures Valid() && kind == Normal && frozen == old(frozen)
      ensures Contents() == SmartChomp(old(Contents()))
      ensures (r == Self || r == Nil) && (r == Nil <==> Contents() == old(Contents()))
    {
      ghost var s := Contents();
      if ptr[len - 1] == LF {
        len := len - 1;
        if len > 0 && ptr[len - 1] == CR {
          len := len - 1;
        }
      } else if ptr[len - 1] == CR {
        len := len - 1;
      } else {
        return Nil;
      }
      ptr[len] := NUL;
      assert Contents() == s[..len];
      r := Self;
    }

    /** `chomp!("")` on a non-empty private string. */
    method StripNewlinesBang() returns (r: Outcome)
      requires Valid() && kind == Normal && len > 0
      modifies this, ptr
      ensures Valid() && kind == Normal && frozen == old(frozen) && ptr == old(ptr)
      ensures Contents() == StripNewlines(old(Contents()))
      ensures (r == Self || r == Nil) && (r == Nil <==> Contents() == old(Contents()))
    {
      var m := StripNewlinesLength(ptr, len);
      if m < len {
        len := m;
        ptr[m] := NUL;
        return Self;
      }
      r := Nil;
    }

    /** `chomp!(sep)` for a separator other than "" and "\n", on a private string. */
    method SuffixChompBang(sep: seq<byte>) returns (r: Outcome)
      requires Valid() && kind == Normal && sep != [] && sep != [LF]
      modifies this, ptr
      ensures Valid() && kind == Normal && frozen == old(frozen) && ptr == old(ptr)
      ensures Contents() == Chomp(old(Contents()), Some(sep))
      ensures (r == Self || r == Nil) && (r == Nil <==> Contents() == old(Contents()))
    {
      ghost var s := Contents();
      var rslen := |sep|;
      if rslen > len {
        return Nil;
      }
      var newline := sep[rslen - 1];
      if ptr[len - 1] == newline && (rslen <= 1 || ptr[len - rslen..len] == sep) {
        assert EndsWith(s, sep) by {
          if rslen == 1 {
            assert s[len - 1..] == [newline];
          } else {
            assert s[len - rslen..] == ptr[len - rslen..len];
          }
        }
        len := len - rslen;
        ptr[len] := NUL;
        assert Contents() == s[..len];
        return Self;
      }
      assert !EndsWith(s, sep);
      r := Nil;
    }

    /**
     * `chomp!` with an optional separator: removes the default line end,
     * every trailing newline for "", or the separator once; nil when
     * nothing was removed.
     */
    method ChompBang(rs: Option<seq<byte>>) returns (r: Outcome)
      requires Valid()
      modifies this, ptr, shared
      ensures Valid()
      ensures old(kind) != Normal && !old(SoleSharer()) ==> unchanged(old(ptr))
      ensures old(frozen) ==> r == Raise(FrozenError) && Contents() == old(Contents())
      ensures !old(frozen) ==> kind == Normal && Contents() == Chomp(old(Contents()), rs)
      ensures !old(frozen) ==> (r == Self || r == Nil) && (r == Nil <==> Contents() == old(Contents()))
    {
      var ok := Modify();
      if !ok {
        return Raise(FrozenError);
      }
      if rs.None? {
        if len == 0 {
          return Nil;
        }
        r := SmartChompBang();
        return;
      }
      var sep := rs.value;
      if len == 0 {
        return Nil;
      }
      if |sep| == 0 {
        r := StripNewlinesBang();
        return;
      }
      if |sep| > len {
        assert !EndsWith(Contents(), sep);
        return Nil;
      }
      if |sep| == 1 && sep[0] == LF {
        assert sep == [LF];
        r := SmartChompBang();
        return;
      }
      r := SuffixChompBang(sep);
    }

    /** `chop!`: drops the last byte (a trailing "\r\n" as one); nil for
        the empty string. */
    method ChopBang() returns (r: Outcome)
      requires Valid()
      modifies this, ptr, shared
      ensures Valid()
      ensures old(kind) != Normal && !old(SoleSharer()) ==> unchanged(old(ptr))
      ensures old(frozen) ==> r == Raise(FrozenError) && Contents() == old(Contents())
      ensures !old(frozen) ==> kind == Normal && Contents() == Chop(old(Contents()))
      ensures !old(frozen) ==> (r == Self || r == Nil) && (r == Nil <==> old(len) == 0)
    {
      var ok := Modify();
      if !ok {
        return Raise(FrozenError);
      }
      if len == 0 {
        return Nil;
      }
      ghost var s := Contents();
      var n := len - 1;
      if ptr[n] == LF {
        if n > 0 && ptr[n - 1] == CR {
          n := n - 1;
        }
      }
      len := n;
      ptr[n] := NUL;
      assert Contents() == s[..n];
      r := Self;
    }

    /** `reverse!`: strings of fewer than two bytes are returned as they are. */
    method ReverseBang() returns (r: Outcome)
      requires Valid()
      modifies this, ptr, shared
      ensures Valid()
      ensures old(kind) != Normal && !old(SoleSharer()) ==> unchanged(old(ptr))
      ensures old(frozen) && old(len) > 1 ==> r == Raise(FrozenError) && Contents() == old(Contents())
      ensures !(old(frozen) && old(len) > 1) ==> r == Self && Contents() == Reverse(old(Contents()))
    {
      if len > 1 {
        var ok := Modify();
        if !ok {
          return Raise(FrozenError);
        }
        ghost var s := Contents();
        ReverseRange(ptr, 0, len - 1);
        assert ptr[..len] == Reverse(s);
      } else {
        assert Contents() == Reverse(Contents());
      }
      r := Self;
    }
  }

  function Clip(end: int, len: int): int { if end > len then len else end }

  function RepLen(rep: Option<seq<byte>>): nat { if rep.None? then 0 else |rep.value| }

  function RepBytes(rep: Option<seq<byte>>): seq<byte> { if rep.None? then [] else rep.value }

  /**
   * Copy-on-write: once `orig` shares its buffer with `s`, the
   * `mrb_str_modify` that heads every editing method gives `orig` a
   * private copy, so upcasing it leaves `s` and its bytes alone.
   */
  method CopyOnWrite(orig: RString, s: RString) returns (r: Outcome)
    requires orig.Valid() && orig != s && !orig.frozen
    requires orig.kind == Normal || orig.kind == Shared
    requires orig.kind == Shared ==> s !in orig.shared.owners
    modifies orig, orig.ptr, orig.shared, s
    ensures s.Valid() && orig.Valid()
    ensures s.kind == Shared
    ensures old(orig.kind) == Normal ==> s.shared.refcnt == 1
    ensures old(orig.kind) == Shared ==> s.shared == old(orig.shared) && s.shared.refcnt == old(orig.shared.refcnt)
    ensures s.Contents() == old(orig.Contents())
    ensures orig.Contents() == Upcase(old(orig.Contents()))
  {
    orig.ShareInto(s);
    var ok := orig.Modify();
    r := orig.UpcaseBang();
  }
}
