/*
 * The mruby incremental (and optionally generational) mark-and-sweep
 * collector: one `Collector` object holds the fields of `mrb_gc`, and its
 * methods are the collector's own functions.  Objects live in the slots of
 * heap pages (module GcHeap); the roots outside the collector (globals,
 * built-in classes, the current exception, the VM contexts and the
 * pre-allocated error objects) are passed in as a RootSet.
 */
module Gc {
  import opened GcHeap
  import opened GcState
  import opened GcSweep
  import opened GcMark

  /** `MRB_GC_STATE_ROOT`, `MRB_GC_STATE_MARK`, `MRB_GC_STATE_SWEEP`. */
  datatype Phase = PhaseRoot | PhaseMark | PhaseSweep

  /** Roots outside `mrb_gc`, in the order the root scan visits them: global
      variables, the built-in classes and `top_self`, the pending exception,
      the references held by the VM contexts; and the pre-allocated error
      objects the final mark clears. */
  datatype RootSet = RootSet(globals: seq<ObjRef>, builtins: seq<ObjRef>, exc: ObjRef,
                             contexts: seq<ObjRef>, errors: seq<ObjRef>)

  /** The roots are references into the heap; the pre-allocated errors are
      heap objects, never read-only ones. */
  predicate RootsIn(roots: RootSet, n: nat) {
    && RefsIn(roots.globals, n) && RefsIn(roots.builtins, n) && WfRef(roots.exc, n)
    && RefsIn(roots.contexts, n) && RefsIn(roots.errors, n)
    && (forall i | 0 <= i < |roots.errors| :: !roots.errors[i].Rom?)
  }

  /** What `root_scan_phase` marks: the global variables (among them the
      registered objects), the arena, the built-in classes and `top_self`,
      the pending exception and the contexts. */
  function ScanRoots(roots: RootSet, arena: seq<ObjRef>, registered: seq<ObjRef>): seq<ObjRef> {
    (roots.globals + registered) + arena + roots.builtins + [roots.exc] + roots.contexts
  }

  /** What `final_marking_phase` marks again before the sweep, the error
      objects it clears included. */
  function FinalRoots(roots: RootSet, arena: seq<ObjRef>, registered: seq<ObjRef>): seq<ObjRef> {
    arena + (roots.globals + registered) + roots.contexts + [roots.exc] + roots.errors
  }

  /** `size_t` is 64 bits wide. */
  const SIZE_MOD: nat := 0x1_0000_0000_0000_0000
  const SIZE_MAX: nat := SIZE_MOD - 1
  const GC_STEP_SIZE: nat := 1024
  const DEFAULT_GC_INTERVAL_RATIO: int := 200
  const DEFAULT_GC_STEP_RATIO: int := 200
  const MAJOR_GC_INC_RATIO: nat := 120
  const MAJOR_GC_TOOMANY: nat := 10000
  const MRB_GC_ARENA_SIZE: nat := 100

  /** Conversion of a C `int` into `size_t` (arithmetic modulo 2^64). */
  function SizeT(x: int): (r: nat)
    ensures r < SIZE_MOD
    ensures 0 <= x < SIZE_MOD ==> r == x
  {
    x % SIZE_MOD
  }

  /** Conversion of a 64-bit `mrb_int` into a 32-bit C `int`, keeping the
      low 32 bits as a two's-complement value. */
  function Int32(x: int): (r: int)
    ensures -0x8000_0000 <= r < 0x8000_0000
    ensures -0x8000_0000 <= x < 0x8000_0000 ==> r == x
    ensures (r - x) % 0x1_0000_0000 == 0
  {
    (x + 0x8000_0000) % 0x1_0000_0000 - 0x8000_0000
  }

  function Max(a: nat, b: nat): nat {
    if a < b then b else a
  }

  /** `threshold` after a cycle: `live_after_mark/100*interval_ratio`, the
      `int` ratio converted to `size_t`. */
  function IntervalThreshold(lam: nat, ratio: int): nat {
    SizeT((lam / 100) * ratio)
  }

  /** `oldgen_threshold` after a major cycle: `live_after_mark/100*120`. */
  function OldgenThreshold(lam: nat): nat {
    SizeT(lam / 100 * MAJOR_GC_INC_RATIO)
  }

  datatype Option<T> = None | Some(value: T)

  /** The class facts `mrb_obj_alloc` reads: the class object's own type
      tag, the instance type recorded in its flags, and whether it is
      `Object`. */
  datatype ClassInfo = ClassInfo(tt: VType, instanceTt: VType, isObjectClass: bool)

  /** The three `TypeError`s `mrb_obj_alloc` raises. */
  datatype AllocError = NotAClass | InstanceTypeMismatch | ImmediateType

  datatype Alloc = Allocated(obj: ObjRef) | AllocFailed(err: AllocError)

  /** A class object: a class, singleton class, module or environment. */
  predicate IsClassKind(t: VType) {
    t.ClassTag? || t.SClassTag? || t.ModuleTag? || t.EnvTag?
  }

  /** The instance types a class admits: its own instance type, the kinds
      that are always allowed, and the C-pointer kinds under `Object`. */
  predicate InstanceTypeOk(ttype: VType, info: ClassInfo) {
    || ttype.SClassTag? || ttype.IClassTag? || ttype.EnvTag? || ttype.BigintTag?
    || ttype == info.instanceTt
    || (info.isObjectClass && (ttype.CptrTag? || ttype.CdataTag? || ttype.IstructTag?))
  }

  /** The checks `mrb_obj_alloc` makes before it allocates, in order. */
  function AllocCheck(ttype: VType, cls: ObjRef, info: ClassInfo): (r: Option<AllocError>)
    ensures r.None? <==> (cls.Nil? || (IsClassKind(info.tt) && InstanceTypeOk(ttype, info))) && !ttype.AtOrBelowFree()
    ensures r == Some(NotAClass) <==> !cls.Nil? && !IsClassKind(info.tt)
    ensures r == Some(ImmediateType) ==> ttype.AtOrBelowFree()
  {
    if !cls.Nil? && !IsClassKind(info.tt) then Some(NotAClass)
    else if !cls.Nil? && !InstanceTypeOk(ttype, info) then Some(InstanceTypeMismatch)
    else if ttype.AtOrBelowFree() then Some(ImmediateType)
    else None
  }

  /** The sequence without the first occurrence of `x`. */
  function RemoveFirst<T(==)>(s: seq<T>, x: T): (r: seq<T>)
    ensures x !in s ==> r == s
    ensures x in s ==> |r| == |s| - 1 && multiset(r) == multiset(s) - multiset{x}
  {
    if s == [] then []
    else if s[0] == x then
      assert s == [s[0]] + s[1..];
      s[1..]
    else
      assert s == [s[0]] + s[1..];
      [s[0]] + RemoveFirst(s[1..], x)
  }

  /** A prefix free of `x` is kept in front. */
  lemma {:induction false} RemoveFirstPrefix<T>(p: seq<T>, q: seq<T>, x: T)
    requires x !in p
    ensures RemoveFirst(p + q, x) == p + RemoveFirst(q, x)
  {
    if p != [] {
      assert (p + q)[0] == p[0] && (p + q)[1..] == p[1..] + q;
      RemoveFirstPrefix(p[1..], q, x);
      assert [p[0]] + (p[1..] + RemoveFirst(q, x)) == p + RemoveFirst(q, x);
    } else {
      assert p + q == q;
    }
  }

  /** Removing the first occurrence at a known index `i`. */
  lemma RemoveFirstAt<T>(s: seq<T>, x: T, i: nat)
    requires i < |s| && s[i] == x && x !in s[..i]
    ensures RemoveFirst(s, x) == s[..i] + s[i + 1..]
  {
    var q := s[i..];
    assert s == s[..i] + q;
    RemoveFirstPrefix(s[..i], q, x);
    assert q[1..] == s[i + 1..];
  }

  /** `mrb_gc_unregister` undoes `mrb_gc_register` of an object registered
      once. */
  lemma {:induction false} RemoveFirstAppended<T>(s: seq<T>, x: T)
    requires x !in s
    ensures RemoveFirst(s + [x], x) == s
  {
    RemoveFirstAt(s + [x], x, |s|);
    assert (s + [x])[..|s|] == s;
  }

  lemma RefsInRemove(rs: seq<ObjRef>, i: nat, n: nat)
    requires RefsIn(rs, n) && i < |rs|
    ensures RefsIn(rs[..i] + rs[i + 1..], n)
  {
    var r := rs[..i] + rs[i + 1..];
    forall k | 0 <= k < |r| ensures WfRef(r[k], n) {
      if k < i { assert r[k] == rs[k]; } else { assert r[k] == rs[k + 1]; }
    }
  }

  class Collector {
    var state: Phase
    var currentWhitePart: Color
    /** Every page ever allocated, by page number; `heaps` links those still in use. */
    var pages: seq<Page>
    var heaps: seq<nat>
    var freeHeaps: seq<nat>
    /** Position of the sweep cursor: the number of pages of `heaps` already swept. */
    var sweepPos: nat
    var grayList: seq<ObjRef>
    var atomicGrayList: seq<ObjRef>
    var live: nat
    var liveAfterMark: nat
    var threshold: nat
    var oldgenThreshold: nat
    var intervalRatio: int
    var stepRatio: int
    var generational: bool
    var full: bool
    var disabled: bool
    var iterating: bool
    var arena: seq<ObjRef>
    var arenaCapa: nat
    /** The contents of the `_gc_root_` array that `mrb_gc_register` fills. */
    var registered: seq<ObjRef>

    ghost predicate Valid()
      reads this`pages, this`heaps, this`freeHeaps, this`sweepPos, this`currentWhitePart, this`live,
            this`liveAfterMark, this`state, this`grayList, this`atomicGrayList, this`arena, this`arenaCapa,
            this`registered
    {
      CollectorWf(pages, heaps, freeHeaps, sweepPos, currentWhitePart, live, liveAfterMark, state == PhaseSweep,
                  grayList, atomicGrayList, arena, arenaCapa, registered)
    }

    /** The marker's invariants on the current heap and gray lists. */
    ghost predicate Marking()
      reads this`pages, this`grayList, this`atomicGrayList
    {
      MarkInv(pages, grayList, atomicGrayList)
    }

    /** What is left for the marker to do: every white slot may still turn
        gray, and every gray list entry is still to be scanned. */
    ghost function MarkWork(): nat
      reads this`pages, this`grayList
    {
      2 * PageTally(pages, WhiteT) + |grayList|
    }

    predicate IsMinor()
      reads this`generational, this`full
    {
      generational && !full
    }

    predicate IsMajor()
      reads this`generational, this`full
    {
      generational && full
    }

    // ------------------------------------------------------------ pages

    /** `add_heap`: a fresh page, every slot free and on its free list, linked
        at the front of both `heaps` and `free_heaps`. */
    method AddHeap()
      requires Valid()
      modifies this`pages, this`heaps, this`freeHeaps, this`sweepPos
      ensures Valid()
      ensures pages == old(pages) + [FreshPage()]
      ensures heaps == [old(|pages|)] + old(heaps) && freeHeaps == [old(|pages|)] + old(freeHeaps)
      ensures sweepPos == if old(sweepPos) == 0 then 0 else old(sweepPos) + 1
    {
      AddPageLists(pages, heaps, freeHeaps, sweepPos);
      AddPageCounts(pages, currentWhitePart, live, liveAfterMark, state == PhaseSweep);
      RefsWfGrows(|pages|, |pages| + 1, grayList, atomicGrayList, arena, arenaCapa, registered);
      var id := |pages|;
      pages, heaps, freeHeaps := pages + [FreshPage()], [id] + heaps, [id] + freeHeaps;
      if sweepPos != 0 {
        sweepPos := sweepPos + 1;
      }
    }

    /** `mrb_gc_init`: white A current, one page, default ratios, and
        generational mode with a full (major) cycle first. */
    constructor ()
      ensures Valid()
      ensures state == PhaseRoot && currentWhitePart == WHITE_A
      ensures pages == [FreshPage()] && heaps == [0] && freeHeaps == [0]
      ensures grayList == [] && atomicGrayList == [] && arena == [] && arenaCapa == MRB_GC_ARENA_SIZE && registered == []
      ensures live == 0 && liveAfterMark == 0 && threshold == 0 && oldgenThreshold == 0
      ensures intervalRatio == DEFAULT_GC_INTERVAL_RATIO && stepRatio == DEFAULT_GC_STEP_RATIO
      ensures generational && full && !disabled && !iterating
    {
      state := PhaseRoot;
      currentWhitePart := WHITE_A;
      pages := [FreshPage()];
      heaps := [0];
      freeHeaps := [0];
      sweepPos := 0;
      grayList := [];
      atomicGrayList := [];
      live := 0;
      liveAfterMark := 0;
      threshold := 0;
      oldgenThreshold := 0;
      intervalRatio := DEFAULT_GC_INTERVAL_RATIO;
      stepRatio := DEFAULT_GC_STEP_RATIO;
      generational := true;
      full := true;
      disabled := false;
      iterating := false;
      arena := [];
      arenaCapa := MRB_GC_ARENA_SIZE;
      registered := [];
      new;
      InitialWf(WHITE_A, MRB_GC_ARENA_SIZE);
    }

    // ------------------------------------------------------------ marking

    /** Paint a slot and keep the collector's counters consistent: painting
        never changes which slots are allocated, and a colour that is not the
        other white never makes a slot dead. */
    method PaintSlot(r: ObjRef, c: Color)
      requires Valid() && IsSlotRef(pages, r) && HeapColor(c)
      requires c != OtherWhite(currentWhitePart) || SlotAt(pages, r).color == c
      modifies this`pages
      ensures Valid()
      ensures pages == old(Paint(pages, r, c))
      ensures PageTally(pages, WhiteT) + Bit(IsWhite(old(SlotAt(pages, r).color))) == old(PageTally(pages, WhiteT)) + Bit(IsWhite(c))
    {
      PaintLists(pages, r, c, heaps, freeHeaps, sweepPos);
      PaintCounts(pages, r, c, currentWhitePart, live, liveAfterMark, state == PhaseSweep);
      pages := Paint(pages, r, c);
    }

    /** `add_gray_list`: paint the object gray and push it on the gray list. */
    method AddGrayList(r: ObjRef)
      requires Valid() && IsSlotRef(pages, r)
      modifies this`pages, this`grayList
      ensures Valid()
      ensures pages == old(Paint(pages, r, GRAY)) && grayList == [r] + old(grayList)
      ensures IsWhite(old(SlotAt(pages, r).color)) ==> MarkWork() + 1 == old(MarkWork())
    {
      OtherWhiteFlips(currentWhitePart);
      PaintSlot(r, GRAY);
      PushGray(|pages|, r, grayList, atomicGrayList, arena, arenaCapa, registered);
      grayList := [r] + grayList;
    }

    /** `mrb_gc_mark`: a white heap object turns gray and is queued; null,
        read-only (RED) and already marked objects are left alone. */
    method Mark(r: ObjRef)
      requires Valid() && WfRef(r, |pages|)
      modifies this`pages, this`grayList
      ensures Valid()
      ensures pages == MarkedHeap(old(pages), r) && grayList == MarkedList(old(pages), old(grayList), r)
      ensures |pages| == old(|pages|)
      ensures MarkWork() + Bit(WillMark(old(pages), r)) == old(MarkWork())
      ensures Shaded(pages, r) && ShadedKept(old(pages), pages)
      ensures old(Marking()) ==> Marking()
    {
      if Marking() {
        MarkStep(pages, grayList, atomicGrayList, r, Nil);
      }
      MarkStepShape(pages, r, r);
      if r.Nil? {
        return;
      }
      var c := ColorOf(pages, r);
      if !IsWhite(c) {
        return;
      }
      if IsRed(c) {
        return;
      }
      AddGrayList(r);
    }

    /** `mrb_gc_mark` on each reference in turn, as the root scan does for
        the arena, the globals and the built-in classes, and as
        `gc_mark_children` does for an object's references.  Marking only
        turns white objects gray, and it keeps the marker's invariants
        whichever object is exempt. */
    method MarkAll(rs: seq<ObjRef>, ghost x: ObjRef)
      requires Valid() && RefsIn(rs, |pages|)
      modifies this`pages, this`grayList
      ensures Valid()
      ensures Grayed(old(pages), pages) && |pages| == old(|pages|) && ShadedKept(old(pages), pages)
      ensures AllShaded(pages, rs)
      ensures MarkWork() <= old(MarkWork())
      ensures old(MarkInvExcept(pages, grayList, atomicGrayList, x)) ==> MarkInvExcept(pages, grayList, atomicGrayList, x)
    {
      ghost var inv := MarkInvExcept(pages, grayList, atomicGrayList, x);
      ghost var ps0, gl0 := pages, grayList;
      GrayedRefl(pages);
      var i := 0;
      while i < |rs|
        invariant 0 <= i <= |rs| && |pages| == |ps0|
        invariant Valid() && Grayed(ps0, pages)
        invariant forall k | 0 <= k < i :: Shaded(pages, rs[k])
        invariant MarkWork() <= old(MarkWork())
        invariant inv ==> MarkInvExcept(pages, grayList, atomicGrayList, x)
      {
        ghost var ps, gl := pages, grayList;
        Mark(rs[i]);
        MarkLoopStep(ps0, ps, gl, atomicGrayList, rs, i, x, inv);
        i := i + 1;
      }
      GrayedShadedKept(ps0, pages);
    }

    /** `gc_mark_children`: paint the object black and mark its class and
        every object it refers to.  The result is the object's child count
        (taken here as the number of payload references). */
    method MarkChildren(r: ObjRef) returns (weight: nat)
      requires Valid() && IsSlotRef(pages, r)
      modifies this`pages, this`grayList
      ensures Valid()
      ensures weight == |old(SlotAt(pages, r)).children|
      ensures |pages| == old(|pages|)
      ensures IsSlotRef(pages, r) && SlotAt(pages, r).color == BLACK
      ensures Succ(pages, r) == old(Succ(pages, r)) && SuccShaded(pages, r)
      ensures ShadedKept(old(pages), pages)
      ensures MarkWork() <= old(MarkWork())
      ensures old(Scanning(pages, grayList, atomicGrayList, r)) ==> Marking()
    {
      ghost var ps0, gl0 := pages, grayList;
      ghost var inv := Scanning(pages, grayList, atomicGrayList, r);
      ScanStart(pages, grayList, atomicGrayList, r, inv);
      OtherWhiteFlips(currentWhitePart);
      PaintSlot(r, BLACK);
      var s := SlotAt(pages, r);
      var succ := [s.cls] + s.children;
      MarkAll(succ, r);
      ScanDone(ps0, pages, gl0, grayList, atomicGrayList, r, inv);
      weight := |s.children|;
    }

    /** `gc_mark_gray_list`: scan gray objects until the gray list is empty. */
    method MarkGrayList()
      requires Valid()
      modifies this`pages, this`grayList
      ensures Valid() && |pages| == old(|pages|)
      ensures grayList == []
      ensures ShadedKept(old(pages), pages) && MarkWork() <= old(MarkWork())
      ensures old(Marking()) ==> Marking()
    {
      ghost var inv := Marking();
      while grayList != []
        invariant Valid() && |pages| == old(|pages|)
        invariant ShadedKept(old(pages), pages) && MarkWork() <= old(MarkWork())
        invariant inv ==> Marking()
        decreases MarkWork()
      {
        ghost var ps := pages;
        var r := grayList[0];
        PopHead(r);
        var weight := MarkChildren(r);
        ShadedKeptTrans(old(pages), ps, pages);
      }
    }

    /** Take the head `r` off the gray list (`gray_list = obj->gcnext`): it is
        then the one object the marker may scan. */
    method PopHead(r: ObjRef)
      requires Valid() && grayList != [] && r == grayList[0]
      modifies this`grayList
      ensures Valid() && grayList == old(grayList[1..])
      ensures IsSlotRef(pages, r) && MarkWork() + 1 == old(MarkWork())
      ensures old(Marking()) ==> Scanning(pages, grayList, atomicGrayList, r)
    {
      WfSlotRef(pages, r);
      if Marking() {
        assert [r] + grayList[1..] == grayList;
        PopScanning(pages, r, grayList[1..], atomicGrayList);
      }
      grayList := grayList[1..];
    }

    /** `incremental_marking_phase`: scan gray objects while any are left and
        fewer than `limit` references have been marked; the result is the
        number marked. */
    method IncrementalMarkingPhase(limit: nat) returns (tried: nat)
      requires Valid()
      modifies this`pages, this`grayList
      ensures Valid() && |pages| == old(|pages|)
      ensures grayList == [] || limit <= tried
      ensures MarkWork() <= old(MarkWork())
      ensures old(grayList) != [] && 0 < limit ==> MarkWork() < old(MarkWork())
      ensures ShadedKept(old(pages), pages)
      ensures old(Marking()) ==> Marking()
    {
      ghost var inv := Marking();
      ghost var rounds := 0;
      tried := 0;
      while grayList != [] && tried < limit
        invariant Valid() && |pages| == old(|pages|)
        invariant ShadedKept(old(pages), pages)
        invariant MarkWork() + rounds <= old(MarkWork())
        invariant rounds == 0 ==> grayList == old(grayList) && tried == 0
        invariant inv ==> Marking()
        decreases MarkWork()
      {
        ghost var ps := pages;
        var r := grayList[0];
        PopHead(r);
        var weight := MarkChildren(r);
        ShadedKeptTrans(old(pages), ps, pages);
        tried := tried + weight;
        rounds := rounds + 1;
      }
    }

    /** Drop an object's payload references (`mrb_gc_free_iv` and the
        cleared fields of an error object): no colour changes. */
    method DropPayload(r: ObjRef)
      requires Valid() && IsSlotRef(pages, r)
      modifies this`pages
      ensures Valid() && pages == old(DropChildren(pages, r))
      ensures |pages| == old(|pages|) && IsSlotRef(pages, r) && Succ(pages, r) == [old(SlotAt(pages, r).cls)]
      ensures MarkWork() == old(MarkWork())
      ensures forall z :: Shaded(pages, z) <==> old(Shaded(pages, z))
      ensures old(MarkInvExcept(pages, grayList, atomicGrayList, r)) ==> MarkInvExcept(pages, grayList, atomicGrayList, r)
    {
      DropChildrenInv(pages, grayList, atomicGrayList, r, MarkInvExcept(pages, grayList, atomicGrayList, r));
      DropChildrenWf(pages, r, heaps, freeHeaps, sweepPos, currentWhitePart, live, liveAfterMark, state == PhaseSweep);
      pages := DropChildren(pages, r);
    }

    /** Paint a white object black before scanning it: it is then exempt
        from the tri-colour rule until its references are shaded. */
    method Blacken(r: ObjRef)
      requires Valid() && IsSlotRef(pages, r) && IsWhite(SlotAt(pages, r).color)
      modifies this`pages
      ensures Valid() && pages == old(Paint(pages, r, BLACK)) && |pages| == old(|pages|)
      ensures ShadedKept(old(pages), pages) && MarkWork() < old(MarkWork())
      ensures forall k | 0 <= k < |Succ(pages, r)| :: WfRef(Succ(pages, r)[k], |pages|)
      ensures old(Marking()) ==> MarkInvExcept(pages, grayList, atomicGrayList, r)
    {
      ghost var inv := Marking();
      if inv {
        WhiteScanning(pages, grayList, atomicGrayList, r);
      }
      ScanStart(pages, grayList, atomicGrayList, r, inv);
      OtherWhiteFlips(currentWhitePart);
      forall z | Shaded(pages, z) ensures Shaded(Paint(pages, r, BLACK), z) {
        PaintShaded(pages, r, BLACK, z);
      }
      PaintSlot(r, BLACK);
    }

    /** `clear_error_object`: a pre-allocated error object that is still white
        is painted black without being scanned; its class is marked and its
        payload (instance variables, message, backtrace) is dropped. */
    method ClearErrorObject(r: ObjRef)
      requires Valid() && WfRef(r, |pages|) && !r.Rom?
      modifies this`pages, this`grayList
      ensures Valid() && |pages| == old(|pages|)
      ensures r.Ref? ==> IsSlotRef(pages, r)
      ensures WillMark(old(pages), r) ==> SlotAt(pages, r) == old(SlotAt(pages, r)).(color := BLACK, children := [])
      ensures !WillMark(old(pages), r) ==> pages == old(pages) && grayList == old(grayList)
      ensures Shaded(pages, r) && ShadedKept(old(pages), pages)
      ensures MarkWork() <= old(MarkWork())
      ensures old(Marking()) ==> Marking()
    {
      if r.Nil? {
        return;
      }
      WfSlotRef(pages, r);
      if !IsWhite(ColorOf(pages, r)) {
        return;
      }
      ScrubError(r);
    }

    /** A white error object painted black, its class marked and its
        payload dropped. */
    method ScrubError(r: ObjRef)
      requires Valid() && WfRef(r, |pages|) && WillMark(pages, r)
      modifies this`pages, this`grayList
      ensures Valid() && |pages| == old(|pages|) && IsSlotRef(pages, r)
      ensures SlotAt(pages, r) == old(SlotAt(pages, r)).(color := BLACK, children := [])
      ensures Shaded(pages, r) && ShadedKept(old(pages), pages)
      ensures MarkWork() <= old(MarkWork())
      ensures old(Marking()) ==> Marking()
    {
      ghost var inv := Marking();
      BlackenWithClass(r);
      ghost var cls := SlotAt(pages, r).cls;
      DropPayload(r);
      assert Shaded(pages, cls);
      if inv {
        CloseExempt(pages, grayList, atomicGrayList, r);
      }
    }

    /** The first half of `clear_error_object`: the object painted black and
        its class marked. */
    method BlackenWithClass(r: ObjRef)
      requires Valid() && WfRef(r, |pages|) && WillMark(pages, r)
      modifies this`pages, this`grayList
      ensures Valid() && |pages| == old(|pages|) && IsSlotRef(pages, r)
      ensures SlotAt(pages, r) == old(SlotAt(pages, r)).(color := BLACK)
      ensures Shaded(pages, r) && Shaded(pages, SlotAt(pages, r).cls) && ShadedKept(old(pages), pages)
      ensures MarkWork() <= old(MarkWork())
      ensures old(Marking()) ==> MarkInvExcept(pages, grayList, atomicGrayList, r)
    {
      Blacken(r);
      ghost var ps1 := pages;
      var cls := SlotAt(pages, r).cls;
      assert Succ(pages, r)[0] == cls;
      MarkAll([cls], r);
      GrayedKeeps(ps1, pages, r);
      ShadedKeptTrans(old(pages), ps1, pages);
      assert Shaded(pages, cls);
    }

    /** `clear_error_object` on each pre-allocated error in turn. */
    method ClearErrorObjects(errors: seq<ObjRef>)
      requires Valid() && RefsIn(errors, |pages|) && forall i | 0 <= i < |errors| :: !errors[i].Rom?
      modifies this`pages, this`grayList
      ensures Valid() && |pages| == old(|pages|)
      ensures AllShaded(pages, errors) && ShadedKept(old(pages), pages)
      ensures old(Marking()) ==> Marking()
    {
      ghost var inv := Marking();
      var i := 0;
      while i < |errors|
        invariant 0 <= i <= |errors|
        invariant Valid() && |pages| == old(|pages|)
        invariant AllShaded(pages, errors[..i]) && ShadedKept(old(pages), pages)
        invariant inv ==> Marking()
      {
        ghost var ps := pages;
        ClearErrorObject(errors[i]);
        ShadedKeptTrans(old(pages), ps, pages);
        AllShadedNext(ps, pages, errors, i);
        i := i + 1;
      }
      AllShadedWhole(pages, errors);
    }

    /** Mark the references `rs` after those in `done`, which are already
        shaded: afterwards all of `done + rs` are. */
    method MarkMore(ghost done: seq<ObjRef>, rs: seq<ObjRef>)
      requires Valid() && RefsIn(rs, |pages|) && AllShaded(pages, done)
      modifies this`pages, this`grayList
      ensures Valid() && |pages| == old(|pages|)
      ensures AllShaded(pages, done + rs) && ShadedKept(old(pages), pages)
      ensures old(Marking()) ==> Marking()
    {
      ghost var ps := pages;
      MarkAll(rs, Nil);
      AllShadedKept(ps, pages, done);
      AllShadedConcat(pages, done, rs);
    }

    /** The first half of `final_marking_phase`: the arena, the globals, the
        contexts and the pending exception are marked again. */
    method RemarkRoots(roots: RootSet)
      requires Valid() && RootsIn(roots, |pages|)
      modifies this`pages, this`grayList
      ensures Valid() && |pages| == old(|pages|)
      ensures AllShaded(pages, arena + (roots.globals + registered) + roots.contexts + [roots.exc])
      ensures ShadedKept(old(pages), pages)
      ensures old(Marking()) ==> Marking()
    {
      RefsInConcat(roots.globals, registered, |pages|);
      ghost var ps0 := pages;
      MarkMore([], arena);
      AllShadedUnprefixed(pages, arena);
      ghost var ps1 := pages;
      MarkMore(arena, roots.globals + registered);
      ghost var ps2 := pages;
      MarkMore(arena + (roots.globals + registered), roots.contexts);
      ghost var ps3 := pages;
      MarkMore(arena + (roots.globals + registered) + roots.contexts, [roots.exc]);
      ShadedKeptTrans(ps0, ps1, ps2);
      ShadedKeptTrans(ps0, ps2, ps3);
      ShadedKeptTrans(ps0, ps3, pages);
    }

    /** `final_marking_phase`: mark the roots once more, clear the error
        objects, drain the gray list, then drain the objects the write
        barrier queued on the atomic list.  Both lists end empty, every root
        is shaded, and the marker's invariants survive. */
    method FinalMarkingPhase(roots: RootSet)
      requires Valid() && RootsIn(roots, |pages|)
      modifies this`pages, this`grayList, this`atomicGrayList
      ensures Valid() && |pages| == old(|pages|)
      ensures grayList == [] && atomicGrayList == []
      ensures AllShaded(pages, FinalRoots(roots, arena, registered))
      ensures old(Marking()) ==> Marking()
    {
      ghost var inv := Marking();
      RemarkRoots(roots);
      ghost var ps1 := pages;
      ClearErrorObjects(roots.errors);
      AllShadedKept(ps1, pages, arena + (roots.globals + registered) + roots.contexts + [roots.exc]);
      AllShadedConcat(pages, arena + (roots.globals + registered) + roots.contexts + [roots.exc], roots.errors);
      ghost var ps2 := pages;
      MarkGrayList();
      if inv {
        SwapAtomic(pages, atomicGrayList);
      }
      grayList := atomicGrayList;
      atomicGrayList := [];
      ghost var ps3 := pages;
      MarkGrayList();
      ShadedKeptTrans(ps2, ps3, pages);
      AllShadedKept(ps2, pages, FinalRoots(roots, arena, registered));
    }

    /** `root_scan_phase`: outside a minor cycle both gray lists are reset;
        then the globals (the registered objects among them), the arena, the
        built-in classes, the pending exception and the contexts are marked.
        A cycle that starts from an all-white heap, or a minor cycle that
        starts with the marker's invariants, has them afterwards. */
    method RootScanPhase(roots: RootSet)
      requires Valid() && RootsIn(roots, |pages|)
      modifies this`pages, this`grayList, this`atomicGrayList
      ensures Valid() && |pages| == old(|pages|)
      ensures AllShaded(pages, ScanRoots(roots, arena, registered))
      ensures atomicGrayList == if old(IsMinor()) then old(atomicGrayList) else []
      ensures old(if IsMinor() then Marking() else AllWhiteOrFree(pages)) ==> Marking()
    {
      if !IsMinor() {
        ClearGrayLists();
        if AllWhiteOrFree(pages) {
          AllWhiteMarkInv(pages);
        }
      }
      MarkGlobalsAndArena(roots);
      MarkOtherRoots(roots);
    }

    /** The first roots `root_scan_phase` marks: the globals, the registered
        objects among them, and the arena. */
    method MarkGlobalsAndArena(roots: RootSet)
      requires Valid() && RootsIn(roots, |pages|)
      modifies this`pages, this`grayList
      ensures Valid() && |pages| == old(|pages|)
      ensures AllShaded(pages, (roots.globals + registered) + arena)
      ensures old(Marking()) ==> Marking()
    {
      RefsInConcat(roots.globals, registered, |pages|);
      MarkMore([], roots.globals + registered);
      AllShadedUnprefixed(pages, roots.globals + registered);
      MarkMore(roots.globals + registered, arena);
    }

    /** The rest of `root_scan_phase`: the built-in classes, the pending
        exception and the contexts. */
    method MarkOtherRoots(roots: RootSet)
      requires Valid() && RootsIn(roots, |pages|) && AllShaded(pages, (roots.globals + registered) + arena)
      modifies this`pages, this`grayList
      ensures Valid() && |pages| == old(|pages|)
      ensures AllShaded(pages, ScanRoots(roots, arena, registered))
      ensures old(Marking()) ==> Marking()
    {
      MarkMore((roots.globals + registered) + arena, roots.builtins);
      MarkMore((roots.globals + registered) + arena + roots.builtins, [roots.exc]);
      MarkMore((roots.globals + registered) + arena + roots.builtins + [roots.exc], roots.contexts);
    }

    /** `prepare_incremental_sweep`: the sweep starts at the head of the page
        list, and `live_after_mark` records the live count. */
    method PrepareIncrementalSweep()
      requires Valid()
      modifies this`state, this`sweepPos, this`liveAfterMark
      ensures Valid() && state == PhaseSweep && sweepPos == 0 && liveAfterMark == live
    {
      StartSweepCounts(pages, currentWhitePart, live, liveAfterMark, state == PhaseSweep);
      state := PhaseSweep;
      sweepPos := 0;
      liveAfterMark := live;
    }

    // ------------------------------------------------------------ the cycle

    /** Outside generational mode, what each phase may rely on: at ROOT every
        allocated object is white, during MARK the marker's invariants hold,
        during SWEEP every page before the cursor is white. */
    ghost predicate PhaseInv()
      reads this`state, this`pages, this`grayList, this`atomicGrayList, this`heaps, this`sweepPos
    {
      match state
      case PhaseRoot => AllWhiteOrFree(pages)
      case PhaseMark => Marking()
      case PhaseSweep => SweptWhite(pages, heaps, sweepPos)
    }

    /** How far the state is from the end of a cycle. */
    function Rank(): nat
      reads this`state
    {
      match state
      case PhaseRoot => 3
      case PhaseMark => 2
      case PhaseSweep => 1
    }

    /** Pages the sweep has still to visit. */
    function SweepLeft(): nat
      reads this`heaps, this`sweepPos
    {
      if sweepPos <= |heaps| then |heaps| - sweepPos else 0
    }

    /** The ROOT step of `incremental_gc`: scan the roots, then flip the
        current white so that everything still unmarked carries the other
        white. */
    method RootStep(roots: RootSet)
      requires Valid() && RootsIn(roots, |pages|) && state == PhaseRoot
      modifies this`state, this`currentWhitePart, this`pages, this`grayList, this`atomicGrayList
      ensures Valid() && |pages| == old(|pages|)
      ensures state == PhaseMark && currentWhitePart == OtherWhite(old(currentWhitePart))
      ensures AllShaded(pages, ScanRoots(roots, arena, registered))
      ensures old(!IsMinor() && AllWhiteOrFree(pages)) ==> Marking()
    {
      RootScanPhase(roots);
      state := PhaseMark;
      OtherWhiteFlips(currentWhitePart);
      currentWhitePart := OtherWhite(currentWhitePart);
    }

    /** The MARK step of `incremental_gc` once the gray list is empty: the
        final mark, after which no reachable object is dead, then the start
        of the sweep. */
    method FinishMarkStep(roots: RootSet)
      requires Valid() && RootsIn(roots, |pages|) && state == PhaseMark
      modifies this`state, this`pages, this`sweepPos, this`grayList, this`atomicGrayList, this`liveAfterMark
      ensures Valid() && |pages| == old(|pages|)
      ensures state == PhaseSweep && grayList == [] && atomicGrayList == [] && sweepPos == 0 && liveAfterMark == live
      ensures old(Marking()) ==> SurvivesSweep(pages, FinalRoots(roots, arena, registered), currentWhitePart)
    {
      ghost var inv := Marking();
      FinalMarkingPhase(roots);
      if inv {
        MarkCompleteSafe(pages, FinalRoots(roots, arena, registered), currentWhitePart);
      }
      PrepareIncrementalSweep();
    }

    /** The SWEEP step of `incremental_gc`: sweep, and go back to ROOT when no
        page was swept.  Outside generational mode the swept pages are white,
        and a sweep that reached the end of the page list leaves every
        allocated object white. */
    method SweepStep(limit: nat) returns (result: nat)
      requires Valid() && state == PhaseSweep
      modifies this`state, this`pages, this`heaps, this`freeHeaps, this`sweepPos, this`live, this`liveAfterMark
      ensures Valid() && |pages| == old(|pages|)
      ensures SweepDone(old(pages), old(heaps), old(sweepPos), currentWhitePart, generational, IsMinor(),
                        old(live), old(liveAfterMark), limit, pages, heaps, freeHeaps, sweepPos, live, liveAfterMark, result)
      ensures state == (if result == 0 then PhaseRoot else PhaseSweep)
      ensures result != 0 ==> SweepLeft() < old(SweepLeft())
      ensures !generational && old(SweptWhite(pages, heaps, sweepPos)) && 0 < limit ==> PhaseInv()
    {
      ghost var ps0, hs0, pos0, lv0, lam0 := pages, heaps, sweepPos, live, liveAfterMark;
      ghost var white := SweptWhite(pages, heaps, sweepPos);
      result := IncrementalSweepPhase(limit);
      if !generational && white {
        SweepWhiteStep(ps0, hs0, pos0, currentWhitePart, lv0, lam0, limit, pages, heaps, freeHeaps, sweepPos,
                       live, liveAfterMark, result);
      }
      if result == 0 {
        if !generational && white && 0 < limit {
          SweptAllWhite(pages, heaps, sweepPos);
        }
        state := PhaseRoot;
      }
    }

    /** The work left in the current phase: marking while in MARK, pages to
        visit while in SWEEP. */
    ghost function PhaseLeft(): nat
      reads this`state, this`pages, this`grayList, this`heaps, this`sweepPos
    {
      match state
      case PhaseRoot => 0
      case PhaseMark => MarkWork()
      case PhaseSweep => SweepLeft()
    }

    /** The cycle has advanced past the point (`rank`, `left`). */
    ghost predicate Advanced(rank: nat, left: nat)
      reads this`state, this`pages, this`grayList, this`heaps, this`sweepPos
    {
      Rank() < rank || (Rank() == rank && PhaseLeft() < left)
    }

    /** `incremental_gc`: one step of the ROOT -> MARK -> SWEEP -> ROOT cycle.
        ROOT scans the roots, flips the current white and returns 0; MARK
        scans gray objects while there are any, and otherwise runs the final
        mark, after which no reachable object is dead, and starts the sweep;
        SWEEP sweeps pages and returns to ROOT exactly when it swept none. */
    method IncrementalGc(limit: nat, roots: RootSet) returns (result: nat)
      requires Valid() && RootsIn(roots, |pages|)
      modifies this`state, this`currentWhitePart, this`pages, this`heaps, this`freeHeaps, this`sweepPos,
               this`grayList, this`atomicGrayList, this`live, this`liveAfterMark
      ensures Valid() && |pages| == old(|pages|)
      ensures old(state) == PhaseRoot ==>
        && state == PhaseMark && result == 0 && currentWhitePart == OtherWhite(old(currentWhitePart))
        && AllShaded(pages, ScanRoots(roots, arena, registered))
      ensures old(state) == PhaseMark && old(grayList) != [] ==>
        && state == PhaseMark && (grayList == [] || limit <= result)
        && (0 < limit ==> MarkWork() < old(MarkWork()))
      ensures old(state) == PhaseMark && old(grayList) == [] ==>
        && state == PhaseSweep && result == 0 && grayList == [] && atomicGrayList == []
        && sweepPos == 0 && liveAfterMark == live
        && (old(Marking()) ==> SurvivesSweep(pages, FinalRoots(roots, arena, registered), currentWhitePart))
      ensures old(state) == PhaseSweep ==>
        && state == (if result == 0 then PhaseRoot else PhaseSweep)
        && (result != 0 ==> SweepLeft() < old(SweepLeft()))
      ensures 0 < limit && state != PhaseRoot ==> Advanced(old(Rank()), old(PhaseLeft()))
      ensures !generational && old(PhaseInv()) && (old(state) == PhaseSweep ==> 0 < limit) ==> PhaseInv()
    {
      if state == PhaseRoot {
        RootStep(roots);
        result := 0;
      } else if state == PhaseMark {
        if grayList != [] {
          result := IncrementalMarkingPhase(limit);
        } else {
          FinishMarkStep(roots);
          result := 0;
        }
      } else {
        result := SweepStep(limit);
      }
    }

    /** `incremental_gc_finish`: run the cycle to its end, back at ROOT.
        Outside generational mode a cycle finished from a sound state leaves
        every allocated object white. */
    method IncrementalGcFinish(roots: RootSet)
      requires Valid() && RootsIn(roots, |pages|)
      modifies this`state, this`currentWhitePart, this`pages, this`heaps, this`freeHeaps, this`sweepPos,
               this`grayList, this`atomicGrayList, this`live, this`liveAfterMark
      ensures Valid() && |pages| == old(|pages|) && state == PhaseRoot
      ensures !generational && old(PhaseInv()) ==> AllWhiteOrFree(pages)
    {
      ghost var sound := !generational && PhaseInv();
      UnboundedStep(roots);
      while state != PhaseRoot
        invariant Valid() && |pages| == old(|pages|)
        invariant sound ==> PhaseInv()
        decreases if state == PhaseRoot then 0 else Rank(), PhaseLeft()
      {
        ghost var rank, left := Rank(), PhaseLeft();
        UnboundedStep(roots);
        assert state != PhaseRoot ==> Advanced(rank, left);
      }
    }

    /** One `incremental_gc` call with no work limit (`SIZE_MAX`), as
        `incremental_gc_finish` makes it: each call that does not end the
        cycle advances it, and a sound state stays sound. */
    method UnboundedStep(roots: RootSet)
      requires Valid() && RootsIn(roots, |pages|)
      modifies this`state, this`currentWhitePart, this`pages, this`heaps, this`freeHeaps, this`sweepPos,
               this`grayList, this`atomicGrayList, this`live, this`liveAfterMark
      ensures Valid() && |pages| == old(|pages|)
      ensures state != PhaseRoot ==> Advanced(old(Rank()), old(PhaseLeft()))
      ensures !generational && old(PhaseInv()) ==> PhaseInv()
    {
      var _ := IncrementalGc(SIZE_MAX, roots);
    }

    /** The number of units of work one step performs: `GC_STEP_SIZE/100`
        times `step_ratio`, converted to `size_t`. */
    function StepLimit(): nat
      reads this`stepRatio
    {
      SizeT((GC_STEP_SIZE / 100) * stepRatio)
    }

    /** `incremental_gc_step`: advance the cycle until the step's work is done
        or the cycle is back at ROOT, then allow `GC_STEP_SIZE` more
        allocations before the next step. */
    method IncrementalGcStep(roots: RootSet)
      requires Valid() && RootsIn(roots, |pages|)
      modifies this`state, this`currentWhitePart, this`pages, this`heaps, this`freeHeaps, this`sweepPos,
               this`grayList, this`atomicGrayList, this`live, this`liveAfterMark, this`threshold
      ensures Valid() && |pages| == old(|pages|)
      ensures threshold == live + GC_STEP_SIZE
      ensures !generational && old(PhaseInv()) ==> PhaseInv()
    {
      RunStep(roots, StepLimit());
      threshold := live + GC_STEP_SIZE;
    }

    /** The loop of `incremental_gc_step`: call `incremental_gc` until
        `limit` units of work are done or the cycle is back at ROOT. */
    method RunStep(roots: RootSet, limit: nat)
      requires Valid() && RootsIn(roots, |pages|)
      modifies this`state, this`currentWhitePart, this`pages, this`heaps, this`freeHeaps, this`sweepPos,
               this`grayList, this`atomicGrayList, this`live, this`liveAfterMark
      ensures Valid() && |pages| == old(|pages|)
      ensures !generational && old(PhaseInv()) ==> PhaseInv()
    {
      var result := 0;
      ghost var sound := !generational && PhaseInv();
      while result < limit
        invariant Valid() && |pages| == old(|pages|)
        invariant sound ==> PhaseInv()
        decreases if result < limit then limit - result else 0, Rank(), PhaseLeft()
      {
        ghost var rank, left := Rank(), PhaseLeft();
        var r := IncrementalGc(limit, roots);
        ghost var before := result;
        result := result + r;
        if state == PhaseRoot {
          break;
        }
        if r == 0 {
          assert Advanced(rank, left);
        } else {
          assert before < result;
        }
      }
    }

    /** `clear_all_old`: finish a half-done major cycle, then sweep the whole
        heap as a non-generational collector would, which repaints every
        survivor (the old objects included) white. */
    method ClearAllOld(roots: RootSet)
      requires Valid() && RootsIn(roots, |pages|) && generational
      modifies this`state, this`currentWhitePart, this`pages, this`heaps, this`freeHeaps, this`sweepPos,
               this`grayList, this`atomicGrayList, this`live, this`liveAfterMark, this`generational
      ensures Valid() && |pages| == old(|pages|)
      ensures state == PhaseRoot && generational && grayList == [] && atomicGrayList == []
      ensures AllWhiteOrFree(pages)
    {
      if full {
        IncrementalGcFinish(roots);
      }
      SweepAllWhite(roots);
      ClearGrayLists();
    }

    /** The middle of `clear_all_old`, with generational mode switched off
        for its duration: a sweep of the whole heap, run to its end, leaves
        every survivor white. */
    method SweepAllWhite(roots: RootSet)
      requires Valid() && RootsIn(roots, |pages|) && generational
      modifies this`state, this`currentWhitePart, this`pages, this`heaps, this`freeHeaps, this`sweepPos,
               this`grayList, this`atomicGrayList, this`live, this`liveAfterMark, this`generational
      ensures Valid() && |pages| == old(|pages|) && state == PhaseRoot && AllWhiteOrFree(pages) && generational
    {
      generational := false;
      SweepWhole(roots);
      generational := true;
    }

    /** The sweep `clear_all_old` runs outside generational mode. */
    method SweepWhole(roots: RootSet)
      requires Valid() && RootsIn(roots, |pages|) && !generational
      modifies this`state, this`currentWhitePart, this`pages, this`heaps, this`freeHeaps, this`sweepPos,
               this`grayList, this`atomicGrayList, this`live, this`liveAfterMark
      ensures Valid() && |pages| == old(|pages|) && state == PhaseRoot && AllWhiteOrFree(pages)
    {
      PrepareIncrementalSweep();
      assert SweptWhite(pages, heaps, sweepPos);
      IncrementalGcFinish(roots);
    }

    /** Both gray lists emptied, as `clear_all_old` leaves them. */
    method ClearGrayLists()
      requires Valid()
      modifies this`grayList, this`atomicGrayList
      ensures Valid() && grayList == [] && atomicGrayList == []
    {
      grayList := [];
      atomicGrayList := [];
    }

    /** The first half of `mrb_full_gc`: in generational mode clear every
        old object back to young and make the coming cycle a major one;
        otherwise finish any cycle in progress.  The collector is then at
        ROOT. */
    method SettleCycle(roots: RootSet)
      requires Valid() && RootsIn(roots, |pages|)
      modifies this`state, this`currentWhitePart, this`pages, this`heaps, this`freeHeaps, this`sweepPos,
               this`grayList, this`atomicGrayList, this`live, this`liveAfterMark, this`generational, this`full
      ensures Valid() && |pages| == old(|pages|) && generational == old(generational) && state == PhaseRoot
      ensures generational ==> full && AllWhiteOrFree(pages)
      ensures !generational ==> full == old(full)
      ensures !generational && old(PhaseInv()) ==> PhaseInv()
    {
      if generational {
        ClearAllOld(roots);
        full := true;
      } else if state != PhaseRoot {
        IncrementalGcFinish(roots);
      }
    }

    /** `mrb_full_gc`: finish any cycle in progress and run one complete
        cycle.  In generational mode every old object is first cleared back
        to young, and the cycle is a major one.  The thresholds are then
        recomputed from `live_after_mark`. */
    method MrbFullGc(roots: RootSet)
      requires Valid() && RootsIn(roots, |pages|)
      modifies this`state, this`currentWhitePart, this`pages, this`heaps, this`freeHeaps, this`sweepPos,
               this`grayList, this`atomicGrayList, this`live, this`liveAfterMark, this`generational,
               this`full, this`threshold, this`oldgenThreshold
      ensures Valid() && |pages| == old(|pages|) && generational == old(generational)
      ensures old(disabled || iterating) ==> unchanged(this)
      ensures !old(disabled || iterating) ==>
        && state == PhaseRoot && threshold == IntervalThreshold(liveAfterMark, intervalRatio)
        && (generational ==> oldgenThreshold == OldgenThreshold(liveAfterMark) && !full)
        && (!generational && old(PhaseInv()) ==> AllWhiteOrFree(pages))
    {
      if disabled || iterating {
        return;
      }
      FullCycle(roots);
      ScheduleAfterFull();
    }

    /** The collection `mrb_full_gc` runs: settle the cycle in progress,
        then one complete cycle back to ROOT. */
    method FullCycle(roots: RootSet)
      requires Valid() && RootsIn(roots, |pages|)
      modifies this`state, this`currentWhitePart, this`pages, this`heaps, this`freeHeaps, this`sweepPos,
               this`grayList, this`atomicGrayList, this`live, this`liveAfterMark, this`generational, this`full
      ensures Valid() && |pages| == old(|pages|) && generational == old(generational) && state == PhaseRoot
      ensures generational ==> full
      ensures !generational ==> full == old(full)
      ensures !generational && old(PhaseInv()) ==> AllWhiteOrFree(pages)
    {
      SettleCycle(roots);
      IncrementalGcFinish(roots);
    }

    /** The tail of `mrb_full_gc`: the next threshold from
        `live_after_mark`, and in generational mode the old-generation
        threshold, leaving the full phase. */
    method ScheduleAfterFull()
      modifies this`threshold, this`oldgenThreshold, this`full
      ensures threshold == IntervalThreshold(liveAfterMark, intervalRatio)
      ensures generational ==> oldgenThreshold == OldgenThreshold(liveAfterMark) && !full
      ensures !generational ==> oldgenThreshold == old(oldgenThreshold) && full == old(full)
    {
      threshold := IntervalThreshold(liveAfterMark, intervalRatio);
      if generational {
        oldgenThreshold := OldgenThreshold(liveAfterMark);
        full := false;
      }
    }

    /** The end-of-cycle part of `mrb_incremental_gc`: the next threshold is
        `live_after_mark/100*interval_ratio`, at least `GC_STEP_SIZE`.  A
        major cycle ends generational mode's full phase and records
        `oldgen_threshold`, unless so many objects survived it that a full
        collection is forced instead; a minor cycle that leaves more objects
        than `oldgen_threshold` clears all old objects and makes the next
        cycle a major one. */
    method EndOfCycle(roots: RootSet) returns (ghost forced: bool, ghost cleared: bool)
      requires Valid() && RootsIn(roots, |pages|) && state == PhaseRoot && !disabled && !iterating
      modifies this`state, this`currentWhitePart, this`pages, this`heaps, this`freeHeaps, this`sweepPos,
               this`grayList, this`atomicGrayList, this`live, this`liveAfterMark, this`generational,
               this`full, this`threshold, this`oldgenThreshold
      ensures Valid() && |pages| == old(|pages|) && generational == old(generational) && state == PhaseRoot
      ensures !forced ==> GC_STEP_SIZE <= threshold
      ensures !forced && !cleared ==> threshold == Max(IntervalThreshold(liveAfterMark, intervalRatio), GC_STEP_SIZE)
      ensures forced ==> old(IsMajor()) && threshold == IntervalThreshold(liveAfterMark, intervalRatio)
      ensures old(IsMajor()) && !forced ==>
        oldgenThreshold == OldgenThreshold(liveAfterMark) && oldgenThreshold < MAJOR_GC_TOOMANY
      ensures old(IsMajor()) ==> !full
      ensures cleared <==> old(IsMinor()) && old(live) > old(oldgenThreshold)
      ensures cleared ==> full && AllWhiteOrFree(pages)
      ensures old(IsMinor()) && !cleared ==> full == old(full) && unchanged(this`pages)
    {
      forced, cleared := false, false;
      threshold := IntervalThreshold(liveAfterMark, intervalRatio);
      if threshold < GC_STEP_SIZE {
        threshold := GC_STEP_SIZE;
      }
      if IsMajor() {
        forced := EndMajorCycle(roots);
      } else if IsMinor() && live > oldgenThreshold {
        StartFullPhase(roots);
        cleared := true;
      }
    }

    /** The end of a major cycle: record `oldgen_threshold` and leave the
        full phase, or, when at least `MAJOR_GC_TOOMANY` objects would be
        old, run a full collection instead. */
    method EndMajorCycle(roots: RootSet) returns (ghost forced: bool)
      requires Valid() && RootsIn(roots, |pages|) && state == PhaseRoot && !disabled && !iterating && IsMajor()
      modifies this`state, this`currentWhitePart, this`pages, this`heaps, this`freeHeaps, this`sweepPos,
               this`grayList, this`atomicGrayList, this`live, this`liveAfterMark, this`generational,
               this`full, this`threshold, this`oldgenThreshold
      ensures Valid() && |pages| == old(|pages|) && generational && state == PhaseRoot && !full
      ensures forced ==> threshold == IntervalThreshold(liveAfterMark, intervalRatio)
      ensures !forced ==>
        && oldgenThreshold == OldgenThreshold(liveAfterMark) && oldgenThreshold < MAJOR_GC_TOOMANY
        && threshold == old(threshold) && liveAfterMark == old(liveAfterMark)
    {
      var t := OldgenThreshold(liveAfterMark);
      full := false;
      if t < MAJOR_GC_TOOMANY {
        oldgenThreshold := t;
        forced := false;
      } else {
        MrbFullGc(roots);
        forced := true;
      }
    }

    /** A minor cycle that left too many objects: clear all old objects and
        make the next cycle a major one. */
    method StartFullPhase(roots: RootSet)
      requires Valid() && RootsIn(roots, |pages|) && generational
      modifies this`state, this`currentWhitePart, this`pages, this`heaps, this`freeHeaps, this`sweepPos,
               this`grayList, this`atomicGrayList, this`live, this`liveAfterMark, this`generational, this`full
      ensures Valid() && |pages| == old(|pages|) && generational && state == PhaseRoot
      ensures full && AllWhiteOrFree(pages)
    {
      ClearAllOld(roots);
      full := true;
    }

    /** `mrb_incremental_gc`: a minor cycle runs to completion, anything else
        advances by one step; a step that ends the cycle goes on as
        `EndOfCycle` says. */
    method MrbIncrementalGc(roots: RootSet) returns (ghost forced: bool, ghost cleared: bool)
      requires Valid() && RootsIn(roots, |pages|)
      modifies this`state, this`currentWhitePart, this`pages, this`heaps, this`freeHeaps, this`sweepPos,
               this`grayList, this`atomicGrayList, this`live, this`liveAfterMark, this`generational,
               this`full, this`threshold, this`oldgenThreshold
      ensures Valid() && |pages| == old(|pages|) && generational == old(generational)
      ensures old(disabled || iterating) ==> unchanged(this) && !forced && !cleared
      ensures !old(disabled || iterating) && old(IsMinor()) ==> state == PhaseRoot
      ensures !old(disabled || iterating) && state != PhaseRoot ==> threshold == live + GC_STEP_SIZE
      ensures !old(disabled || iterating) && state == PhaseRoot && !forced ==> GC_STEP_SIZE <= threshold
      ensures forced ==> old(IsMajor()) && state == PhaseRoot && threshold == IntervalThreshold(liveAfterMark, intervalRatio)
      ensures !old(disabled || iterating) && old(IsMajor()) && state == PhaseRoot && !forced ==>
        oldgenThreshold == OldgenThreshold(liveAfterMark) && oldgenThreshold < MAJOR_GC_TOOMANY
      ensures !old(disabled || iterating) && old(IsMajor()) && state == PhaseRoot ==> !full
      ensures cleared ==> old(IsMinor()) && full && AllWhiteOrFree(pages)
    {
      forced, cleared := false, false;
      if disabled || iterating {
        return;
      }
      AdvanceCycle(roots);
      if state == PhaseRoot {
        forced, cleared := EndOfCycle(roots);
      }
    }

    /** The collection part of `mrb_incremental_gc`: a minor cycle runs to
        completion, anything else advances by one step. */
    method AdvanceCycle(roots: RootSet)
      requires Valid() && RootsIn(roots, |pages|)
      modifies this`state, this`currentWhitePart, this`pages, this`heaps, this`freeHeaps, this`sweepPos,
               this`grayList, this`atomicGrayList, this`live, this`liveAfterMark, this`threshold
      ensures Valid() && |pages| == old(|pages|)
      ensures IsMinor() ==> state == PhaseRoot
      ensures !IsMinor() ==> threshold == live + GC_STEP_SIZE
    {
      if IsMinor() {
        IncrementalGcFinish(roots);
      } else {
        IncrementalGcStep(roots);
      }
    }

    // ------------------------------------------------------------ write barriers

    /** Whether `mrb_field_write_barrier(obj, value)` acts: `value` is a
        white object that is not read-only and `obj` is black. */
    predicate BarrierActs(obj: ObjRef, value: ObjRef)
      reads this`pages
      requires obj.Rom? || IsSlotRef(pages, obj)
      requires value.Nil? || value.Rom? || IsSlotRef(pages, value)
    {
      !value.Nil? && ColorOf(pages, obj) == BLACK && IsWhite(ColorOf(pages, value)) && !IsRed(ColorOf(pages, value))
    }

    /** `mrb_field_write_barrier`: after `value` is stored into `obj`, a
        black `obj` and a white `value` would break the tri-colour rule.
        While marking (and always in generational mode) `value` is grayed;
        while sweeping `obj` is repainted the current white instead.  A
        store that left the marker's invariants pending on this one
        reference has them back afterwards. */
    method FieldWriteBarrier(obj: ObjRef, value: ObjRef)
      requires Valid() && (obj.Rom? || IsSlotRef(pages, obj)) && WfRef(value, |pages|)
      modifies this`pages, this`grayList
      ensures Valid() && |pages| == old(|pages|)
      ensures value.Ref? ==> IsSlotRef(old(pages), value)
      ensures !old(BarrierActs(obj, value)) ==> pages == old(pages) && grayList == old(grayList)
      ensures old(BarrierActs(obj, value)) && (generational || state == PhaseMark) ==>
        IsSlotRef(old(pages), value) && pages == old(Paint(pages, value, GRAY)) && grayList == [value] + old(grayList)
      ensures old(BarrierActs(obj, value)) && !(generational || state == PhaseMark) ==>
        IsSlotRef(old(pages), obj) && pages == old(Paint(pages, obj, currentWhitePart)) && grayList == old(grayList)
      ensures old((generational || state == PhaseMark) && StorePending(pages, grayList, atomicGrayList, obj, value)) ==> Marking()
    {
      if value.Ref? {
        WfSlotRef(pages, value);
      }
      ghost var pending := StorePending(pages, grayList, atomicGrayList, obj, value);
      if value.Nil? || ColorOf(pages, obj) != BLACK || !IsWhite(ColorOf(pages, value)) || IsRed(ColorOf(pages, value)) {
        if pending {
          if obj.Rom? {
            assert MarkInv(pages, grayList, atomicGrayList);
          } else {
            BarrierQuiet(pages, grayList, atomicGrayList, obj, value);
          }
        }
        return;
      }
      if generational || state == PhaseMark {
        if pending {
          BarrierGray(pages, grayList, atomicGrayList, obj, value);
        }
        AddGrayList(value);
      } else {
        OtherWhiteFlips(currentWhitePart);
        PaintSlot(obj, currentWhitePart);
      }
    }

    /** `mrb_write_barrier`: a black object is grayed and queued on the
        atomic gray list, to be rescanned during the final mark; any other
        object is left alone.  The ordinary gray list is never touched. */
    method WriteBarrier(obj: ObjRef)
      requires Valid() && (obj.Rom? || IsSlotRef(pages, obj))
      modifies this`pages, this`atomicGrayList
      ensures Valid() && |pages| == old(|pages|)
      ensures old(ColorOf(pages, obj)) == BLACK ==>
        obj.Ref? && pages == old(Paint(pages, obj, GRAY)) && atomicGrayList == [obj] + old(atomicGrayList)
      ensures old(ColorOf(pages, obj)) != BLACK ==> pages == old(pages) && atomicGrayList == old(atomicGrayList)
      ensures old(MarkInvExcept(pages, grayList, atomicGrayList, obj)) ==> Marking()
    {
      ghost var inv := MarkInvExcept(pages, grayList, atomicGrayList, obj);
      if ColorOf(pages, obj) != BLACK {
        if inv {
          assert BlackShaded(pages);
        }
        return;
      }
      if inv {
        AtomicGray(pages, grayList, atomicGrayList, obj);
      }
      PaintSlot(obj, GRAY);
      PushAtomic(|pages|, obj, grayList, atomicGrayList, arena, arenaCapa, registered);
      atomicGrayList := [obj] + atomicGrayList;
    }

    // ------------------------------------------------------------ allocation

    /** `gc_arena_keep`: an arena that is full grows by half, so there is
        room for one more entry. */
    method ArenaKeep()
      requires Valid()
      modifies this`arenaCapa
      ensures Valid() && |arena| < arenaCapa
      ensures old(arenaCapa) <= arenaCapa
      ensures |arena| < old(arenaCapa) ==> arenaCapa == old(arenaCapa)
    {
      if |arena| >= arenaCapa {
        arenaCapa := arenaCapa * 3 / 2;
      }
    }

    /** `mrb_gc_protect`: a heap object is appended to the arena, which
        keeps it alive until the arena is restored; immediates and
        read-only objects are ignored. */
    method Protect(r: ObjRef)
      requires Valid() && WfRef(r, |pages|)
      modifies this`arena, this`arenaCapa
      ensures Valid() && old(arenaCapa) <= arenaCapa
      ensures arena == if r.Ref? then old(arena) + [r] else old(arena)
    {
      if r.Nil? {
        return;
      }
      if r.Ref? {
        WfSlotRef(pages, r);
      }
      if IsRed(ColorOf(pages, r)) {
        return;
      }
      ArenaKeep();
      AppendArena(r);
    }

    /** The allocation proper: pop the head of the first free page's free
        list, count the object live, protect it in the arena and initialise
        it with its tag and class, painted the current white.  A page whose
        free list empties leaves `free_heaps`. */
    method TakeSlot(ttype: VType, cls: ObjRef) returns (r: ObjRef)
      requires Valid() && freeHeaps != [] && !ttype.AtOrBelowFree() && WfRef(cls, |pages|) && |arena| < arenaCapa
      modifies this`pages, this`freeHeaps, this`live, this`arena
      ensures Valid() && |pages| == old(|pages|)
      ensures r.Ref? && r.page == old(freeHeaps[0]) && old(IsSlotRef(pages, r))
      ensures old(pages[r.page].freelist) != [] && r.idx == old(pages[r.page].freelist[0])
      ensures old(SlotAt(pages, r)).tt == FreeTag
      ensures pages == old(Taken(pages, r.page, Slot(ttype, currentWhitePart, cls, [])))
      ensures freeHeaps == old(FreeHeapsAfterTake(pages, freeHeaps))
      ensures live == old(live) + 1 && arena == old(arena) + [r]
    {
      r := PopFree(Slot(ttype, currentWhitePart, cls, []));
      AppendArena(r);
    }

    /** `gc_protect` on an object known to be on the heap, with room in the
        arena: it becomes the last entry. */
    method AppendArena(r: ObjRef)
      requires Valid() && r.Ref? && WfRef(r, |pages|) && |arena| < arenaCapa
      modifies this`arena
      ensures Valid() && arena == old(arena) + [r]
    {
      PushArena(|pages|, r, grayList, atomicGrayList, arena, arenaCapa, registered);
      arena := arena + [r];
    }

    /** The head of the first free page's free list becomes `s`, one more
        object is live, and a page whose free list empties leaves
        `free_heaps`. */
    method PopFree(s: Slot) returns (r: ObjRef)
      requires Valid() && freeHeaps != [] && s.tt != FreeTag && s.color == currentWhitePart && WfSlot(s, |pages|)
      modifies this`pages, this`freeHeaps, this`live
      ensures Valid() && |pages| == old(|pages|) && WfRef(r, |pages|)
      ensures r.Ref? && r.page == old(freeHeaps[0]) && old(IsSlotRef(pages, r))
      ensures old(pages[r.page].freelist) != [] && r.idx == old(pages[r.page].freelist[0])
      ensures old(SlotAt(pages, r)).tt == FreeTag
      ensures pages == old(Taken(pages, r.page, s))
      ensures freeHeaps == old(FreeHeapsAfterTake(pages, freeHeaps))
      ensures live == old(live) + 1
    {
      var p := freeHeaps[0];
      TakeSlotWf(pages, heaps, freeHeaps, sweepPos, currentWhitePart, live, liveAfterMark, state == PhaseSweep, s);
      r := Ref(p, pages[p].freelist[0]);
      pages, freeHeaps, live := Taken(pages, p, s), FreeHeapsAfterTake(pages, freeHeaps), live + 1;
    }

    /** What `mrb_obj_alloc` does before it takes a slot: a collector step
        once `live` has passed `threshold`, room in the arena, and a fresh
        page when no page has a free slot. */
    method MakeRoom(cls: ObjRef, roots: RootSet)
      requires Valid() && RootsIn(roots, |pages|) && WfRef(cls, |pages|)
      modifies this`state, this`currentWhitePart, this`pages, this`heaps, this`freeHeaps, this`sweepPos,
               this`grayList, this`atomicGrayList, this`live, this`liveAfterMark, this`generational,
               this`full, this`threshold, this`oldgenThreshold, this`arenaCapa
      ensures Valid() && generational == old(generational) && arena == old(arena)
      ensures freeHeaps != [] && |arena| < arenaCapa && WfRef(cls, |pages|)
    {
      StepIfDue(roots);
      ReserveSlot(cls);
    }

    /** Room for one more arena entry, and a fresh page when no page has a
        free slot. */
    method ReserveSlot(cls: ObjRef)
      requires Valid() && WfRef(cls, |pages|)
      modifies this`pages, this`heaps, this`freeHeaps, this`sweepPos, this`arenaCapa
      ensures Valid() && freeHeaps != [] && |arena| < arenaCapa && WfRef(cls, |pages|)
    {
      ArenaKeep();
      if freeHeaps == [] {
        WfRefGrows(cls, |pages|, |pages| + 1);
        AddHeap();
      }
    }

    /** A collector step (`mrb_incremental_gc`) once `live` has passed
        `threshold`. */
    method StepIfDue(roots: RootSet)
      requires Valid() && RootsIn(roots, |pages|)
      modifies this`state, this`currentWhitePart, this`pages, this`heaps, this`freeHeaps, this`sweepPos,
               this`grayList, this`atomicGrayList, this`live, this`liveAfterMark, this`generational,
               this`full, this`threshold, this`oldgenThreshold
      ensures Valid() && |pages| == old(|pages|) && generational == old(generational)
      ensures old(live) <= old(threshold) ==> unchanged(this)
    {
      if threshold < live {
        ghost var forced, cleared := MrbIncrementalGc(roots);
      }
    }

    /** `mrb_obj_alloc`: check the class and the type, run a step of the
        collector once `live` exceeds `threshold`, make room in the arena,
        add a page if no page has a free slot, and take a slot.  The new
        object carries the requested tag and class, has no references yet,
        is the last arena entry, and is painted the current white, so the
        sweep in progress does not free it. */
    method ObjAlloc(ttype: VType, cls: ObjRef, info: ClassInfo, roots: RootSet) returns (res: Alloc)
      requires Valid() && RootsIn(roots, |pages|) && WfRef(cls, |pages|)
      modifies this`state, this`currentWhitePart, this`pages, this`heaps, this`freeHeaps, this`sweepPos,
               this`grayList, this`atomicGrayList, this`live, this`liveAfterMark, this`generational,
               this`full, this`threshold, this`oldgenThreshold, this`arena, this`arenaCapa
      ensures Valid() && generational == old(generational)
      ensures AllocCheck(ttype, cls, info).Some? ==> res == AllocFailed(AllocCheck(ttype, cls, info).value) && unchanged(this)
      ensures AllocCheck(ttype, cls, info).None? ==>
        && res.Allocated? && IsSlotRef(pages, res.obj)
        && SlotAt(pages, res.obj) == Slot(ttype, currentWhitePart, cls, [])
        && !IsDead(SlotAt(pages, res.obj), currentWhitePart)
        && arena != [] && arena[|arena| - 1] == res.obj
    {
      var err := AllocCheck(ttype, cls, info);
      if err.Some? {
        return AllocFailed(err.value);
      }
      MakeRoom(cls, roots);
      var r := TakeSlot(ttype, cls);
      OtherWhiteFlips(currentWhitePart);
      res := Allocated(r);
    }

    // ------------------------------------------------------------ the root table

    /** `mrb_gc_register`: the object is appended to the `_gc_root_` table;
        the arena is left as it was found. */
    method Register(obj: ObjRef)
      requires Valid() && WfRef(obj, |pages|)
      modifies this`arena, this`arenaCapa, this`registered
      ensures Valid() && arena == old(arena) && old(arenaCapa) <= arenaCapa
      ensures registered == if obj.Nil? then old(registered) else old(registered) + [obj]
    {
      if obj.Nil? {
        return;
      }
      var ai := |arena|;
      Protect(obj);
      RefsInConcat(registered, [obj], |pages|);
      registered := registered + [obj];
      arena := arena[..ai];
    }

    /** `mrb_gc_unregister`: the first entry of the `_gc_root_` table that is
        the object is removed; the other entries keep their order. */
    method Unregister(obj: ObjRef)
      requires Valid()
      modifies this`registered
      ensures Valid()
      ensures registered == if obj.Nil? then old(registered) else RemoveFirst(old(registered), obj)
    {
      if obj.Nil? {
        return;
      }
      var i := 0;
      while i < |registered| && registered[i] != obj
        invariant 0 <= i <= |registered|
        invariant obj !in registered[..i]
      {
        assert registered[..i + 1] == registered[..i] + [registered[i]];
        i := i + 1;
      }
      if i == |registered| {
        assert registered[..i] == registered;
        return;
      }
      RemoveFirstAt(registered, obj, i);
      RefsInRemove(registered, i, |pages|);
      registered := registered[..i] + registered[i + 1..];
    }

    // ------------------------------------------------------------ the GC module

    /** `change_gen_gc_mode`: refused while the collector is disabled or
        iterating, with nothing changed.  Leaving generational mode clears
        every old object back to white; entering it finishes the cycle in
        progress and sets `oldgen_threshold`.  Either way the next cycle
        starts from ROOT and is not a major one. */
    method ChangeGenGcMode(enable: bool, roots: RootSet) returns (ok: bool)
      requires Valid() && RootsIn(roots, |pages|)
      modifies this`state, this`currentWhitePart, this`pages, this`heaps, this`freeHeaps, this`sweepPos,
               this`grayList, this`atomicGrayList, this`live, this`liveAfterMark, this`generational,
               this`full, this`oldgenThreshold
      ensures Valid()
      ensures ok == !old(disabled || iterating)
      ensures !ok ==> unchanged(this)
      ensures ok ==> generational == enable
      ensures ok && old(generational) != enable ==> state == PhaseRoot && !full
      ensures ok && old(generational) && !enable ==> AllWhiteOrFree(pages) && grayList == [] && atomicGrayList == []
      ensures ok && !old(generational) && enable ==> oldgenThreshold == OldgenThreshold(liveAfterMark)
    {
      if disabled || iterating {
        return false;
      }
      if generational && !enable {
        LeaveGenerational(roots);
      } else if !generational && enable {
        EnterGenerational(roots);
      }
      ok := true;
    }

    /** Generational mode switched off: every old object back to white. */
    method LeaveGenerational(roots: RootSet)
      requires Valid() && RootsIn(roots, |pages|) && generational
      modifies this`state, this`currentWhitePart, this`pages, this`heaps, this`freeHeaps, this`sweepPos,
               this`grayList, this`atomicGrayList, this`live, this`liveAfterMark, this`generational, this`full
      ensures Valid() && !generational && state == PhaseRoot && !full
      ensures AllWhiteOrFree(pages) && grayList == [] && atomicGrayList == []
    {
      ClearAllOld(roots);
      full := false;
      generational := false;
    }

    /** Generational mode switched on: the cycle in progress finished, and
        `oldgen_threshold` set from its survivors. */
    method EnterGenerational(roots: RootSet)
      requires Valid() && RootsIn(roots, |pages|) && !generational
      modifies this`state, this`currentWhitePart, this`pages, this`heaps, this`freeHeaps, this`sweepPos,
               this`grayList, this`atomicGrayList, this`live, this`liveAfterMark, this`generational,
               this`full, this`oldgenThreshold
      ensures Valid() && generational && state == PhaseRoot && !full
      ensures oldgenThreshold == OldgenThreshold(liveAfterMark)
    {
      IncrementalGcFinish(roots);
      oldgenThreshold := OldgenThreshold(liveAfterMark);
      full := false;
      generational := true;
    }

    /** `GC.enable`: the result is whether the collector was disabled. */
    method GcEnable() returns (wasDisabled: bool)
      modifies this`disabled
      ensures !disabled && wasDisabled == old(disabled)
    {
      wasDisabled := disabled;
      disabled := false;
    }

    /** `GC.disable`: the result is whether the collector was disabled. */
    method GcDisable() returns (wasDisabled: bool)
      modifies this`disabled
      ensures disabled && wasDisabled == old(disabled)
    {
      wasDisabled := disabled;
      disabled := true;
    }

    /** `GC.interval_ratio=`: the ratio is stored as a C `int`. */
    method SetIntervalRatio(ratio: int)
      modifies this`intervalRatio
      ensures intervalRatio == Int32(ratio)
    {
      intervalRatio := Int32(ratio);
    }

    /** `GC.step_ratio=`: the ratio is stored as a C `int`. */
    method SetStepRatio(ratio: int)
      modifies this`stepRatio
      ensures stepRatio == Int32(ratio)
    {
      stepRatio := Int32(ratio);
    }

    // ------------------------------------------------------------ sweeping

    /** `incremental_sweep_phase`: sweep the pages after the cursor until
        `limit` slots have been tried.  A page whose slots were all dead is
        unlinked; any other page is kept and becomes old exactly when a
        minor cycle left it full.  Both live counters drop by the number of
        objects freed, and `free_heaps` is rebuilt. */
    method IncrementalSweepPhase(limit: nat) returns (tried: nat)
      requires Valid() && state == PhaseSweep
      modifies this`pages, this`heaps, this`freeHeaps, this`sweepPos, this`live, this`liveAfterMark
      ensures Valid() && |pages| == old(|pages|)
      ensures SweepDone(old(pages), old(heaps), old(sweepPos), currentWhitePart, generational, generational && !full,
                        old(live), old(liveAfterMark), limit, pages, heaps, freeHeaps, sweepPos, live, liveAfterMark, tried)
    {
      var ps, hs, fh, pos, lv, lam;
      ps, hs, fh, pos, lv, lam, tried := SweepPhase(pages, heaps, freeHeaps, sweepPos, currentWhitePart, generational,
                                                    generational && !full, live, liveAfterMark, limit);
      InstallHeap(ps, hs, fh, pos, lv, lam);
    }

    /** Take over the page state a sweep computed. */
    method InstallHeap(ps: seq<Page>, hs: seq<nat>, fh: seq<nat>, pos: nat, lv: nat, lam: nat)
      requires Valid() && state == PhaseSweep && |ps| == |pages|
      requires HeapWf(ps, hs, fh, pos, currentWhitePart, lv, lam, true)
      modifies this`pages, this`heaps, this`freeHeaps, this`sweepPos, this`live, this`liveAfterMark
      ensures Valid()
      ensures pages == ps && heaps == hs && freeHeaps == fh && sweepPos == pos && live == lv && liveAfterMark == lam
    {
      pages, heaps, freeHeaps, sweepPos, live, liveAfterMark := ps, hs, fh, pos, lv, lam;
    }
  }
}
