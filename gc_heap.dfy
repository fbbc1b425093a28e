/*
 * Object heap of the mruby garbage collector, as values.
 *
 * An object header carries a type tag and a three-bit colour; the collector
 * keeps objects in fixed pages of PAGE_SIZE slots.  This module defines the
 * colours and their bit tests, the slots and pages, the references that
 * connect objects, tallies over the whole heap, and the invariants of the
 * incremental marker together with the theorem that justifies sweeping.
 */
module GcHeap {

  /** Three colour bits of an object header. */
  type Color = bv3

  const GRAY: Color := 0
  const WHITE_A: Color := 1
  const WHITE_B: Color := 2
  const BLACK: Color := 4
  /** Objects in read-only memory; never collected. */
  const RED: Color := 7
  const WHITES: Color := 3

  const PAGE_SIZE: nat := 1024

  /** `is_white` tests the two white bits, so RED also counts as white. */
  predicate IsWhite(c: Color) { c & WHITES != 0 }
  predicate IsRed(c: Color) { c == RED }
  predicate IsBlack(c: Color) { c == BLACK }
  predicate IsGray(c: Color) { c == GRAY }

  /** `other_white_part`: the white that is not the current one. */
  function OtherWhite(current: Color): Color { current ^ WHITES }

  /** The current white is one of the two whites. */
  predicate IsWhitePart(c: Color) { c == WHITE_A || c == WHITE_B }

  /** The colours a heap slot can carry: a zeroed slot is GRAY, and the
      collector only ever paints GRAY, BLACK or the current white. */
  predicate HeapColor(c: Color) { c == GRAY || c == WHITE_A || c == WHITE_B || c == BLACK }

  lemma OtherWhiteFlips(c: Color)
    requires IsWhitePart(c)
    ensures IsWhitePart(OtherWhite(c)) && OtherWhite(c) != c && OtherWhite(OtherWhite(c)) == c
  {
  }

  /** Type tags.  Tags at or below MRB_TT_FREE are immediates or FREE itself;
      the heap kinds the allocator's class check names are listed one by one. */
  datatype VType =
    | ImmediateTag(code: nat)
    | FreeTag
    | ClassTag | SClassTag | ModuleTag | IClassTag | EnvTag
    | BigintTag | CptrTag | CdataTag | IstructTag
    | OtherTag(code: nat)
  {
    predicate AtOrBelowFree() { ImmediateTag? || FreeTag? }
  }

  /** A pointer to an object: null, a heap slot, or a static read-only object. */
  datatype ObjRef = Nil | Ref(page: nat, idx: nat) | Rom(id: nat)

  /** One slot: type tag, colour, class pointer and the other references the
      object's payload holds (the per-type children `gc_mark_children` marks). */
  datatype Slot = Slot(tt: VType, color: Color, cls: ObjRef, children: seq<ObjRef>)

  /** One heap page: its slots, the slots on its free list (head first), and
      whether a minor collection may skip it. */
  datatype Page = Page(objects: seq<Slot>, freelist: seq<nat>, isOld: bool)

  /** A slot as `calloc` leaves it and `add_heap` tags it. */
  const FREE_SLOT: Slot := Slot(FreeTag, GRAY, Nil, [])

  /** `is_dead`: the slot carries the other white, or it is free. */
  predicate IsDead(s: Slot, current: Color) {
    (s.color & OtherWhite(current) & WHITES) != 0 || s.tt == FreeTag
  }

  /** On heap colours, dead-by-colour is exactly "painted the other white". */
  lemma DeadColor(s: Slot, current: Color)
    requires IsWhitePart(current) && HeapColor(s.color)
    ensures IsDead(s, current) <==> s.color == OtherWhite(current) || s.tt == FreeTag
  {
  }

  predicate Distinct<T(==)>(s: seq<T>) {
    forall i, j | 0 <= i < j < |s| :: s[i] != s[j]
  }

  // ---------------------------------------------------------------- well-formedness

  predicate WfRef(r: ObjRef, n: nat) {
    r.Ref? ==> r.page < n && r.idx < PAGE_SIZE
  }

  predicate WfSlot(s: Slot, n: nat) {
    && HeapColor(s.color)
    && WfRef(s.cls, n)
    && (forall k | 0 <= k < |s.children| :: WfRef(s.children[k], n))
    && (s.tt == FreeTag ==> s.cls == Nil && s.children == [])
  }

  predicate WfPage(pg: Page, n: nat) {
    && |pg.objects| == PAGE_SIZE
    && (forall j | 0 <= j < PAGE_SIZE :: WfSlot(pg.objects[j], n))
    && (forall k | 0 <= k < |pg.freelist| :: pg.freelist[k] < PAGE_SIZE && pg.objects[pg.freelist[k]].tt == FreeTag)
    && Distinct(pg.freelist)
  }

  predicate WfPages(ps: seq<Page>) {
    forall p | 0 <= p < |ps| :: WfPage(ps[p], |ps|)
  }

  /** A reference into the heap, checked against the page table. */
  predicate IsSlotRef(ps: seq<Page>, r: ObjRef) {
    r.Ref? && r.page < |ps| && r.idx < |ps[r.page].objects|
  }

  function SlotAt(ps: seq<Page>, r: ObjRef): Slot
    requires IsSlotRef(ps, r)
  {
    ps[r.page].objects[r.idx]
  }

  /** The colour a reference shows to the marker: heap slots carry their own,
      static objects are RED. */
  function ColorOf(ps: seq<Page>, r: ObjRef): Color
    requires r.Rom? || IsSlotRef(ps, r)
  {
    if r.Rom? then RED else SlotAt(ps, r).color
  }

  /** Marked or never to be marked: null, read-only, or no longer white. */
  predicate Shaded(ps: seq<Page>, r: ObjRef) {
    r.Nil? || r.Rom? || (IsSlotRef(ps, r) && !IsWhite(SlotAt(ps, r).color))
  }

  /** The references `gc_mark_children` marks: the class pointer, then the payload. */
  function Succ(ps: seq<Page>, r: ObjRef): seq<ObjRef> {
    if IsSlotRef(ps, r) then [SlotAt(ps, r).cls] + SlotAt(ps, r).children else []
  }

  /** Replace one slot. */
  function SetSlot(ps: seq<Page>, r: ObjRef, s: Slot): seq<Page>
    requires IsSlotRef(ps, r)
  {
    ps[r.page := ps[r.page].(objects := ps[r.page].objects[r.idx := s])]
  }

  /** Repaint one slot. */
  function Paint(ps: seq<Page>, r: ObjRef, c: Color): seq<Page>
    requires IsSlotRef(ps, r)
  {
    SetSlot(ps, r, SlotAt(ps, r).(color := c))
  }

  lemma WfRefGrows(r: ObjRef, n: nat, m: nat)
    requires WfRef(r, n) && n <= m
    ensures WfRef(r, m)
  {
  }

  lemma WfSlotRef(ps: seq<Page>, r: ObjRef)
    requires WfPages(ps) && WfRef(r, |ps|) && r.Ref?
    ensures IsSlotRef(ps, r) && WfSlot(SlotAt(ps, r), |ps|)
  {
  }

  /** Replacing one slot by a well-formed one that keeps its tag keeps the
      heap well formed and every free list as it was. */
  lemma SetSlotWf(ps: seq<Page>, r: ObjRef, s: Slot)
    requires WfPages(ps) && IsSlotRef(ps, r) && WfSlot(s, |ps|)
    requires s.tt == SlotAt(ps, r).tt
    ensures var ps' := SetSlot(ps, r, s);
      WfPages(ps') && |ps'| == |ps|
      && (forall p | 0 <= p < |ps| :: ps'[p].freelist == ps[p].freelist && ps'[p].isOld == ps[p].isOld)
  {
    var ps' := SetSlot(ps, r, s);
    forall p | 0 <= p < |ps'|
      ensures WfPage(ps'[p], |ps'|)
    {
      if p == r.page {
        var pg := ps[p];
        var pg' := ps'[p];
        assert pg'.objects == pg.objects[r.idx := s];
        forall k | 0 <= k < |pg'.freelist|
          ensures pg'.freelist[k] < PAGE_SIZE && pg'.objects[pg'.freelist[k]].tt == FreeTag
        {
          assert pg.objects[pg.freelist[k]].tt == FreeTag;
        }
      }
    }
  }

  /** The slot painted BLACK, GRAY or a white keeps the heap well formed. */
  lemma PaintWf(ps: seq<Page>, r: ObjRef, c: Color)
    requires WfPages(ps) && IsSlotRef(ps, r) && HeapColor(c)
    ensures var ps' := Paint(ps, r, c);
      WfPages(ps') && |ps'| == |ps|
      && (forall p | 0 <= p < |ps| :: ps'[p].freelist == ps[p].freelist && ps'[p].isOld == ps[p].isOld)
  {
    SetSlotWf(ps, r, SlotAt(ps, r).(color := c));
  }

  // ---------------------------------------------------------------- tallies

  /** What a tally counts: allocated slots, white slots, or allocated slots
      that the sweeper will free (dead by colour but not yet free). */
  datatype Tally = NonFreeT | WhiteT | DeadLiveT(current: Color)

  predicate Counted(t: Tally, s: Slot) {
    match t
    case NonFreeT => s.tt != FreeTag
    case WhiteT => IsWhite(s.color)
    case DeadLiveT(cur) => s.tt != FreeTag && IsDead(s, cur)
  }

  function Bit(b: bool): nat { if b then 1 else 0 }

  function SlotTally(s: seq<Slot>, t: Tally): (n: nat)
    ensures n <= |s|
  {
    if s == [] then 0 else SlotTally(s[..|s| - 1], t) + Bit(Counted(t, s[|s| - 1]))
  }

  function PageTally(ps: seq<Page>, t: Tally): nat {
    if ps == [] then 0 else PageTally(ps[..|ps| - 1], t) + SlotTally(ps[|ps| - 1].objects, t)
  }

  lemma {:induction false} SlotTallyUpdate(s: seq<Slot>, j: nat, x: Slot, t: Tally)
    requires j < |s|
    ensures SlotTally(s[j := x], t) + Bit(Counted(t, s[j])) == SlotTally(s, t) + Bit(Counted(t, x))
    decreases |s|
  {
    var s' := s[j := x];
    if j == |s| - 1 {
      assert s'[..|s'| - 1] == s[..|s| - 1];
    } else {
      assert s'[..|s'| - 1] == s[..|s| - 1][j := x];
      SlotTallyUpdate(s[..|s| - 1], j, x, t);
    }
  }

  lemma {:induction false} PageTallyUpdate(ps: seq<Page>, p: nat, pg: Page, t: Tally)
    requires p < |ps|
    ensures PageTally(ps[p := pg], t) + SlotTally(ps[p].objects, t) == PageTally(ps, t) + SlotTally(pg.objects, t)
    decreases |ps|
  {
    var ps' := ps[p := pg];
    if p == |ps| - 1 {
      assert ps'[..|ps'| - 1] == ps[..|ps| - 1];
    } else {
      assert ps'[..|ps'| - 1] == ps[..|ps| - 1][p := pg];
      PageTallyUpdate(ps[..|ps| - 1], p, pg, t);
    }
  }

  /** One slot replaced: the heap tally moves by that slot's difference. */
  lemma SetSlotTally(ps: seq<Page>, r: ObjRef, s: Slot, t: Tally)
    requires IsSlotRef(ps, r)
    ensures PageTally(SetSlot(ps, r, s), t) + Bit(Counted(t, SlotAt(ps, r))) == PageTally(ps, t) + Bit(Counted(t, s))
  {
    var pg := ps[r.page].(objects := ps[r.page].objects[r.idx := s]);
    PageTallyUpdate(ps, r.page, pg, t);
    SlotTallyUpdate(ps[r.page].objects, r.idx, s, t);
  }

  lemma {:induction false} PageTallyAppend(ps: seq<Page>, pg: Page, t: Tally)
    ensures PageTally(ps + [pg], t) == PageTally(ps, t) + SlotTally(pg.objects, t)
  {
    assert (ps + [pg])[..|ps + [pg]| - 1] == ps;
  }

  /** One page's part of a tally is bounded by the tally of the whole heap. */
  lemma {:induction false} PageTallyPart(ps: seq<Page>, p: nat, t: Tally)
    requires p < |ps|
    ensures SlotTally(ps[p].objects, t) <= PageTally(ps, t)
    decreases |ps|
  {
    if p < |ps| - 1 {
      PageTallyPart(ps[..|ps| - 1], p, t);
    }
  }

  lemma {:induction false} SlotTallyNone(s: seq<Slot>, t: Tally)
    requires forall j | 0 <= j < |s| :: !Counted(t, s[j])
    ensures SlotTally(s, t) == 0
    decreases |s|
  {
    if s != [] {
      SlotTallyNone(s[..|s| - 1], t);
    }
  }

  lemma {:induction false} SlotTallySnoc(s: seq<Slot>, x: Slot, t: Tally)
    ensures SlotTally(s + [x], t) == SlotTally(s, t) + Bit(Counted(t, x))
  {
    assert (s + [x])[..|s + [x]| - 1] == s;
  }

  // ---------------------------------------------------------------- new pages

  /** The free list `add_heap` threads: each slot points at the previous one,
      so the head is the last slot.  Every slot index of the page is on it
      exactly once, in decreasing order. */
  function Countdown(n: nat): (r: seq<nat>)
    ensures |r| == n && Distinct(r)
    ensures forall k | 0 <= k < n :: r[k] < n
    ensures forall j: nat | j < n :: j in r
    ensures forall i, k | 0 <= i < k < n :: r[i] > r[k]
    ensures n > 0 ==> r[0] == n - 1
  {
    var r := seq(n, k => if 0 <= k < n then n - 1 - k else 0);
    CountdownCovers(n, r);
    r
  }

  lemma CountdownCovers(n: nat, r: seq<nat>)
    requires |r| == n && forall k | 0 <= k < n :: r[k] == n - 1 - k
    ensures forall j: nat | j < n :: j in r
  {
    forall j: nat | j < n
      ensures j in r
    {
      assert r[n - 1 - j] == j;
    }
  }

  /** The page `add_heap` links in: every slot free, all on the free list. */
  function FreshPage(): Page {
    Page(seq(PAGE_SIZE, _ => FREE_SLOT), Countdown(PAGE_SIZE), false)
  }

  lemma FreshPageProps(n: nat)
    ensures WfPage(FreshPage(), n)
    ensures |FreshPage().freelist| == PAGE_SIZE && FreshPage().freelist[0] == PAGE_SIZE - 1
    ensures SlotTally(FreshPage().objects, NonFreeT) == 0
    ensures forall c :: SlotTally(FreshPage().objects, DeadLiveT(c)) == 0
  {
    var pg := FreshPage();
    SlotTallyNone(pg.objects, NonFreeT);
    forall c ensures SlotTally(pg.objects, DeadLiveT(c)) == 0 {
      SlotTallyNone(pg.objects, DeadLiveT(c));
    }
  }

  lemma {:induction false} WfPagesGrow(ps: seq<Page>, pg: Page)
    requires WfPages(ps) && WfPage(pg, |ps| + 1)
    ensures WfPages(ps + [pg])
  {
    var n := |ps| + 1;
    forall p | 0 <= p < |ps|
      ensures WfPage(ps[p], n)
    {
      forall j | 0 <= j < PAGE_SIZE
        ensures WfSlot(ps[p].objects[j], n)
      {
        var s := ps[p].objects[j];
        assert WfSlot(s, |ps|);
        WfRefGrows(s.cls, |ps|, n);
        forall k | 0 <= k < |s.children| ensures WfRef(s.children[k], n) {
          WfRefGrows(s.children[k], |ps|, n);
        }
      }
    }
  }

  // ---------------------------------------------------------------- free_heaps

  /** The `free_heaps` list that the rebuild loop leaves: every page of
      `heaps` with a non-empty free list, each pushed to the front in turn,
      so the last such page of `heaps` comes first. */
  function FreeHeapsOf(ps: seq<Page>, hs: seq<nat>): seq<nat>
    requires forall i | 0 <= i < |hs| :: hs[i] < |ps|
  {
    if hs == [] then []
    else
      var last := hs[|hs| - 1];
      (if ps[last].freelist != [] then [last] else []) + FreeHeapsOf(ps, hs[..|hs| - 1])
  }

  lemma FreeHeapsOfSnoc(ps: seq<Page>, hs: seq<nat>, i: nat)
    requires i < |hs| && forall k | 0 <= k < |hs| :: hs[k] < |ps|
    ensures FreeHeapsOf(ps, hs[..i + 1]) ==
      (if ps[hs[i]].freelist != [] then [hs[i]] else []) + FreeHeapsOf(ps, hs[..i])
  {
    assert hs[..i + 1][..i] == hs[..i];
  }

  lemma {:induction false} FreeHeapsOfMembers(ps: seq<Page>, hs: seq<nat>)
    requires forall i | 0 <= i < |hs| :: hs[i] < |ps|
    ensures forall x :: x in FreeHeapsOf(ps, hs) <==> x in hs && ps[x].freelist != []
    ensures Distinct(hs) ==> Distinct(FreeHeapsOf(ps, hs))
    decreases |hs|
  {
    if hs != [] {
      var init := hs[..|hs| - 1];
      var last := hs[|hs| - 1];
      FreeHeapsOfMembers(ps, init);
      assert hs == init + [last];
      if Distinct(hs) {
        assert Distinct(init);
        assert last !in init;
      }
    }
  }

  // ---------------------------------------------------------------- marker invariants

  /** Every entry of the two gray lists is a GRAY heap slot, and no slot is
      listed twice. */
  predicate ListsGray(ps: seq<Page>, gl: seq<ObjRef>, al: seq<ObjRef>) {
    && (forall i | 0 <= i < |gl + al| :: IsSlotRef(ps, (gl + al)[i]) && SlotAt(ps, (gl + al)[i]).color == GRAY)
    && Distinct(gl + al)
  }

  /** Every allocated GRAY slot other than `x` is waiting on a gray list
      (`x` is the object being scanned, or Nil). */
  predicate GraysListedExcept(ps: seq<Page>, gl: seq<ObjRef>, al: seq<ObjRef>, x: ObjRef) {
    forall p, j | 0 <= p < |ps| && 0 <= j < |ps[p].objects| ::
      ps[p].objects[j].tt != FreeTag && ps[p].objects[j].color == GRAY && Ref(p, j) != x ==> Ref(p, j) in gl + al
  }

  predicate GraysListed(ps: seq<Page>, gl: seq<ObjRef>, al: seq<ObjRef>) {
    GraysListedExcept(ps, gl, al, Nil)
  }

  predicate SuccShaded(ps: seq<Page>, r: ObjRef) {
    forall k | 0 <= k < |Succ(ps, r)| :: Shaded(ps, Succ(ps, r)[k])
  }

  /** The tri-colour invariant with one object exempt (one whose references
      the mutator has just changed, or one the marker is scanning). */
  predicate BlackShadedExcept(ps: seq<Page>, x: ObjRef) {
    forall p, j | 0 <= p < |ps| && 0 <= j < |ps[p].objects| ::
      ps[p].objects[j].color == BLACK && Ref(p, j) != x ==> SuccShaded(ps, Ref(p, j))
  }

  /** The tri-colour invariant: no BLACK object refers to an unmarked one. */
  predicate BlackShaded(ps: seq<Page>) {
    BlackShadedExcept(ps, Nil)
  }

  /** The marker's invariants, with one object exempt from the tri-colour rule. */
  predicate MarkInvExcept(ps: seq<Page>, gl: seq<ObjRef>, al: seq<ObjRef>, x: ObjRef) {
    ListsGray(ps, gl, al) && GraysListed(ps, gl, al) && BlackShadedExcept(ps, x)
  }

  predicate MarkInv(ps: seq<Page>, gl: seq<ObjRef>, al: seq<ObjRef>) {
    MarkInvExcept(ps, gl, al, Nil)
  }

  /** No allocated slot is GRAY or BLACK: what a full non-generational sweep
      leaves behind. */
  predicate AllWhiteOrFree(ps: seq<Page>) {
    forall p, j | 0 <= p < |ps| && 0 <= j < |ps[p].objects| ::
      ps[p].objects[j].tt != FreeTag ==> IsWhite(ps[p].objects[j].color)
  }

  lemma PaintSucc(ps: seq<Page>, r: ObjRef, c: Color, x: ObjRef)
    requires IsSlotRef(ps, r)
    ensures Succ(Paint(ps, r, c), x) == Succ(ps, x)
  {
  }

  lemma PaintOther(ps: seq<Page>, r: ObjRef, c: Color, x: ObjRef)
    requires IsSlotRef(ps, r) && IsSlotRef(ps, x) && x != r
    ensures IsSlotRef(Paint(ps, r, c), x) && SlotAt(Paint(ps, r, c), x) == SlotAt(ps, x)
  {
  }

  /** Painting a slot with a non-white colour keeps every shaded reference shaded. */
  lemma PaintShaded(ps: seq<Page>, r: ObjRef, c: Color, x: ObjRef)
    requires IsSlotRef(ps, r) && !IsWhite(c) && Shaded(ps, x)
    ensures Shaded(Paint(ps, r, c), x)
  {
  }

  /** `add_gray_list` on a white slot: the gray lists stay gray and distinct. */
  lemma {:induction false} GrayStepLists(ps: seq<Page>, gl: seq<ObjRef>, al: seq<ObjRef>, r: ObjRef)
    requires IsSlotRef(ps, r) && IsWhite(SlotAt(ps, r).color) && ListsGray(ps, gl, al)
    ensures ListsGray(Paint(ps, r, GRAY), [r] + gl, al)
  {
    var ps' := Paint(ps, r, GRAY);
    var l := gl + al;
    var l' := ([r] + gl) + al;
    assert l' == [r] + l;
    assert r !in l by {
      forall i | 0 <= i < |l| ensures l[i] != r {
        assert SlotAt(ps, l[i]).color == GRAY;
      }
    }
    forall i | 0 <= i < |l'|
      ensures IsSlotRef(ps', l'[i]) && SlotAt(ps', l'[i]).color == GRAY
    {
      if i > 0 {
        assert l'[i] == l[i - 1];
        PaintOther(ps, r, GRAY, l[i - 1]);
      }
    }
    assert Distinct(l') by {
      forall i, j | 0 <= i < j < |l'| ensures l'[i] != l'[j] {
        if i > 0 {
          assert l'[i] == l[i - 1] && l'[j] == l[j - 1];
        } else {
          assert l'[j] == l[j - 1];
        }
      }
    }
  }

  /** `add_gray_list`: the new gray slot is on the list it was pushed to. */
  lemma {:induction false} GrayStepListed(ps: seq<Page>, gl: seq<ObjRef>, al: seq<ObjRef>, r: ObjRef, x: ObjRef)
    requires IsSlotRef(ps, r) && GraysListedExcept(ps, gl, al, x)
    ensures GraysListedExcept(Paint(ps, r, GRAY), [r] + gl, al, x)
  {
    var ps' := Paint(ps, r, GRAY);
    forall p, j | 0 <= p < |ps'| && 0 <= j < |ps'[p].objects| &&
        ps'[p].objects[j].tt != FreeTag && ps'[p].objects[j].color == GRAY && Ref(p, j) != x
      ensures Ref(p, j) in ([r] + gl) + al
    {
      if Ref(p, j) != r {
        PaintOther(ps, r, GRAY, Ref(p, j));
        assert Ref(p, j) in gl + al;
      }
    }
  }

  /** Painting a slot a non-white colour keeps every black object's
      references shaded. */
  lemma {:induction false} DarkPaintBlackShaded(ps: seq<Page>, r: ObjRef, c: Color, x: ObjRef)
    requires IsSlotRef(ps, r) && !IsWhite(c) && (c != BLACK || r == x) && BlackShadedExcept(ps, x)
    ensures BlackShadedExcept(Paint(ps, r, c), x)
  {
    var ps' := Paint(ps, r, c);
    forall p, j | 0 <= p < |ps'| && 0 <= j < |ps'[p].objects| &&
        ps'[p].objects[j].color == BLACK && Ref(p, j) != x
      ensures SuccShaded(ps', Ref(p, j))
    {
      PaintOther(ps, r, c, Ref(p, j));
      PaintSucc(ps, r, c, Ref(p, j));
      assert SuccShaded(ps, Ref(p, j));
      forall k | 0 <= k < |Succ(ps', Ref(p, j))| ensures Shaded(ps', Succ(ps', Ref(p, j))[k]) {
        PaintShaded(ps, r, c, Succ(ps, Ref(p, j))[k]);
      }
    }
  }

  // ---------------------------------------------------------------- one mark, one scan

  /** `mrb_gc_mark` acts on exactly the white heap slots (a heap slot is
      never RED). */
  predicate WillMark(ps: seq<Page>, y: ObjRef) {
    IsSlotRef(ps, y) && IsWhite(SlotAt(ps, y).color)
  }

  /** The heap after `mrb_gc_mark(y)`. */
  function MarkedHeap(ps: seq<Page>, y: ObjRef): seq<Page> {
    if WillMark(ps, y) then Paint(ps, y, GRAY) else ps
  }

  /** The gray list after `mrb_gc_mark(y)`. */
  function MarkedList(ps: seq<Page>, gl: seq<ObjRef>, y: ObjRef): seq<ObjRef> {
    if WillMark(ps, y) then [y] + gl else gl
  }

  /** Marking one reference keeps the marker's invariants. */
  lemma MarkStep(ps: seq<Page>, gl: seq<ObjRef>, al: seq<ObjRef>, y: ObjRef, x: ObjRef)
    requires MarkInvExcept(ps, gl, al, x)
    ensures MarkInvExcept(MarkedHeap(ps, y), MarkedList(ps, gl, y), al, x)
  {
    if WillMark(ps, y) {
      GrayStepLists(ps, gl, al, y);
      GrayStepListed(ps, gl, al, y, Nil);
      DarkPaintBlackShaded(ps, y, GRAY, x);
    }
  }

  /** The second heap is the first with some white slots painted gray: all
      that marking ever does. */
  ghost predicate Grayed(ps: seq<Page>, ps': seq<Page>) {
    && |ps'| == |ps|
    && (forall p | 0 <= p < |ps| ::
          |ps'[p].objects| == |ps[p].objects| && ps'[p].freelist == ps[p].freelist && ps'[p].isOld == ps[p].isOld)
    && (forall p, j | 0 <= p < |ps| && 0 <= j < |ps[p].objects| ::
          ps'[p].objects[j] == ps[p].objects[j]
          || (IsWhite(ps[p].objects[j].color) && ps'[p].objects[j] == ps[p].objects[j].(color := GRAY)))
  }

  lemma GrayedRefl(ps: seq<Page>)
    ensures Grayed(ps, ps)
  {
  }

  lemma GrayedTrans(ps: seq<Page>, ps': seq<Page>, ps'': seq<Page>)
    requires Grayed(ps, ps') && Grayed(ps', ps'')
    ensures Grayed(ps, ps'')
  {
    forall p, j | 0 <= p < |ps| && 0 <= j < |ps[p].objects|
      ensures ps''[p].objects[j] == ps[p].objects[j]
          || (IsWhite(ps[p].objects[j].color) && ps''[p].objects[j] == ps[p].objects[j].(color := GRAY))
    {
      assert |ps'[p].objects| == |ps[p].objects|;
      var a, b, c := ps[p].objects[j], ps'[p].objects[j], ps''[p].objects[j];
      assert b == a || (IsWhite(a.color) && b == a.(color := GRAY));
      assert c == b || (IsWhite(b.color) && c == b.(color := GRAY));
    }
  }

  lemma MarkedGrayed(ps: seq<Page>, y: ObjRef)
    ensures Grayed(ps, MarkedHeap(ps, y))
  {
  }

  /** What graying keeps: well-formedness, every object's references and
      tag, every non-white slot, and every shaded reference. */
  lemma GrayedKeeps(ps: seq<Page>, ps': seq<Page>, z: ObjRef)
    requires Grayed(ps, ps')
    ensures Succ(ps', z) == Succ(ps, z)
    ensures IsSlotRef(ps, z) ==> IsSlotRef(ps', z) && SlotAt(ps', z).tt == SlotAt(ps, z).tt
    ensures IsSlotRef(ps, z) && !IsWhite(SlotAt(ps, z).color) ==> SlotAt(ps', z) == SlotAt(ps, z)
    ensures Shaded(ps, z) ==> Shaded(ps', z)
  {
  }

  lemma GrayedWf(ps: seq<Page>, ps': seq<Page>)
    requires Grayed(ps, ps') && WfPages(ps)
    ensures WfPages(ps')
  {
    forall p | 0 <= p < |ps'| ensures WfPage(ps'[p], |ps'|) {
      assert WfPage(ps[p], |ps|);
      forall j | 0 <= j < PAGE_SIZE ensures WfSlot(ps'[p].objects[j], |ps'|) {
        assert WfSlot(ps[p].objects[j], |ps|);
      }
    }
  }

  /** Shaded references stay shaded. */
  ghost predicate ShadedKept(ps: seq<Page>, ps': seq<Page>) {
    forall z :: Shaded(ps, z) ==> Shaded(ps', z)
  }

  lemma ShadedKeptTrans(ps: seq<Page>, ps': seq<Page>, ps'': seq<Page>)
    requires ShadedKept(ps, ps') && ShadedKept(ps', ps'')
    ensures ShadedKept(ps, ps'')
  {
  }

  /** After marking `y`, `y` is shaded, nothing shaded has been unshaded,
      no object's references have changed, and a slot that was not white
      is as it was. */
  lemma MarkStepShape(ps: seq<Page>, y: ObjRef, z: ObjRef)
    requires WfPages(ps) && WfRef(y, |ps|)
    ensures var ps' := MarkedHeap(ps, y);
      && |ps'| == |ps| && WfPages(ps')
      && Shaded(ps', y) && ShadedKept(ps, ps')
      && Succ(ps', z) == Succ(ps, z)
      && (IsSlotRef(ps, z) ==> IsSlotRef(ps', z) && (!IsWhite(SlotAt(ps, z).color) ==> SlotAt(ps', z) == SlotAt(ps, z)))
  {
    if WillMark(ps, y) {
      PaintWf(ps, y, GRAY);
      PaintSucc(ps, y, GRAY, z);
      forall w | Shaded(ps, w) ensures Shaded(Paint(ps, y, GRAY), w) {
        PaintShaded(ps, y, GRAY, w);
      }
    }
  }

  /** One turn of a loop that marks `rs[0]`, `rs[1]`, ... in order: the heap
      stays a graying of the one the loop began with, the references marked
      so far stay shaded, and the invariants hold throughout. */
  lemma MarkLoopStep(ps0: seq<Page>, ps: seq<Page>, gl: seq<ObjRef>, al: seq<ObjRef>,
                     rs: seq<ObjRef>, i: nat, x: ObjRef, inv: bool)
    requires WfPages(ps) && i < |rs| && WfRef(rs[i], |ps|)
    requires Grayed(ps0, ps) && (forall k | 0 <= k < i :: Shaded(ps, rs[k]))
    requires inv ==> MarkInvExcept(ps, gl, al, x)
    ensures var ps' := MarkedHeap(ps, rs[i]);
      && Grayed(ps0, ps')
      && (forall k | 0 <= k < i + 1 :: Shaded(ps', rs[k]))
      && (inv ==> MarkInvExcept(ps', MarkedList(ps, gl, rs[i]), al, x))
  {
    var ps' := MarkedHeap(ps, rs[i]);
    if inv {
      MarkStep(ps, gl, al, rs[i], x);
    }
    MarkStepShape(ps, rs[i], rs[i]);
    MarkedGrayed(ps, rs[i]);
    GrayedTrans(ps0, ps, ps');
    forall k | 0 <= k < i + 1 ensures Shaded(ps', rs[k]) {
      if k < i {
        GrayedKeeps(ps, ps', rs[k]);
      }
    }
  }

  /** The object about to be scanned: gray, off both lists, and the only
      gray object not listed and the only black one allowed an unmarked
      successor. */
  predicate Scanning(ps: seq<Page>, gl: seq<ObjRef>, al: seq<ObjRef>, r: ObjRef) {
    && ListsGray(ps, gl, al) && r !in gl + al
    && GraysListedExcept(ps, gl, al, r) && BlackShadedExcept(ps, r)
  }

  /** `gc_mark_children` first paints the object black. */
  lemma BlackenStep(ps: seq<Page>, gl: seq<ObjRef>, al: seq<ObjRef>, r: ObjRef)
    requires IsSlotRef(ps, r) && Scanning(ps, gl, al, r)
    ensures MarkInvExcept(Paint(ps, r, BLACK), gl, al, r)
  {
    var ps' := Paint(ps, r, BLACK);
    var l := gl + al;
    forall i | 0 <= i < |l| ensures IsSlotRef(ps', l[i]) && SlotAt(ps', l[i]).color == GRAY {
      PaintOther(ps, r, BLACK, l[i]);
    }
    forall p, j | 0 <= p < |ps'| && 0 <= j < |ps'[p].objects| &&
        ps'[p].objects[j].tt != FreeTag && ps'[p].objects[j].color == GRAY
      ensures Ref(p, j) in l
    {
      if Ref(p, j) != r {
        PaintOther(ps, r, BLACK, Ref(p, j));
      }
    }
    DarkPaintBlackShaded(ps, r, BLACK, r);
  }

  /** Once the scanned object's successors are all shaded, it needs no
      exemption. */
  lemma CloseExempt(ps: seq<Page>, gl: seq<ObjRef>, al: seq<ObjRef>, r: ObjRef)
    requires MarkInvExcept(ps, gl, al, r) && SuccShaded(ps, r)
    ensures MarkInv(ps, gl, al)
  {
  }

  /** `gc_mark_children` after painting the object black: the references it
      is about to mark are well formed, and the invariants hold with the
      object exempt. */
  lemma ScanStart(ps: seq<Page>, gl: seq<ObjRef>, al: seq<ObjRef>, r: ObjRef, inv: bool)
    requires WfPages(ps) && IsSlotRef(ps, r) && (inv ==> Scanning(ps, gl, al, r))
    ensures var ps1 := Paint(ps, r, BLACK);
      && Succ(ps1, r) == Succ(ps, r)
      && (forall k | 0 <= k < |Succ(ps1, r)| :: WfRef(Succ(ps1, r)[k], |ps1|))
      && (inv ==> MarkInvExcept(ps1, gl, al, r))
  {
    if inv {
      BlackenStep(ps, gl, al, r);
    }
    PaintSucc(ps, r, BLACK, r);
    var s := SlotAt(ps, r);
    assert WfSlot(s, |ps|);
    var succ := Succ(ps, r);
    forall k | 0 <= k < |succ| ensures WfRef(succ[k], |ps|) {
      if k > 0 {
        assert succ[k] == s.children[k - 1];
      }
    }
  }

  /** `gc_mark_children` once every reference has been marked: the object
      is black, all it refers to is shaded, and the exemption is closed. */
  lemma ScanDone(ps: seq<Page>, ps2: seq<Page>, gl: seq<ObjRef>, gl2: seq<ObjRef>, al: seq<ObjRef>, r: ObjRef, inv: bool)
    requires IsSlotRef(ps, r)
    requires var ps1 := Paint(ps, r, BLACK);
      && Grayed(ps1, ps2)
      && (forall k | 0 <= k < |Succ(ps1, r)| :: Shaded(ps2, Succ(ps1, r)[k]))
      && (inv ==> MarkInvExcept(ps2, gl2, al, r))
    ensures IsSlotRef(ps2, r) && SlotAt(ps2, r).color == BLACK
    ensures Succ(ps2, r) == Succ(ps, r) && SuccShaded(ps2, r)
    ensures ShadedKept(ps, ps2)
    ensures inv ==> MarkInv(ps2, gl2, al)
  {
    var ps1 := Paint(ps, r, BLACK);
    PaintSucc(ps, r, BLACK, r);
    GrayedKeeps(ps1, ps2, r);
    forall z | Shaded(ps, z) ensures Shaded(ps2, z) {
      PaintShaded(ps, r, BLACK, z);
      GrayedKeeps(ps1, ps2, z);
    }
    if inv {
      CloseExempt(ps2, gl2, al, r);
    }
  }

  // ---------------------------------------------------------------- reachability

  /** A chain of references, each the successor of the one before. */
  ghost predicate IsPath(ps: seq<Page>, path: seq<ObjRef>) {
    forall i | 0 <= i < |path| - 1 :: path[i + 1] in Succ(ps, path[i])
  }

  ghost predicate Reachable(ps: seq<Page>, roots: seq<ObjRef>, r: ObjRef) {
    exists path: seq<ObjRef> :: |path| > 0 && path[0] in roots && path[|path| - 1] == r && IsPath(ps, path)
  }

  /** With marking complete, a successor of a shaded object is shaded. */
  lemma SuccOfShaded(ps: seq<Page>, a: ObjRef, b: ObjRef)
    requires WfPages(ps) && MarkInv(ps, [], [])
    requires Shaded(ps, a) && b in Succ(ps, a)
    ensures Shaded(ps, b)
  {
    var s := SlotAt(ps, a);
    assert WfSlot(ps[a.page].objects[a.idx], |ps|);
    var k :| 0 <= k < |Succ(ps, a)| && Succ(ps, a)[k] == b;
    if s.tt == FreeTag {
      assert Succ(ps, a) == [Nil];
    } else {
      assert a == Ref(a.page, a.idx) && a !in [] + [];
      assert s.color == BLACK;
      assert SuccShaded(ps, a);
      assert Shaded(ps, Succ(ps, a)[k]);
    }
  }

  /** Marking is complete: the invariants hold and both gray lists are empty.
      Then shading spreads along every path. */
  lemma {:induction false} MarkedPathShaded(ps: seq<Page>, path: seq<ObjRef>)
    requires WfPages(ps) && MarkInv(ps, [], [])
    requires |path| > 0 && Shaded(ps, path[0]) && IsPath(ps, path)
    ensures forall i | 0 <= i < |path| :: Shaded(ps, path[i])
    decreases |path|
  {
    if |path| > 1 {
      var init := path[..|path| - 1];
      assert IsPath(ps, init) by {
        forall i | 0 <= i < |init| - 1 ensures init[i + 1] in Succ(ps, init[i]) {
          assert init[i] == path[i] && init[i + 1] == path[i + 1];
        }
      }
      MarkedPathShaded(ps, init);
      assert path[|path| - 2] == init[|init| - 1];
      SuccOfShaded(ps, path[|path| - 2], path[|path| - 1]);
      forall i | 0 <= i < |path| ensures Shaded(ps, path[i]) {
        if i < |path| - 1 {
          assert path[i] == init[i];
        }
      }
    }
  }

  /** The property that makes sweeping safe: once marking completes, every
      object reachable from the roots is marked, so none is dead. */
  lemma ReachableNotDead(ps: seq<Page>, roots: seq<ObjRef>, current: Color, r: ObjRef)
    requires WfPages(ps) && MarkInv(ps, [], []) && IsWhitePart(current)
    requires forall i | 0 <= i < |roots| :: Shaded(ps, roots[i])
    requires Reachable(ps, roots, r) && IsSlotRef(ps, r) && SlotAt(ps, r).tt != FreeTag
    ensures SlotAt(ps, r).color == BLACK
    ensures !IsDead(SlotAt(ps, r), current)
  {
    var path: seq<ObjRef> :| |path| > 0 && path[0] in roots && path[|path| - 1] == r && IsPath(ps, path);
    MarkedPathShaded(ps, path);
    assert Shaded(ps, r);
    var s := SlotAt(ps, r);
    assert WfSlot(s, |ps|);
    assert Ref(r.page, r.idx) !in [] + [];
    assert s.color != GRAY;
  }
}
