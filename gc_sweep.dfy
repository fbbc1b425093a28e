/*
 * Sweeping one heap page, as `incremental_sweep_phase` does for each page
 * it visits: every dead object is freed and pushed on the page's free list,
 * every live one is repainted the current white when the collector is not
 * generational, and the page is reported dead when all of its slots were.
 */
module GcSweep {
  import opened GcHeap
  import opened GcState

  /** A dead, allocated slot: the sweeper frees it. */
  predicate Doomed(s: Slot, cw: Color) {
    Counted(DeadLiveT(cw), s)
  }

  /** `obj_free` leaves the slot FREE: it no longer counts as allocated,
      the sweeper will not free it again, it stays dead to the allocator's
      `is_dead` test, its colour is not touched and it references nothing. */
  function FreedSlot(s: Slot): (r: Slot)
    ensures !Counted(NonFreeT, r) && Counted(WhiteT, r) == Counted(WhiteT, s)
    ensures forall c :: IsDead(r, c) && !Counted(DeadLiveT(c), r)
    ensures forall n :: WfSlot(s, n) ==> WfSlot(r, n)
    ensures r.color == s.color && r.cls == Nil && r.children == []
  {
    Slot(FreeTag, s.color, Nil, [])
  }

  /** One slot after the sweep: freed when doomed, otherwise (outside
      generational mode) painted the current white for the next cycle. */
  function SweptSlot(s: Slot, cw: Color, gen: bool): Slot {
    if IsDead(s, cw) then (if s.tt != FreeTag then FreedSlot(s) else s)
    else if gen then s
    else s.(color := cw)
  }

  function SweptObjects(objs: seq<Slot>, cw: Color, gen: bool): (r: seq<Slot>)
    ensures |r| == |objs|
    ensures forall j | 0 <= j < |objs| :: r[j] == SweptSlot(objs[j], cw, gen)
  {
    seq(|objs|, j requires 0 <= j < |objs| => SweptSlot(objs[j], cw, gen))
  }

  /** The slots freed among the first `n`, in the order the free list ends
      up holding them: each is pushed at the front, so the last comes first. */
  function NewlyFreed(objs: seq<Slot>, cw: Color, n: nat): seq<nat>
    requires n <= |objs|
  {
    if n == 0 then []
    else (if Doomed(objs[n - 1], cw) then [n - 1] else []) + NewlyFreed(objs, cw, n - 1)
  }

  /** The free list after visiting the first `n` slots of a page whose list
      was `fl`: each freed slot is pushed at the front. */
  function FreeListAfter(objs: seq<Slot>, fl: seq<nat>, cw: Color, n: nat): seq<nat>
    requires n <= |objs|
  {
    if n == 0 then fl
    else if Doomed(objs[n - 1], cw) then [n - 1] + FreeListAfter(objs, fl, cw, n - 1)
    else FreeListAfter(objs, fl, cw, n - 1)
  }

  /** The page once swept (when the minor collection does not skip it). */
  function SweptPage(pg: Page, cw: Color, gen: bool): Page {
    Page(SweptObjects(pg.objects, cw, gen), FreeListAfter(pg.objects, pg.freelist, cw, |pg.objects|), pg.isOld)
  }

  predicate AllDead(objs: seq<Slot>, cw: Color) {
    forall j | 0 <= j < |objs| :: IsDead(objs[j], cw)
  }

  /** The inner loop of `incremental_sweep_phase` over one page.  `skip` is
      the minor collection's test for an old page, whose slots are not
      visited at all.  Returns the page, the number of objects freed, and
      whether every slot was dead. */
  method SweepPage(pg: Page, cw: Color, gen: bool, skip: bool) returns (res: Page, freed: nat, deadSlot: bool)
    ensures res == if skip then pg else SweptPage(pg, cw, gen)
    ensures freed == if skip then 0 else SlotTally(pg.objects, DeadLiveT(cw))
    ensures deadSlot == (!skip && AllDead(pg.objects, cw))
  {
    res := pg;
    freed := 0;
    deadSlot := true;
    if skip {
      deadSlot := false;
      return;
    }
    var objs := pg.objects;
    var freelist: seq<nat> := pg.freelist;
    var j := 0;
    while j < |objs|
      invariant 0 <= j <= |objs| == |pg.objects|
      invariant forall k | 0 <= k < j :: objs[k] == SweptSlot(pg.objects[k], cw, gen)
      invariant forall k | j <= k < |objs| :: objs[k] == pg.objects[k]
      invariant freelist == FreeListAfter(pg.objects, pg.freelist, cw, j)
      invariant freed + |pg.freelist| == |freelist|
      invariant deadSlot == (forall k | 0 <= k < j :: IsDead(pg.objects[k], cw))
    {
      var s := objs[j];
      if IsDead(s, cw) {
        if s.tt != FreeTag {
          objs := objs[j := FreedSlot(s)];
          freelist := [j] + freelist;
          freed := freed + 1;
        }
      } else {
        if !gen {
          objs := objs[j := s.(color := cw)];
        }
        deadSlot := false;
      }
      j := j + 1;
    }
    FreeListAfterSplit(pg.objects, pg.freelist, cw, j);
    NewlyFreedCount(pg.objects, cw, j);
    assert pg.objects == pg.objects[..j];
    assert objs == SweptObjects(pg.objects, cw, gen);
    res := Page(objs, freelist, pg.isOld);
  }

  lemma {:induction false} FreeListAfterSplit(objs: seq<Slot>, fl: seq<nat>, cw: Color, n: nat)
    requires n <= |objs|
    ensures FreeListAfter(objs, fl, cw, n) == NewlyFreed(objs, cw, n) + fl
    decreases n
  {
    if n > 0 {
      FreeListAfterSplit(objs, fl, cw, n - 1);
      if Doomed(objs[n - 1], cw) {
        assert [n - 1] + (NewlyFreed(objs, cw, n - 1) + fl) == ([n - 1] + NewlyFreed(objs, cw, n - 1)) + fl;
      }
    }
  }

  // ---------------------------------------------------------------- what sweeping keeps

  lemma {:induction false} NewlyFreedProps(objs: seq<Slot>, cw: Color, n: nat)
    requires n <= |objs|
    ensures forall k | 0 <= k < |NewlyFreed(objs, cw, n)| ::
      NewlyFreed(objs, cw, n)[k] < n && Doomed(objs[NewlyFreed(objs, cw, n)[k]], cw)
    ensures Distinct(NewlyFreed(objs, cw, n))
    decreases n
  {
    if n > 0 {
      NewlyFreedProps(objs, cw, n - 1);
      var rest := NewlyFreed(objs, cw, n - 1);
      var l := NewlyFreed(objs, cw, n);
      if Doomed(objs[n - 1], cw) {
        assert l == [n - 1] + rest;
        forall i, k | 0 <= i < k < |l| ensures l[i] != l[k] {
          assert l[k] == rest[k - 1];
          if i > 0 {
            assert l[i] == rest[i - 1];
          }
        }
      }
    }
  }

  /** One slot is freed for each doomed object. */
  lemma {:induction false} NewlyFreedCount(objs: seq<Slot>, cw: Color, n: nat)
    requires n <= |objs|
    ensures |NewlyFreed(objs, cw, n)| == SlotTally(objs[..n], DeadLiveT(cw))
    decreases n
  {
    if n > 0 {
      NewlyFreedCount(objs, cw, n - 1);
      var pre := objs[..n];
      assert pre[..n - 1] == objs[..n - 1] && pre[n - 1] == objs[n - 1];
      assert SlotTally(pre, DeadLiveT(cw)) == SlotTally(objs[..n - 1], DeadLiveT(cw)) + Bit(Doomed(objs[n - 1], cw));
    }
  }

  /** Sweeping keeps a page well formed: a freed object is a free slot with
      no references, freed slots are new to the free list, and the repaint
      colour is a heap colour. */
  lemma SweptPageWf(pg: Page, cw: Color, gen: bool, n: nat)
    requires WfPage(pg, n) && IsWhitePart(cw)
    ensures WfPage(SweptPage(pg, cw, gen), n)
  {
    var objs := pg.objects;
    var pg' := SweptPage(pg, cw, gen);
    NewlyFreedProps(objs, cw, |objs|);
    var nf := NewlyFreed(objs, cw, |objs|);
    FreeListAfterSplit(objs, pg.freelist, cw, |objs|);
    forall j | 0 <= j < PAGE_SIZE ensures WfSlot(pg'.objects[j], n) {
      assert WfSlot(objs[j], n);
    }
    forall k | 0 <= k < |pg'.freelist|
      ensures pg'.freelist[k] < PAGE_SIZE && pg'.objects[pg'.freelist[k]].tt == FreeTag
    {
      if k >= |nf| {
        assert pg'.freelist[k] == pg.freelist[k - |nf|];
      }
    }
    assert Distinct(pg'.freelist) by {
      forall i, k | 0 <= i < k < |pg'.freelist| ensures pg'.freelist[i] != pg'.freelist[k] {
        if i >= |nf| {
          assert pg'.freelist[i] == pg.freelist[i - |nf|] && pg'.freelist[k] == pg.freelist[k - |nf|];
        } else if k >= |nf| {
          assert pg'.freelist[k] == pg.freelist[k - |nf|];
          assert objs[pg.freelist[k - |nf|]].tt == FreeTag;
        }
      }
    }
  }

  /** Slot by slot: a swept slot is allocated exactly when the original was
      allocated and not doomed, and a swept slot is never doomed. */
  lemma SweptSlotCounts(s: Slot, cw: Color, gen: bool)
    requires IsWhitePart(cw)
    ensures Bit(Counted(NonFreeT, SweptSlot(s, cw, gen))) + Bit(Doomed(s, cw)) == Bit(Counted(NonFreeT, s))
    ensures !Doomed(SweptSlot(s, cw, gen), cw)
  {
    OtherWhiteFlips(cw);
    if !IsDead(s, cw) && !gen {
      assert s.(color := cw).color & OtherWhite(cw) & WHITES == 0 by {
        assert cw == WHITE_A || cw == WHITE_B;
      }
    }
  }

  /** Sweeping frees exactly the doomed objects and leaves none doomed. */
  lemma {:induction false} SweptTallies(objs: seq<Slot>, cw: Color, gen: bool)
    requires IsWhitePart(cw)
    ensures SlotTally(SweptObjects(objs, cw, gen), NonFreeT) + SlotTally(objs, DeadLiveT(cw)) == SlotTally(objs, NonFreeT)
    ensures SlotTally(SweptObjects(objs, cw, gen), DeadLiveT(cw)) == 0
    decreases |objs|
  {
    if objs != [] {
      var init := objs[..|objs| - 1];
      var sw := SweptObjects(objs, cw, gen);
      SweptTallies(init, cw, gen);
      assert sw[..|sw| - 1] == SweptObjects(init, cw, gen);
      SweptSlotCounts(objs[|objs| - 1], cw, gen);
    }
  }

  /** A page whose every slot was dead is left with every slot free. */
  lemma AllDeadFree(objs: seq<Slot>, cw: Color, gen: bool)
    requires AllDead(objs, cw)
    ensures SlotTally(SweptObjects(objs, cw, gen), NonFreeT) == 0
  {
    SlotTallyNone(SweptObjects(objs, cw, gen), NonFreeT);
  }

  // ---------------------------------------------------------------- one page of the sweep phase

  /** A page the sweep keeps: it becomes old exactly when a minor collection
      left it without a free slot. */
  function KeptPage(pg: Page, minor: bool): Page {
    pg.(isOld := pg.freelist == [] && minor)
  }

  lemma ReplacePageWf(ps: seq<Page>, id: nat, pg: Page)
    requires WfPages(ps) && id < |ps| && WfPage(pg, |ps|)
    ensures WfPages(ps[id := pg])
  {
  }

  /** Replacing a page whose objects lose `f` allocated slots, all of them
      among those waiting to be freed, lowers both counters by `f`. */
  lemma ReplacePageCounts(ps: seq<Page>, id: nat, pg: Page, f: nat, cw: Color, live: nat, lam: nat)
    requires id < |ps| && CountsWf(ps, cw, live, lam, true)
    requires SlotTally(pg.objects, NonFreeT) + f == SlotTally(ps[id].objects, NonFreeT)
    requires SlotTally(pg.objects, DeadLiveT(cw)) + f == SlotTally(ps[id].objects, DeadLiveT(cw))
    ensures f <= lam <= live
    ensures CountsWf(ps[id := pg], cw, live - f, lam - f, true)
  {
    PageTallyUpdate(ps, id, pg, NonFreeT);
    PageTallyUpdate(ps, id, pg, DeadLiveT(cw));
    PageTallyPart(ps, id, DeadLiveT(cw));
  }

  /** The sweep visits page `hs[pos]` and keeps it: the cursor moves past
      it and the counters drop by the number of objects freed. */
  lemma SweepKeepStep(ps: seq<Page>, hs: seq<nat>, pos: nat, cw: Color, live: nat, lam: nat,
                      gen: bool, skip: bool, minor: bool)
    requires WfPages(ps) && PageListWf(ps, hs, pos) && CountsWf(ps, cw, live, lam, true) && pos < |hs|
    ensures var id := hs[pos];
      var pg := if skip then ps[id] else SweptPage(ps[id], cw, gen);
      var f := if skip then 0 else SlotTally(ps[id].objects, DeadLiveT(cw));
      var ps' := ps[id := KeptPage(pg, minor)];
      && f <= lam <= live
      && WfPages(ps') && PageListWf(ps', hs, pos + 1)
      && CountsWf(ps', cw, live - f, lam - f, true)
  {
    var id := hs[pos];
    var pg := if skip then ps[id] else SweptPage(ps[id], cw, gen);
    var f := if skip then 0 else SlotTally(ps[id].objects, DeadLiveT(cw));
    if !skip {
      SweptPageWf(ps[id], cw, gen, |ps|);
      SweptTallies(ps[id].objects, cw, gen);
    }
    ReplacePageWf(ps, id, KeptPage(pg, minor));
    ReplacePageCounts(ps, id, KeptPage(pg, minor), f, cw, live, lam);
  }

  /** The sweep visits page `hs[pos]`, finds every slot dead and releases
      the page: it leaves `heaps`, with every slot free. */
  lemma SweepReleaseStep(ps: seq<Page>, hs: seq<nat>, pos: nat, cw: Color, live: nat, lam: nat, gen: bool)
    requires WfPages(ps) && PageListWf(ps, hs, pos) && CountsWf(ps, cw, live, lam, true) && pos < |hs|
    requires AllDead(ps[hs[pos]].objects, cw)
    ensures var id := hs[pos];
      var f := SlotTally(ps[id].objects, DeadLiveT(cw));
      var ps' := ps[id := SweptPage(ps[id], cw, gen)];
      && f <= lam <= live
      && WfPages(ps') && PageListWf(ps', hs[..pos] + hs[pos + 1..], pos)
      && CountsWf(ps', cw, live - f, lam - f, true)
  {
    var id := hs[pos];
    var pg := SweptPage(ps[id], cw, gen);
    var ps' := ps[id := pg];
    var hs' := hs[..pos] + hs[pos + 1..];
    SweptPageWf(ps[id], cw, gen, |ps|);
    SweptTallies(ps[id].objects, cw, gen);
    AllDeadFree(ps[id].objects, cw, gen);
    ReplacePageWf(ps, id, pg);
    ReplacePageCounts(ps, id, pg, SlotTally(ps[id].objects, DeadLiveT(cw)), cw, live, lam);
    UnlinkPage(ps, hs, pos, pg);
  }

  /** A page with no allocated object may leave `heaps`. */
  lemma UnlinkPage(ps: seq<Page>, hs: seq<nat>, pos: nat, pg: Page)
    requires PageListWf(ps, hs, pos) && pos < |hs| && SlotTally(pg.objects, NonFreeT) == 0
    ensures PageListWf(ps[hs[pos] := pg], hs[..pos] + hs[pos + 1..], pos)
  {
    var id := hs[pos];
    var ps' := ps[id := pg];
    var hs' := hs[..pos] + hs[pos + 1..];
    assert forall i | 0 <= i < |hs'| :: hs'[i] == (if i < pos then hs[i] else hs[i + 1]);
    assert Distinct(hs') by {
      forall i, k | 0 <= i < k < |hs'| ensures hs'[i] != hs'[k] {
        var i0 := if i < pos then i else i + 1;
        var k0 := if k < pos then k else k + 1;
        assert hs'[i] == hs[i0] && hs'[k] == hs[k0] && i0 < k0;
      }
    }
    forall p | 0 <= p < |ps'| && p !in hs' ensures SlotTally(ps'[p].objects, NonFreeT) == 0 {
      if p != id {
        assert p !in hs;
      }
    }
  }

  // ---------------------------------------------------------------- progress of one sweep call

  /** What the sweep does to one page: in a minor cycle an old page is
      skipped, any other page is swept. */
  function SweepOrSkip(pg: Page, cw: Color, gen: bool, minor: bool): Page {
    if minor && pg.isOld then pg else SweptPage(pg, cw, gen)
  }

  predicate IsSuffix<T(==)>(a: seq<T>, b: seq<T>) {
    |a| <= |b| && a == b[|b| - |a|..]
  }

  /** Page `q` after a sweep call that started from pages `ps0`, page list
      `hs0` and cursor `pos0` and has reached list `hs` and cursor `pos`: a
      page visited and kept is swept (or skipped) and re-aged, a page
      released had only dead slots and is swept, any other page is as it was. */
  ghost predicate PageAfterSweep(ps0: seq<Page>, hs0: seq<nat>, pos0: nat,
                                 ps: seq<Page>, hs: seq<nat>, pos: nat,
                                 cw: Color, gen: bool, minor: bool, q: nat) {
    && pos0 <= pos <= |hs| && q < |ps| && q < |ps0|
    && ps[q] == (if q in hs[pos0..pos] then KeptPage(SweepOrSkip(ps0[q], cw, gen, minor), minor)
                 else if q in hs0 && q !in hs then SweptPage(ps0[q], cw, gen)
                 else ps0[q])
    && (q in hs0 && q !in hs ==> AllDead(ps0[q].objects, cw))
  }

  /** The state of a sweep call: the pages before `pos0` are untouched, the
      pages still to visit are the tail of the original list, the list only
      loses pages, and every page is as `PageAfterSweep` says. */
  ghost predicate SweepProgress(ps0: seq<Page>, hs0: seq<nat>, pos0: nat,
                                ps: seq<Page>, hs: seq<nat>, pos: nat,
                                cw: Color, gen: bool, minor: bool) {
    && |ps| == |ps0|
    && pos0 <= pos <= |hs| && pos0 <= |hs0|
    && hs[..pos0] == hs0[..pos0]
    && IsSuffix(hs[pos..], hs0)
    && (forall q | q in hs :: q in hs0)
    && (forall q: nat | q < |ps| :: PageAfterSweep(ps0, hs0, pos0, ps, hs, pos, cw, gen, minor, q))
  }

  lemma SweepProgressStart(ps: seq<Page>, hs: seq<nat>, pos: nat, cw: Color, gen: bool, minor: bool)
    requires pos <= |hs|
    ensures SweepProgress(ps, hs, pos, ps, hs, pos, cw, gen, minor)
  {
    assert hs[pos..] == hs[|hs| - |hs[pos..]|..];
    forall q: nat | q < |ps| ensures PageAfterSweep(ps, hs, pos, ps, hs, pos, cw, gen, minor, q) {
    }
  }

  /** The page under the cursor has not been touched yet. */
  lemma SweepProgressCursor(ps0: seq<Page>, hs0: seq<nat>, pos0: nat, ps: seq<Page>, hs: seq<nat>, pos: nat,
                            cw: Color, gen: bool, minor: bool)
    requires SweepProgress(ps0, hs0, pos0, ps, hs, pos, cw, gen, minor)
    requires Distinct(hs) && pos < |hs| && hs[pos] < |ps|
    ensures ps[hs[pos]] == ps0[hs[pos]]
  {
    var id := hs[pos];
    assert id in hs;
    assert PageAfterSweep(ps0, hs0, pos0, ps, hs, pos, cw, gen, minor, id);
  }

  lemma SweepProgressKeep(ps0: seq<Page>, hs0: seq<nat>, pos0: nat, ps: seq<Page>, hs: seq<nat>, pos: nat,
                          cw: Color, gen: bool, minor: bool)
    requires SweepProgress(ps0, hs0, pos0, ps, hs, pos, cw, gen, minor)
    requires Distinct(hs) && pos < |hs| && hs[pos] < |ps|
    ensures var id := hs[pos];
      SweepProgress(ps0, hs0, pos0, ps[id := KeptPage(SweepOrSkip(ps[id], cw, gen, minor), minor)], hs, pos + 1, cw, gen, minor)
  {
    var id := hs[pos];
    var ps' := ps[id := KeptPage(SweepOrSkip(ps[id], cw, gen, minor), minor)];
    SweepProgressCursor(ps0, hs0, pos0, ps, hs, pos, cw, gen, minor);
    assert hs[pos + 1..] == hs[pos..][1..];
    assert hs[pos0..pos + 1] == hs[pos0..pos] + [id];
    var pos' := pos + 1;
    forall q: nat | q < |ps'| ensures PageAfterSweep(ps0, hs0, pos0, ps', hs, pos', cw, gen, minor, q) {
      assert PageAfterSweep(ps0, hs0, pos0, ps, hs, pos, cw, gen, minor, q);
    }
  }

  lemma SweepProgressRelease(ps0: seq<Page>, hs0: seq<nat>, pos0: nat, ps: seq<Page>, hs: seq<nat>, pos: nat,
                             cw: Color, gen: bool, minor: bool)
    requires SweepProgress(ps0, hs0, pos0, ps, hs, pos, cw, gen, minor)
    requires Distinct(hs) && pos < |hs| && hs[pos] < |ps| && AllDead(ps[hs[pos]].objects, cw)
    ensures var id := hs[pos];
      SweepProgress(ps0, hs0, pos0, ps[id := SweptPage(ps[id], cw, gen)], hs[..pos] + hs[pos + 1..], pos, cw, gen, minor)
  {
    var id := hs[pos];
    var ps' := ps[id := SweptPage(ps[id], cw, gen)];
    var hs' := hs[..pos] + hs[pos + 1..];
    SweepProgressCursor(ps0, hs0, pos0, ps, hs, pos, cw, gen, minor);
    assert hs'[pos..] == hs[pos..][1..];
    assert hs'[..pos0] == hs[..pos0];
    assert hs'[pos0..pos] == hs[pos0..pos];
    assert id in hs0 by {
      assert id == hs[pos..][0];
    }
    forall q | q in hs' ensures q in hs && q != id {
      var k :| 0 <= k < |hs'| && hs'[k] == q;
      if k < pos {
        assert q == hs[k];
      } else {
        assert q == hs[k + 1];
      }
    }
    forall q | q in hs && q != id ensures q in hs' {
      var k :| 0 <= k < |hs| && hs[k] == q;
      if k < pos {
        assert q == hs'[k];
      } else {
        assert q == hs'[k - 1];
      }
    }
    forall q: nat | q < |ps'| ensures PageAfterSweep(ps0, hs0, pos0, ps', hs', pos, cw, gen, minor, q) {
      assert PageAfterSweep(ps0, hs0, pos0, ps, hs, pos, cw, gen, minor, q);
    }
  }

  // ---------------------------------------------------------------- the sweep loop

  /** The page loop of `incremental_sweep_phase` on the collector's values:
      from cursor `pos0`, while pages remain and fewer than `limit` slots
      have been tried, sweep (or, in a minor cycle, skip) the page under the
      cursor, then unlink it if all its slots were dead or else keep it,
      marking it old exactly when a minor cycle left it full. */
  /** What a sweep call from `ps0`, `hs0`, `pos0` under `limit` leaves. */
  ghost predicate SweepDone(ps0: seq<Page>, hs0: seq<nat>, pos0: nat, cw: Color, gen: bool, minor: bool,
                            live0: nat, lam0: nat, limit: nat,
                            ps: seq<Page>, hs: seq<nat>, fh: seq<nat>, pos: nat, live: nat, lam: nat, tried: nat) {
    && (forall i | 0 <= i < |hs| :: hs[i] < |ps|)
    && fh == FreeHeapsOf(ps, hs)
    && SweepProgress(ps0, hs0, pos0, ps, hs, pos, cw, gen, minor)
    && tried == PAGE_SIZE * ((pos - pos0) + (|hs0| - |hs|))
    && (pos == |hs| || limit <= tried)
    && (tried == 0 || tried < limit + PAGE_SIZE)
    && live <= live0 && live0 - live == lam0 - lam
  }

  method SweepPages(ps0: seq<Page>, hs0: seq<nat>, pos0: nat, cw: Color, gen: bool, minor: bool,
                    live0: nat, lam0: nat, limit: nat)
    returns (ps: seq<Page>, hs: seq<nat>, pos: nat, live: nat, lam: nat, tried: nat)
    requires WfPages(ps0) && PageListWf(ps0, hs0, pos0) && CountsWf(ps0, cw, live0, lam0, true)
    ensures WfPages(ps) && PageListWf(ps, hs, pos) && CountsWf(ps, cw, live, lam, true) && |ps| == |ps0|
    ensures SweepProgress(ps0, hs0, pos0, ps, hs, pos, cw, gen, minor)
    ensures tried == PAGE_SIZE * ((pos - pos0) + (|hs0| - |hs|))
    ensures pos == |hs| || limit <= tried
    ensures tried == 0 || tried < limit + PAGE_SIZE
    ensures live <= live0 && live0 - live == lam0 - lam
  {
    ps, hs, pos, live, lam := ps0, hs0, pos0, live0, lam0;
    SweepProgressStart(ps, hs, pos, cw, gen, minor);
    tried := 0;
    while pos < |hs| && tried < limit
      invariant WfPages(ps) && PageListWf(ps, hs, pos)
      invariant CountsWf(ps, cw, live, lam, true)
      invariant SweepProgress(ps0, hs0, pos0, ps, hs, pos, cw, gen, minor)
      invariant tried == PAGE_SIZE * ((pos - pos0) + (|hs0| - |hs|))
      invariant tried == 0 || tried < limit + PAGE_SIZE
      invariant live <= live0 && live0 - live == lam0 - lam
      decreases |hs| - pos
    {
      ps, hs, pos, live, lam := SweepStep(ps0, hs0, pos0, ps, hs, pos, cw, gen, minor, live, lam);
      tried := tried + PAGE_SIZE;
    }
  }

  /** One turn of the page loop: the page under the cursor is swept and
      then either unlinked (the cursor stays) or kept (the cursor moves on). */
  method SweepStep(ghost ps0: seq<Page>, ghost hs0: seq<nat>, ghost pos0: nat,
                   ps: seq<Page>, hs: seq<nat>, pos: nat, cw: Color, gen: bool, minor: bool, live: nat, lam: nat)
    returns (ps': seq<Page>, hs': seq<nat>, pos': nat, live': nat, lam': nat)
    requires WfPages(ps) && PageListWf(ps, hs, pos) && CountsWf(ps, cw, live, lam, true)
    requires SweepProgress(ps0, hs0, pos0, ps, hs, pos, cw, gen, minor)
    requires pos < |hs|
    ensures WfPages(ps') && PageListWf(ps', hs', pos') && CountsWf(ps', cw, live', lam', true)
    ensures SweepProgress(ps0, hs0, pos0, ps', hs', pos', cw, gen, minor)
    ensures pos' + |hs| == pos + |hs'| + 1
    ensures live' <= live && live - live' == lam - lam'
  {
    var id := hs[pos];
    var skip := minor && ps[id].isOld;
    var pg, freed, deadSlot := SweepPage(ps[id], cw, gen, skip);
    if deadSlot {
      ps', hs', pos', live', lam' := ReleasePage(ps0, hs0, pos0, ps, hs, pos, cw, gen, minor, live, lam, pg, freed);
    } else {
      ps', hs', pos', live', lam' := KeepPage(ps0, hs0, pos0, ps, hs, pos, cw, gen, minor, live, lam, pg, freed);
    }
  }

  /** The swept page under the cursor had only dead slots: it leaves the
      page list and the cursor stays. */
  method ReleasePage(ghost ps0: seq<Page>, ghost hs0: seq<nat>, ghost pos0: nat,
                     ps: seq<Page>, hs: seq<nat>, pos: nat, cw: Color, gen: bool, minor: bool, live: nat, lam: nat,
                     pg: Page, freed: nat)
    returns (ps': seq<Page>, hs': seq<nat>, pos': nat, live': nat, lam': nat)
    requires WfPages(ps) && PageListWf(ps, hs, pos) && CountsWf(ps, cw, live, lam, true)
    requires SweepProgress(ps0, hs0, pos0, ps, hs, pos, cw, gen, minor)
    requires pos < |hs| && AllDead(ps[hs[pos]].objects, cw)
    requires pg == SweptPage(ps[hs[pos]], cw, gen) && freed == SlotTally(ps[hs[pos]].objects, DeadLiveT(cw))
    ensures WfPages(ps') && PageListWf(ps', hs', pos') && CountsWf(ps', cw, live', lam', true)
    ensures SweepProgress(ps0, hs0, pos0, ps', hs', pos', cw, gen, minor)
    ensures pos' + |hs| == pos + |hs'| + 1
    ensures live' <= live && live - live' == lam - lam'
  {
    SweepReleaseStep(ps, hs, pos, cw, live, lam, gen);
    SweepProgressRelease(ps0, hs0, pos0, ps, hs, pos, cw, gen, minor);
    ps' := ps[hs[pos] := pg];
    hs' := hs[..pos] + hs[pos + 1..];
    pos' := pos;
    live' := live - freed;
    lam' := lam - freed;
  }

  /** The page under the cursor keeps a live slot (or was skipped): it is
      re-aged and the cursor moves past it. */
  method KeepPage(ghost ps0: seq<Page>, ghost hs0: seq<nat>, ghost pos0: nat,
                  ps: seq<Page>, hs: seq<nat>, pos: nat, cw: Color, gen: bool, minor: bool, live: nat, lam: nat,
                  pg: Page, freed: nat)
    returns (ps': seq<Page>, hs': seq<nat>, pos': nat, live': nat, lam': nat)
    requires WfPages(ps) && PageListWf(ps, hs, pos) && CountsWf(ps, cw, live, lam, true)
    requires SweepProgress(ps0, hs0, pos0, ps, hs, pos, cw, gen, minor)
    requires pos < |hs|
    requires var skip := minor && ps[hs[pos]].isOld;
      && pg == (if skip then ps[hs[pos]] else SweptPage(ps[hs[pos]], cw, gen))
      && freed == (if skip then 0 else SlotTally(ps[hs[pos]].objects, DeadLiveT(cw)))
    ensures WfPages(ps') && PageListWf(ps', hs', pos') && CountsWf(ps', cw, live', lam', true)
    ensures SweepProgress(ps0, hs0, pos0, ps', hs', pos', cw, gen, minor)
    ensures pos' + |hs| == pos + |hs'| + 1
    ensures live' <= live && live - live' == lam - lam'
  {
    SweepKeepStep(ps, hs, pos, cw, live, lam, gen, minor && ps[hs[pos]].isOld, minor);
    SweepProgressKeep(ps0, hs0, pos0, ps, hs, pos, cw, gen, minor);
    ps' := ps[hs[pos] := pg.(isOld := pg.freelist == [] && minor)];
    hs' := hs;
    pos' := pos + 1;
    live' := live - freed;
    lam' := lam - freed;
  }

  /** The end of `incremental_sweep_phase`: walk `heaps` and push each page
      with a free slot on the front of the new `free_heaps`. */
  method RebuildFreeHeaps(ps: seq<Page>, hs: seq<nat>, pos: nat) returns (fh: seq<nat>)
    requires WfPages(ps) && PageListWf(ps, hs, pos)
    ensures fh == FreeHeapsOf(ps, hs)
    ensures FreeHeapsWf(ps, hs, fh)
  {
    fh := [];
    var i := 0;
    while i < |hs|
      invariant 0 <= i <= |hs|
      invariant fh == FreeHeapsOf(ps, hs[..i])
    {
      FreeHeapsOfSnoc(ps, hs, i);
      if ps[hs[i]].freelist != [] {
        fh := [hs[i]] + fh;
      }
      i := i + 1;
    }
    assert hs[..|hs|] == hs;
    FreeHeapsOfWf(ps, hs, pos);
  }

  /** The rebuilt list links distinct pages of `heaps`, each with a free
      slot. */
  lemma FreeHeapsOfWf(ps: seq<Page>, hs: seq<nat>, pos: nat)
    requires PageListWf(ps, hs, pos)
    ensures FreeHeapsWf(ps, hs, FreeHeapsOf(ps, hs))
  {
    FreeHeapsOfMembers(ps, hs);
  }

  /** `incremental_sweep_phase` on the collector's values: the page loop,
      then the rebuilt `free_heaps`. */
  method SweepPhase(ps0: seq<Page>, hs0: seq<nat>, fh0: seq<nat>, pos0: nat, cw: Color, gen: bool, minor: bool,
                    live0: nat, lam0: nat, limit: nat)
    returns (ps: seq<Page>, hs: seq<nat>, fh: seq<nat>, pos: nat, live: nat, lam: nat, tried: nat)
    requires HeapWf(ps0, hs0, fh0, pos0, cw, live0, lam0, true)
    ensures HeapWf(ps, hs, fh, pos, cw, live, lam, true) && |ps| == |ps0|
    ensures SweepDone(ps0, hs0, pos0, cw, gen, minor, live0, lam0, limit, ps, hs, fh, pos, live, lam, tried)
  {
    ps, hs, pos, live, lam, tried := SweepPages(ps0, hs0, pos0, cw, gen, minor, live0, lam0, limit);
    fh := RebuildFreeHeaps(ps, hs, pos);
  }

  // ---------------------------------------------------------------- whole sweeps outside generational mode

  /** Every allocated slot of the page is white. */
  predicate PageWhiteOrFree(pg: Page) {
    forall j | 0 <= j < |pg.objects| :: pg.objects[j].tt != FreeTag ==> IsWhite(pg.objects[j].color)
  }

  /** The pages before the cursor were swept outside generational mode:
      their allocated slots are all white. */
  ghost predicate SweptWhite(ps: seq<Page>, hs: seq<nat>, pos: nat) {
    pos <= |hs| && forall i | 0 <= i < pos :: hs[i] < |ps| && PageWhiteOrFree(ps[hs[i]])
  }

  lemma SweptPageWhite(pg: Page, cw: Color)
    requires IsWhitePart(cw)
    ensures PageWhiteOrFree(SweptPage(pg, cw, false))
  {
  }

  /** A sweep call outside generational mode extends the white prefix of
      the page list up to the new cursor. */
  lemma {:induction false} SweepWhiteStep(ps0: seq<Page>, hs0: seq<nat>, pos0: nat, cw: Color, live0: nat, lam0: nat,
                                          limit: nat, ps: seq<Page>, hs: seq<nat>, fh: seq<nat>, pos: nat,
                                          live: nat, lam: nat, tried: nat)
    requires IsWhitePart(cw) && Distinct(hs) && SweptWhite(ps0, hs0, pos0)
    requires SweepDone(ps0, hs0, pos0, cw, false, false, live0, lam0, limit, ps, hs, fh, pos, live, lam, tried)
    ensures SweptWhite(ps, hs, pos)
  {
    forall i | 0 <= i < pos ensures hs[i] < |ps| && PageWhiteOrFree(ps[hs[i]]) {
      var q := hs[i];
      assert PageAfterSweep(ps0, hs0, pos0, ps, hs, pos, cw, false, false, q);
      if i < pos0 {
        assert hs[..pos0][i] == hs0[..pos0][i];
        assert q !in hs[pos0..pos] by {
          forall k | pos0 <= k < pos ensures hs[k] != q {
          }
        }
        assert q in hs;
      } else {
        assert hs[pos0..pos][i - pos0] == q;
        SweptPageWhite(ps0[q], cw);
      }
    }
  }

  lemma {:induction false} SlotTallyZero(s: seq<Slot>, t: Tally)
    requires SlotTally(s, t) == 0
    ensures forall j | 0 <= j < |s| :: !Counted(t, s[j])
    decreases |s|
  {
    if s != [] {
      SlotTallyZero(s[..|s| - 1], t);
      assert forall j | 0 <= j < |s| - 1 :: s[..|s| - 1][j] == s[j];
    }
  }

  /** Once the cursor has passed the whole page list, every allocated slot
      is white: linked pages were swept, unlinked ones hold no object. */
  lemma SweptAllWhite(ps: seq<Page>, hs: seq<nat>, sp: nat)
    requires PageListWf(ps, hs, sp) && SweptWhite(ps, hs, |hs|)
    ensures AllWhiteOrFree(ps)
  {
    forall p, j | 0 <= p < |ps| && 0 <= j < |ps[p].objects| && ps[p].objects[j].tt != FreeTag
      ensures IsWhite(ps[p].objects[j].color)
    {
      if p in hs {
        var i :| 0 <= i < |hs| && hs[i] == p;
        assert PageWhiteOrFree(ps[hs[i]]);
      } else {
        SlotTallyZero(ps[p].objects, NonFreeT);
      }
    }
  }
}
