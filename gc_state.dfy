/*
 * The collector's bookkeeping as predicates on plain values: the list of
 * linked pages, the pages with free slots, the live counters and the
 * references the collector holds.  Each heap change the collector makes
 * (a new page, a repainted slot, a freshly used slot, a swept page) has a
 * lemma here saying the bookkeeping survives it, so that the methods of
 * `Gc.Collector` only have to cite them.
 */
module GcState {
  import opened GcHeap

  predicate RefsIn(rs: seq<ObjRef>, n: nat) {
    forall i | 0 <= i < |rs| :: WfRef(rs[i], n)
  }

  /** References that all name heap slots. */
  predicate SlotRefsIn(rs: seq<ObjRef>, n: nat) {
    forall i | 0 <= i < |rs| :: rs[i].Ref? && WfRef(rs[i], n)
  }

  lemma RefsInGrows(rs: seq<ObjRef>, n: nat, m: nat)
    requires RefsIn(rs, n) && n <= m
    ensures RefsIn(rs, m)
  {
    forall i | 0 <= i < |rs| ensures WfRef(rs[i], m) {
      WfRefGrows(rs[i], n, m);
    }
  }

  lemma SlotRefsInGrows(rs: seq<ObjRef>, n: nat, m: nat)
    requires SlotRefsIn(rs, n) && n <= m
    ensures SlotRefsIn(rs, m)
  {
    forall i | 0 <= i < |rs| ensures rs[i].Ref? && WfRef(rs[i], m) {
      WfRefGrows(rs[i], n, m);
    }
  }

  /** `heaps` links distinct pages; the sweep cursor lies within it; a page
      that has been unlinked holds no object. */
  ghost predicate PageListWf(ps: seq<Page>, hs: seq<nat>, sp: nat) {
    && Distinct(hs) && (forall i | 0 <= i < |hs| :: hs[i] < |ps|)
    && sp <= |hs|
    && (forall p | 0 <= p < |ps| && p !in hs :: SlotTally(ps[p].objects, NonFreeT) == 0)
  }

  /** `free_heaps` links distinct pages of `heaps`, each with a free slot. */
  ghost predicate FreeHeapsWf(ps: seq<Page>, hs: seq<nat>, fh: seq<nat>) {
    && Distinct(fh)
    && (forall i | 0 <= i < |fh| :: fh[i] in hs && fh[i] < |ps| && ps[fh[i]].freelist != [])
  }

  /** `live` counts the allocated slots; `live_after_mark` never exceeds it;
      while sweeping, the objects still to be freed were all counted when
      marking ended. */
  ghost predicate CountsWf(ps: seq<Page>, cw: Color, live: nat, lam: nat, sweeping: bool) {
    && IsWhitePart(cw)
    && live == PageTally(ps, NonFreeT)
    && lam <= live
    && (sweeping ==> PageTally(ps, DeadLiveT(cw)) <= lam)
  }

  /** The gray lists and the arena name heap slots; the arena fits its
      capacity; the registered roots are references into the heap. */
  predicate RefsWf(n: nat, gl: seq<ObjRef>, al: seq<ObjRef>, ar: seq<ObjRef>, capa: nat, reg: seq<ObjRef>) {
    && SlotRefsIn(gl, n) && SlotRefsIn(al, n)
    && SlotRefsIn(ar, n) && |ar| <= capa && 2 <= capa
    && RefsIn(reg, n)
  }

  lemma RefsWfGrows(n: nat, m: nat, gl: seq<ObjRef>, al: seq<ObjRef>, ar: seq<ObjRef>, capa: nat, reg: seq<ObjRef>)
    requires RefsWf(n, gl, al, ar, capa, reg) && n <= m
    ensures RefsWf(m, gl, al, ar, capa, reg)
  {
    SlotRefsInGrows(gl, n, m);
    SlotRefsInGrows(al, n, m);
    SlotRefsInGrows(ar, n, m);
    RefsInGrows(reg, n, m);
  }

  /** Pushing a slot reference on the gray list keeps the references well formed. */
  lemma PushGray(n: nat, r: ObjRef, gl: seq<ObjRef>, al: seq<ObjRef>, ar: seq<ObjRef>, capa: nat, reg: seq<ObjRef>)
    requires RefsWf(n, gl, al, ar, capa, reg) && r.Ref? && WfRef(r, n)
    ensures RefsWf(n, [r] + gl, al, ar, capa, reg)
  {
    var gl' := [r] + gl;
    forall i | 0 <= i < |gl'| ensures gl'[i].Ref? && WfRef(gl'[i], n) {
      if i > 0 {
        assert gl'[i] == gl[i - 1];
      }
    }
  }

  /** Pushing a slot reference on the atomic gray list keeps the references well formed. */
  lemma PushAtomic(n: nat, r: ObjRef, gl: seq<ObjRef>, al: seq<ObjRef>, ar: seq<ObjRef>, capa: nat, reg: seq<ObjRef>)
    requires RefsWf(n, gl, al, ar, capa, reg) && r.Ref? && WfRef(r, n)
    ensures RefsWf(n, gl, [r] + al, ar, capa, reg)
  {
    var al' := [r] + al;
    forall i | 0 <= i < |al'| ensures al'[i].Ref? && WfRef(al'[i], n) {
      if i > 0 {
        assert al'[i] == al[i - 1];
      }
    }
  }

  /** Appending a slot reference to an arena with room keeps the references well formed. */
  lemma PushArena(n: nat, r: ObjRef, gl: seq<ObjRef>, al: seq<ObjRef>, ar: seq<ObjRef>, capa: nat, reg: seq<ObjRef>)
    requires RefsWf(n, gl, al, ar, capa, reg) && r.Ref? && WfRef(r, n) && |ar| < capa
    ensures RefsWf(n, gl, al, ar + [r], capa, reg)
  {
    var ar' := ar + [r];
    forall i | 0 <= i < |ar'| ensures ar'[i].Ref? && WfRef(ar'[i], n) {
      if i < |ar| {
        assert ar'[i] == ar[i];
      }
    }
  }

  lemma RefsInConcat(a: seq<ObjRef>, b: seq<ObjRef>, n: nat)
    requires RefsIn(a, n) && RefsIn(b, n)
    ensures RefsIn(a + b, n)
  {
    forall i | 0 <= i < |a + b| ensures WfRef((a + b)[i], n) {
      if i >= |a| {
        assert (a + b)[i] == b[i - |a|];
      }
    }
  }

  /** The page-side bookkeeping of `mrb_gc`. */
  ghost predicate HeapWf(ps: seq<Page>, hs: seq<nat>, fh: seq<nat>, sp: nat, cw: Color, live: nat, lam: nat, sweeping: bool) {
    && WfPages(ps)
    && PageListWf(ps, hs, sp)
    && FreeHeapsWf(ps, hs, fh)
    && CountsWf(ps, cw, live, lam, sweeping)
  }

  /** Everything the collector keeps consistent between calls. */
  ghost predicate CollectorWf(ps: seq<Page>, hs: seq<nat>, fh: seq<nat>, sp: nat, cw: Color,
                              live: nat, lam: nat, sweeping: bool, gl: seq<ObjRef>, al: seq<ObjRef>,
                              ar: seq<ObjRef>, capa: nat, reg: seq<ObjRef>) {
    HeapWf(ps, hs, fh, sp, cw, live, lam, sweeping) && RefsWf(|ps|, gl, al, ar, capa, reg)
  }

  // ---------------------------------------------------------------- add_heap

  /** The new page is prepended to both lists; a cursor past the head moves
      with the page it pointed at. */
  lemma AddPageLists(ps: seq<Page>, hs: seq<nat>, fh: seq<nat>, sp: nat)
    requires WfPages(ps) && PageListWf(ps, hs, sp) && FreeHeapsWf(ps, hs, fh)
    ensures var ps' := ps + [FreshPage()];
      && WfPages(ps')
      && PageListWf(ps', [|ps|] + hs, if sp == 0 then 0 else sp + 1)
      && FreeHeapsWf(ps', [|ps|] + hs, [|ps|] + fh)
  {
    var ps' := ps + [FreshPage()];
    var id := |ps|;
    FreshPageProps(id + 1);
    WfPagesGrow(ps, FreshPage());
    assert id !in hs;
    assert id !in fh;
    var hs' := [id] + hs;
    forall p | 0 <= p < |ps'| && p !in hs' ensures SlotTally(ps'[p].objects, NonFreeT) == 0 {
      assert p < id && p !in hs;
      assert ps'[p] == ps[p];
    }
    assert Distinct(hs') by {
      forall i, j | 0 <= i < j < |hs'| ensures hs'[i] != hs'[j] {
        assert hs'[j] == hs[j - 1];
        if i > 0 {
          assert hs'[i] == hs[i - 1];
        }
      }
    }
    var fh' := [id] + fh;
    assert Distinct(fh') by {
      forall i, j | 0 <= i < j < |fh'| ensures fh'[i] != fh'[j] {
        assert fh'[j] == fh[j - 1];
        if i > 0 {
          assert fh'[i] == fh[i - 1];
        }
      }
    }
    forall i | 0 <= i < |fh'| ensures fh'[i] in hs' && fh'[i] < |ps'| && ps'[fh'[i]].freelist != [] {
      if i > 0 {
        assert fh'[i] == fh[i - 1];
        assert ps'[fh'[i]] == ps[fh[i - 1]];
      }
    }
  }

  lemma AddPageCounts(ps: seq<Page>, cw: Color, live: nat, lam: nat, sw: bool)
    requires CountsWf(ps, cw, live, lam, sw)
    ensures CountsWf(ps + [FreshPage()], cw, live, lam, sw)
  {
    FreshPageProps(0);
    PageTallyAppend(ps, FreshPage(), NonFreeT);
    PageTallyAppend(ps, FreshPage(), DeadLiveT(cw));
  }

  /** The state `mrb_gc_init` leaves: one fresh page, linked on both lists. */
  lemma InitialWf(cw: Color, capa: nat)
    requires IsWhitePart(cw) && 2 <= capa
    ensures CollectorWf([FreshPage()], [0], [0], 0, cw, 0, 0, false, [], [], [], capa, [])
  {
    AddPageLists([], [], [], 0);
    AddPageCounts([], cw, 0, 0, false);
    assert [] + [FreshPage()] == [FreshPage()];
  }

  // ---------------------------------------------------------------- repainting

  /** Repainting a slot changes no tag and no free list. */
  lemma PaintLists(ps: seq<Page>, r: ObjRef, c: Color, hs: seq<nat>, fh: seq<nat>, sp: nat)
    requires WfPages(ps) && IsSlotRef(ps, r) && HeapColor(c)
    requires PageListWf(ps, hs, sp) && FreeHeapsWf(ps, hs, fh)
    ensures var ps' := Paint(ps, r, c);
      |ps'| == |ps| && WfPages(ps') && PageListWf(ps', hs, sp) && FreeHeapsWf(ps', hs, fh)
  {
    var ps' := Paint(ps, r, c);
    var s := SlotAt(ps, r);
    PaintWf(ps, r, c);
    forall p | 0 <= p < |ps'| && p !in hs ensures SlotTally(ps'[p].objects, NonFreeT) == 0 {
      if p == r.page {
        SlotTallyUpdate(ps[p].objects, r.idx, s.(color := c), NonFreeT);
      }
    }
  }

  /** Repainting keeps the live count.  A colour other than the other white
      makes no object dead, so the objects left to free can only decrease;
      the number of white slots moves by the slot's change of whiteness. */
  lemma PaintCounts(ps: seq<Page>, r: ObjRef, c: Color, cw: Color, live: nat, lam: nat, sw: bool)
    requires WfPages(ps) && IsSlotRef(ps, r) && HeapColor(c)
    requires c != OtherWhite(cw) || SlotAt(ps, r).color == c
    requires CountsWf(ps, cw, live, lam, sw)
    ensures CountsWf(Paint(ps, r, c), cw, live, lam, sw)
    ensures PageTally(Paint(ps, r, c), WhiteT) + Bit(IsWhite(SlotAt(ps, r).color)) == PageTally(ps, WhiteT) + Bit(IsWhite(c))
  {
    var s := SlotAt(ps, r);
    assert WfSlot(s, |ps|);
    SetSlotTally(ps, r, s.(color := c), NonFreeT);
    SetSlotTally(ps, r, s.(color := c), WhiteT);
    SetSlotTally(ps, r, s.(color := c), DeadLiveT(cw));
    DeadColor(s, cw);
    DeadColor(s.(color := c), cw);
  }

  // ---------------------------------------------------------------- prepare_incremental_sweep

  lemma {:induction false} SlotDeadLiveBelow(s: seq<Slot>, cw: Color)
    ensures SlotTally(s, DeadLiveT(cw)) <= SlotTally(s, NonFreeT)
    decreases |s|
  {
    if s != [] {
      SlotDeadLiveBelow(s[..|s| - 1], cw);
    }
  }

  /** Every object the sweep will free is an allocated one. */
  lemma {:induction false} DeadLiveBelowLive(ps: seq<Page>, cw: Color)
    ensures PageTally(ps, DeadLiveT(cw)) <= PageTally(ps, NonFreeT)
    decreases |ps|
  {
    if ps != [] {
      DeadLiveBelowLive(ps[..|ps| - 1], cw);
      SlotDeadLiveBelow(ps[|ps| - 1].objects, cw);
    }
  }

  /** `prepare_incremental_sweep` sets `live_after_mark` to `live`: the
      objects the sweep will free are all counted in it. */
  lemma StartSweepCounts(ps: seq<Page>, cw: Color, live: nat, lam: nat, sw: bool)
    requires CountsWf(ps, cw, live, lam, sw)
    ensures CountsWf(ps, cw, live, live, true)
  {
    DeadLiveBelowLive(ps, cw);
  }

  // ---------------------------------------------------------------- mrb_obj_alloc

  /** The heap after the allocator hands out the head of page `p`'s free
      list, initialised as `s`. */
  function Taken(ps: seq<Page>, p: nat, s: Slot): seq<Page>
    requires p < |ps| && ps[p].freelist != [] && ps[p].freelist[0] < |ps[p].objects|
  {
    ps[p := ps[p].(objects := ps[p].objects[ps[p].freelist[0] := s], freelist := ps[p].freelist[1..])]
  }

  /** `free_heaps` after the allocation: the page leaves it once its free
      list is empty. */
  function FreeHeapsAfterTake(ps: seq<Page>, fh: seq<nat>): seq<nat>
    requires fh != [] && fh[0] < |ps|
  {
    if |ps[fh[0]].freelist| == 1 then fh[1..] else fh
  }

  /** Allocation takes a free slot of the first page on `free_heaps` and
      keeps the bookkeeping: the live count grows by one, the new object
      (painted the current white) is not one the sweep will free. */
  lemma {:induction false} TakeSlotWf(ps: seq<Page>, hs: seq<nat>, fh: seq<nat>, sp: nat, cw: Color,
                                      live: nat, lam: nat, sw: bool, s: Slot)
    requires HeapWf(ps, hs, fh, sp, cw, live, lam, sw) && fh != []
    requires s.tt != FreeTag && s.color == cw && WfSlot(s, |ps|)
    ensures fh[0] < |ps| && ps[fh[0]].freelist != [] && ps[fh[0]].freelist[0] < PAGE_SIZE
    ensures ps[fh[0]].objects[ps[fh[0]].freelist[0]].tt == FreeTag
    ensures HeapWf(Taken(ps, fh[0], s), hs, FreeHeapsAfterTake(ps, fh), sp, cw, live + 1, lam, sw)
    ensures |Taken(ps, fh[0], s)| == |ps|
  {
    var p := fh[0];
    var pg := ps[p];
    assert WfPage(pg, |ps|);
    var j := pg.freelist[0];
    var pg' := pg.(objects := pg.objects[j := s], freelist := pg.freelist[1..]);
    var ps' := Taken(ps, p, s);
    assert ps' == ps[p := pg'];
    // the page stays well formed: the rest of its free list names other slots
    assert WfPage(pg', |ps|) by {
      forall k | 0 <= k < |pg'.freelist|
        ensures pg'.freelist[k] < PAGE_SIZE && pg'.objects[pg'.freelist[k]].tt == FreeTag
      {
        assert pg'.freelist[k] == pg.freelist[k + 1];
        assert pg.freelist[k + 1] != pg.freelist[0];
      }
      forall a, b | 0 <= a < b < |pg'.freelist| ensures pg'.freelist[a] != pg'.freelist[b] {
        assert pg'.freelist[a] == pg.freelist[a + 1] && pg'.freelist[b] == pg.freelist[b + 1];
      }
    }
    assert WfPages(ps');
    // page lists: the page is linked, so no unlinked page changes
    assert p in hs;
    forall q | 0 <= q < |ps'| && q !in hs ensures SlotTally(ps'[q].objects, NonFreeT) == 0 {
      assert q != p;
    }
    assert PageListWf(ps', hs, sp);
    var fh' := FreeHeapsAfterTake(ps, fh);
    forall i | 0 <= i < |fh'| ensures fh'[i] in hs && fh'[i] < |ps'| && ps'[fh'[i]].freelist != [] {
      if |pg.freelist| == 1 {
        assert fh'[i] == fh[i + 1] && fh[i + 1] != fh[0];
      } else if fh'[i] != p {
        assert ps'[fh'[i]] == ps[fh'[i]];
      }
    }
    forall a, b | 0 <= a < b < |fh'| ensures fh'[a] != fh'[b] {
      if |pg.freelist| == 1 {
        assert fh'[a] == fh[a + 1] && fh'[b] == fh[b + 1];
      }
    }
    assert FreeHeapsWf(ps', hs, fh');
    // counts
    assert !IsDead(s, cw);
    PageTallyUpdate(ps, p, pg', NonFreeT);
    SlotTallyUpdate(pg.objects, j, s, NonFreeT);
    PageTallyUpdate(ps, p, pg', DeadLiveT(cw));
    SlotTallyUpdate(pg.objects, j, s, DeadLiveT(cw));
  }
}
