/*
 * The marker's invariants across the steps of a collection cycle that are
 * larger than one `mrb_gc_mark`: taking the next object off the gray list,
 * handing the atomic list over to the gray list, the start of a cycle, the
 * pre-allocated error objects that lose their payload, and the two write
 * barriers that repair the tri-colour invariant after the mutator stores a
 * reference into an object.
 */
module GcMark {
  import opened GcHeap
  import opened GcState

  /** Every reference of the sequence is shaded. */
  ghost predicate AllShaded(ps: seq<Page>, rs: seq<ObjRef>) {
    forall k | 0 <= k < |rs| :: Shaded(ps, rs[k])
  }

  lemma AllShadedConcat(ps: seq<Page>, a: seq<ObjRef>, b: seq<ObjRef>)
    requires AllShaded(ps, a) && AllShaded(ps, b)
    ensures AllShaded(ps, a + b)
  {
    forall k | 0 <= k < |a + b| ensures Shaded(ps, (a + b)[k]) {
      if k >= |a| {
        assert (a + b)[k] == b[k - |a|];
      }
    }
  }

  /** One more reference shaded, with nothing unshaded meanwhile. */
  lemma AllShadedNext(ps: seq<Page>, ps': seq<Page>, rs: seq<ObjRef>, i: nat)
    requires i < |rs| && AllShaded(ps, rs[..i]) && ShadedKept(ps, ps') && Shaded(ps', rs[i])
    ensures AllShaded(ps', rs[..i + 1])
  {
    assert forall k | 0 <= k < i :: rs[..i + 1][k] == rs[..i][k];
  }

  lemma AllShadedUnprefixed(ps: seq<Page>, rs: seq<ObjRef>)
    requires AllShaded(ps, [] + rs)
    ensures AllShaded(ps, rs)
  {
    assert [] + rs == rs;
  }

  lemma AllShadedWhole(ps: seq<Page>, rs: seq<ObjRef>)
    requires AllShaded(ps, rs[..|rs|])
    ensures AllShaded(ps, rs)
  {
    assert rs[..|rs|] == rs;
  }

  lemma AllShadedKept(ps: seq<Page>, ps': seq<Page>, rs: seq<ObjRef>)
    requires AllShaded(ps, rs) && ShadedKept(ps, ps')
    ensures AllShaded(ps', rs)
  {
  }

  /** The marker may only ever have grayed slots: what is shaded stays so. */
  lemma GrayedShadedKept(ps: seq<Page>, ps': seq<Page>)
    requires Grayed(ps, ps')
    ensures ShadedKept(ps, ps')
  {
    forall z | Shaded(ps, z) ensures Shaded(ps', z) {
      GrayedKeeps(ps, ps', z);
    }
  }

  // ---------------------------------------------------------------- the gray lists

  /** The head of the gray list is the next object to scan: a gray slot that
      is on no list once popped. */
  lemma {:induction false} PopScanning(ps: seq<Page>, r: ObjRef, gl: seq<ObjRef>, al: seq<ObjRef>)
    requires MarkInv(ps, [r] + gl, al)
    ensures IsSlotRef(ps, r) && SlotAt(ps, r).color == GRAY
    ensures Scanning(ps, gl, al, r)
  {
    var l := ([r] + gl) + al;
    var l' := gl + al;
    assert l == [r] + l';
    assert l[0] == r;
    forall i | 0 <= i < |l'| ensures IsSlotRef(ps, l'[i]) && SlotAt(ps, l'[i]).color == GRAY {
      assert l'[i] == l[i + 1];
    }
    forall i, j | 0 <= i < j < |l'| ensures l'[i] != l'[j] {
      assert l'[i] == l[i + 1] && l'[j] == l[j + 1];
    }
    forall k | 0 <= k < |l'| ensures l'[k] != r {
      assert l'[k] == l[k + 1];
    }
    assert r !in l';
    forall p, j | 0 <= p < |ps| && 0 <= j < |ps[p].objects|
        && ps[p].objects[j].tt != FreeTag && ps[p].objects[j].color == GRAY && Ref(p, j) != r
      ensures Ref(p, j) in l'
    {
      assert Ref(p, j) in l;
    }
  }

  /** `final_marking_phase` moves the atomic list onto the emptied gray list. */
  lemma SwapAtomic(ps: seq<Page>, al: seq<ObjRef>)
    requires MarkInv(ps, [], al)
    ensures MarkInv(ps, al, [])
  {
    assert [] + al == al + [];
  }

  /** At the start of a major cycle no slot is gray or black, so the
      invariants hold with both lists empty. */
  lemma AllWhiteMarkInv(ps: seq<Page>)
    requires WfPages(ps) && AllWhiteOrFree(ps)
    ensures MarkInv(ps, [], [])
  {
    forall p, j | 0 <= p < |ps| && 0 <= j < |ps[p].objects| && ps[p].objects[j].color == BLACK
      ensures SuccShaded(ps, Ref(p, j))
    {
      var s := ps[p].objects[j];
      assert WfSlot(s, |ps|);
      assert s.tt == FreeTag;
      assert Succ(ps, Ref(p, j)) == [Nil];
    }
  }

  /** A white heap object is on no gray list, so it may be blackened and
      scanned at once. */
  lemma WhiteScanning(ps: seq<Page>, gl: seq<ObjRef>, al: seq<ObjRef>, r: ObjRef)
    requires MarkInv(ps, gl, al) && IsSlotRef(ps, r) && IsWhite(SlotAt(ps, r).color)
    ensures Scanning(ps, gl, al, r)
  {
    forall i | 0 <= i < |gl + al| ensures (gl + al)[i] != r {
    }
  }

  /** Every allocated object reachable from the roots survives the coming
      sweep. */
  ghost predicate SurvivesSweep(ps: seq<Page>, roots: seq<ObjRef>, cw: Color) {
    forall r | Reachable(ps, roots, r) && IsSlotRef(ps, r) && SlotAt(ps, r).tt != FreeTag :: !IsDead(SlotAt(ps, r), cw)
  }

  /** Marking complete with every root shaded: the sweep that follows frees
      nothing reachable. */
  lemma MarkCompleteSafe(ps: seq<Page>, roots: seq<ObjRef>, cw: Color)
    requires WfPages(ps) && MarkInv(ps, [], []) && IsWhitePart(cw) && AllShaded(ps, roots)
    ensures SurvivesSweep(ps, roots, cw)
  {
    forall r | Reachable(ps, roots, r) && IsSlotRef(ps, r) && SlotAt(ps, r).tt != FreeTag
      ensures !IsDead(SlotAt(ps, r), cw)
    {
      ReachableNotDead(ps, roots, cw, r);
    }
  }

  // ---------------------------------------------------------------- error objects

  /** The slot with its payload references dropped (`mrb_gc_free_iv` and the
      cleared message and backtrace of a pre-allocated error). */
  function DropChildren(ps: seq<Page>, r: ObjRef): seq<Page>
    requires IsSlotRef(ps, r)
  {
    SetSlot(ps, r, SlotAt(ps, r).(children := []))
  }

  /** Dropping the references of the exempt object keeps every colour, so
      the invariants and all shading survive, and the object's only
      successor left is its class. */
  lemma {:induction false} DropChildrenInv(ps: seq<Page>, gl: seq<ObjRef>, al: seq<ObjRef>, r: ObjRef, inv: bool)
    requires WfPages(ps) && IsSlotRef(ps, r) && (inv ==> MarkInvExcept(ps, gl, al, r))
    ensures var ps' := DropChildren(ps, r);
      && WfPages(ps') && |ps'| == |ps|
      && IsSlotRef(ps', r) && SlotAt(ps', r) == SlotAt(ps, r).(children := [])
      && Succ(ps', r) == [SlotAt(ps, r).cls]
      && (forall z :: Shaded(ps', z) <==> Shaded(ps, z))
      && (inv ==> MarkInvExcept(ps', gl, al, r))
  {
    var s := SlotAt(ps, r);
    var ps' := DropChildren(ps, r);
    assert WfSlot(s, |ps|);
    SetSlotWf(ps, r, s.(children := []));
    forall z ensures Shaded(ps', z) <==> Shaded(ps, z) {
      if IsSlotRef(ps, z) && z != r {
        assert SlotAt(ps', z) == SlotAt(ps, z);
      }
    }
    if inv {
      var l := gl + al;
      forall i | 0 <= i < |l| ensures IsSlotRef(ps', l[i]) && SlotAt(ps', l[i]).color == GRAY {
        if l[i] != r {
          assert SlotAt(ps', l[i]) == SlotAt(ps, l[i]);
        }
      }
      forall p, j | 0 <= p < |ps'| && 0 <= j < |ps'[p].objects|
          && ps'[p].objects[j].tt != FreeTag && ps'[p].objects[j].color == GRAY
        ensures Ref(p, j) in l
      {
        assert ps'[p].objects[j].tt == ps[p].objects[j].tt && ps'[p].objects[j].color == ps[p].objects[j].color;
      }
      forall p, j | 0 <= p < |ps'| && 0 <= j < |ps'[p].objects| && ps'[p].objects[j].color == BLACK && Ref(p, j) != r
        ensures SuccShaded(ps', Ref(p, j))
      {
        assert ps'[p].objects[j] == ps[p].objects[j];
        assert Succ(ps', Ref(p, j)) == Succ(ps, Ref(p, j));
        assert SuccShaded(ps, Ref(p, j));
      }
    }
  }

  /** Dropping references changes no tag and no colour, so the page lists
      and the counters are as they were. */
  lemma {:induction false} DropChildrenWf(ps: seq<Page>, r: ObjRef, hs: seq<nat>, fh: seq<nat>, sp: nat, cw: Color,
                                          live: nat, lam: nat, sw: bool)
    requires HeapWf(ps, hs, fh, sp, cw, live, lam, sw) && IsSlotRef(ps, r)
    ensures HeapWf(DropChildren(ps, r), hs, fh, sp, cw, live, lam, sw)
    ensures PageTally(DropChildren(ps, r), WhiteT) == PageTally(ps, WhiteT)
  {
    var s := SlotAt(ps, r);
    var s' := s.(children := []);
    var ps' := DropChildren(ps, r);
    DropChildrenInv(ps, [], [], r, false);
    forall p | 0 <= p < |ps'| && p !in hs ensures SlotTally(ps'[p].objects, NonFreeT) == 0 {
      if p == r.page {
        SlotTallyUpdate(ps[p].objects, r.idx, s', NonFreeT);
      }
    }
    SetSlotTally(ps, r, s', NonFreeT);
    SetSlotTally(ps, r, s', WhiteT);
    SetSlotTally(ps, r, s', DeadLiveT(cw));
  }

  // ---------------------------------------------------------------- write barriers

  /** The heap after the mutator stores `value` into the `k`-th reference of `obj`. */
  function StoreChild(ps: seq<Page>, obj: ObjRef, k: nat, value: ObjRef): seq<Page>
    requires IsSlotRef(ps, obj) && k < |SlotAt(ps, obj).children|
  {
    SetSlot(ps, obj, SlotAt(ps, obj).(children := SlotAt(ps, obj).children[k := value]))
  }

  /** The state a field store leaves for `mrb_field_write_barrier(obj, value)`:
      the invariants hold with `obj` exempt, and if `obj` is black then
      `value` is its only reference that may be unshaded. */
  predicate StorePending(ps: seq<Page>, gl: seq<ObjRef>, al: seq<ObjRef>, obj: ObjRef, value: ObjRef) {
    && MarkInvExcept(ps, gl, al, obj)
    && (IsSlotRef(ps, obj) && SlotAt(ps, obj).color == BLACK ==>
          forall k | 0 <= k < |Succ(ps, obj)| :: Shaded(ps, Succ(ps, obj)[k]) || Succ(ps, obj)[k] == value)
  }

  /** A store into a well-formed, fully marked-consistent heap leaves exactly
      the pending state the field barrier expects. */
  lemma {:induction false} StoreMakesPending(ps: seq<Page>, gl: seq<ObjRef>, al: seq<ObjRef>, obj: ObjRef, k: nat, value: ObjRef)
    requires MarkInv(ps, gl, al) && IsSlotRef(ps, obj) && k < |SlotAt(ps, obj).children|
    ensures StorePending(StoreChild(ps, obj, k, value), gl, al, obj, value)
  {
    var s := SlotAt(ps, obj);
    var ps' := StoreChild(ps, obj, k, value);
    assert |ps'| == |ps|;
    forall z ensures Shaded(ps', z) <==> Shaded(ps, z) {
      if IsSlotRef(ps, z) && z != obj {
        assert SlotAt(ps', z) == SlotAt(ps, z);
      }
    }
    var l := gl + al;
    forall i | 0 <= i < |l| ensures IsSlotRef(ps', l[i]) && SlotAt(ps', l[i]).color == GRAY {
      if l[i] != obj {
        assert SlotAt(ps', l[i]) == SlotAt(ps, l[i]);
      }
    }
    forall p, j | 0 <= p < |ps'| && 0 <= j < |ps'[p].objects|
        && ps'[p].objects[j].tt != FreeTag && ps'[p].objects[j].color == GRAY
      ensures Ref(p, j) in l
    {
      assert ps'[p].objects[j].tt == ps[p].objects[j].tt && ps'[p].objects[j].color == ps[p].objects[j].color;
    }
    forall p, j | 0 <= p < |ps'| && 0 <= j < |ps'[p].objects| && ps'[p].objects[j].color == BLACK && Ref(p, j) != obj
      ensures SuccShaded(ps', Ref(p, j))
    {
      assert ps'[p].objects[j] == ps[p].objects[j];
      assert Succ(ps', Ref(p, j)) == Succ(ps, Ref(p, j));
      assert SuccShaded(ps, Ref(p, j));
    }
    if s.color == BLACK {
      var succ := Succ(ps, obj);
      var succ' := Succ(ps', obj);
      assert SuccShaded(ps, Ref(obj.page, obj.idx));
      forall i | 0 <= i < |succ'| ensures Shaded(ps', succ'[i]) || succ'[i] == value {
        if succ'[i] != value {
          assert succ'[i] == succ[i];
        }
      }
    }
  }

  /** The barrier grays `value`: the exemption closes. */
  lemma BarrierGray(ps: seq<Page>, gl: seq<ObjRef>, al: seq<ObjRef>, obj: ObjRef, value: ObjRef)
    requires WfPages(ps) && StorePending(ps, gl, al, obj, value)
    requires IsSlotRef(ps, value) && IsWhite(SlotAt(ps, value).color)
    ensures MarkInv(Paint(ps, value, GRAY), [value] + gl, al)
  {
    assert WillMark(ps, value);
    MarkStep(ps, gl, al, value, obj);
    var ps' := Paint(ps, value, GRAY);
    if IsSlotRef(ps', obj) && SlotAt(ps', obj).color == BLACK {
      if obj != value {
        PaintOther(ps, value, GRAY, obj);
      }
      PaintSucc(ps, value, GRAY, obj);
      var succ := Succ(ps, obj);
      forall i | 0 <= i < |succ| ensures Shaded(ps', succ[i]) {
        if succ[i] != value {
          PaintShaded(ps, value, GRAY, succ[i]);
        }
      }
      CloseExempt(ps', [value] + gl, al, obj);
    }
  }

  /** The barrier does nothing: either `obj` is not black, so its exemption
      is empty, or `value` is already shaded. */
  lemma BarrierQuiet(ps: seq<Page>, gl: seq<ObjRef>, al: seq<ObjRef>, obj: ObjRef, value: ObjRef)
    requires WfPages(ps) && StorePending(ps, gl, al, obj, value)
    requires IsSlotRef(ps, obj) && (SlotAt(ps, obj).color != BLACK || Shaded(ps, value))
    ensures MarkInv(ps, gl, al)
  {
    if SlotAt(ps, obj).color == BLACK {
      CloseExempt(ps, gl, al, obj);
    }
  }

  /** `mrb_write_barrier` grays a black object and queues it on the atomic
      list; its references are rescanned during the final mark, so any
      change to them is covered. */
  lemma {:induction false} AtomicGray(ps: seq<Page>, gl: seq<ObjRef>, al: seq<ObjRef>, obj: ObjRef)
    requires MarkInvExcept(ps, gl, al, obj) && IsSlotRef(ps, obj) && SlotAt(ps, obj).color == BLACK
    ensures MarkInv(Paint(ps, obj, GRAY), gl, [obj] + al)
  {
    var ps' := Paint(ps, obj, GRAY);
    var l := gl + al;
    var l' := gl + ([obj] + al);
    assert obj !in l by {
      forall i | 0 <= i < |l| ensures l[i] != obj {
        assert SlotAt(ps, l[i]).color == GRAY;
      }
    }
    forall i | 0 <= i < |l'| ensures IsSlotRef(ps', l'[i]) && SlotAt(ps', l'[i]).color == GRAY {
      if l'[i] != obj {
        assert l'[i] in l;
        var m :| 0 <= m < |l| && l[m] == l'[i];
        PaintOther(ps, obj, GRAY, l'[i]);
      }
    }
    forall i, j | 0 <= i < j < |l'| ensures l'[i] != l'[j] {
      if i < |gl| && j < |gl| {
        assert l'[i] == l[i] && l'[j] == l[j];
      } else if i < |gl| && j == |gl| {
        assert l'[i] == l[i];
      } else if i < |gl| {
        assert l'[i] == l[i] && l'[j] == l[j - 1];
      } else if i == |gl| {
        assert l'[j] == l[j - 1];
      } else {
        assert l'[i] == l[i - 1] && l'[j] == l[j - 1];
      }
    }
    forall p, j | 0 <= p < |ps'| && 0 <= j < |ps'[p].objects|
        && ps'[p].objects[j].tt != FreeTag && ps'[p].objects[j].color == GRAY
      ensures Ref(p, j) in l'
    {
      if Ref(p, j) != obj {
        PaintOther(ps, obj, GRAY, Ref(p, j));
        assert Ref(p, j) in l;
      }
    }
    DarkPaintBlackShaded(ps, obj, GRAY, obj);
  }
}
