/**
 * Fill and Transmit take any descriptors, unchecked. Exactly which batches
 * leave the socket in a state that its rings, flags and counter agree on.
 */
module Batches {
  import opened Wrappers
  import opened Words
  import opened Rings
  import opened Flows
  import opened Invariant
  import opened Refinement
  import opened Safety

  /** The loop of Fill and Transmit from `next` on, whatever it is given. */
  function Pour(cfg: Config, slots: seq<Slot>, free: seq<bool>, next: nat, descs: seq<Desc>):
      Option<(seq<Slot>, seq<bool>)>
    decreases |descs|
  {
    if descs == [] then Some((slots, free))
    else
      var frame := FrameOf(cfg, descs[0].addr);
      if |slots| == 0 || SlotIndex(next, |slots|) >= |slots| || frame >= |free| then None
      else
        Pour(cfg, slots[SlotIndex(next, |slots|) := OutSlot(cfg, descs[0])], free[frame := false],
             Add32(next, 1), descs[1..])
  }

  /** The descriptors that the free slots leave room for. */
  function Batch(f: Flow, descs: seq<Desc>): seq<Desc> {
    descs[..Min(NumFree(f.out), |descs|)]
  }

  /** Fill or Transmit of any descriptors, run without interference. */
  function Submit(cfg: Config, f: Flow, descs: seq<Desc>): Outcome {
    var batch := Batch(f, descs);
    match Pour(cfg, f.out.slots, f.free, f.out.producer, batch)
    case None => Panic
    case Some((slots, free)) =>
      To(f.(out := Ring(Add32(f.out.producer, |batch|), f.out.consumer, slots), free := free,
            outstanding := f.outstanding + |batch|))
  }

  /** The rest of a call that is in the middle of its loop. */
  function Rest(cfg: Config, f: Flow): Outcome
    requires f.user.Submitting? && f.user.done <= |f.user.descs|
  {
    var left := f.user.descs[f.user.done..];
    match Pour(cfg, f.out.slots, f.free, f.user.next, left)
    case None => Panic
    case Some((slots, free)) =>
      To(f.(out := Ring(Add32(f.user.next, |left|), f.out.consumer, slots), free := free,
            outstanding := f.outstanding + |f.user.descs|, user := Idle))
  }

  lemma RestStep(cfg: Config, f: Flow)
    requires f.user.Submitting? && f.user.done < |f.user.descs| && StepSubmitSlot(cfg, f).To?
    ensures Rest(cfg, f) == Rest(cfg, StepSubmitSlot(cfg, f).flow)
  {
    var left := f.user.descs[f.user.done..];
    assert left[1..] == f.user.descs[f.user.done + 1..];
    assert Add32(f.user.next, |left|) == Add32(Add32(f.user.next, 1), |left| - 1) by {
      Add32Exact(f.user.next + 1, |left| - 1);
    }
  }

  lemma MidSubmit(cfg: Config, f: Flow, i: Ideal)
    requires Refines(cfg, f, i) && f.user.Submitting?
    ensures f.user.done <= |f.user.descs| && Add32(f.user.next, 0) == f.user.next
  {
  }

  lemma {:induction false} RestRefines(cfg: Config, f: Flow, i: Ideal) returns (i': Ideal)
    requires Refines(cfg, f, i) && f.user.Submitting?
    ensures f.user.done <= |f.user.descs| && Rest(cfg, f).To? && Refines(cfg, Rest(cfg, f).flow, i')
    decreases |f.user.descs| - f.user.done
  {
    MidSubmit(cfg, f, i);
    if f.user.done < |f.user.descs| {
      SubmitSlotRefines(cfg, f, i);
      RestStep(cfg, f);
      i' := RestRefines(cfg, StepSubmitSlot(cfg, f).flow, Shadow(cfg, f, i, SubmitSlot));
    } else {
      PublishRefines(cfg, f, i);
      i' := Shadow(cfg, f, i, Publish);
      assert f.user.descs[f.user.done..] == [];
      assert Rest(cfg, f) == StepPublish(f);
    }
  }

  /** A batch of distinct free frames of the partition keeps the invariant. */
  lemma SubmitWithin(cfg: Config, f: Flow, i: Ideal, descs: seq<Desc>) returns (i': Ideal)
    requires Refines(cfg, f, i) && f.user.Idle? && Acquired(cfg, f.free, Batch(f, descs))
    ensures Submit(cfg, f, descs).To? && Refines(cfg, Submit(cfg, f, descs).flow, i')
  {
    var batch := Batch(f, descs);
    BeginSubmitRefines(cfg, f, i, batch);
    var g := StepBeginSubmit(cfg, f, batch).flow;
    assert g.user.descs == batch && batch[0..] == batch;
    i' := RestRefines(cfg, g, i);
    assert Rest(cfg, g) == Submit(cfg, f, descs);
  }

  lemma AcquiredCons(cfg: Config, free: seq<bool>, descs: seq<Desc>, frame: nat)
    requires descs != [] && frame == FrameOf(cfg, descs[0].addr)
    requires frame < |free| && cfg.lo <= frame < cfg.hi && free[frame]
    requires Acquired(cfg, free[frame := false], descs[1..])
    ensures Acquired(cfg, free, descs)
  {
    var rest := descs[1..];
    forall k | 0 < k < |descs|
      ensures cfg.lo <= FrameOf(cfg, descs[k].addr) < cfg.hi && FrameOf(cfg, descs[k].addr) < |free|
      ensures FrameOf(cfg, descs[k].addr) != frame && free[FrameOf(cfg, descs[k].addr)]
    {
      assert descs[k] == rest[k - 1];
    }
    forall j, k | 0 < j < k < |descs| ensures FrameOf(cfg, descs[j].addr) != FrameOf(cfg, descs[k].addr) {
      assert descs[j] == rest[j - 1] && descs[k] == rest[k - 1];
    }
  }

  ghost predicate InPartition(cfg: Config, free: seq<bool>) {
    forall k :: 0 <= k < |free| && !free[k] ==> cfg.lo <= k < cfg.hi
  }

  /** Only a batch of distinct free frames clears as many flags as it has descriptors. */
  lemma {:induction false} PourClears(cfg: Config, slots: seq<Slot>, free: seq<bool>, next: nat, descs: seq<Desc>)
    requires Pour(cfg, slots, free, next, descs).Some?
    ensures var after := Pour(cfg, slots, free, next, descs).value.1;
      && |after| == |free| && (forall k :: 0 <= k < |free| && after[k] ==> free[k])
      && Busy(after) <= Busy(free) + |descs|
      && (Busy(after) == Busy(free) + |descs| && InPartition(cfg, after) ==> Acquired(cfg, free, descs))
    decreases |descs|
  {
    if descs != [] {
      var frame := FrameOf(cfg, descs[0].addr);
      var slots1, free1 := slots[SlotIndex(next, |slots|) := OutSlot(cfg, descs[0])], free[frame := false];
      PourClears(cfg, slots1, free1, Add32(next, 1), descs[1..]);
      BusyUpdate(free, frame, false);
      var after := Pour(cfg, slots, free, next, descs).value.1;
      assert !free1[frame] && !after[frame];
      if Busy(after) == Busy(free) + |descs| && InPartition(cfg, after) {
        AcquiredCons(cfg, free, descs, frame);
      }
    }
  }

  lemma IdleFlags(cfg: Config, f: Flow, i: Ideal)
    requires Refines(cfg, f, i) && f.user.Idle?
    ensures f.outstanding == Busy(f.free) && InPartition(cfg, f.free)
  {
  }

  /** After any other batch, no ideal state explains what the call leaves behind. */
  lemma SubmitBeyond(cfg: Config, f: Flow, i: Ideal, descs: seq<Desc>, i': Ideal)
    requires Refines(cfg, f, i) && f.user.Idle? && Submit(cfg, f, descs).To?
    requires Refines(cfg, Submit(cfg, f, descs).flow, i')
    ensures Acquired(cfg, f.free, Batch(f, descs))
  {
    IdleFlags(cfg, f, i);
    IdleFlags(cfg, Submit(cfg, f, descs).flow, i');
    PourClears(cfg, f.out.slots, f.free, f.out.producer, Batch(f, descs));
  }

  /**
   * Fill and Transmit leave the socket in a state that its rings, flags and
   * counter agree on exactly when the descriptors put on the ring are of distinct
   * free frames of the partition: not stale, not repeated, not foreign.
   */
  lemma SubmitExactly(cfg: Config, start: Flow, run: seq<Label>, f: Flow, i: Ideal, descs: seq<Desc>)
    requires Reaches(cfg, start, run, f, i) && f.user.Idle?
    ensures (Submit(cfg, f, descs).To? && exists i' :: Refines(cfg, Submit(cfg, f, descs).flow, i'))
       <==> Acquired(cfg, f.free, Batch(f, descs))
  {
    RunRefines(cfg, start, run, f, i);
    if Acquired(cfg, f.free, Batch(f, descs)) {
      var i' := SubmitWithin(cfg, f, i, descs);
    } else if Submit(cfg, f, descs).To? {
      forall i' ensures !Refines(cfg, Submit(cfg, f, descs).flow, i') {
        if Refines(cfg, Submit(cfg, f, descs).flow, i') {
          SubmitBeyond(cfg, f, i, descs, i');
          assert false;
        }
      }
    }
  }
}
