/**
 * Where the socket does not do what its documentation suggests, with a run that
 * shows it, and the exact condition under which it does.
 */
module Hazards {
  import opened Wrappers
  import opened Words
  import opened Rings
  import opened Flows
  import opened Invariant
  import opened Refinement
  import opened Safety

  // ---- A kernel that gives Fill slots back late ----------------------------

  const Whole := Desc(0, 2048)

  /** One frame, one slot per ring. */
  const Tiny: Layout := Layout(Rx, 1, 2048, 0, 1, 1, 1, false)

  /** Fill one frame; the kernel receives into it but keeps the Fill slot; Receive. */
  const LateRun: seq<Label> :=
    [BeginSubmit([Whole]), SubmitSlot, Publish, KernelTake, KernelGive(DescSlot(0, 60)), KernelPublish(1),
     BeginCollect(1), CollectSlot, Release]

  const Addr0 := [UmemSlot(0)]
  const Data0 := [DescSlot(0, 60)]
  const NoKernel := Kernel(0, multiset{}, 0)

  /** The states that run goes through. */
  const LateStates: seq<Flow> :=
    [Flow(Ring(0, 0, Addr0), Ring(0, 0, Addr0), [true], 0, Idle, NoKernel),
     Flow(Ring(0, 0, Addr0), Ring(0, 0, Addr0), [true], 0, Submitting([Whole], 0, 0), NoKernel),
     Flow(Ring(0, 0, Addr0), Ring(0, 0, Addr0), [false], 0, Submitting([Whole], 1, 1), NoKernel),
     Flow(Ring(1, 0, Addr0), Ring(0, 0, Addr0), [false], 1, Idle, NoKernel),
     Flow(Ring(1, 0, Addr0), Ring(0, 0, Addr0), [false], 1, Idle, Kernel(1, multiset{0}, 0)),
     Flow(Ring(1, 0, Addr0), Ring(0, 0, Data0), [false], 1, Idle, Kernel(1, multiset{}, 1)),
     Flow(Ring(1, 0, Addr0), Ring(1, 0, Data0), [false], 1, Idle, Kernel(1, multiset{}, 0)),
     Flow(Ring(1, 0, Addr0), Ring(1, 0, Data0), [false], 1, Collecting(1, 0, []), Kernel(1, multiset{}, 0)),
     Flow(Ring(1, 0, Addr0), Ring(1, 0, Data0), [true], 1, Collecting(1, 1, Data0), Kernel(1, multiset{}, 0)),
     Flow(Ring(1, 0, Addr0), Ring(1, 1, Data0), [true], 0, Idle, Kernel(1, multiset{}, 0))]

  ghost predicate Visits(cfg: Config, run: seq<Label>, states: seq<Flow>) {
    && |states| == |run| + 1
    && forall k :: 0 <= k < |run| ==> Visit(cfg, run, states, k)
  }

  ghost predicate Visit(cfg: Config, run: seq<Label>, states: seq<Flow>, k: nat)
    requires k < |run| && |states| == |run| + 1
  {
    Step(cfg, states[k], run[k]) == To(states[k + 1])
  }

  lemma {:induction false} ExecVisits(cfg: Config, run: seq<Label>, states: seq<Flow>, n: nat) returns (i: Ideal)
    requires Visits(cfg, run, states) && n <= |run|
    ensures Exec(cfg, states[0], run[..n]) == Some((states[n], i))
  {
    if n == 0 {
      i := Empty;
    } else {
      var i0 := ExecVisits(cfg, run, states, n - 1);
      assert Visit(cfg, run, states, n - 1);
      i := Shadow(cfg, states[n - 1], i0, run[n - 1]);
      assert run[..n] == run[..n - 1] + [run[n - 1]];
      ExecStep(cfg, states[0], run[..n - 1], run[n - 1], states[n - 1], i0, states[n]);
    }
  }

  lemma TinySubmits()
    ensures WellFormed(Tiny)
    ensures Step(Tiny, LateStates[0], LateRun[0]) == To(LateStates[1])
    ensures Step(Tiny, LateStates[1], LateRun[1]) == To(LateStates[2])
    ensures Step(Tiny, LateStates[2], LateRun[2]) == To(LateStates[3])
  {
    assert [Whole][..1] == [Whole];
  }

  lemma TinyKernel()
    ensures Step(Tiny, LateStates[3], LateRun[3]) == To(LateStates[4])
    ensures Step(Tiny, LateStates[4], LateRun[4]) == To(LateStates[5])
    ensures Step(Tiny, LateStates[5], LateRun[5]) == To(LateStates[6])
  {
    assert multiset{0} - multiset{0} == multiset{};
  }

  lemma TinyCollects()
    ensures Step(Tiny, LateStates[6], LateRun[6]) == To(LateStates[7])
    ensures Step(Tiny, LateStates[7], LateRun[7]) == To(LateStates[8])
    ensures Step(Tiny, LateStates[8], LateRun[8]) == To(LateStates[9])
  {
    assert [false][0 := true] == [true];
    assert [] + [DescSlot(0, 60)] == Data0;
  }

  lemma LateVisits()
    ensures WellFormed(Tiny) && Visits(Tiny, LateRun, LateStates)
  {
    TinySubmits();
    TinyKernel();
    TinyCollects();
    forall k | 0 <= k < |LateRun| ensures Visit(Tiny, LateRun, LateStates, k) {
      assert k == 0 || k == 1 || k == 2 || k == 3 || k == 4 || k == 5 || k == 6 || k == 7 || k == 8;
    }
  }

  /** After that run every frame is free and nothing is outstanding, yet no Fill slot is free. */
  lemma LateKernelStarves() returns (f: Flow, i: Ideal)
    ensures WellFormed(Tiny)
    ensures Reaches(Tiny, Init(Tiny, Addr0, Addr0), LateRun, f, i)
    ensures f.user.Idle? && f.free == [true] && f.outstanding == 0
    ensures NumFree(f.out) == 0
  {
    LateVisits();
    i := ExecVisits(Tiny, LateRun, LateStates, 9);
    f := LateStates[9];
    assert LateRun[..9] == LateRun;
    assert Init(Tiny, Addr0, Addr0).free == [true];
  }

  // ---- Transmitting received frames ----------------------------------------

  /** The kernel gives the slot back late; GetDescs finds the received frame free; Fill. */
  const RefillTail: seq<Label> := [KernelRelease(1), BeginSubmit([Whole]), SubmitSlot, Publish]

  const RefillStates: seq<Flow> :=
    [Flow(Ring(1, 1, Addr0), Ring(1, 1, Data0), [true], 0, Idle, NoKernel),
     Flow(Ring(1, 1, Addr0), Ring(1, 1, Data0), [true], 0, Submitting([Whole], 0, 1), NoKernel),
     Flow(Ring(1, 1, Addr0), Ring(1, 1, Data0), [false], 0, Submitting([Whole], 1, 2), NoKernel),
     Flow(Ring(2, 1, Addr0), Ring(1, 1, Data0), [false], 1, Idle, NoKernel)]

  lemma TinyRefills()
    ensures WellFormed(Tiny)
    ensures Step(Tiny, LateStates[9], RefillTail[0]) == To(RefillStates[0])
    ensures Step(Tiny, RefillStates[0], RefillTail[1]) == To(RefillStates[1])
    ensures Step(Tiny, RefillStates[1], RefillTail[2]) == To(RefillStates[2])
    ensures Step(Tiny, RefillStates[2], RefillTail[3]) == To(RefillStates[3])
  {
    assert [Whole][..1] == [Whole];
  }

  lemma VisitsConcat(cfg: Config, r: seq<Label>, a: seq<Flow>, t: seq<Label>, b: seq<Flow>)
    requires Visits(cfg, r, a) && Visits(cfg, t, [a[|r|]] + b)
    ensures Visits(cfg, r + t, a + b)
  {
    var c := [a[|r|]] + b;
    forall k | 0 <= k < |r + t| ensures Visit(cfg, r + t, a + b, k) {
      if k < |r| {
        assert Visit(cfg, r, a, k);
      } else {
        assert Visit(cfg, t, c, k - |r|);
      }
    }
  }

  lemma TailVisits()
    ensures WellFormed(Tiny) && Visits(Tiny, RefillTail, [LateStates[9]] + RefillStates)
  {
    TinyRefills();
    var c := [LateStates[9]] + RefillStates;
    forall k | 0 <= k < |RefillTail| ensures Visit(Tiny, RefillTail, c, k) {
      assert k == 0 || k == 1 || k == 2 || k == 3;
    }
  }

  lemma RefillVisits()
    ensures WellFormed(Tiny) && Visits(Tiny, LateRun + RefillTail, LateStates + RefillStates)
  {
    LateVisits();
    TailVisits();
    VisitsConcat(Tiny, LateRun, LateStates, RefillTail, RefillStates);
  }

  const TinyTx: Layout := Layout(Tx, 1, 2048, 0, 1, 1, 1, false)

  /** Transmit the descriptor that the run above received. */
  const EchoRun: seq<Label> := [BeginSubmit([Desc(0, 60)]), SubmitSlot, Publish]

  const EchoStates: seq<Flow> :=
    [Flow(Ring(0, 0, Data0), Ring(0, 0, Addr0), [true], 0, Idle, NoKernel),
     Flow(Ring(0, 0, Data0), Ring(0, 0, Addr0), [true], 0, Submitting([Desc(0, 60)], 0, 0), NoKernel),
     Flow(Ring(0, 0, Data0), Ring(0, 0, Addr0), [false], 0, Submitting([Desc(0, 60)], 1, 1), NoKernel),
     Flow(Ring(1, 0, Data0), Ring(0, 0, Addr0), [false], 1, Idle, NoKernel)]

  lemma EchoVisits()
    ensures WellFormed(TinyTx) && Visits(TinyTx, EchoRun, EchoStates)
  {
    assert [Desc(0, 60)][..1] == [Desc(0, 60)];
    assert Data0[0 := DescSlot(0, 60)] == Data0 && [true][0 := false] == [false];
  }

  /** A ring of one slot with one item waiting on it. */
  lemma OneWaiting(cfg: Config, f: Flow)
    requires f.user.Idle? && f.kernel.taken == 0 && |f.out.slots| == 1 && f.out.consumer < WORD
    requires f.out.producer == f.out.consumer + 1 && cfg.outSize == 1
    ensures OnOut(f) == [f.out.slots[0]]
  {
    MaskIsMod(f.out.consumer, 1);
    var from := Add32(f.out.consumer, 0);
    assert Sub32(f.out.producer, from) == 1;
    assert Contents(f.out, from, 1) == [At(f.out, from)] + Contents(f.out, Add32(from, 1), 0);
  }

  // A run of both flows: the order in which their steps were taken.

  datatype Event = OnRx(l: Label) | OnTx(l: Label)

  function RxOf(events: seq<Event>): seq<Label> {
    if events == [] then []
    else RxOf(events[..|events| - 1]) + (match events[|events| - 1] case OnRx(l) => [l] case OnTx(_) => [])
  }

  function TxOf(events: seq<Event>): seq<Label> {
    if events == [] then []
    else TxOf(events[..|events| - 1]) + (match events[|events| - 1] case OnRx(_) => [] case OnTx(l) => [l])
  }

  function AllRx(run: seq<Label>): seq<Event> {
    seq(|run|, k requires 0 <= k < |run| => OnRx(run[k]))
  }

  function AllTx(run: seq<Label>): seq<Event> {
    seq(|run|, k requires 0 <= k < |run| => OnTx(run[k]))
  }

  lemma {:induction false} ThenRx(events: seq<Event>, run: seq<Label>)
    ensures RxOf(events + AllRx(run)) == RxOf(events) + run && TxOf(events + AllRx(run)) == TxOf(events)
  {
    if run == [] {
      assert events + AllRx(run) == events;
    } else {
      var front := run[..|run| - 1];
      ThenRx(events, front);
      assert (events + AllRx(run))[..|events + AllRx(run)| - 1] == events + AllRx(front);
      assert run == front + [run[|run| - 1]];
    }
  }

  lemma {:induction false} ThenTx(events: seq<Event>, run: seq<Label>)
    ensures TxOf(events + AllTx(run)) == TxOf(events) + run && RxOf(events + AllTx(run)) == RxOf(events)
  {
    if run == [] {
      assert events + AllTx(run) == events;
    } else {
      var front := run[..|run| - 1];
      ThenTx(events, front);
      assert (events + AllTx(run))[..|events + AllTx(run)| - 1] == events + AllTx(front);
      assert run == front + [run[|run| - 1]];
    }
  }

  /** Fill, Receive, then Transmit of what was received, then Fill of what GetDescs finds free. */
  function EchoEvents(): seq<Event> {
    AllRx(LateRun) + AllTx(EchoRun) + AllRx(RefillTail)
  }

  lemma EchoSides()
    ensures RxOf(EchoEvents()) == LateRun + RefillTail && TxOf(EchoEvents()) == EchoRun
  {
    ThenRx([], LateRun);
    assert [] + AllRx(LateRun) == AllRx(LateRun) && [] + LateRun == LateRun;
    ThenTx(AllRx(LateRun), EchoRun);
    ThenRx(AllRx(LateRun) + AllTx(EchoRun), RefillTail);
    assert [] + EchoRun == EchoRun;
  }

  /**
   * Receive, Transmit and the next Fill(GetDescs()), in this order, as in the
   * package documentation: frame 0 ends up on the Fill ring and on the Tx ring at
   * once.
   */
  lemma EchoSharesFrame() returns (f: Flow, fi: Ideal, g: Flow, gi: Ideal)
    ensures WellFormed(Tiny) && WellFormed(TinyTx)
    ensures Reaches(Tiny, Init(Tiny, Addr0, Addr0), RxOf(EchoEvents()), f, fi)
    ensures Reaches(TinyTx, Init(TinyTx, Data0, Addr0), TxOf(EchoEvents()), g, gi)
    ensures f.user.Idle? && g.user.Idle?
    ensures Bag(Tiny, OnOut(f))[0] == 1 && Bag(TinyTx, OnOut(g))[0] == 1
  {
    EchoSides();
    RefillVisits();
    fi := ExecVisits(Tiny, LateRun + RefillTail, LateStates + RefillStates, 13);
    f := RefillStates[3];
    assert (LateRun + RefillTail)[..13] == LateRun + RefillTail;
    assert Init(Tiny, Addr0, Addr0).free == [true];
    EchoVisits();
    gi := ExecVisits(TinyTx, EchoRun, EchoStates, 3);
    g := EchoStates[3];
    assert EchoRun[..3] == EchoRun;
    OneWaiting(Tiny, f);
    OneWaiting(TinyTx, g);
    assert Frames(Tiny, OnOut(f)) == [0] && Frames(TinyTx, OnOut(g)) == [0];
  }

  // ---- Complete does not clamp ---------------------------------------------

  /** The loop of Complete: `n` slots from `next` on, whatever they hold. */
  function Drain(cfg: Config, back: Ring, free: seq<bool>, next: nat, n: nat): Option<seq<bool>>
    decreases n
  {
    if n == 0 then Some(free)
    else if |back.slots| == 0 || SlotIndex(next, |back.slots|) >= |back.slots| then None
    else
      var frame := FrameOf(cfg, back.slots[SlotIndex(next, |back.slots|)].addr);
      if frame >= |free| then None
      else Drain(cfg, back, free[frame := true], Add32(next, 1), n - 1)
  }

  /** Complete(n) for any integer, run without interference. */
  function Complete(cfg: Config, f: Flow, n: int): Outcome {
    var loops := if n < 0 then 0 else n;
    match Drain(cfg, f.back, f.free, f.back.consumer, loops)
    case None => Panic
    case Some(free) =>
      To(f.(free := free, back := f.back.(consumer := Add32(f.back.consumer, loops)), outstanding := f.outstanding - n))
  }

  /** The rest of a Complete that is in the middle of its loop. */
  function Finish(cfg: Config, f: Flow): Outcome
    requires f.user.Collecting? && |f.user.got| <= f.user.num
  {
    var left := f.user.num - |f.user.got|;
    match Drain(cfg, f.back, f.free, f.user.next, left)
    case None => Panic
    case Some(free) =>
      To(f.(free := free, back := f.back.(consumer := Add32(f.user.next, left)),
            outstanding := f.outstanding - f.user.num, user := Idle))
  }

  lemma FinishStep(cfg: Config, f: Flow)
    requires f.user.Collecting? && |f.user.got| < f.user.num && StepCollectSlot(cfg, f).To?
    ensures Finish(cfg, f) == Finish(cfg, StepCollectSlot(cfg, f).flow)
  {
    var left := f.user.num - |f.user.got|;
    assert Add32(f.user.next, left) == Add32(Add32(f.user.next, 1), left - 1) by {
      Add32Exact(f.user.next + 1, left - 1);
    }
  }

  lemma MidComplete(cfg: Config, f: Flow, i: Ideal)
    requires Refines(cfg, f, i) && cfg.kind.Tx? && f.user.Collecting?
    ensures |f.user.got| <= f.user.num && Add32(f.user.next, 0) == f.user.next
  {
  }

  lemma CollectAdvances(cfg: Config, f: Flow, i: Ideal)
    requires Refines(cfg, f, i) && f.user.Collecting? && |f.user.got| < f.user.num
    ensures StepCollectSlot(cfg, f).To?
    ensures var g := StepCollectSlot(cfg, f).flow;
      g.user.Collecting? && |g.user.got| == |f.user.got| + 1 && g.user.num == f.user.num
    ensures Refines(cfg, StepCollectSlot(cfg, f).flow, Shadow(cfg, f, i, CollectSlot))
  {
    CollectSlotReads(cfg, f, i);
    CollectSlotRefines(cfg, f, i);
  }

  lemma {:induction false} FinishRefines(cfg: Config, f: Flow, i: Ideal) returns (i': Ideal)
    requires Refines(cfg, f, i) && cfg.kind.Tx? && f.user.Collecting?
    ensures |f.user.got| <= f.user.num && Finish(cfg, f).To? && Refines(cfg, Finish(cfg, f).flow, i')
    decreases f.user.num - |f.user.got|
  {
    MidComplete(cfg, f, i);
    if |f.user.got| < f.user.num {
      CollectAdvances(cfg, f, i);
      FinishStep(cfg, f);
      i' := FinishRefines(cfg, StepCollectSlot(cfg, f).flow, Shadow(cfg, f, i, CollectSlot));
    } else {
      ReleaseRefines(cfg, f, i);
      i' := Shadow(cfg, f, i, Release);
      assert Finish(cfg, f) == StepRelease(cfg, f);
    }
  }

  /** Within bounds, Complete keeps the invariant. */
  lemma CompleteWithin(cfg: Config, f: Flow, i: Ideal, n: nat) returns (i': Ideal)
    requires Refines(cfg, f, i) && cfg.kind.Tx? && f.user.Idle? && n <= NumPending(f.back)
    ensures Complete(cfg, f, n).To? && Refines(cfg, Complete(cfg, f, n).flow, i')
  {
    BeginCollectRefines(cfg, f, i, n);
    var g := StepBeginCollect(cfg, f, n).flow;
    i' := FinishRefines(cfg, g, i);
    assert Finish(cfg, g) == Complete(cfg, f, n);
  }

  /** What the counters of an idle flow say. */
  lemma IdleNumbers(cfg: Config, f: Flow, i: Ideal)
    requires Refines(cfg, f, i) && f.user.Idle?
    ensures f.outstanding == (i.outPub - i.outFreed) - f.kernel.taken + |f.kernel.held|
                           + f.kernel.written + (i.backPub - i.backFreed)
    ensures Add32(f.back.consumer, 0) == f.back.consumer
    ensures i.outPub - i.outFreed == Sub32(f.out.producer, f.out.consumer)
    ensures i.backPub - i.backFreed == Sub32(f.back.producer, f.back.consumer) == NumPending(f.back)
  {
    Sub32Exact(i.outPub, i.outFreed);
    Sub32Exact(i.backPub, i.backFreed);
    NumPendingExact(f.back, cfg.backSize, i.backLog, i.backPub, i.backFreed);
  }

  /** Out of bounds, no ideal state explains what Complete leaves behind. */
  lemma CompleteBeyond(cfg: Config, f: Flow, i: Ideal, n: int, i': Ideal)
    requires Refines(cfg, f, i) && f.user.Idle? && !(0 <= n <= NumPending(f.back))
    requires Complete(cfg, f, n).To?
    ensures !Refines(cfg, Complete(cfg, f, n).flow, i')
  {
    var f' := Complete(cfg, f, n).flow;
    if Refines(cfg, f', i') {
      IdleNumbers(cfg, f, i);
      IdleNumbers(cfg, f', i');
      assert false;
    }
  }

  /**
   * Complete(n) leaves the socket in a state that its rings, flags and counter
   * agree on exactly when `0 <= n <= NumCompleted()`.
   */
  lemma CompleteExactly(cfg: Config, start: Flow, run: seq<Label>, f: Flow, i: Ideal, n: int)
    requires Reaches(cfg, start, run, f, i) && cfg.kind.Tx? && f.user.Idle?
    ensures (Complete(cfg, f, n).To? && exists i' :: Refines(cfg, Complete(cfg, f, n).flow, i'))
       <==> 0 <= n <= NumPending(f.back)
  {
    RunRefines(cfg, start, run, f, i);
    if 0 <= n <= NumPending(f.back) {
      var i' := CompleteWithin(cfg, f, i, n);
    } else if Complete(cfg, f, n).To? {
      forall i' ensures !Refines(cfg, Complete(cfg, f, n).flow, i') {
        CompleteBeyond(cfg, f, i, n, i');
      }
    }
  }
}
