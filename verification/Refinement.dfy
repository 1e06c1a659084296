/**
 * Every step of the user and of the kernel keeps the invariant of a flow, and
 * no step of the program indexes out of range.
 */
module Refinement {
  import opened Words
  import opened Rings
  import opened Flows
  import opened Invariant

  // ---- Bags of frames and counts of cleared flags --------------------------

  lemma BagSnoc(cfg: Config, s: seq<Slot>, x: Slot)
    ensures Bag(cfg, s + [x]) == Bag(cfg, s) + multiset{FrameOf(cfg, x.addr)}
  {
    assert Frames(cfg, s + [x]) == Frames(cfg, s) + [FrameOf(cfg, x.addr)];
  }

  lemma BagCons(cfg: Config, s: seq<Slot>)
    requires s != []
    ensures Bag(cfg, s) == multiset{FrameOf(cfg, s[0].addr)} + Bag(cfg, s[1..])
  {
    assert Frames(cfg, s) == [FrameOf(cfg, s[0].addr)] + Frames(cfg, s[1..]);
  }

  lemma {:induction false} BusyUpdate(free: seq<bool>, k: nat, v: bool)
    requires k < |free|
    ensures Busy(free[k := v]) == Busy(free) - (if free[k] then 0 else 1) + (if v then 0 else 1)
  {
    var m := |free| - 1;
    if k == m {
      assert free[k := v][..m] == free[..m];
    } else {
      assert free[k := v][..m] == free[..m][k := v];
      BusyUpdate(free[..m], k, v);
    }
  }

  lemma {:induction false} BusyBound(free: seq<bool>, lo: nat, hi: nat)
    requires lo <= hi
    requires forall k :: 0 <= k < |free| && !free[k] ==> lo <= k < hi
    ensures Busy(free) <= hi - lo
    ensures |free| <= lo ==> Busy(free) == 0
  {
    if free != [] {
      var m := |free| - 1;
      BusyBound(free[..m], lo, if m < hi && lo <= m then m else hi);
    }
  }

  lemma {:induction false} NoneBusy(free: seq<bool>, k: nat)
    requires Busy(free) == 0 && k < |free|
    ensures free[k]
  {
    if k < |free| - 1 {
      NoneBusy(free[..|free| - 1], k);
    }
  }

  lemma {:induction false} BusyNone(n: nat)
    ensures Busy(seq(n, _ => true)) == 0
  {
    if n > 0 {
      assert seq(n, _ => true)[..n - 1] == seq(n - 1, _ => true);
      BusyNone(n - 1);
    }
  }

  // ---- Frames move from place to place -------------------------------------

  lemma DropSnoc(cfg: Config, log: seq<Slot>, from: nat, s: Slot)
    requires from <= |log|
    ensures Bag(cfg, (log + [s])[from..]) == Bag(cfg, log[from..]) + multiset{FrameOf(cfg, s.addr)}
  {
    assert (log + [s])[from..] == log[from..] + [s];
    BagSnoc(cfg, log[from..], s);
  }

  lemma DropCons(cfg: Config, log: seq<Slot>, from: nat)
    requires from < |log|
    ensures Bag(cfg, log[from..]) == multiset{FrameOf(cfg, log[from].addr)} + Bag(cfg, log[from + 1..])
  {
    assert log[from..][1..] == log[from + 1..];
    BagCons(cfg, log[from..]);
  }

  lemma MoveSubmit(free: seq<bool>, out: multiset<nat>, held: multiset<nat>, back: multiset<nat>, frame: nat)
    requires OnePlace(free, out, held, back) && frame < |free| && free[frame]
    ensures OnePlace(free[frame := false], out + multiset{frame}, held, back)
  {
    var free' := free[frame := false];
    forall k: nat ensures Places(free', out + multiset{frame}, held, back, k) == if k < |free| then 1 else 0 {
      assert Places(free, out, held, back, k) == if k < |free| then 1 else 0;
    }
  }

  lemma MoveTake(free: seq<bool>, out: multiset<nat>, held: multiset<nat>, back: multiset<nat>, frame: nat)
    requires OnePlace(free, multiset{frame} + out, held, back)
    ensures OnePlace(free, out, held + multiset{frame}, back)
  {
    forall k: nat ensures Places(free, out, held + multiset{frame}, back, k) == if k < |free| then 1 else 0 {
      assert Places(free, multiset{frame} + out, held, back, k) == if k < |free| then 1 else 0;
    }
  }

  lemma MoveGive(free: seq<bool>, out: multiset<nat>, held: multiset<nat>, back: multiset<nat>, frame: nat)
    requires OnePlace(free, out, held, back) && frame in held
    ensures OnePlace(free, out, held - multiset{frame}, back + multiset{frame})
  {
    forall k: nat ensures Places(free, out, held - multiset{frame}, back + multiset{frame}, k) == if k < |free| then 1 else 0 {
      assert Places(free, out, held, back, k) == if k < |free| then 1 else 0;
    }
  }

  lemma MoveCollect(free: seq<bool>, out: multiset<nat>, held: multiset<nat>, back: multiset<nat>, frame: nat)
    requires OnePlace(free, out, held, multiset{frame} + back) && frame < |free|
    ensures !free[frame] && OnePlace(free[frame := true], out, held, back)
  {
    assert Places(free, out, held, multiset{frame} + back, frame) == 1;
    var free' := free[frame := true];
    forall k: nat ensures Places(free', out, held, back, k) == if k < |free| then 1 else 0 {
      assert Places(free, out, held, multiset{frame} + back, k) == if k < |free| then 1 else 0;
    }
  }

  lemma FlagCleared(cfg: Config, free: seq<bool>, busy: int, k: nat)
    requires Flagged(cfg, free, busy) && cfg.lo <= k < cfg.hi && free[k]
    ensures Flagged(cfg, free[k := false], busy + 1) && busy < cfg.hi - cfg.lo
  {
    BusyUpdate(free, k, false);
    BusyBound(free[k := false], cfg.lo, cfg.hi);
  }

  lemma FlagSet(cfg: Config, free: seq<bool>, busy: int, k: nat)
    requires Flagged(cfg, free, busy) && k < cfg.frames && !free[k]
    ensures Flagged(cfg, free[k := true], busy - 1)
  {
    BusyUpdate(free, k, true);
  }

  /** free -> out */
  lemma OwnedSubmit(cfg: Config, f: Flow, i: Ideal, f': Flow, i': Ideal, s: Slot, frame: nat)
    requires Cursors(cfg, i) && Cursors(cfg, i') && Owned(cfg, f, i)
    requires frame == FrameOf(cfg, s.addr)
    requires cfg.lo <= frame < cfg.hi && f.free[frame] && f'.free == f.free[frame := false]
    requires f'.kernel.held == f.kernel.held
    requires i' == i.(outLog := i.outLog + [s])
    ensures Owned(cfg, f', i')
  {
    FlagCleared(cfg, f.free, |i.outLog| - i.backRead, frame);
    DropSnoc(cfg, i.outLog, i.outRead, s);
    MoveSubmit(f.free, Bag(cfg, OutQueue(i)), f.kernel.held, Bag(cfg, BackQueue(i)), frame);
  }

  /** out -> kernel */
  lemma OwnedTake(cfg: Config, f: Flow, i: Ideal, f': Flow, i': Ideal, frame: nat)
    requires Cursors(cfg, i) && Cursors(cfg, i') && Owned(cfg, f, i)
    requires i.outRead < |i.outLog| && i' == i.(outRead := i.outRead + 1)
    requires frame == FrameOf(cfg, i.outLog[i.outRead].addr)
    requires f'.kernel.held == f.kernel.held + multiset{frame} && f'.free == f.free
    ensures Owned(cfg, f', i')
  {
    DropCons(cfg, i.outLog, i.outRead);
    MoveTake(f.free, Bag(cfg, OutQueue(i')), f.kernel.held, Bag(cfg, BackQueue(i)), frame);
  }

  /** kernel -> back */
  lemma OwnedGive(cfg: Config, f: Flow, i: Ideal, f': Flow, i': Ideal, s: Slot, frame: nat)
    requires Cursors(cfg, i) && Cursors(cfg, i') && Owned(cfg, f, i)
    requires frame == FrameOf(cfg, s.addr) && frame in f.kernel.held
    requires i' == i.(backLog := i.backLog + [s])
    requires f'.kernel.held == f.kernel.held - multiset{frame} && f'.free == f.free
    ensures Owned(cfg, f', i')
  {
    DropSnoc(cfg, i.backLog, i.backRead, s);
    MoveGive(f.free, Bag(cfg, OutQueue(i)), f.kernel.held, Bag(cfg, BackQueue(i)), frame);
  }

  /** back -> free */
  lemma OwnedCollect(cfg: Config, f: Flow, i: Ideal, f': Flow, i': Ideal, frame: nat)
    requires Cursors(cfg, i) && Cursors(cfg, i') && Owned(cfg, f, i)
    requires i.backRead < |i.backLog| && i' == i.(backRead := i.backRead + 1)
    requires frame == FrameOf(cfg, i.backLog[i.backRead].addr)
    requires frame < cfg.frames && f'.free == f.free[frame := true]
    requires f'.kernel.held == f.kernel.held
    ensures Owned(cfg, f', i')
  {
    DropCons(cfg, i.backLog, i.backRead);
    MoveCollect(f.free, Bag(cfg, OutQueue(i)), f.kernel.held, Bag(cfg, BackQueue(i')), frame);
    FlagSet(cfg, f.free, |i.outLog| - i.backRead, frame);
  }

  /** Steps that touch no flag, no queue and no held frame leave ownership alone. */
  lemma OwnedSame(cfg: Config, f: Flow, i: Ideal, f': Flow, i': Ideal)
    requires Cursors(cfg, i) && Cursors(cfg, i') && Owned(cfg, f, i)
    requires f'.free == f.free && f'.kernel.held == f.kernel.held
    requires i'.outLog == i.outLog && i'.outRead == i.outRead
    requires i'.backLog == i.backLog && i'.backRead == i.backRead
    ensures Owned(cfg, f', i')
  {
  }

  /** Whatever the kernel does, the local variables of the running call keep their meaning. */
  lemma LocalsUnderKernel(cfg: Config, f: Flow, i: Ideal, f': Flow, i': Ideal)
    requires Cursors(cfg, i) && Cursors(cfg, i') && Locals(cfg, f, i)
    requires f'.user == f.user && f'.free == f.free
    requires i'.outLog == i.outLog && i'.outPub == i.outPub && i.outFreed <= i'.outFreed
    requires i.backLog <= i'.backLog && i.backPub <= i'.backPub
    requires i'.backRead == i.backRead && i'.backFreed == i.backFreed
    ensures Locals(cfg, f', i')
  {
    assert i'.backLog[i.backFreed..i.backRead] == i.backLog[i.backFreed..i.backRead];
  }

  // ---- Every step keeps the invariant --------------------------------------

  lemma Assemble(cfg: Config, f: Flow, i: Ideal)
    requires Cursors(cfg, i) && Memory(cfg, f, i) && Owned(cfg, f, i) && Counters(cfg, f, i) && Locals(cfg, f, i)
    ensures Refines(cfg, f, i)
  {
  }

  lemma InitRefines(cfg: Config, outSlots: seq<Slot>, backSlots: seq<Slot>)
    requires |outSlots| == cfg.outSize && |backSlots| == cfg.backSize
    ensures Refines(cfg, Init(cfg, outSlots, backSlots), Empty)
  {
    BusyNone(cfg.frames);
    var f := Init(cfg, outSlots, backSlots);
    assert Bag(cfg, OutQueue(Empty)) == multiset{} == Bag(cfg, BackQueue(Empty));
  }

  lemma BeginSubmitRefines(cfg: Config, f: Flow, i: Ideal, descs: seq<Desc>)
    requires Refines(cfg, f, i) && StepBeginSubmit(cfg, f, descs) != Blocked
    ensures StepBeginSubmit(cfg, f, descs).To?
    ensures Refines(cfg, StepBeginSubmit(cfg, f, descs).flow, i)
  {
    NumFreeExact(f.out, cfg.outSize, i.outLog, i.outPub, i.outFreed);
    var f' := StepBeginSubmit(cfg, f, descs).flow;
    assert f'.user.descs[0..] == f'.user.descs;
  }

  lemma AcquiredPrefix(cfg: Config, free: seq<bool>, descs: seq<Desc>, n: nat)
    requires n <= |descs| && Acquired(cfg, free, descs)
    ensures Acquired(cfg, free, descs[..n])
  {
  }

  lemma AcquiredRest(cfg: Config, free: seq<bool>, descs: seq<Desc>, done: nat)
    requires done < |descs| && Acquired(cfg, free, descs[done..])
    ensures var k := FrameOf(cfg, descs[done].addr);
      cfg.lo <= k < cfg.hi && k < |free| && free[k] && Acquired(cfg, free[k := false], descs[done + 1..])
  {
    var rest, rest' := descs[done..], descs[done + 1..];
    assert rest[0] == descs[done];
    forall k | 0 <= k < |rest'| ensures rest'[k] == rest[k + 1] {}
  }

  lemma SubmitSlotLands(cfg: Config, f: Flow, i: Ideal)
    requires Refines(cfg, f, i) && StepSubmitSlot(cfg, f) != Blocked
    ensures StepSubmitSlot(cfg, f).To?
    ensures Cursors(cfg, Shadow(cfg, f, i, SubmitSlot))
    ensures Memory(cfg, StepSubmitSlot(cfg, f).flow, Shadow(cfg, f, i, SubmitSlot))
  {
    var d := f.user.descs[f.user.done];
    AcquiredRest(cfg, f.free, f.user.descs, f.user.done);
    WriteSlot(f.out, cfg.outSize, i.outLog, i.outPub, i.outFreed, OutSlot(cfg, d));
    FlagCleared(cfg, f.free, |i.outLog| - i.backRead, FrameOf(cfg, d.addr));
  }

  lemma LocalsSubmit(cfg: Config, f: Flow, i: Ideal, f': Flow, i': Ideal)
    requires Cursors(cfg, i) && Cursors(cfg, i') && Locals(cfg, f, i)
    requires f.user.Submitting? && f.user.done < |f.user.descs|
    requires var d := f.user.descs[f.user.done];
      && i' == i.(outLog := i.outLog + [OutSlot(cfg, d)])
      && f'.free == if FrameOf(cfg, d.addr) < |f.free| then f.free[FrameOf(cfg, d.addr) := false] else f.free
    requires f'.user == f.user.(done := f.user.done + 1, next := Add32(f.user.next, 1))
    ensures Locals(cfg, f', i')
  {
    AcquiredRest(cfg, f.free, f.user.descs, f.user.done);
    Add32Exact(|i.outLog|, 1);
  }

  lemma SubmitSlotRefines(cfg: Config, f: Flow, i: Ideal)
    requires Refines(cfg, f, i) && StepSubmitSlot(cfg, f) != Blocked
    ensures StepSubmitSlot(cfg, f).To?
    ensures Refines(cfg, StepSubmitSlot(cfg, f).flow, Shadow(cfg, f, i, SubmitSlot))
  {
    SubmitSlotLands(cfg, f, i);
    var f', i' := StepSubmitSlot(cfg, f).flow, Shadow(cfg, f, i, SubmitSlot);
    var d := f.user.descs[f.user.done];
    assert Owned(cfg, f', i') by {
      AcquiredRest(cfg, f.free, f.user.descs, f.user.done);
      OwnedSubmit(cfg, f, i, f', i', OutSlot(cfg, d), FrameOf(cfg, d.addr));
    }
    assert Locals(cfg, f', i') by {
      LocalsSubmit(cfg, f, i, f', i');
    }
    assert Counters(cfg, f', i');
    Assemble(cfg, f', i');
  }

  lemma PublishRefines(cfg: Config, f: Flow, i: Ideal)
    requires Refines(cfg, f, i) && StepPublish(f) != Blocked
    ensures StepPublish(f).To?
    ensures Refines(cfg, StepPublish(f).flow, Shadow(cfg, f, i, Publish))
  {
    var f' := StepPublish(f).flow;
    var i' := Shadow(cfg, f, i, Publish);
    PublishSlots(f.out, cfg.outSize, i.outLog, i.outPub, i.outFreed, |i.outLog|);
  }

  lemma BeginCollectRefines(cfg: Config, f: Flow, i: Ideal, n: int)
    requires Refines(cfg, f, i) && StepBeginCollect(cfg, f, n) != Blocked
    ensures StepBeginCollect(cfg, f, n).To?
    ensures Refines(cfg, StepBeginCollect(cfg, f, n).flow, i)
  {
    NumPendingExact(f.back, cfg.backSize, i.backLog, i.backPub, i.backFreed);
    var f' := StepBeginCollect(cfg, f, n).flow;
  }

  /** The slot read is the oldest item not yet collected, and its frame is in range. */
  lemma CollectSlotReads(cfg: Config, f: Flow, i: Ideal)
    requires Refines(cfg, f, i) && StepCollectSlot(cfg, f) != Blocked
    ensures i.backRead < i.backPub && FrameOf(cfg, i.backLog[i.backRead].addr) < cfg.frames
    ensures StepCollectSlot(cfg, f) == To(f.(
      free := f.free[FrameOf(cfg, i.backLog[i.backRead].addr) := true],
      user := f.user.(next := (i.backRead + 1) % WORD, got := f.user.got + [i.backLog[i.backRead]])))
  {
    ReadSlot(f.back, cfg.backSize, i.backLog, i.backPub, i.backFreed, i.backRead);
    Add32Exact(i.backRead, 1);
    assert GoodBack(cfg, i.backLog[i.backRead]);
  }

  lemma LocalsCollect(cfg: Config, f: Flow, i: Ideal, f': Flow, i': Ideal)
    requires Cursors(cfg, i) && Cursors(cfg, i') && Locals(cfg, f, i)
    requires f.user.Collecting? && |f.user.got| < f.user.num
    requires i.backRead < i.backPub && i' == i.(backRead := i.backRead + 1)
    requires f'.user == f.user.(next := i'.backRead % WORD, got := f.user.got + [i.backLog[i.backRead]])
    ensures Locals(cfg, f', i')
  {
    assert i.backLog[i.backFreed..i'.backRead] == i.backLog[i.backFreed..i.backRead] + [i.backLog[i.backRead]];
  }

  lemma CollectParts(cfg: Config, f: Flow, i: Ideal, f': Flow, i': Ideal)
    requires Cursors(cfg, i) && Memory(cfg, f, i) && Counters(cfg, f, i)
    requires i.backRead < i.backPub && i' == i.(backRead := i.backRead + 1)
    requires f'.out == f.out && f'.back == f.back && f'.kernel == f.kernel && f'.outstanding == f.outstanding
    ensures Cursors(cfg, i') && Memory(cfg, f', i') && Counters(cfg, f', i')
  {
  }

  lemma CollectSlotRefines(cfg: Config, f: Flow, i: Ideal)
    requires Refines(cfg, f, i) && StepCollectSlot(cfg, f) != Blocked
    ensures StepCollectSlot(cfg, f).To?
    ensures Refines(cfg, StepCollectSlot(cfg, f).flow, Shadow(cfg, f, i, CollectSlot))
  {
    CollectSlotReads(cfg, f, i);
    var f', i' := StepCollectSlot(cfg, f).flow, Shadow(cfg, f, i, CollectSlot);
    CollectParts(cfg, f, i, f', i');
    assert Owned(cfg, f', i') by {
      OwnedCollect(cfg, f, i, f', i', FrameOf(cfg, i.backLog[i.backRead].addr));
    }
    assert Locals(cfg, f', i') by {
      LocalsCollect(cfg, f, i, f', i');
    }
    Assemble(cfg, f', i');
  }

  lemma ReleaseRefines(cfg: Config, f: Flow, i: Ideal)
    requires Refines(cfg, f, i) && StepRelease(cfg, f) != Blocked
    ensures StepRelease(cfg, f).To?
    ensures Refines(cfg, StepRelease(cfg, f).flow, Shadow(cfg, f, i, Release))
  {
    var f' := StepRelease(cfg, f).flow;
    var i' := Shadow(cfg, f, i, Release);
    FreeSlots(f.back, cfg.backSize, i.backLog, i.backPub, i.backFreed, i.backRead);
  }

  /** The slot the kernel reads is the oldest item not yet taken. */
  lemma KernelTakeReads(cfg: Config, f: Flow, i: Ideal)
    requires Cursors(cfg, i) && Memory(cfg, f, i) && Counters(cfg, f, i) && StepKernelTake(cfg, f) != Blocked
    ensures i.outRead < i.outPub
    ensures StepKernelTake(cfg, f) == To(f.(kernel := f.kernel.(
      taken := f.kernel.taken + 1, held := f.kernel.held + multiset{FrameOf(cfg, i.outLog[i.outRead].addr)})))
  {
    Add32Exact(i.outFreed, f.kernel.taken);
    CursorMeets(i.outRead, i.outPub);
    ReadSlot(f.out, cfg.outSize, i.outLog, i.outPub, i.outFreed, i.outRead);
  }

  lemma KernelTakeParts(cfg: Config, f: Flow, i: Ideal, f': Flow, i': Ideal, frame: nat)
    requires Cursors(cfg, i) && Memory(cfg, f, i) && Counters(cfg, f, i)
    requires i.outRead < i.outPub && i' == i.(outRead := i.outRead + 1)
    requires f' == f.(kernel := f.kernel.(taken := f.kernel.taken + 1, held := f.kernel.held + multiset{frame}))
    ensures Cursors(cfg, i') && Memory(cfg, f', i') && Counters(cfg, f', i')
  {
  }

  lemma KernelTakeRefines(cfg: Config, f: Flow, i: Ideal)
    requires Refines(cfg, f, i) && StepKernelTake(cfg, f) != Blocked
    ensures StepKernelTake(cfg, f).To? && i.outRead < i.outPub
    ensures Refines(cfg, StepKernelTake(cfg, f).flow, Shadow(cfg, f, i, KernelTake))
  {
    KernelTakeReads(cfg, f, i);
    var f', i' := StepKernelTake(cfg, f).flow, Shadow(cfg, f, i, KernelTake);
    var frame := FrameOf(cfg, i.outLog[i.outRead].addr);
    KernelTakeParts(cfg, f, i, f', i', frame);
    assert Owned(cfg, f', i') by { OwnedTake(cfg, f, i, f', i', frame); }
    assert Locals(cfg, f', i') by { LocalsUnderKernel(cfg, f, i, f', i'); }
    Assemble(cfg, f', i');
  }

  lemma KernelReleaseParts(cfg: Config, f: Flow, i: Ideal, n: nat)
    requires Cursors(cfg, i) && Memory(cfg, f, i) && Counters(cfg, f, i) && StepKernelRelease(f, n).To?
    ensures var f', i' := StepKernelRelease(f, n).flow, Shadow(cfg, f, i, KernelRelease(n));
      Cursors(cfg, i') && Memory(cfg, f', i') && Counters(cfg, f', i')
  {
    Add32Exact(i.outFreed, n);
    FreeSlots(f.out, cfg.outSize, i.outLog, i.outPub, i.outFreed, i.outFreed + n);
  }

  lemma KernelReleaseRefines(cfg: Config, f: Flow, i: Ideal, n: nat)
    requires Refines(cfg, f, i) && StepKernelRelease(f, n) != Blocked
    ensures StepKernelRelease(f, n).To?
    ensures Refines(cfg, StepKernelRelease(f, n).flow, Shadow(cfg, f, i, KernelRelease(n)))
  {
    var f', i' := StepKernelRelease(f, n).flow, Shadow(cfg, f, i, KernelRelease(n));
    KernelReleaseParts(cfg, f, i, n);
    assert Owned(cfg, f', i') by { OwnedSame(cfg, f, i, f', i'); }
    assert Locals(cfg, f', i') by { LocalsUnderKernel(cfg, f, i, f', i'); }
    Assemble(cfg, f', i');
  }

  /** The kernel finds its slot, and writing it disturbs nothing the user may still read. */
  lemma KernelGiveLands(cfg: Config, f: Flow, i: Ideal, s: Slot)
    requires Refines(cfg, f, i) && StepKernelGive(cfg, f, s) != Blocked
    ensures StepKernelGive(cfg, f, s).To? && |i.backLog| < i.backFreed + cfg.backSize
    ensures Memory(cfg, StepKernelGive(cfg, f, s).flow, Shadow(cfg, f, i, KernelGive(s)))
  {
    Add32Exact(i.backPub, f.kernel.written);
    Sub32Exact(|i.backLog|, i.backFreed);
    WriteSlot(f.back, cfg.backSize, i.backLog, i.backPub, i.backFreed, s);
  }

  lemma KernelGiveCounts(cfg: Config, f: Flow, i: Ideal, f': Flow, i': Ideal, s: Slot, frame: nat)
    requires Cursors(cfg, i) && Counters(cfg, f, i) && |i.backLog| < i.backFreed + cfg.backSize
    requires frame in f.kernel.held && GoodBack(cfg, s)
    requires i' == i.(backLog := i.backLog + [s]) && f'.outstanding == f.outstanding
    requires f'.kernel == f.kernel.(held := f.kernel.held - multiset{frame}, written := f.kernel.written + 1)
    ensures Cursors(cfg, i') && Counters(cfg, f', i')
  {
    assert f.kernel.held == f'.kernel.held + multiset{frame};
  }

  lemma KernelGiveRefines(cfg: Config, f: Flow, i: Ideal, s: Slot)
    requires Refines(cfg, f, i) && StepKernelGive(cfg, f, s) != Blocked
    ensures StepKernelGive(cfg, f, s).To? && |i.backLog| < i.backFreed + cfg.backSize
    ensures Refines(cfg, StepKernelGive(cfg, f, s).flow, Shadow(cfg, f, i, KernelGive(s)))
  {
    KernelGiveLands(cfg, f, i, s);
    var f', i' := StepKernelGive(cfg, f, s).flow, Shadow(cfg, f, i, KernelGive(s));
    var frame := FrameOf(cfg, s.addr);
    KernelGiveCounts(cfg, f, i, f', i', s, frame);
    OwnedGive(cfg, f, i, f', i', s, frame);
    LocalsUnderKernel(cfg, f, i, f', i');
    Assemble(cfg, f', i');
  }

  lemma KernelPublishParts(cfg: Config, f: Flow, i: Ideal, n: nat)
    requires Cursors(cfg, i) && Memory(cfg, f, i) && Counters(cfg, f, i) && StepKernelPublish(cfg, f, n).To?
    ensures var f', i' := StepKernelPublish(cfg, f, n).flow, Shadow(cfg, f, i, KernelPublish(n));
      Cursors(cfg, i') && Memory(cfg, f', i') && Counters(cfg, f', i')
  {
    Add32Exact(i.backPub, n);
    PublishSlots(f.back, cfg.backSize, i.backLog, i.backPub, i.backFreed, i.backPub + n);
  }

  lemma KernelPublishRefines(cfg: Config, f: Flow, i: Ideal, n: nat)
    requires Refines(cfg, f, i) && StepKernelPublish(cfg, f, n) != Blocked
    ensures StepKernelPublish(cfg, f, n).To?
    ensures Refines(cfg, StepKernelPublish(cfg, f, n).flow, Shadow(cfg, f, i, KernelPublish(n)))
  {
    var f', i' := StepKernelPublish(cfg, f, n).flow, Shadow(cfg, f, i, KernelPublish(n));
    KernelPublishParts(cfg, f, i, n);
    assert Owned(cfg, f', i') by { OwnedSame(cfg, f, i, f', i'); }
    assert Locals(cfg, f', i') by { LocalsUnderKernel(cfg, f, i, f', i'); }
    Assemble(cfg, f', i');
  }

  /** One step: it never panics and it keeps the refinement. */
  lemma StepRefines(cfg: Config, f: Flow, i: Ideal, l: Label)
    requires Refines(cfg, f, i) && Step(cfg, f, l) != Blocked
    ensures Step(cfg, f, l).To?
    ensures Refines(cfg, Step(cfg, f, l).flow, Shadow(cfg, f, i, l))
  {
    match l
    case BeginSubmit(descs) => BeginSubmitRefines(cfg, f, i, descs);
    case SubmitSlot => SubmitSlotRefines(cfg, f, i);
    case Publish => PublishRefines(cfg, f, i);
    case BeginCollect(n) => BeginCollectRefines(cfg, f, i, n);
    case CollectSlot => CollectSlotRefines(cfg, f, i);
    case Release => ReleaseRefines(cfg, f, i);
    case KernelTake => KernelTakeRefines(cfg, f, i);
    case KernelRelease(n) => KernelReleaseRefines(cfg, f, i, n);
    case KernelGive(s) => KernelGiveRefines(cfg, f, i, s);
    case KernelPublish(n) => KernelPublishRefines(cfg, f, i, n);
  }

  /** Every step of the shared-memory machine is a move of the unbounded FIFO machine. */
  lemma StepIsIdealMove(cfg: Config, f: Flow, i: Ideal, l: Label)
    requires Refines(cfg, f, i) && Step(cfg, f, l).To?
    ensures IdealMove(cfg, i, Shadow(cfg, f, i, l))
  {
    match l
    case SubmitSlot =>
      assert i.(outLog := i.outLog + [OutSlot(cfg, f.user.descs[f.user.done])]) == Shadow(cfg, f, i, l);
    case KernelTake => KernelTakeRefines(cfg, f, i);
    case KernelGive(s) =>
      KernelGiveLands(cfg, f, i, s);
      assert i.(backLog := i.backLog + [s]) == Shadow(cfg, f, i, l);
    case _ =>
  }
}
