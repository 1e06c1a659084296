/**
 * One direction of the socket as code over shared memory: the loops of Fill and
 * Transmit (`Submit`) and of Receive and Complete (`Collect`), with the kernel
 * taking any number of steps between any two shared-memory accesses, except
 * after the counts: a kernel step there commutes with the load that follows, of
 * a counter only the user stores. A lane records the run of the abstract machine
 * that it performs.
 */
module Lanes {
  import opened Words
  import opened Rings
  import opened Flows
  import opened Invariant
  import opened Safety
  import opened Effects
  import opened Allocation
  import opened Traces

  /** A ring in memory shared with the kernel. */
  class RingMem {
    var producer: nat
    var consumer: nat
    const descs: array<Slot>

    constructor (size: nat)
      ensures fresh(descs) && descs.Length == size && producer == 0 && consumer == 0
    {
      producer, consumer := 0, 0;
      descs := new Slot[size];
    }

    ghost function View(): Ring
      reads this, descs
    {
      Ring(producer, consumer, descs[..])
    }
  }

  class Lane {
    const cfg: Config
    const out: RingMem
    const back: RingMem
    const free: array<bool>
    var outstanding: int
    var kernel: Kernel

    ghost const start: Flow
    ghost var user: User
    ghost var run: seq<Label>
    ghost var ideal: Ideal

    ghost function Snapshot(): Flow
      reads this, out, out.descs, back, back.descs, free
    {
      Flow(out.View(), back.View(), free[..], outstanding, user, kernel)
    }

    /** The objects of a lane. */
    ghost function Repr(): set<object> {
      {this, out, out.descs, back, back.descs, free}
    }

    ghost predicate Separate() {
      && out != back && out.descs != back.descs
      && out.descs.Length == cfg.outSize && back.descs.Length == cfg.backSize && free.Length == cfg.frames
    }

    /** The memory is where a run of the machine leads. */
    ghost predicate Tracked()
      reads this, out, out.descs, back, back.descs, free
    {
      Separate() && Reaches(cfg, start, run, Snapshot(), ideal)
    }

    /** Between two calls of the user. */
    ghost predicate Valid()
      reads this, out, out.descs, back, back.descs, free
    {
      Tracked() && user.Idle?
    }

    constructor (cfg: Config)
      ensures Valid() && this.cfg == cfg && fresh(Repr())
      ensures run == [] && ideal == Empty && outstanding == 0
      ensures forall k :: 0 <= k < free.Length ==> free[k]
    {
      var flags := new bool[cfg.frames];
      for k := 0 to flags.Length
        invariant forall j :: 0 <= j < k ==> flags[j]
      {
        flags[k] := true;
      }
      var o := new RingMem(cfg.outSize);
      var b := new RingMem(cfg.backSize);
      this.cfg := cfg;
      out, back, free := o, b, flags;
      outstanding := 0;
      kernel := Kernel(0, multiset{}, 0);
      user, run, ideal := Idle, [], Empty;
      start := Init(cfg, o.descs[..], b.descs[..]);
      new;
      assert free[..] == seq(cfg.frames, _ => true);
      assert Snapshot() == start;
    }

    /** The run so far. */
    ghost function Past(): Trace
      reads this
    {
      Trace(cfg, start, run)
    }

    lemma Here()
      requires Tracked()
      ensures Runs(Past()) && FlowAt(Past(), |run|) == Snapshot() && IdealAt(Past(), |run|) == ideal
    {
      assert run[..|run|] == run;
      StateIs(Past(), |run|, (Snapshot(), ideal));
    }

    /** Append a step that the memory has just taken to the run. */
    ghost method Log(f: Flow, l: Label)
      requires Separate() && Reaches(cfg, start, run, f, ideal)
      requires Step(cfg, f, l) == To(Snapshot())
      modifies this`run, this`ideal
      ensures Tracked() && run == old(run) + [l] && ideal == Shadow(cfg, f, old(ideal), l)
    {
      ExecStep(cfg, start, run, l, f, ideal, Snapshot());
      ideal := Shadow(cfg, f, ideal, l);
      run := run + [l];
    }

    /** One kernel step, if it is enabled. */
    method KernelStep(l: Label)
      requires Tracked() && IsKernel(l)
      modifies this`kernel, this`run, this`ideal, out`consumer, back`producer, back.descs
      ensures Tracked() && KernelRun(old(run), run) && KernelMoved(old(ideal), ideal)
      ensures Step(cfg, old(Snapshot()), l).To? ==> run == old(run) + [l]
    {
      ghost var f := Snapshot();
      NeverPanics(cfg, start, run, f, ideal, l);
      KernelStepMoves(cfg, f, ideal, l);
      match l
      case KernelTake =>
        var cursor := Add32(out.consumer, kernel.taken);
        if cursor != out.producer && out.descs.Length > 0 {
          var s := out.descs[SlotIndex(cursor, out.descs.Length)];
          kernel := kernel.(taken := kernel.taken + 1, held := kernel.held + multiset{FrameOf(cfg, s.addr)});
          Log(f, l);
        }
      case KernelRelease(k) =>
        if k <= kernel.taken {
          out.consumer := Add32(out.consumer, k);
          kernel := kernel.(taken := kernel.taken - k);
          Log(f, l);
        }
      case KernelGive(s) =>
        var cursor := Add32(back.producer, kernel.written);
        if FrameOf(cfg, s.addr) in kernel.held && GoodBack(cfg, s)
           && Sub32(cursor, back.consumer) < back.descs.Length
        {
          back.descs[SlotIndex(cursor, back.descs.Length)] := s;
          kernel := kernel.(held := kernel.held - multiset{FrameOf(cfg, s.addr)}, written := kernel.written + 1);
          Log(f, l);
        }
      case KernelPublish(k) =>
        if k <= kernel.written && (cfg.prompt ==> k + kernel.taken <= |kernel.held| + kernel.written) {
          back.producer := Add32(back.producer, k);
          kernel := kernel.(written := kernel.written - k);
          Log(f, l);
        }
    }

    /** The kernel runs for a while: any number of any of its steps. */
    method KernelRuns()
      requires Tracked()
      modifies this`kernel, this`run, this`ideal, out`consumer, back`producer, back.descs
      ensures Tracked() && KernelRun(old(run), run) && KernelMoved(old(ideal), ideal)
    {
      var steps: nat := *;
      while steps > 0
        invariant Tracked() && KernelRun(old(run), run) && KernelMoved(old(ideal), ideal)
      {
        var l: Label := *;
        if IsKernel(l) {
          ghost var before := run;
          KernelStep(l);
          KernelRunTwice(old(run), before, run);
        }
        steps := steps - 1;
      }
    }

    /** Snapshot, truncation and local producer at the head of Fill and Transmit. */
    method BeginBatch(descs: seq<Desc>) returns (batch: seq<Desc>, prod: nat)
      requires Valid() && Acquired(cfg, free[..], descs)
      modifies this`kernel, this`run, this`ideal, this`user, out`consumer, back`producer, back.descs
      ensures Tracked() && old(run) <= run && KernelMoved(old(ideal), ideal)
      ensures user == Submitting(batch, 0, prod)
      ensures batch <= descs && Min(|descs|, old(NumFree(out.View()))) <= |batch|
    {
      var n := NumFreeSlots();
      batch := descs;
      if n < |descs| {
        batch := descs[..n];
      }
      prod := out.producer;
      ghost var f := Snapshot();
      user := Submitting(batch, 0, prod);
      assert batch == descs[..Min(NumFree(f.out), |descs|)];
      Log(f, BeginSubmit(descs));
      KernelRuns();
    }

    /** One turn of the loop of Fill and Transmit. */
    method WriteOne(batch: seq<Desc>, k: nat, prod: nat) returns (next: nat)
      requires Tracked() && user == Submitting(batch, k, prod) && k < |batch|
      modifies this`kernel, this`run, this`ideal, this`user
      modifies out`consumer, out.descs, back`producer, back.descs, free
      ensures Tracked() && old(run) <= run && user == Submitting(batch, k + 1, next)
      ensures FrameOf(cfg, batch[k].addr) < free.Length
      ensures free[..] == old(free[..])[FrameOf(cfg, batch[k].addr) := false]
      ensures KernelMoved(old(ideal).(outLog := old(ideal).outLog + [OutSlot(cfg, batch[k])]), ideal)
    {
      ghost var f := Snapshot();
      NeverPanics(cfg, start, run, f, ideal, SubmitSlot);
      var desc := batch[k];
      out.descs[SlotIndex(prod, out.descs.Length)] := OutSlot(cfg, desc);
      next := Add32(prod, 1);
      free[FrameOf(cfg, desc.addr)] := false;
      user := Submitting(batch, k + 1, next);
      Log(f, SubmitSlot);
      KernelRuns();
    }

    /** The store of the producer at the end of Fill and Transmit. */
    method EndBatch(batch: seq<Desc>, prod: nat)
      requires Tracked() && user == Submitting(batch, |batch|, prod)
      modifies this`kernel, this`run, this`ideal, this`user, this`outstanding
      modifies out`producer, out`consumer, back`producer, back.descs
      ensures Valid() && old(run) <= run && outstanding == old(outstanding) + |batch|
      ensures KernelMoved(old(ideal).(outPub := |old(ideal).outLog|), ideal)
    {
      ghost var f := Snapshot();
      out.producer := prod;
      outstanding := outstanding + |batch|;
      user := Idle;
      Log(f, Publish);
      KernelRuns();
    }

    /**
     * Fill and Transmit: take as many descriptors as the snapshot of free slots
     * allows, write them one slot at a time, then publish them all at once.
     */
    method Submit(descs: seq<Desc>) returns (count: nat)
      requires Valid() && Acquired(cfg, free[..], descs)
      modifies this`kernel, this`run, this`ideal, this`user, this`outstanding
      modifies out, out.descs, back`producer, back.descs, free
      ensures Valid() && old(run) <= run
      ensures Min(|descs|, old(NumFree(out.View()))) <= count <= |descs|
      ensures outstanding == old(outstanding) + count
      ensures Taken(cfg, old(free[..]), free[..], descs[..count])
      ensures ideal.outLog == old(ideal.outLog) + OutSlots(cfg, descs[..count])
      ensures BackKept(old(ideal), ideal)
    {
      var batch, prod := BeginBatch(descs);
      var k := 0;
      assert descs[..0] == [] && DescFrames(cfg, []) == [] && OutSlots(cfg, []) == [];
      while k < |batch|
        invariant k <= |batch|
        invariant Tracked() && old(run) <= run && user == Submitting(batch, k, prod)
        invariant outstanding == old(outstanding)
        invariant Taken(cfg, old(free[..]), free[..], descs[..k])
        invariant ideal.outLog == old(ideal.outLog) + OutSlots(cfg, descs[..k])
        invariant BackKept(old(ideal), ideal)
      {
        ghost var flags := free[..];
        prod := WriteOne(batch, k, prod);
        TakenMore(cfg, old(free[..]), flags, descs, k, FrameOf(cfg, descs[k].addr));
        k := k + 1;
      }
      EndBatch(batch, prod);
      count := |batch|;
    }

    /** `NumFreeFillSlots` and `NumFreeTxSlots`; the kernel may step between the two reads. */
    method NumFreeSlots() returns (n: nat)
      requires Tracked() && !user.Submitting?
      modifies this`kernel, this`run, this`ideal, out`consumer, back`producer, back.descs
      ensures Tracked() && old(run) <= run && KernelMoved(old(ideal), ideal)
      ensures n == NumFree(out.View()) == cfg.outSize - (ideal.outPub - ideal.outFreed)
      ensures n >= old(NumFree(out.View()))
    {
      CountsExact(cfg, start, run, Snapshot(), ideal);
      var prod := out.producer;
      KernelRuns();
      var cons := out.consumer;
      var max := cfg.outSize % WORD;
      n := Sub32(max, Sub32(prod, cons));
      if n > max {
        n := max;
      }
      CountsExact(cfg, start, run, Snapshot(), ideal);
      assert |out.View().slots| == cfg.outSize by { RunNumbers(cfg, start, run, Snapshot(), ideal); }
    }

    /** `NumReceived` and `NumCompleted`; the kernel may step between the two reads. */
    method NumPendingSlots() returns (n: nat)
      requires Tracked() && !user.Collecting?
      modifies this`kernel, this`run, this`ideal, out`consumer, back`producer, back.descs
      ensures Tracked() && old(run) <= run && KernelMoved(old(ideal), ideal)
      ensures old(NumPending(back.View())) <= n <= NumPending(back.View())
      ensures n <= ideal.backPub - ideal.backRead
    {
      CountsExact(cfg, start, run, Snapshot(), ideal);
      RunNumbers(cfg, start, run, Snapshot(), ideal);
      var prod := back.producer;
      ghost var pending := NumPending(back.View());
      KernelRuns();
      var cons := back.consumer;
      var max := cfg.backSize % WORD;
      n := Sub32(prod, cons);
      if n > max {
        n := max;
      }
      assert n == pending;
      CountsExact(cfg, start, run, Snapshot(), ideal);
      RunNumbers(cfg, start, run, Snapshot(), ideal);
    }

    /** The clamp of Receive (absent from Complete) and the local consumer. */
    method BeginCollecting(n: int) returns (num: int, cons: nat)
      requires Valid() && (cfg.kind.Tx? ==> 0 <= n <= NumPending(back.View()))
      modifies this`kernel, this`run, this`ideal, this`user, out`consumer, back`producer, back.descs
      ensures Tracked() && old(run) <= run && KernelMoved(old(ideal), ideal)
      ensures user == Collecting(num, cons, [])
      ensures Min(n, old(NumPending(back.View()))) <= num <= n && (cfg.kind.Tx? ==> num == n)
    {
      num := n;
      if cfg.kind.Rx? {
        var available := NumPendingSlots();
        if num > available {
          num := available;
        }
      }
      // the pending count may only have grown since it was taken
      ghost var now := Min(n, NumPending(back.View()));
      cons := back.consumer;
      ghost var f := Snapshot();
      user := Collecting(num, cons, []);
      Log(f, BeginCollect(num));
      KernelRuns();
    }

    /** One turn of the loop of Receive and Complete. */
    method ReadOne(num: int, cons: nat, got: seq<Slot>) returns (next: nat, s: Slot)
      requires Tracked() && user == Collecting(num, cons, got) && |got| < num
      modifies this`kernel, this`run, this`ideal, this`user
      modifies out`consumer, back`producer, back.descs, free
      ensures Tracked() && old(run) <= run && user == Collecting(num, next, got + [s])
      ensures GoodBack(cfg, s) && cfg.lo <= FrameOf(cfg, s.addr) < cfg.hi <= free.Length
      ensures !old(free[FrameOf(cfg, s.addr)])
      ensures free[..] == old(free[..])[FrameOf(cfg, s.addr) := true]
      ensures old(ideal).backRead < |old(ideal).backLog| && s == old(ideal).backLog[old(ideal).backRead]
      ensures KernelMoved(old(ideal).(backRead := old(ideal).backRead + 1), ideal)
    {
      ghost var f := Snapshot();
      NeverPanics(cfg, start, run, f, ideal, CollectSlot);
      CollectedFrame(cfg, start, run, f, ideal);
      NextCollect(cfg, start, run, f, ideal);
      s := back.descs[SlotIndex(cons, back.descs.Length)];
      next := Add32(cons, 1);
      free[FrameOf(cfg, s.addr)] := true;
      user := Collecting(num, next, got + [s]);
      Log(f, CollectSlot);
      KernelRuns();
    }

    /** The store of the consumer at the end of Receive and Complete. */
    method EndCollecting(num: int, cons: nat, got: seq<Slot>)
      requires Tracked() && user == Collecting(num, cons, got) && |got| >= num && (cfg.kind.Tx? ==> |got| == num)
      modifies this`kernel, this`run, this`ideal, this`user, this`outstanding
      modifies out`consumer, back`producer, back`consumer, back.descs
      ensures Valid() && old(run) <= run && outstanding == old(outstanding) - |got|
      ensures KernelMoved(old(ideal).(backFreed := old(ideal).backRead), ideal)
    {
      ghost var f := Snapshot();
      back.consumer := cons;
      outstanding := outstanding - |got|;
      user := Idle;
      Log(f, Release);
      KernelRuns();
    }

    /**
     * Receive and Complete: read the oldest pending slots in order, mark their
     * frames free, then give the slots back all at once.
     */
    method Collect(n: int) returns (got: seq<Slot>)
      requires Valid() && (cfg.kind.Tx? ==> 0 <= n <= NumPending(back.View()))
      modifies this`kernel, this`run, this`ideal, this`user, this`outstanding
      modifies out`consumer, back, back.descs, free
      ensures Valid() && old(run) <= run
      ensures |got| <= n || |got| == 0
      ensures Min(n, old(NumPending(back.View()))) <= |got| && (cfg.kind.Tx? ==> |got| == n)
      ensures outstanding == old(outstanding) - |got|
      ensures Read(old(ideal), ideal, got)
      ensures Recovered(cfg, old(free[..]), free[..], got)
    {
      var num, cons := BeginCollecting(n);
      assert ideal.backRead <= |ideal.backLog| by {
        RunNumbers(cfg, start, run, Snapshot(), ideal);
      }
      got := [];
      assert Frames(cfg, got) == [];
      while |got| < num
        invariant |got| <= num || got == []
        invariant Tracked() && old(run) <= run && user == Collecting(num, cons, got)
        invariant outstanding == old(outstanding)
        invariant Read(old(ideal), ideal, got)
        invariant Recovered(cfg, old(free[..]), free[..], got)
        decreases num - |got|
      {
        ghost var flags, i := free[..], ideal;
        var s: Slot;
        cons, s := ReadOne(num, cons, got);
        ReadMore(old(ideal), i, ideal, got, s);
        RecoveredMore(cfg, old(free[..]), flags, got, s, FrameOf(cfg, s.addr));
        got := got + [s];
      }
      ghost var i := ideal;
      EndCollecting(num, cons, got);
      ReadKept(old(ideal), i, ideal, got);
    }

    /** Between calls the pending count is what is published and not yet collected. */
    lemma PendingExact()
      requires Valid()
      ensures NumPending(back.View()) == ideal.backPub - ideal.backRead
      ensures ideal.backPub <= |ideal.backLog|
    {
      CountsExact(cfg, start, run, Snapshot(), ideal);
      RunNumbers(cfg, start, run, Snapshot(), ideal);
    }

    lemma NonNegative()
      requires Valid()
      ensures outstanding >= 0
    {
      RunNumbers(cfg, start, run, Snapshot(), ideal);
    }

    /** Between calls nothing is pending unless something is outstanding. */
    lemma PendingOutstanding()
      requires Valid()
      ensures 0 <= NumPending(back.View()) <= outstanding
    {
      PendingExact();
      RunNumbers(cfg, start, run, Snapshot(), ideal);
    }

    /** Frame `k` is on neither ring and not with the kernel. */
    ghost predicate Untouched(k: nat)
      reads this, out, out.descs, back, back.descs, free
    {
      && Bag(cfg, OnOut(Snapshot()))[k] == 0
      && kernel.held[k] == 0
      && Bag(cfg, OnBack(Snapshot()))[k] == 0
    }

    lemma FreeIsUntouched(k: nat)
      requires Valid() && k < cfg.frames
      ensures free[k] <==> Untouched(k)
      ensures !free[k] ==> cfg.lo <= k < cfg.hi
    {
      FrameOwnership(cfg, start, run, Snapshot(), ideal, k);
    }

    /** Since `past`, with only kernel steps, a frame has been clear throughout exactly if it is free now. */
    lemma ClearSince(past: Trace, k: nat)
      requires Tracked() && Later(past, Past()) && KernelRun(past.run, run) && k < cfg.frames
      ensures Clear(Past(), |past.run|, |run|, k) <==> free[k]
    {
      Here();
      KernelWindow(Past(), |past.run|, |run|);
      ClearIffFree(Past(), |past.run|, |run|, k);
    }

    /** Between calls the counter is the number of cleared flags. */
    lemma IdleCounts()
      requires Valid()
      ensures outstanding == Busy(free[..])
      ensures cfg.prompt && cfg.hi - cfg.lo <= cfg.outSize ==>
        NumFree(out.View()) >= (cfg.hi - cfg.lo) - Busy(free[..])
    {
      Conservation(cfg, start, run, Snapshot(), ideal);
      if cfg.prompt && cfg.hi - cfg.lo <= cfg.outSize {
        PromptKernelNeverTruncates(cfg, start, run, Snapshot(), ideal);
      }
    }

    lemma Totals()
      requires Valid()
      ensures out.consumer == HistoryOf(cfg, start, run).kernelReleased % WORD
      ensures back.consumer == |HistoryOf(cfg, start, run).collected| % WORD
    {
      Fifo(cfg, start, run, Snapshot(), ideal);
      HistoryIsLog(cfg, start, run, Snapshot(), ideal);
      RunNumbers(cfg, start, run, Snapshot(), ideal);
    }

    /** Between calls, the frames of the partition not in flight are free. */
    lemma FreeCount()
      requires Valid()
      ensures |FreeIn(free[..], cfg.lo, cfg.hi)| == (cfg.hi - cfg.lo) - outstanding
      ensures cfg.prompt && cfg.hi - cfg.lo <= cfg.outSize ==>
        NumFree(out.View()) >= |FreeIn(free[..], cfg.lo, cfg.hi)|
    {
      IdleCounts();
      forall k | 0 <= k < free.Length ensures !free[k] ==> cfg.lo <= k < cfg.hi {
        FreeIsUntouched(k);
      }
      FreeInPartition(free[..], cfg.lo, cfg.hi);
    }

    /** When as many frames are in flight as the partition has, none of it is free. */
    lemma AllInFlight(k: nat)
      requires Valid() && outstanding == cfg.hi - cfg.lo && cfg.lo <= k < cfg.hi
      ensures !free[k]
    {
      FreeCount();
      FreeInExact(free[..], cfg.lo, cfg.hi, k);
    }
  }
}
