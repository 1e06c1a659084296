/**
 * What holds after every run of a flow, for any number of user calls, any
 * interleaving with the kernel and any number of counter wrap-arounds.
 * The main statements speak of the shared memory itself; the counts and the
 * lemmas that lead to them are given in terms of the logs `i`, which
 * `QueuesInMemory` and `Fifo` tie to the memory.
 */
module Safety {
  import opened Wrappers
  import opened Words
  import opened Rings
  import opened Flows
  import opened Invariant
  import opened Refinement

  /** A run from a freshly created socket that ends in `f`. */
  ghost predicate Reaches(cfg: Config, start: Flow, run: seq<Label>, f: Flow, i: Ideal) {
    && |start.out.slots| == cfg.outSize && |start.back.slots| == cfg.backSize
    && start == Init(cfg, start.out.slots, start.back.slots)
    && Leads(cfg, start, run, f, i)
  }

  /** `Exec(cfg, start, run) == Some((f, i))`, so stated that only a mention of `Exec` unfolds it. */
  ghost predicate Leads(cfg: Config, start: Flow, run: seq<Label>, f: Flow, i: Ideal) {
    forall r {:trigger Exec(cfg, start, r)} :: r == run ==> Exec(cfg, start, r) == Some((f, i))
  }

  /** Every reachable flow refines a pair of unbounded FIFO queues. */
  lemma {:induction false} RunRefines(cfg: Config, start: Flow, run: seq<Label>, f: Flow, i: Ideal)
    requires Reaches(cfg, start, run, f, i)
    ensures Refines(cfg, f, i)
    decreases |run|
  {
    assert Exec(cfg, start, run) == Some((f, i));
    if run == [] {
      InitRefines(cfg, start.out.slots, start.back.slots);
    } else {
      var prefix := run[..|run| - 1];
      var (f0, i0) := Exec(cfg, start, prefix).value;
      RunRefines(cfg, start, prefix, f0, i0);
      StepRefines(cfg, f0, i0, run[|run| - 1]);
    }
  }

  /** The counters of a reachable flow in terms of its totals, without the contents. */
  ghost predicate Numbers(cfg: Config, f: Flow, i: Ideal) {
    && Cursors(cfg, i)
    && f.out.producer == i.outPub % WORD && f.out.consumer == i.outFreed % WORD
    && f.back.producer == i.backPub % WORD && f.back.consumer == i.backFreed % WORD
    && |f.out.slots| == cfg.outSize && |f.back.slots| == cfg.backSize
    && f.kernel.taken == i.outRead - i.outFreed
    && f.kernel.written == |i.backLog| - i.backPub
    && |f.kernel.held| == i.outRead - |i.backLog|
    && f.outstanding == i.outPub - i.backFreed
    && Busy(f.free) == |i.outLog| - i.backRead
    && (f.user.Idle? ==> i.outPub == |i.outLog| && i.backRead == i.backFreed)
    && (f.user.Submitting? ==>
          && i.backRead == i.backFreed && f.user.next == |i.outLog| % WORD
          && i.outPub + |f.user.descs| <= i.outFreed + cfg.outSize
          && |i.outLog| == i.outPub + f.user.done)
    && (f.user.Collecting? ==> i.outPub == |i.outLog| && f.user.next == i.backRead % WORD)
  }

  lemma RunNumbers(cfg: Config, start: Flow, run: seq<Label>, f: Flow, i: Ideal)
    requires Reaches(cfg, start, run, f, i)
    ensures Numbers(cfg, f, i)
  {
    RunRefines(cfg, start, run, f, i);
  }

  /** No index in Fill, Transmit, Receive or Complete is ever out of range. */
  lemma NeverPanics(cfg: Config, start: Flow, run: seq<Label>, f: Flow, i: Ideal, l: Label)
    requires Reaches(cfg, start, run, f, i)
    ensures Step(cfg, f, l) != Panic
  {
    RunRefines(cfg, start, run, f, i);
    if Step(cfg, f, l) != Blocked {
      StepRefines(cfg, f, i, l);
    }
  }

  // ---- What lies in the slots ----------------------------------------------

  function At(r: Ring, cursor: nat): Slot {
    if |r.slots| > 0 && SlotIndex(cursor, |r.slots|) < |r.slots| then r.slots[SlotIndex(cursor, |r.slots|)]
    else UmemSlot(0)
  }

  /** The `count` slots from a wrapped cursor on. */
  function Contents(r: Ring, cursor: nat, count: nat): seq<Slot>
    decreases count
  {
    if count == 0 then [] else [At(r, cursor)] + Contents(r, Add32(cursor, 1), count - 1)
  }

  lemma {:induction false} ContentsAreLog(
    r: Ring, n: nat, log: seq<Slot>, pub: nat, freed: nat, a: nat, b: nat)
    requires Holds(r, n, log, pub, freed) && freed <= a <= b <= |log|
    ensures Contents(r, a % WORD, b - a) == log[a..b]
    decreases b - a
  {
    if a < b {
      ReadSlot(r, n, log, pub, freed, a);
      Add32Exact(a, 1);
      ContentsAreLog(r, n, log, pub, freed, a + 1, b);
      assert log[a..b] == [log[a]] + log[a + 1..b];
    }
  }

  lemma Window(r: Ring, n: nat, log: seq<Slot>, pub: nat, freed: nat, a: nat, b: nat)
    requires Holds(r, n, log, pub, freed) && freed <= a <= b <= |log|
    ensures Contents(r, a % WORD, Sub32(b % WORD, a % WORD)) == log[a..b]
  {
    Sub32Exact(b, a);
    ContentsAreLog(r, n, log, pub, freed, a, b);
  }

  /** Slots of `out` the kernel has yet to read, including those not published yet. */
  function OnOut(f: Flow): seq<Slot> {
    var from := Add32(f.out.consumer, f.kernel.taken);
    var to := if f.user.Submitting? then f.user.next else f.out.producer;
    Contents(f.out, from, Sub32(to, from))
  }

  /** Slots of `back` the user has yet to read, including those not published yet. */
  function OnBack(f: Flow): seq<Slot> {
    var from := if f.user.Collecting? then f.user.next else f.back.consumer;
    var to := Add32(f.back.producer, f.kernel.written);
    Contents(f.back, from, Sub32(to, from))
  }

  lemma MemoryHolds(cfg: Config, start: Flow, run: seq<Label>, f: Flow, i: Ideal)
    requires Reaches(cfg, start, run, f, i)
    ensures Holds(f.out, cfg.outSize, i.outLog, i.outPub, i.outFreed)
    ensures Holds(f.back, cfg.backSize, i.backLog, i.backPub, i.backFreed)
  {
    RunRefines(cfg, start, run, f, i);
  }

  lemma OutInMemory(cfg: Config, start: Flow, run: seq<Label>, f: Flow, i: Ideal)
    requires Reaches(cfg, start, run, f, i) && Numbers(cfg, f, i)
    ensures OnOut(f) == OutQueue(i)
  {
    MemoryHolds(cfg, start, run, f, i);
    var to := if f.user.Submitting? then f.user.next else f.out.producer;
    assert to == |i.outLog| % WORD;
    assert Add32(f.out.consumer, f.kernel.taken) == i.outRead % WORD by {
      Add32Exact(i.outFreed, f.kernel.taken);
    }
    Window(f.out, cfg.outSize, i.outLog, i.outPub, i.outFreed, i.outRead, |i.outLog|);
  }

  lemma BackInMemory(cfg: Config, start: Flow, run: seq<Label>, f: Flow, i: Ideal)
    requires Reaches(cfg, start, run, f, i) && Numbers(cfg, f, i)
    ensures OnBack(f) == BackQueue(i)
  {
    MemoryHolds(cfg, start, run, f, i);
    var from := if f.user.Collecting? then f.user.next else f.back.consumer;
    assert from == i.backRead % WORD;
    assert Add32(f.back.producer, f.kernel.written) == |i.backLog| % WORD by {
      Add32Exact(i.backPub, f.kernel.written);
    }
    Window(f.back, cfg.backSize, i.backLog, i.backPub, i.backFreed, i.backRead, |i.backLog|);
  }

  lemma QueuesInMemory(cfg: Config, start: Flow, run: seq<Label>, f: Flow, i: Ideal)
    requires Reaches(cfg, start, run, f, i)
    ensures Numbers(cfg, f, i)
    ensures OnOut(f) == OutQueue(i) && OnBack(f) == BackQueue(i)
  {
    RunNumbers(cfg, start, run, f, i);
    OutInMemory(cfg, start, run, f, i);
    BackInMemory(cfg, start, run, f, i);
  }

  /**
   * Frame ownership: after any run, every frame is in exactly one of {free, out
   * ring, held by the kernel, back ring}, and in it once.
   */
  lemma FrameOwnership(cfg: Config, start: Flow, run: seq<Label>, f: Flow, i: Ideal, k: nat)
    requires Reaches(cfg, start, run, f, i) && k < cfg.frames
    ensures |f.free| == cfg.frames
    ensures (if f.free[k] then 1 else 0)
         + Bag(cfg, OnOut(f))[k] + f.kernel.held[k] + Bag(cfg, OnBack(f))[k] == 1
    ensures !f.free[k] ==> cfg.lo <= k < cfg.hi
  {
    QueuesInMemory(cfg, start, run, f, i);
    RunRefines(cfg, start, run, f, i);
    assert Places(f.free, Bag(cfg, OutQueue(i)), f.kernel.held, Bag(cfg, BackQueue(i)), k) == 1;
  }

  /**
   * Conservation: between calls the counter is the number of frames on the two
   * rings and with the kernel, which is the number of cleared flags; it stays
   * within the partition.
   */
  lemma Conservation(cfg: Config, start: Flow, run: seq<Label>, f: Flow, i: Ideal)
    requires Reaches(cfg, start, run, f, i) && f.user.Idle?
    ensures f.outstanding == |OnOut(f)| + |f.kernel.held| + |OnBack(f)| == Busy(f.free)
    ensures 0 <= f.outstanding <= cfg.hi - cfg.lo
  {
    QueuesInMemory(cfg, start, run, f, i);
  }

  // ---- FIFO: what leaves a ring is what entered it, in order ---------------

  /** What crosses each ring in a run, as values read from and written to memory. */
  datatype History = History(
    submitted: seq<Slot>, taken: seq<Slot>, given: seq<Slot>, collected: seq<Slot>,
    kernelReleased: nat, userReleased: nat)

  function Record(cfg: Config, f: Flow, l: Label, h: History): History {
    match l
    case SubmitSlot =>
      if f.user.Submitting? && f.user.done < |f.user.descs|
      then h.(submitted := h.submitted + [OutSlot(cfg, f.user.descs[f.user.done])]) else h
    case KernelTake => h.(taken := h.taken + [At(f.out, Add32(f.out.consumer, f.kernel.taken))])
    case KernelGive(s) => h.(given := h.given + [s])
    case CollectSlot =>
      if f.user.Collecting? then h.(collected := h.collected + [At(f.back, f.user.next)]) else h
    case KernelRelease(k) => h.(kernelReleased := h.kernelReleased + k)
    case Release => h.(userReleased := |h.collected|)
    case _ => h
  }

  function HistoryOf(cfg: Config, start: Flow, run: seq<Label>): History
    decreases |run|
  {
    if run == [] then History([], [], [], [], 0, 0)
    else
      var prefix := run[..|run| - 1];
      match Exec(cfg, start, prefix)
      case None => HistoryOf(cfg, start, prefix)
      case Some((f, _)) => Record(cfg, f, run[|run| - 1], HistoryOf(cfg, start, prefix))
  }

  ghost predicate Logged(h: History, i: Ideal) {
    && i.outRead <= |i.outLog| && i.backRead <= |i.backLog|
    && h.submitted == i.outLog && h.taken == i.outLog[..i.outRead]
    && h.given == i.backLog && h.collected == i.backLog[..i.backRead]
    && h.kernelReleased == i.outFreed && h.userReleased == i.backFreed
  }

  /** The slot the next kernel read finds is the next item of the log. */
  lemma NextTake(cfg: Config, start: Flow, run: seq<Label>, f: Flow, i: Ideal)
    requires Reaches(cfg, start, run, f, i) && Step(cfg, f, KernelTake).To?
    ensures i.outRead < |i.outLog| && At(f.out, Add32(f.out.consumer, f.kernel.taken)) == i.outLog[i.outRead]
  {
    RunNumbers(cfg, start, run, f, i);
    Add32Exact(i.outFreed, f.kernel.taken);
    CursorMeets(i.outRead, i.outPub);
    MemoryHolds(cfg, start, run, f, i);
    ReadSlot(f.out, cfg.outSize, i.outLog, i.outPub, i.outFreed, i.outRead);
  }

  /** The slot the next user read finds is the next item of the log. */
  lemma NextCollect(cfg: Config, start: Flow, run: seq<Label>, f: Flow, i: Ideal)
    requires Reaches(cfg, start, run, f, i) && Step(cfg, f, CollectSlot).To?
    ensures i.backRead < |i.backLog| && At(f.back, f.user.next) == i.backLog[i.backRead]
  {
    RunNumbers(cfg, start, run, f, i);
    assert i.backRead < i.backPub by {
      RunRefines(cfg, start, run, f, i);
    }
    MemoryHolds(cfg, start, run, f, i);
    ReadSlot(f.back, cfg.backSize, i.backLog, i.backPub, i.backFreed, i.backRead);
  }

  lemma NextFrame(cfg: Config, f: Flow, i: Ideal)
    requires Refines(cfg, f, i) && i.backRead < |i.backLog|
    ensures var s := i.backLog[i.backRead]; var k := FrameOf(cfg, s.addr);
      GoodBack(cfg, s) && |f.free| == cfg.frames && cfg.lo <= k < cfg.hi && !f.free[k]
  {
    var k := FrameOf(cfg, i.backLog[i.backRead].addr);
    assert GoodBack(cfg, i.backLog[i.backRead]);
    assert !f.free[k] by {
      DropCons(cfg, i.backLog, i.backRead);
      MoveCollect(f.free, Bag(cfg, OutQueue(i)), f.kernel.held, Bag(cfg, i.backLog[i.backRead + 1..]), k);
    }
  }

  /** The frame collected next was in use until now, and its data lies inside it. */
  lemma CollectedFrame(cfg: Config, start: Flow, run: seq<Label>, f: Flow, i: Ideal)
    requires Reaches(cfg, start, run, f, i) && Step(cfg, f, CollectSlot).To?
    ensures var s := At(f.back, f.user.next); var k := FrameOf(cfg, s.addr);
      GoodBack(cfg, s) && |f.free| == cfg.frames && cfg.lo <= k < cfg.hi && !f.free[k]
  {
    NextCollect(cfg, start, run, f, i);
    RunRefines(cfg, start, run, f, i);
    NextFrame(cfg, f, i);
  }

  lemma RecordIsLogged(cfg: Config, f: Flow, i: Ideal, l: Label, h: History)
    requires Logged(h, i) && Step(cfg, f, l).To?
    requires l.KernelTake? ==>
      i.outRead < |i.outLog| && At(f.out, Add32(f.out.consumer, f.kernel.taken)) == i.outLog[i.outRead]
    requires l.CollectSlot? ==>
      i.backRead < |i.backLog| && At(f.back, f.user.next) == i.backLog[i.backRead]
    ensures Logged(Record(cfg, f, l, h), Shadow(cfg, f, i, l))
  {
  }

  lemma {:induction false} HistoryIsLog(cfg: Config, start: Flow, run: seq<Label>, f: Flow, i: Ideal)
    requires Reaches(cfg, start, run, f, i)
    ensures Logged(HistoryOf(cfg, start, run), i)
    decreases |run|
  {
    assert Exec(cfg, start, run) == Some((f, i));
    if run != [] {
      var prefix, l := run[..|run| - 1], run[|run| - 1];
      var (f0, i0) := Exec(cfg, start, prefix).value;
      HistoryIsLog(cfg, start, prefix, f0, i0);
      if l.KernelTake? {
        NextTake(cfg, start, prefix, f0, i0);
      } else if l.CollectSlot? {
        NextCollect(cfg, start, prefix, f0, i0);
      }
      RecordIsLogged(cfg, f0, i0, l, HistoryOf(cfg, start, prefix));
    }
  }

  /**
   * FIFO across any number of wrap-arounds: the values the kernel reads are a
   * prefix of the values submitted, the values the user reads a prefix of the
   * values the kernel gave, and each consumer counter is its true total mod 2^32.
   */
  lemma Fifo(cfg: Config, start: Flow, run: seq<Label>, f: Flow, i: Ideal)
    requires Reaches(cfg, start, run, f, i)
    ensures var h := HistoryOf(cfg, start, run);
      && h.taken <= h.submitted && h.collected <= h.given
      && f.out.consumer == h.kernelReleased % 0x1_0000_0000
      && f.back.consumer == h.userReleased % 0x1_0000_0000
      && h.submitted[|h.taken|..] == OnOut(f) && h.given[|h.collected|..] == OnBack(f)
  {
    HistoryIsLog(cfg, start, run, f, i);
    QueuesInMemory(cfg, start, run, f, i);
  }

  // ---- Counts --------------------------------------------------------------

  /** The `Num*` counts are exact after any run, so their clamps never fire. */
  lemma CountsExact(cfg: Config, start: Flow, run: seq<Label>, f: Flow, i: Ideal)
    requires Reaches(cfg, start, run, f, i)
    ensures NumFree(f.out) == cfg.outSize - (i.outPub - i.outFreed)
    ensures NumPending(f.back) == i.backPub - i.backFreed
    ensures Sub32(f.out.producer, f.out.consumer) <= cfg.outSize
    ensures Sub32(f.back.producer, f.back.consumer) <= cfg.backSize
  {
    RunRefines(cfg, start, run, f, i);
    NumFreeExact(f.out, cfg.outSize, i.outLog, i.outPub, i.outFreed);
    NumPendingExact(f.back, cfg.backSize, i.backLog, i.backPub, i.backFreed);
    Sub32Exact(i.outPub, i.outFreed);
    Sub32Exact(i.backPub, i.backFreed);
  }

  // ---- Stale snapshots -----------------------------------------------------

  /** Two live cursors of a ring less than its size apart select different slots. */
  lemma SlotsDiffer(n: nat, a: nat, b: nat)
    requires GoodSize(n) && a < b < a + n
    ensures SlotIndex(a % WORD, n) != SlotIndex(b % WORD, n)
  {
    SlotOfTotal(a, n);
    SlotOfTotal(b, n);
    ModDistinct(a, b, n);
  }

  /**
   * In the middle of Fill or Transmit, however far the kernel has moved since
   * the free-slot snapshot, the slot written next is none of those the kernel
   * may still read and none of those written earlier in the same call.
   */
  lemma SubmitOverwritesNothing(cfg: Config, start: Flow, run: seq<Label>, f: Flow, i: Ideal, k: nat)
    requires Reaches(cfg, start, run, f, i)
    requires f.user.Submitting? && f.user.done < |f.user.descs|
    requires k < Sub32(f.user.next, f.out.consumer)
    ensures SlotIndex(Add32(f.out.consumer, k), cfg.outSize) != SlotIndex(f.user.next, cfg.outSize)
    ensures Sub32(f.out.producer, f.out.consumer) <= Sub32(f.user.next, f.out.consumer) < cfg.outSize
  {
    RunNumbers(cfg, start, run, f, i);
    Sub32Exact(|i.outLog|, i.outFreed);
    Sub32Exact(i.outPub, i.outFreed);
    Add32Exact(i.outFreed, k);
    SlotsDiffer(cfg.outSize, i.outFreed + k, |i.outLog|);
  }

  /** The kernel reads a slot only between its own cursor and the published producer. */
  lemma KernelReadsPublished(cfg: Config, start: Flow, run: seq<Label>, f: Flow, i: Ideal)
    requires Reaches(cfg, start, run, f, i) && Step(cfg, f, KernelTake) != Blocked
    ensures Sub32(Add32(f.out.consumer, f.kernel.taken), f.out.consumer) < Sub32(f.out.producer, f.out.consumer)
  {
    RunNumbers(cfg, start, run, f, i);
    assert i.outRead < i.outPub by {
      RunRefines(cfg, start, run, f, i);
      KernelTakeRefines(cfg, f, i);
    }
    Add32Exact(i.outFreed, f.kernel.taken);
    Sub32Exact(i.outRead, i.outFreed);
    Sub32Exact(i.outPub, i.outFreed);
  }

  /**
   * In the middle of Receive or Complete the slot read next is published, and
   * its consumer counter is stored only when every slot of the batch was read.
   */
  lemma CollectReadsPublished(cfg: Config, start: Flow, run: seq<Label>, f: Flow, i: Ideal)
    requires Reaches(cfg, start, run, f, i) && Step(cfg, f, CollectSlot) != Blocked
    ensures Sub32(f.user.next, f.back.consumer) < Sub32(f.back.producer, f.back.consumer)
  {
    RunNumbers(cfg, start, run, f, i);
    assert i.backRead < i.backPub by {
      RunRefines(cfg, start, run, f, i);
      CollectSlotReads(cfg, f, i);
    }
    Sub32Exact(i.backRead, i.backFreed);
    Sub32Exact(i.backPub, i.backFreed);
  }

  lemma ReleaseAfterReading(cfg: Config, start: Flow, run: seq<Label>, f: Flow, i: Ideal)
    requires Reaches(cfg, start, run, f, i) && Step(cfg, f, Release).To?
    ensures Step(cfg, f, Release).flow.back.consumer == |HistoryOf(cfg, start, run).collected| % WORD
  {
    RunNumbers(cfg, start, run, f, i);
    HistoryIsLog(cfg, start, run, f, i);
  }

  /** A slot the kernel writes is none of those the user has not given back. */
  lemma KernelOverwritesNothing(cfg: Config, start: Flow, run: seq<Label>, f: Flow, i: Ideal, s: Slot, k: nat)
    requires Reaches(cfg, start, run, f, i) && Step(cfg, f, KernelGive(s)) != Blocked
    requires k < Sub32(Add32(f.back.producer, f.kernel.written), f.back.consumer)
    ensures SlotIndex(Add32(f.back.consumer, k), cfg.backSize)
         != SlotIndex(Add32(f.back.producer, f.kernel.written), cfg.backSize)
  {
    RunNumbers(cfg, start, run, f, i);
    GiveHasRoom(cfg, start, run, f, i, s);
    assert Add32(f.back.producer, f.kernel.written) == |i.backLog| % WORD by {
      Add32Exact(i.backPub, f.kernel.written);
    }
    Sub32Exact(|i.backLog|, i.backFreed);
    assert Add32(f.back.consumer, k) == (i.backFreed + k) % WORD by {
      Add32Exact(i.backFreed, k);
    }
    SlotsDiffer(cfg.backSize, i.backFreed + k, |i.backLog|);
  }

  lemma GiveHasRoom(cfg: Config, start: Flow, run: seq<Label>, f: Flow, i: Ideal, s: Slot)
    requires Reaches(cfg, start, run, f, i) && Step(cfg, f, KernelGive(s)) != Blocked
    ensures |i.backLog| < i.backFreed + cfg.backSize
  {
    RunRefines(cfg, start, run, f, i);
    KernelGiveLands(cfg, f, i, s);
  }

  // ---- Room ----------------------------------------------------------------

  lemma HeldInRange(cfg: Config, start: Flow, run: seq<Label>, f: Flow, i: Ideal, k: nat)
    requires Reaches(cfg, start, run, f, i) && k in f.kernel.held
    ensures k < cfg.frames
  {
    RunRefines(cfg, start, run, f, i);
    var n := Places(f.free, Bag(cfg, OutQueue(i)), f.kernel.held, Bag(cfg, BackQueue(i)), k);
    assert n == if k < |f.free| then 1 else 0;
  }

  /** If the back ring has a slot per frame of the partition, the kernel always finds room. */
  lemma KernelFindsRoom(cfg: Config, start: Flow, run: seq<Label>, f: Flow, i: Ideal, s: Slot)
    requires Reaches(cfg, start, run, f, i) && cfg.hi - cfg.lo <= cfg.backSize
    requires FrameOf(cfg, s.addr) in f.kernel.held
    requires if cfg.kind.Rx? then s.DescSlot? && s.addr % cfg.frameSize + s.len <= cfg.frameSize else s.UmemSlot?
    ensures Step(cfg, f, KernelGive(s)).To?
  {
    RunNumbers(cfg, start, run, f, i);
    var frame := FrameOf(cfg, s.addr);
    HeldInRange(cfg, start, run, f, i, frame);
    assert f.kernel.held == (f.kernel.held - multiset{frame}) + multiset{frame};
    Add32Exact(i.backPub, f.kernel.written);
    Sub32Exact(|i.backLog|, i.backFreed);
    NeverPanics(cfg, start, run, f, i, KernelGive(s));
  }

  /**
   * Whether a batch of all free frames fits: exactly when the slots given back by
   * the kernel and the ring's spare slots cover the frames collected by the user.
   */
  lemma FreeFramesFit(cfg: Config, start: Flow, run: seq<Label>, f: Flow, i: Ideal)
    requires Reaches(cfg, start, run, f, i) && f.user.Idle?
    ensures var h := HistoryOf(cfg, start, run);
      (NumFree(f.out) >= (cfg.hi - cfg.lo) - Busy(f.free))
      <==> (|h.collected| + (cfg.hi - cfg.lo) <= h.kernelReleased + cfg.outSize)
  {
    RunNumbers(cfg, start, run, f, i);
    CountsExact(cfg, start, run, f, i);
    HistoryIsLog(cfg, start, run, f, i);
  }

  /** Under a prompt kernel every free frame of the partition fits on the out ring. */
  lemma PromptKernelNeverTruncates(cfg: Config, start: Flow, run: seq<Label>, f: Flow, i: Ideal)
    requires Reaches(cfg, start, run, f, i) && f.user.Idle?
    requires cfg.prompt && cfg.hi - cfg.lo <= cfg.outSize
    ensures NumFree(f.out) >= (cfg.hi - cfg.lo) - Busy(f.free)
  {
    RunNumbers(cfg, start, run, f, i);
    CountsExact(cfg, start, run, f, i);
  }
}
