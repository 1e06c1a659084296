/**
 * One direction of the socket as a concurrent machine. A flow has a ring from
 * the user to the kernel (`out`: Fill or Tx), a ring back (`back`: Rx or
 * Completion), the free flags of its frames and its counter of outstanding
 * frames. The user side takes the steps of Fill/Transmit and Receive/Complete,
 * one shared-memory access at a time; the kernel may step at any moment.
 */
module Flows {
  import opened Wrappers
  import opened Words
  import opened Rings

  datatype Kind = Rx | Tx

  /** A descriptor as the user handles it. */
  datatype Desc = Desc(addr: nat, len: nat)

  /**
   * Geometry of a flow. Frames in `[lo, hi)` are the ones the user submits on
   * it. A `prompt` kernel never has more frames published than `out` slots given
   * back, however far ahead it takes slots.
   */
  datatype Layout = Layout(
    kind: Kind, frames: nat, frameSize: nat, lo: nat, hi: nat,
    outSize: nat, backSize: nat, prompt: bool)

  predicate WellFormed(cfg: Layout) {
    && 0 < cfg.frameSize
    && cfg.lo <= cfg.hi <= cfg.frames
    && GoodSize(cfg.outSize) && GoodSize(cfg.backSize)
  }

  type Config = cfg: Layout | WellFormed(cfg) witness Layout(Rx, 0, 1, 0, 0, 1, 1, true)

  /** `Addr / FrameSize`. */
  function FrameOf(cfg: Config, addr: nat): nat {
    addr / cfg.frameSize
  }

  /** What Fill and Transmit store for a descriptor. */
  function OutSlot(cfg: Config, d: Desc): Slot {
    if cfg.kind.Rx? then UmemSlot(d.addr) else DescSlot(d.addr, d.len)
  }

  /** What the kernel may hand back: received data stays inside its frame. */
  predicate GoodBack(cfg: Config, s: Slot) {
    && FrameOf(cfg, s.addr) < cfg.frames
    && if cfg.kind.Rx? then s.DescSlot? && s.addr % cfg.frameSize + s.len <= cfg.frameSize else s.UmemSlot?
  }

  /** Where the user thread is, with the local variables of the call it is in. */
  datatype User =
    | Idle
    | Submitting(descs: seq<Desc>, done: nat, next: nat)
    | Collecting(num: int, next: nat, got: seq<Slot>)

  /** `taken` slots read but not given back, frames held, `written` slots not published. */
  datatype Kernel = Kernel(taken: nat, held: multiset<nat>, written: nat)

  datatype Flow = Flow(
    out: Ring, back: Ring, free: seq<bool>, outstanding: int, user: User, kernel: Kernel)

  datatype Label =
    | BeginSubmit(descs: seq<Desc>) | SubmitSlot | Publish
    | BeginCollect(n: int) | CollectSlot | Release
    | KernelTake | KernelRelease(k: nat) | KernelGive(slot: Slot) | KernelPublish(k: nat)

  predicate IsKernel(l: Label) {
    l.KernelTake? || l.KernelRelease? || l.KernelGive? || l.KernelPublish?
  }

  /** `Panic` is an out-of-range index in the program. */
  datatype Outcome = Blocked | Panic | To(flow: Flow)

  function Init(cfg: Config, outSlots: seq<Slot>, backSlots: seq<Slot>): Flow {
    Flow(Ring(0, 0, outSlots), Ring(0, 0, backSlots), seq(cfg.frames, _ => true), 0, Idle,
         Kernel(0, multiset{}, 0))
  }

  /** Descriptors the caller may submit: of distinct frames that are free in this flow. */
  predicate Acquired(cfg: Config, free: seq<bool>, descs: seq<Desc>) {
    && (forall k :: 0 <= k < |descs| ==>
          && cfg.lo <= FrameOf(cfg, descs[k].addr) < cfg.hi
          && FrameOf(cfg, descs[k].addr) < |free|
          && free[FrameOf(cfg, descs[k].addr)])
    && (forall j, k :: 0 <= j < k < |descs| ==> FrameOf(cfg, descs[j].addr) != FrameOf(cfg, descs[k].addr))
  }

  function Min(a: int, b: int): (m: int)
    ensures m <= a && m <= b && (m == a || m == b)
  {
    if a < b then a else b
  }

  // ---- User steps: Fill and Transmit --------------------------------------

  /** Snapshot of the free slots, truncation, and the local copy of the producer. */
  function StepBeginSubmit(cfg: Config, f: Flow, descs: seq<Desc>): Outcome {
    if !f.user.Idle? || !Acquired(cfg, f.free, descs) then Blocked
    else To(f.(user := Submitting(descs[..Min(NumFree(f.out), |descs|)], 0, f.out.producer)))
  }

  /** One turn of the loop: write a slot, advance the local producer, clear the flag. */
  function StepSubmitSlot(cfg: Config, f: Flow): Outcome {
    if !f.user.Submitting? || f.user.done >= |f.user.descs| then Blocked
    else
      var d := f.user.descs[f.user.done];
      var frame := FrameOf(cfg, d.addr);
      if |f.out.slots| == 0 || frame >= |f.free| then Panic
      else
        var index := SlotIndex(f.user.next, |f.out.slots|);
        if index >= |f.out.slots| then Panic
        else To(f.(out := f.out.(slots := f.out.slots[index := OutSlot(cfg, d)]),
                   free := f.free[frame := false],
                   user := f.user.(done := f.user.done + 1, next := Add32(f.user.next, 1))))
  }

  /** Store the local producer and count the batch as outstanding. */
  function StepPublish(f: Flow): Outcome {
    if !f.user.Submitting? || f.user.done < |f.user.descs| then Blocked
    else To(f.(out := f.out.(producer := f.user.next),
               outstanding := f.outstanding + |f.user.descs|, user := Idle))
  }

  // ---- User steps: Receive and Complete -----------------------------------

  /** Receive clamps to what is pending; Complete does not, so its caller must. */
  function StepBeginCollect(cfg: Config, f: Flow, n: int): Outcome {
    if !f.user.Idle? || (cfg.kind.Tx? && !(0 <= n <= NumPending(f.back))) then Blocked
    else
      var num := if cfg.kind.Rx? then Min(n, NumPending(f.back)) else n;
      To(f.(user := Collecting(num, f.back.consumer, [])))
  }

  /** One turn of the loop: read a slot, advance the local consumer, set the flag. */
  function StepCollectSlot(cfg: Config, f: Flow): Outcome {
    if !f.user.Collecting? || |f.user.got| >= f.user.num then Blocked
    else if |f.back.slots| == 0 then Panic
    else
      var index := SlotIndex(f.user.next, |f.back.slots|);
      if index >= |f.back.slots| then Panic
      else
        var s := f.back.slots[index];
        var frame := FrameOf(cfg, s.addr);
        if frame >= |f.free| then Panic
        else To(f.(free := f.free[frame := true],
                   user := f.user.(next := Add32(f.user.next, 1), got := f.user.got + [s])))
  }

  function StepRelease(cfg: Config, f: Flow): Outcome {
    if !f.user.Collecting? || |f.user.got| < f.user.num then Blocked
    else
      To(f.(back := f.back.(consumer := f.user.next),
            outstanding := f.outstanding - (if cfg.kind.Rx? then |f.user.got| else f.user.num), user := Idle))
  }

  // ---- Kernel steps --------------------------------------------------------

  /** Read the next published `out` slot; the frame is now the kernel's. */
  function StepKernelTake(cfg: Config, f: Flow): Outcome {
    var cursor := Add32(f.out.consumer, f.kernel.taken);
    if cursor == f.out.producer || |f.out.slots| == 0 then Blocked
    else
      var index := SlotIndex(cursor, |f.out.slots|);
      if index >= |f.out.slots| then Panic
      else To(f.(kernel := f.kernel.(taken := f.kernel.taken + 1,
                                     held := f.kernel.held + multiset{FrameOf(cfg, f.out.slots[index].addr)})))
  }

  function StepKernelRelease(f: Flow, k: nat): Outcome {
    if k > f.kernel.taken then Blocked
    else To(f.(out := f.out.(consumer := Add32(f.out.consumer, k)), kernel := f.kernel.(taken := f.kernel.taken - k)))
  }

  /** Write any held frame, in any order, into a free `back` slot. */
  function StepKernelGive(cfg: Config, f: Flow, s: Slot): Outcome {
    var frame := FrameOf(cfg, s.addr);
    var cursor := Add32(f.back.producer, f.kernel.written);
    if frame !in f.kernel.held || !GoodBack(cfg, s) || Sub32(cursor, f.back.consumer) >= |f.back.slots| then Blocked
    else
      var index := SlotIndex(cursor, |f.back.slots|);
      if index >= |f.back.slots| then Panic
      else To(f.(back := f.back.(slots := f.back.slots[index := s]),
                 kernel := f.kernel.(held := f.kernel.held - multiset{frame}, written := f.kernel.written + 1)))
  }

  function StepKernelPublish(cfg: Config, f: Flow, k: nat): Outcome {
    if k > f.kernel.written || (cfg.prompt && k + f.kernel.taken > |f.kernel.held| + f.kernel.written) then Blocked
    else To(f.(back := f.back.(producer := Add32(f.back.producer, k)), kernel := f.kernel.(written := f.kernel.written - k)))
  }

  function Step(cfg: Config, f: Flow, l: Label): Outcome {
    match l
    case BeginSubmit(descs) => StepBeginSubmit(cfg, f, descs)
    case SubmitSlot => StepSubmitSlot(cfg, f)
    case Publish => StepPublish(f)
    case BeginCollect(n) => StepBeginCollect(cfg, f, n)
    case CollectSlot => StepCollectSlot(cfg, f)
    case Release => StepRelease(cfg, f)
    case KernelTake => StepKernelTake(cfg, f)
    case KernelRelease(k) => StepKernelRelease(f, k)
    case KernelGive(s) => StepKernelGive(cfg, f, s)
    case KernelPublish(k) => StepKernelPublish(cfg, f, k)
  }

  // ---- The ideal flow: two unbounded logs and their cursors ----------------

  /**
   * Everything ever written on each ring, in order, and how much of it is
   * published, read by the other side, and given back.
   */
  datatype Ideal = Ideal(
    outLog: seq<Slot>, outPub: nat, outRead: nat, outFreed: nat,
    backLog: seq<Slot>, backPub: nat, backRead: nat, backFreed: nat)

  const Empty := Ideal([], 0, 0, 0, [], 0, 0, 0)

  /** What a step means for the ideal flow. */
  function Shadow(cfg: Config, f: Flow, i: Ideal, l: Label): Ideal {
    match l
    case BeginSubmit(_) => i
    case SubmitSlot =>
      if f.user.Submitting? && f.user.done < |f.user.descs|
      then i.(outLog := i.outLog + [OutSlot(cfg, f.user.descs[f.user.done])]) else i
    case Publish => i.(outPub := |i.outLog|)
    case BeginCollect(_) => i
    case CollectSlot => i.(backRead := i.backRead + 1)
    case Release => i.(backFreed := i.backRead)
    case KernelTake => i.(outRead := i.outRead + 1)
    case KernelRelease(k) => i.(outFreed := i.outFreed + k)
    case KernelGive(s) => i.(backLog := i.backLog + [s])
    case KernelPublish(k) => i.(backPub := i.backPub + k)
  }

  /** The concrete and the ideal flow after a run of steps from the initial state. */
  function Exec(cfg: Config, start: Flow, run: seq<Label>): Option<(Flow, Ideal)> {
    if run == [] then Some((start, Empty))
    else
      match Exec(cfg, start, run[..|run| - 1])
      case None => None
      case Some((f, i)) =>
        match Step(cfg, f, run[|run| - 1])
        case To(f') => Some((f', Shadow(cfg, f, i, run[|run| - 1])))
        case _ => None
  }

  lemma ExecStep(cfg: Config, start: Flow, run: seq<Label>, l: Label, f: Flow, i: Ideal, f': Flow)
    requires Exec(cfg, start, run) == Some((f, i)) && Step(cfg, f, l) == To(f')
    ensures Exec(cfg, start, run + [l]) == Some((f', Shadow(cfg, f, i, l)))
  {
    assert (run + [l])[..|run + [l]| - 1] == run;
  }
}
