/**
 * The inductive invariant of a flow: the shared memory refines two unbounded
 * FIFO logs, every frame is in exactly one place, and the counters conserve.
 */
module Invariant {
  import opened Words
  import opened Rings
  import opened Flows

  /** The frames a stretch of slots names, in order. */
  ghost function Frames(cfg: Config, s: seq<Slot>): seq<nat> {
    seq(|s|, j requires 0 <= j < |s| => FrameOf(cfg, s[j].addr))
  }

  ghost function Bag(cfg: Config, s: seq<Slot>): multiset<nat> {
    multiset(Frames(cfg, s))
  }

  /** How many flags are cleared. */
  function Busy(free: seq<bool>): nat {
    if free == [] then 0 else Busy(free[..|free| - 1]) + (if free[|free| - 1] then 0 else 1)
  }

  function OutQueue(i: Ideal): seq<Slot>
    requires i.outRead <= |i.outLog|
  {
    i.outLog[i.outRead..]
  }

  function BackQueue(i: Ideal): seq<Slot>
    requires i.backRead <= |i.backLog|
  {
    i.backLog[i.backRead..]
  }

  ghost predicate Cursors(cfg: Config, i: Ideal) {
    && i.outFreed <= i.outRead <= i.outPub <= |i.outLog| <= i.outFreed + cfg.outSize
    && i.backFreed <= i.backRead <= i.backPub <= |i.backLog| <= i.backFreed + cfg.backSize
    && |i.backLog| <= i.outRead
    && |i.outLog| - i.backFreed <= cfg.hi - cfg.lo
    && (cfg.prompt ==> i.backPub <= i.outFreed)
  }

  ghost predicate Memory(cfg: Config, f: Flow, i: Ideal) {
    && Holds(f.out, cfg.outSize, i.outLog, i.outPub, i.outFreed)
    && Holds(f.back, cfg.backSize, i.backLog, i.backPub, i.backFreed)
  }

  /** In how many places frame `k` is: free, on `out`, with the kernel, on `back`. */
  ghost function Places(
    free: seq<bool>, out: multiset<nat>, held: multiset<nat>, back: multiset<nat>, k: nat): nat
  {
    (if k < |free| && free[k] then 1 else 0) + out[k] + held[k] + back[k]
  }

  /** Every frame is in exactly one place. */
  ghost predicate OnePlace(free: seq<bool>, out: multiset<nat>, held: multiset<nat>, back: multiset<nat>) {
    forall k: nat :: Places(free, out, held, back, k) == if k < |free| then 1 else 0
  }

  /** The cleared flags are in the partition and count the frames in flight. */
  ghost predicate Flagged(cfg: Config, free: seq<bool>, busy: int) {
    && |free| == cfg.frames
    && (forall k :: 0 <= k < cfg.frames && !free[k] ==> cfg.lo <= k < cfg.hi)
    && Busy(free) == busy
  }

  ghost predicate Owned(cfg: Config, f: Flow, i: Ideal)
    requires Cursors(cfg, i)
  {
    && Flagged(cfg, f.free, |i.outLog| - i.backRead)
    && OnePlace(f.free, Bag(cfg, OutQueue(i)), f.kernel.held, Bag(cfg, BackQueue(i)))
  }

  ghost predicate Counters(cfg: Config, f: Flow, i: Ideal) {
    && f.outstanding == i.outPub - i.backFreed
    && f.kernel.taken == i.outRead - i.outFreed
    && f.kernel.written == |i.backLog| - i.backPub
    && |f.kernel.held| == i.outRead - |i.backLog|
    && forall j :: 0 <= j < |i.backLog| ==> GoodBack(cfg, i.backLog[j])
  }

  /** What the local variables of the running call mean. */
  ghost predicate Locals(cfg: Config, f: Flow, i: Ideal)
    requires Cursors(cfg, i)
  {
    match f.user
    case Idle => i.outPub == |i.outLog| && i.backRead == i.backFreed
    case Submitting(descs, done, next) =>
      && i.backRead == i.backFreed
      && done <= |descs|
      && |i.outLog| == i.outPub + done
      && i.outPub + |descs| <= i.outFreed + cfg.outSize
      && next == |i.outLog| % WORD
      && (forall k :: 0 <= k < done ==> i.outLog[i.outPub + k] == OutSlot(cfg, descs[k]))
      && Acquired(cfg, f.free, descs[done..])
    case Collecting(num, next, got) =>
      && i.outPub == |i.outLog|
      && i.backRead == i.backFreed + |got|
      && i.backFreed + num <= i.backPub
      && (|got| <= num || got == [])
      && (cfg.kind.Tx? ==> 0 <= num)
      && next == i.backRead % WORD
      && got == i.backLog[i.backFreed..i.backRead]
  }

  ghost predicate Refines(cfg: Config, f: Flow, i: Ideal) {
    && Cursors(cfg, i)
    && Memory(cfg, f, i)
    && Owned(cfg, f, i)
    && Counters(cfg, f, i)
    && Locals(cfg, f, i)
  }

  /** The moves of an ideal flow: FIFO on both logs, cursors never overtake. */
  ghost predicate IdealMove(cfg: Config, i: Ideal, j: Ideal) {
    || j == i
    || (exists s :: j == i.(outLog := i.outLog + [s]) && |i.outLog| < i.outFreed + cfg.outSize)
    || (exists s :: j == i.(backLog := i.backLog + [s]) && |i.backLog| < i.backFreed + cfg.backSize)
    || (j == i.(outPub := j.outPub) && i.outPub <= j.outPub <= |i.outLog|)
    || (j == i.(backPub := j.backPub) && i.backPub <= j.backPub <= |i.backLog|)
    || (j == i.(outRead := i.outRead + 1) && i.outRead < i.outPub)
    || (j == i.(backRead := i.backRead + 1) && i.backRead < i.backPub)
    || (j == i.(outFreed := j.outFreed) && i.outFreed <= j.outFreed <= i.outRead)
    || (j == i.(backFreed := j.backFreed) && i.backFreed <= j.backFreed <= i.backRead)
  }
}
