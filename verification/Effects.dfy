/**
 * What the calls of the user and bursts of kernel steps do to flags and logs.
 */
module Effects {
  import opened Rings
  import opened Flows
  import opened Invariant

  /** What a burst of kernel steps may do to the ideal flow. */
  ghost predicate KernelMoved(i: Ideal, j: Ideal) {
    && j.outLog == i.outLog && j.outPub == i.outPub
    && i.outRead <= j.outRead && i.outFreed <= j.outFreed
    && i.backLog <= j.backLog && i.backPub <= j.backPub
    && j.backRead == i.backRead && j.backFreed == i.backFreed
  }

  /** `b` is the run `a` with kernel steps added. */
  ghost predicate KernelRun(a: seq<Label>, b: seq<Label>) {
    a <= b && forall j {:trigger IsKernel(b[j])} :: |a| <= j < |b| ==> IsKernel(b[j])
  }

  lemma KernelRunTwice(a: seq<Label>, b: seq<Label>, c: seq<Label>)
    requires KernelRun(a, b) && KernelRun(b, c)
    ensures KernelRun(a, c)
  {
    forall j | |a| <= j < |c| ensures IsKernel(c[j]) {
      if j < |b| {
        assert c[j] == b[j] && IsKernel(b[j]);
      }
    }
  }

  lemma KernelStepMoves(cfg: Config, f: Flow, i: Ideal, l: Label)
    requires IsKernel(l)
    ensures KernelMoved(i, Shadow(cfg, f, i, l))
  {
  }

  /** The flags after the given frames are taken or given back. */
  function Flag(free: seq<bool>, frames: seq<nat>, v: bool): (r: seq<bool>)
    ensures |r| == |free|
  {
    if frames == [] then free
    else
      var r := Flag(free, frames[..|frames| - 1], v);
      var k := frames[|frames| - 1];
      if k < |free| then r[k := v] else r
  }

  lemma FlagSnoc(free: seq<bool>, frames: seq<nat>, k: nat, v: bool)
    requires k < |free|
    ensures Flag(free, frames + [k], v) == Flag(free, frames, v)[k := v]
  {
    assert (frames + [k])[..|frames|] == frames;
  }

  /** Exactly the flags of the given frames change. */
  lemma {:induction false} FlagExact(free: seq<bool>, frames: seq<nat>, v: bool, k: nat)
    requires k < |free|
    ensures Flag(free, frames, v)[k] == if k in frames then v else free[k]
  {
    if frames != [] {
      var m := |frames| - 1;
      FlagExact(free, frames[..m], v, k);
      assert frames == frames[..m] + [frames[m]];
    }
  }

  function DescFrames(cfg: Config, descs: seq<Desc>): seq<nat> {
    seq(|descs|, k requires 0 <= k < |descs| => FrameOf(cfg, descs[k].addr))
  }

  function OutSlots(cfg: Config, descs: seq<Desc>): seq<Slot> {
    seq(|descs|, k requires 0 <= k < |descs| => OutSlot(cfg, descs[k]))
  }

  /** Fill stores the address, Transmit the whole descriptor. */
  lemma OutSlotsAre(cfg: Config, descs: seq<Desc>)
    ensures |OutSlots(cfg, descs)| == |descs|
    ensures cfg.kind.Rx? ==> forall j :: 0 <= j < |descs| ==> OutSlots(cfg, descs)[j] == UmemSlot(descs[j].addr)
    ensures cfg.kind.Tx? ==>
      forall j :: 0 <= j < |descs| ==> OutSlots(cfg, descs)[j] == DescSlot(descs[j].addr, descs[j].len)
  {
  }

  /** A slot read back from the kernel, as a descriptor to submit again. */
  function AsDesc(s: Slot): Desc {
    if s.DescSlot? then Desc(s.addr, s.len) else Desc(s.addr, 0)
  }

  function AsDescs(slots: seq<Slot>): seq<Desc> {
    seq(|slots|, k requires 0 <= k < |slots| => AsDesc(slots[k]))
  }

  /** Receive returns the descriptors found on the Rx ring, unchanged. */
  lemma AsDescsAre(cfg: Config, got: seq<Slot>)
    requires cfg.kind.Rx? && forall j :: 0 <= j < |got| ==> GoodBack(cfg, got[j])
    ensures |AsDescs(got)| == |got|
    ensures forall j :: 0 <= j < |got| ==> got[j].DescSlot? && AsDescs(got)[j] == Desc(got[j].addr, got[j].len)
  {
  }

  /** What submitting `descs` does: its frames, and only they, are no longer free. */
  ghost predicate Taken(cfg: Config, before: seq<bool>, after: seq<bool>, descs: seq<Desc>) {
    after == Flag(before, DescFrames(cfg, descs), false)
  }

  lemma TakenMore(cfg: Config, before: seq<bool>, after: seq<bool>, descs: seq<Desc>, k: nat, frame: nat)
    requires k < |descs| && frame == FrameOf(cfg, descs[k].addr) && frame < |before|
    requires Taken(cfg, before, after, descs[..k])
    ensures |after| == |before| && Taken(cfg, before, after[frame := false], descs[..k + 1])
    ensures OutSlots(cfg, descs[..k + 1]) == OutSlots(cfg, descs[..k]) + [OutSlot(cfg, descs[k])]
  {
    FlagSnoc(before, DescFrames(cfg, descs[..k]), frame, false);
    assert DescFrames(cfg, descs[..k + 1]) == DescFrames(cfg, descs[..k]) + [frame];
  }

  /**
   * What collecting `got` does: its frames, distinct and of this partition, are
   * free again and no other flag changes; the data lies inside the frames.
   */
  ghost predicate Recovered(cfg: Config, before: seq<bool>, after: seq<bool>, got: seq<Slot>) {
    && (forall k :: 0 <= k < |got| ==> GoodBack(cfg, got[k]))
    && Acquired(cfg, after, AsDescs(got))
    && after == Flag(before, Frames(cfg, got), true)
  }

  lemma AcquiredMore(cfg: Config, free: seq<bool>, got: seq<Slot>, s: Slot, frame: nat)
    requires Acquired(cfg, free, AsDescs(got)) && frame == FrameOf(cfg, s.addr)
    requires cfg.lo <= frame < cfg.hi && frame < |free| && !free[frame]
    ensures Acquired(cfg, free[frame := true], AsDescs(got + [s]))
  {
    var was, now := AsDescs(got), AsDescs(got + [s]);
    assert now[|got|].addr == s.addr;
    forall k | 0 <= k < |got| ensures now[k] == was[k] && FrameOf(cfg, now[k].addr) != frame {}
  }

  lemma RecoveredMore(cfg: Config, before: seq<bool>, after: seq<bool>, got: seq<Slot>, s: Slot, frame: nat)
    requires Recovered(cfg, before, after, got) && GoodBack(cfg, s) && frame == FrameOf(cfg, s.addr)
    requires cfg.lo <= frame < cfg.hi && frame < |after| && !after[frame]
    ensures Recovered(cfg, before, after[frame := true], got + [s])
  {
    AcquiredMore(cfg, after, got, s, frame);
    FlagSnoc(before, Frames(cfg, got), frame, true);
    assert Frames(cfg, got + [s]) == Frames(cfg, got) + [frame];
  }

  /** `got` is what the user has read from the back ring since state `i`, in order. */
  ghost predicate Read(i: Ideal, j: Ideal, got: seq<Slot>) {
    && j.outLog == i.outLog && i.backLog <= j.backLog
    && j.backRead == i.backRead + |got| <= |j.backLog|
    && got == j.backLog[i.backRead..j.backRead]
  }

  lemma ReadMore(i: Ideal, j: Ideal, j': Ideal, got: seq<Slot>, s: Slot)
    requires Read(i, j, got) && j.backRead < |j.backLog| && s == j.backLog[j.backRead]
    requires KernelMoved(j.(backRead := j.backRead + 1), j')
    ensures Read(i, j', got + [s])
  {
    assert j'.backLog[i.backRead..j'.backRead] == j.backLog[i.backRead..j.backRead] + [s];
  }

  lemma ReadKept(i: Ideal, j: Ideal, j': Ideal, got: seq<Slot>)
    requires Read(i, j, got) && KernelMoved(j.(backFreed := j.backRead), j')
    ensures Read(i, j', got)
  {
    assert j'.backLog[i.backRead..j'.backRead] == j.backLog[i.backRead..j.backRead];
  }

  lemma ReadSince(i: Ideal, j: Ideal, j': Ideal, got: seq<Slot>)
    requires KernelMoved(i, j) && Read(j, j', got)
    ensures Read(i, j', got)
  {
  }

  lemma ReadNothing(cfg: Config, i: Ideal, j: Ideal, free: seq<bool>)
    requires KernelMoved(i, j) && j.backRead <= |j.backLog|
    ensures Read(i, j, []) && Recovered(cfg, free, free, [])
  {
    assert Frames(cfg, []) == [];
  }

  /** The user has collected nothing since state `i`. */
  ghost predicate BackKept(i: Ideal, j: Ideal) {
    j.backRead == i.backRead && i.backLog <= j.backLog && i.backPub <= j.backPub
  }

  /** `got` is what the user has collected since state `i`, whatever it submitted. */
  ghost predicate Collected(i: Ideal, j: Ideal, got: seq<Slot>) {
    && i.backLog <= j.backLog
    && j.backRead == i.backRead + |got| <= |j.backLog|
    && got == j.backLog[i.backRead..j.backRead]
  }

  lemma CollectedNothing(i: Ideal, j: Ideal)
    requires BackKept(i, j) && j.backRead <= |j.backLog|
    ensures Collected(i, j, [])
  {
  }

  lemma CollectedOne(i: Ideal, j: Ideal, j': Ideal, got: seq<Slot>)
    requires BackKept(i, j) && Read(j, j', got)
    ensures Collected(i, j', got)
  {
  }

  lemma CollectedKept(i: Ideal, j: Ideal, j': Ideal, got: seq<Slot>)
    requires Collected(i, j, got) && BackKept(j, j')
    ensures Collected(i, j', got)
  {
    assert j'.backLog[i.backRead..j.backRead] == j.backLog[i.backRead..j.backRead];
  }

  lemma CollectedTwice(i: Ideal, j: Ideal, k: Ideal, a: seq<Slot>, b: seq<Slot>)
    requires Collected(i, j, a) && Collected(j, k, b)
    ensures Collected(i, k, a + b)
  {
    assert k.backLog[i.backRead..k.backRead] == k.backLog[i.backRead..j.backRead] + k.backLog[j.backRead..k.backRead];
    assert k.backLog[i.backRead..j.backRead] == j.backLog[i.backRead..j.backRead];
  }

  /** The frame of a received slot is a free one of the partition and its data inside it. */
  predicate ReadableAt(cfg: Config, free: seq<bool>, s: Slot) {
    && GoodBack(cfg, s) && cfg.lo <= FrameOf(cfg, s.addr) < cfg.hi
    && FrameOf(cfg, s.addr) < |free| && free[FrameOf(cfg, s.addr)]
  }

  predicate Readable(cfg: Config, free: seq<bool>, got: seq<Slot>) {
    forall j :: 0 <= j < |got| ==> ReadableAt(cfg, free, got[j])
  }

  lemma RecoveredReadable(cfg: Config, before: seq<bool>, after: seq<bool>, got: seq<Slot>)
    requires Recovered(cfg, before, after, got)
    ensures Readable(cfg, after, got)
  {
    forall j | 0 <= j < |got| ensures ReadableAt(cfg, after, got[j]) {
      var d := AsDescs(got)[j];
      assert d.addr == got[j].addr;
    }
  }

  /** The byte ranges of the umem that a stretch of received slots names. */
  function Slices(got: seq<Slot>): seq<(nat, nat)> {
    seq(|got|, j requires 0 <= j < |got| => (got[j].addr, got[j].addr + AsDesc(got[j]).len))
  }

  predicate AllDescs(got: seq<Slot>) {
    forall j :: 0 <= j < |got| ==> got[j].DescSlot?
  }

  /** The bytes a received descriptor names. */
  lemma SlicesAre(got: seq<Slot>)
    requires AllDescs(got)
    ensures |Slices(got)| == |got|
    ensures forall j :: 0 <= j < |got| ==> Slices(got)[j] == (got[j].addr, got[j].addr + got[j].len)
  {
  }

  lemma SlicesConcat(a: seq<Slot>, b: seq<Slot>)
    ensures Slices(a + b) == Slices(a) + Slices(b)
  {
  }
}
