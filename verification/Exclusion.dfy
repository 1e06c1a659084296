/**
 * The two free lists of the socket know nothing of each other. When they
 * exclude each other all the same, and which calls keep it so.
 */
module Exclusion {
  import opened Flows
  import opened Invariant
  import opened Safety
  import opened Effects

  /** A frame is offered by GetDescs on one side only, or in flight on one side only. */
  predicate OneSide(split: nat, rxFree: seq<bool>, txFree: seq<bool>, k: nat)
    requires k < |rxFree| == |txFree|
  {
    (if k < split && rxFree[k] then 1 else 0) + (if !rxFree[k] then 1 else 0)
    + (if k >= split && txFree[k] then 1 else 0) + (if !txFree[k] then 1 else 0) == 1
  }

  predicate Exclusive(split: nat, rxFree: seq<bool>, txFree: seq<bool>)
    requires |rxFree| == |txFree|
  {
    forall k :: 0 <= k < |rxFree| ==> OneSide(split, rxFree, txFree, k)
  }

  /** The submitted descriptors name frames below, or from `split` on. */
  predicate Below(cfg: Config, split: nat, descs: seq<Desc>) {
    forall j :: 0 <= j < |descs| ==> FrameOf(cfg, descs[j].addr) < split
  }

  predicate Above(cfg: Config, split: nat, descs: seq<Desc>) {
    forall j :: 0 <= j < |descs| ==> FrameOf(cfg, descs[j].addr) >= split
  }

  lemma FramesOfDescs(cfg: Config, descs: seq<Desc>, k: nat)
    ensures k in DescFrames(cfg, descs) <==> exists j :: 0 <= j < |descs| && FrameOf(cfg, descs[j].addr) == k
  {
    if exists j :: 0 <= j < |descs| && FrameOf(cfg, descs[j].addr) == k {
      var j :| 0 <= j < |descs| && FrameOf(cfg, descs[j].addr) == k;
      assert DescFrames(cfg, descs)[j] == k;
    }
  }

  /** Transmit keeps the lists exclusive exactly when it sends frames of the sending half only. */
  lemma TransmitExcludes(cfg: Config, split: nat, rxFree: seq<bool>, txFree: seq<bool>, descs: seq<Desc>)
    requires |rxFree| == |txFree| && Exclusive(split, rxFree, txFree) && Acquired(cfg, txFree, descs)
    ensures Exclusive(split, rxFree, Flag(txFree, DescFrames(cfg, descs), false)) <==> Above(cfg, split, descs)
  {
    var after := Flag(txFree, DescFrames(cfg, descs), false);
    forall k: nat | k < |txFree|
      ensures after[k] == (txFree[k] && k !in DescFrames(cfg, descs))
    {
      FlagExact(txFree, DescFrames(cfg, descs), false, k);
    }
    forall j | 0 <= j < |descs|
      ensures OneSide(split, rxFree, after, FrameOf(cfg, descs[j].addr)) <==> FrameOf(cfg, descs[j].addr) >= split
    {
      FramesOfDescs(cfg, descs, FrameOf(cfg, descs[j].addr));
      assert OneSide(split, rxFree, txFree, FrameOf(cfg, descs[j].addr));
    }
    forall k: nat | k < |txFree| && k !in DescFrames(cfg, descs) ensures OneSide(split, rxFree, after, k) {
      assert OneSide(split, rxFree, txFree, k);
    }
    forall k: nat | k < |txFree| && k in DescFrames(cfg, descs) && Above(cfg, split, descs)
      ensures OneSide(split, rxFree, after, k)
    {
      FramesOfDescs(cfg, descs, k);
    }
  }

  /** Fill keeps the lists exclusive exactly when it fills frames of the receiving half only. */
  lemma FillExcludes(cfg: Config, split: nat, rxFree: seq<bool>, txFree: seq<bool>, descs: seq<Desc>)
    requires |rxFree| == |txFree| && Exclusive(split, rxFree, txFree) && Acquired(cfg, rxFree, descs)
    ensures Exclusive(split, Flag(rxFree, DescFrames(cfg, descs), false), txFree) <==> Below(cfg, split, descs)
  {
    var after := Flag(rxFree, DescFrames(cfg, descs), false);
    forall k: nat | k < |rxFree|
      ensures after[k] == (rxFree[k] && k !in DescFrames(cfg, descs))
    {
      FlagExact(rxFree, DescFrames(cfg, descs), false, k);
    }
    forall j | 0 <= j < |descs|
      ensures OneSide(split, after, txFree, FrameOf(cfg, descs[j].addr)) <==> FrameOf(cfg, descs[j].addr) < split
    {
      FramesOfDescs(cfg, descs, FrameOf(cfg, descs[j].addr));
      assert OneSide(split, rxFree, txFree, FrameOf(cfg, descs[j].addr));
    }
    forall k: nat | k < |rxFree| && k !in DescFrames(cfg, descs) ensures OneSide(split, after, txFree, k) {
      assert OneSide(split, rxFree, txFree, k);
    }
    forall k: nat | k < |rxFree| && k in DescFrames(cfg, descs) && Below(cfg, split, descs)
      ensures OneSide(split, after, txFree, k)
    {
      FramesOfDescs(cfg, descs, k);
    }
  }

  /** Receive and Complete keep the lists exclusive, whatever they collect. */
  lemma CollectExcludes(split: nat, rxFree: seq<bool>, txFree: seq<bool>, frames: seq<nat>)
    requires |rxFree| == |txFree| && Exclusive(split, rxFree, txFree)
    ensures Exclusive(split, Flag(rxFree, frames, true), txFree)
    ensures Exclusive(split, rxFree, Flag(txFree, frames, true))
  {
    var rx, tx := Flag(rxFree, frames, true), Flag(txFree, frames, true);
    forall k: nat | k < |rxFree| ensures OneSide(split, rx, txFree, k) && OneSide(split, rxFree, tx, k) {
      assert OneSide(split, rxFree, txFree, k);
      FlagExact(rxFree, frames, true, k);
      FlagExact(txFree, frames, true, k);
    }
  }

  /** How often frame `k` is on the two rings of a flow and with its kernel side. */
  ghost function InFlight(cfg: Config, f: Flow, k: nat): nat {
    Bag(cfg, OnOut(f))[k] + f.kernel.held[k] + Bag(cfg, OnBack(f))[k]
  }

  /**
   * In every pair of runs the two lists exclude each other exactly when no frame
   * of the receiving half is in flight for sending and none of the other half
   * for receiving.
   */
  lemma ListsExclusive(
    rx: Config, rxStart: Flow, rxRun: seq<Label>, f: Flow, fi: Ideal,
    tx: Config, txStart: Flow, txRun: seq<Label>, g: Flow, gi: Ideal, split: nat)
    requires Reaches(rx, rxStart, rxRun, f, fi) && Reaches(tx, txStart, txRun, g, gi) && rx.frames == tx.frames
    ensures |f.free| == |g.free| == rx.frames
    ensures Exclusive(split, f.free, g.free)
       <==> forall k: nat :: k < rx.frames ==>
              (k < split ==> InFlight(tx, g, k) == 0) && (k >= split ==> InFlight(rx, f, k) == 0)
  {
    RunLengths(rx, rxStart, rxRun, f, fi);
    RunLengths(tx, txStart, txRun, g, gi);
    forall k: nat | k < rx.frames
      ensures OneSide(split, f.free, g.free, k)
         <==> (k < split ==> InFlight(tx, g, k) == 0) && (k >= split ==> InFlight(rx, f, k) == 0)
    {
      FrameOwnership(rx, rxStart, rxRun, f, fi, k);
      FrameOwnership(tx, txStart, txRun, g, gi, k);
    }
  }

  lemma RunLengths(cfg: Config, start: Flow, run: seq<Label>, f: Flow, i: Ideal)
    requires Reaches(cfg, start, run, f, i)
    ensures |f.free| == cfg.frames
  {
    RunRefines(cfg, start, run, f, i);
  }

  /**
   * If descriptors for Transmit come from the sending half and those for Fill
   * from the receiving half, no frame is ever in use on both sides: over both
   * flows it is in at most one ring or kernel hand, once.
   */
  lemma HalvesNeverMeet(
    rx: Config, rxStart: Flow, rxRun: seq<Label>, f: Flow, fi: Ideal,
    tx: Config, txStart: Flow, txRun: seq<Label>, g: Flow, gi: Ideal, k: nat)
    requires Reaches(rx, rxStart, rxRun, f, fi) && Reaches(tx, txStart, txRun, g, gi)
    requires rx.frames == tx.frames && rx.hi <= tx.lo && k < rx.frames
    ensures InFlight(rx, f, k) + InFlight(tx, g, k) <= 1
    ensures |f.free| == |g.free| == rx.frames && (f.free[k] || g.free[k])
  {
    FrameOwnership(rx, rxStart, rxRun, f, fi, k);
    FrameOwnership(tx, txStart, txRun, g, gi, k);
  }
}
