/**
 * The XDP socket of the package: two lanes over one umem, with the methods of
 * its Go type. The kernel may take steps on either lane during every call.
 */
module Sockets {
  import opened Wrappers
  import opened Words
  import opened Rings
  import opened Flows
  import opened Invariant
  import opened Refinement
  import opened Safety
  import opened Effects
  import opened Allocation
  import opened Lanes
  import opened Exclusion

  datatype Options = Options(
    numFrames: nat, frameSize: nat,
    fillRing: nat, completionRing: nat, rxRing: nat, txRing: nat)

  const DefaultOptions := Options(128, 2048, 64, 64, 64, 64)

  predicate Usable(o: Options) {
    && 0 < o.frameSize && o.fillRing <= o.numFrames
    && GoodSize(o.fillRing) && GoodSize(o.completionRing) && GoodSize(o.rxRing) && GoodSize(o.txRing)
  }

  /** The default options are usable, with a back slot per frame and a Tx slot per sending frame. */
  lemma DefaultsFit()
    ensures Usable(DefaultOptions)
    ensures var rx := RxLayout(DefaultOptions, true);
      rx.hi - rx.lo == 64 <= rx.backSize && 64 <= rx.outSize && rx.frames == 128 && rx.frameSize == 2048
    ensures var tx := TxLayout(DefaultOptions, DefaultOptions.fillRing, true);
      tx.hi - tx.lo == 64 <= tx.backSize && 64 <= tx.outSize && tx.frames == 128 && tx.frameSize == 2048
    ensures DefaultOptions.numFrames - DefaultOptions.fillRing <= DefaultOptions.txRing
  {
    assert IsPow2(64);
  }

  /** Frames below `fillRing` receive. */
  function RxLayout(o: Options, prompt: bool): Config
    requires Usable(o)
  {
    Layout(Rx, o.numFrames, o.frameSize, 0, o.fillRing, o.fillRing, o.rxRing, prompt)
  }

  /** The client transmits frames from `low` on; GetDescs hands out those from `fillRing` on. */
  function TxLayout(o: Options, low: nat, prompt: bool): Config
    requires Usable(o) && low <= o.numFrames
  {
    Layout(Tx, o.numFrames, o.frameSize, low, o.numFrames, o.txRing, o.completionRing, prompt)
  }

  /** The descriptors GetDescs returns, given the flags of the list it consults. */
  function Handed(o: Options, free: seq<bool>, n: int, forRx: bool): seq<Desc>
    requires Usable(o) && |free| == o.numFrames
  {
    var all := if forRx then FreeIn(free, 0, o.fillRing) else FreeIn(free, o.fillRing, o.numFrames);
    var cap := if forRx then Min(n, o.fillRing) else Min(Min(n, o.fillRing), o.completionRing);
    var m := Min(if cap < 0 then 0 else cap, |all|);
    FrameDescs(o.frameSize, all[..m])
  }

  /** The half of the umem that GetDescs serves. */
  function Half(o: Options, forRx: bool): (nat, nat)
    requires Usable(o)
  {
    if forRx then (0, o.fillRing) else (o.fillRing, o.numFrames)
  }

  /** No more is handed out than the preallocated buffer holds. */
  lemma HandedFits(o: Options, free: seq<bool>, n: int, forRx: bool)
    requires Usable(o) && |free| == o.numFrames
    ensures |Handed(o, free, n, forRx)| <= if forRx then o.fillRing else o.completionRing
    ensures |Handed(o, free, n, forRx)| <= n || Handed(o, free, n, forRx) == []
  {
  }

  /** For receiving, as many are handed out as are asked for and free. */
  lemma HandedCount(o: Options, free: seq<bool>, n: nat)
    requires Usable(o) && |free| == o.numFrames
    ensures |Handed(o, free, n, true)| == Min(n, |FreeIn(free, 0, o.fillRing)|)
  {
    FreeInCount(free, 0, o.fillRing);
  }

  /** For sending, as many as are asked for, as are free, and as both buffers hold. */
  lemma HandedCountTx(o: Options, free: seq<bool>, n: nat)
    requires Usable(o) && |free| == o.numFrames
    ensures |Handed(o, free, n, false)|
         == Min(Min(Min(n, o.fillRing), o.completionRing),
                (o.numFrames - o.fillRing) - (Busy(free) - Busy(free[..o.fillRing])))
  {
    FreeInCount(free, o.fillRing, o.numFrames);
    assert free[..o.numFrames] == free;
  }

  /** Short of the limits, all free frames of the half are handed out. */
  lemma HandedAll(o: Options, free: seq<bool>, n: int, forRx: bool)
    requires Usable(o) && |free| == o.numFrames
    ensures var m := |Handed(o, free, n, forRx)|; var (lo, hi) := Half(o, forRx);
      && (m <= n || m == 0) && m <= o.fillRing && (!forRx ==> m <= o.completionRing)
      && (m < n && m < o.fillRing && (forRx || m < o.completionRing) ==>
            Handed(o, free, n, forRx) == FrameDescs(o.frameSize, FreeIn(free, lo, hi)))
  {
    var (lo, hi) := Half(o, forRx);
    var all := FreeIn(free, lo, hi);
    assert all[..|all|] == all;
  }

  lemma FrameDescsHave(frameSize: nat, frames: seq<nat>, k: nat)
    requires k in frames
    ensures Desc(k * frameSize, frameSize) in FrameDescs(frameSize, frames)
  {
    var j :| 0 <= j < |frames| && frames[j] == k;
    assert FrameDescs(frameSize, frames)[j] == FrameDesc(frameSize, k);
  }

  /** If fewer are handed out than asked for and than the buffers hold, every free frame of the half is among them. */
  lemma HandedMaximal(o: Options, free: seq<bool>, n: int, forRx: bool, k: nat)
    requires Usable(o) && |free| == o.numFrames
    requires var (lo, hi) := Half(o, forRx); lo <= k < hi && free[k]
    requires var m := |Handed(o, free, n, forRx)|; m < n && m < o.fillRing && (forRx || m < o.completionRing)
    ensures Desc(k * o.frameSize, o.frameSize) in Handed(o, free, n, forRx)
  {
    var (lo, hi) := Half(o, forRx);
    HandedAll(o, free, n, forRx);
    FreeInExact(free, lo, hi, k);
    FrameDescsHave(o.frameSize, FreeIn(free, lo, hi), k);
  }

  lemma HandedEvery(o: Options, free: seq<bool>, n: int, forRx: bool)
    requires Usable(o) && |free| == o.numFrames
    ensures var descs := Handed(o, free, n, forRx); var (lo, hi) := Half(o, forRx);
      |descs| < n && |descs| < o.fillRing && (forRx || |descs| < o.completionRing) ==>
        forall k :: lo <= k < hi && free[k] ==> Desc(k * o.frameSize, o.frameSize) in descs
  {
    var descs := Handed(o, free, n, forRx);
    var (lo, hi) := Half(o, forRx);
    if |descs| < n && |descs| < o.fillRing && (forRx || |descs| < o.completionRing) {
      forall k | lo <= k < hi && free[k] ensures Desc(k * o.frameSize, o.frameSize) in descs {
        HandedMaximal(o, free, n, forRx, k);
      }
    }
  }

  lemma HandedAcquired(o: Options, cfg: Config, free: seq<bool>, n: int, forRx: bool)
    requires Usable(o) && |free| == o.numFrames && cfg.frameSize == o.frameSize
    ensures var (lo, hi) := Half(o, forRx);
      cfg.lo <= lo && hi <= cfg.hi ==> Acquired(cfg, free, Handed(o, free, n, forRx))
  {
    var (lo, hi) := Half(o, forRx);
    if cfg.lo <= lo && hi <= cfg.hi {
      FreshAreAcquired(cfg, free, lo, hi, |Handed(o, free, n, forRx)|);
    }
  }

  /**
   * The `j`th descriptor is a whole frame of the half, free, and the free frames
   * of the half below it are exactly those handed out before it.
   */
  lemma HandedFirst(o: Options, free: seq<bool>, n: int, forRx: bool, j: nat) returns (k: nat)
    requires Usable(o) && |free| == o.numFrames && j < |Handed(o, free, n, forRx)|
    ensures var (lo, hi) := Half(o, forRx); lo <= k < hi && free[k]
    ensures Handed(o, free, n, forRx)[j] == Desc(k * o.frameSize, o.frameSize)
    ensures var (lo, hi) := Half(o, forRx);
      forall i: nat :: lo <= i < k && free[i] <==> i in FreeIn(free, lo, hi)[..j]
  {
    var (lo, hi) := Half(o, forRx);
    var all := FreeIn(free, lo, hi);
    k := all[j];
    assert k in all;
    FreeInExact(free, lo, hi, k);
    forall i: nat ensures lo <= i < k && free[i] <==> i in all[..j] {
      FreeInExact(free, lo, hi, i);
      if i in all[..j] {
        var a :| 0 <= a < j && all[a] == i;
        FreeInAscends(free, lo, hi, a, j);
        assert all[a] in all;
      } else if i in all && i < k {
        var b :| 0 <= b < |all| && all[b] == i;
        FreeInAscends(free, lo, hi, j, b);
      }
    }
  }

  /** What is handed out for sending is of the sending half. */
  lemma HandedAbove(o: Options, cfg: Config, free: seq<bool>, n: int)
    requires Usable(o) && |free| == o.numFrames && cfg.frameSize == o.frameSize
    ensures Above(cfg, o.fillRing, Handed(o, free, n, false))
  {
    var descs := Handed(o, free, n, false);
    forall j | 0 <= j < |descs| ensures FrameOf(cfg, descs[j].addr) >= o.fillRing {
      var k := HandedFirst(o, free, n, false, j);
      FrameOfOffset(cfg, k, 0);
    }
  }

  /** Two descriptors handed out, one from each half, name byte ranges of the umem that do not meet. */
  lemma HandedApart(o: Options, rxFree: seq<bool>, txFree: seq<bool>, n: int, m: int, j: nat, k: nat)
    requires Usable(o) && |rxFree| == |txFree| == o.numFrames
    requires j < |Handed(o, rxFree, n, true)| && k < |Handed(o, txFree, m, false)|
    ensures var d, e := Handed(o, rxFree, n, true)[j], Handed(o, txFree, m, false)[k];
      d.addr + d.len <= e.addr && e.addr + e.len <= o.numFrames * o.frameSize
  {
    var a := HandedFirst(o, rxFree, n, true, j);
    var b := HandedFirst(o, txFree, m, false, k);
    FramesDisjoint(RxLayout(o, true), a, b);
  }

  /** The loop of GetDescs over one free list. */
  method Scan(freeList: array<bool>, first: nat, end: nat, n: int, frameSize: nat) returns (descs: seq<Desc>)
    requires first <= end <= freeList.Length
    ensures var all := FreeIn(freeList[..], first, end);
      descs == FrameDescs(frameSize, all[..Min(if n < 0 then 0 else n, |all|)])
  {
    descs := [];
    ghost var found: seq<nat> := [];
    var i := first;
    while i < end && |descs| < n
      invariant first <= i <= end && (|found| <= n || found == [])
      invariant found == FreeIn(freeList[..], first, i) && descs == FrameDescs(frameSize, found)
    {
      if freeList[i] {
        descs := descs + [FrameDesc(frameSize, i)];
        found := found + [i];
      }
      i := i + 1;
    }
    FreeInPrefix(freeList[..], first, i, end);
    assert found == FreeIn(freeList[..], first, end)[..|found|];
  }

  /** A call of Poll: where the two runs were, whether it asked the kernel, and its result. */
  datatype PollCall = PollCall(rxAt: nat, txAt: nat, asked: bool, failed: bool, numReceived: nat)

  /** A call of GetFrame: its argument, and where the two runs were. */
  datatype Access = Access(d: Desc, rxAt: nat, txAt: nat)

  class Socket {
    const options: Options
    const rx: Lane
    const tx: Lane

    /** The calls made so far, in order. */
    ghost var polls: seq<PollCall>
    ghost var accesses: seq<Access>

    /** The layout of the socket, fixed when it is created. */
    ghost predicate LaidOut() {
      && Usable(options)
      && rx.Repr() !! tx.Repr()
      && rx.cfg == RxLayout(options, rx.cfg.prompt)
      && tx.cfg.lo <= options.numFrames && tx.cfg == TxLayout(options, tx.cfg.lo, tx.cfg.prompt)
    }

    ghost predicate Valid()
      reads rx, rx.out, rx.out.descs, rx.back, rx.back.descs, rx.free
      reads tx, tx.out, tx.out.descs, tx.back, tx.back.descs, tx.free
    {
      LaidOut() && rx.Valid() && tx.Valid()
    }

    /** The two free lists exclude each other. */
    ghost predicate ListsExclude()
      reads rx.free, tx.free
    {
      rx.free.Length == tx.free.Length && Exclusive(options.fillRing, rx.free[..], tx.free[..])
    }

    constructor (options: Options, txLow: nat, prompt: bool)
      requires Usable(options) && txLow <= options.numFrames
      ensures Valid() && fresh(rx) && fresh(tx) && fresh(rx.Repr()) && fresh(tx.Repr())
      ensures this.options == options && rx.cfg.prompt == prompt && tx.cfg.lo == txLow
      ensures rx.run == [] && rx.ideal == Empty && rx.outstanding == 0
      ensures tx.run == [] && tx.ideal == Empty && tx.outstanding == 0
      ensures ListsExclude() && polls == [] && accesses == []
      ensures rx.out.descs.Length == options.fillRing && rx.back.descs.Length == options.rxRing
      ensures tx.out.descs.Length == options.txRing && tx.back.descs.Length == options.completionRing
      ensures rx.free.Length == tx.free.Length == options.numFrames
      ensures forall k :: 0 <= k < options.numFrames ==> rx.free[k] && tx.free[k]
    {
      polls, accesses := [], [];
      this.options := options;
      rx := new Lane(RxLayout(options, prompt));
      tx := new Lane(TxLayout(options, txLow, prompt));
    }

    /** The kernel runs on both lanes. */
    method KernelRuns()
      requires Valid()
      modifies rx`kernel, rx`run, rx`ideal, rx.out`consumer, rx.back`producer, rx.back.descs
      modifies tx`kernel, tx`run, tx`ideal, tx.out`consumer, tx.back`producer, tx.back.descs
      ensures Valid()
      ensures KernelRun(old(rx.run), rx.run) && KernelMoved(old(rx.ideal), rx.ideal)
      ensures KernelRun(old(tx.run), tx.run) && KernelMoved(old(tx.ideal), tx.ideal)
    {
      rx.KernelRuns();
      tx.KernelRuns();
    }

    method Fill(descs: seq<Desc>) returns (count: nat)
      requires Valid() && Acquired(rx.cfg, rx.free[..], descs)
      modifies rx.Repr(), tx`kernel, tx`run, tx`ideal, tx.out`consumer, tx.back`producer, tx.back.descs
      ensures Valid() && old(rx.run) <= rx.run && old(tx.run) <= tx.run
      ensures Min(|descs|, old(NumFree(rx.out.View()))) <= count <= |descs|
      ensures rx.outstanding == old(rx.outstanding) + count
      ensures Taken(rx.cfg, old(rx.free[..]), rx.free[..], descs[..count])
      ensures rx.ideal.outLog == old(rx.ideal.outLog) + OutSlots(rx.cfg, descs[..count])
      ensures |rx.ideal.outLog| == |old(rx.ideal.outLog)| + count
      ensures forall j :: 0 <= j < count ==> rx.ideal.outLog[|old(rx.ideal.outLog)| + j] == UmemSlot(descs[j].addr)
      ensures BackKept(old(rx.ideal), rx.ideal)
      ensures KernelMoved(old(tx.ideal), tx.ideal)
      ensures old(ListsExclude()) ==> ListsExclude()
    {
      count := rx.Submit(descs);
      OutSlotsAre(rx.cfg, descs[..count]);
      tx.KernelRuns();
      if old(ListsExclude()) {
        AcquiredPrefix(rx.cfg, old(rx.free[..]), descs, count);
        FillExcludes(rx.cfg, options.fillRing, old(rx.free[..]), tx.free[..], descs[..count]);
      }
    }

    method Transmit(descs: seq<Desc>) returns (count: nat)
      requires Valid() && Acquired(tx.cfg, tx.free[..], descs)
      modifies tx.Repr(), rx`kernel, rx`run, rx`ideal, rx.out`consumer, rx.back`producer, rx.back.descs
      ensures Valid() && old(rx.run) <= rx.run && old(tx.run) <= tx.run
      ensures Min(|descs|, old(NumFree(tx.out.View()))) <= count <= |descs|
      ensures tx.outstanding == old(tx.outstanding) + count
      ensures Taken(tx.cfg, old(tx.free[..]), tx.free[..], descs[..count])
      ensures tx.ideal.outLog == old(tx.ideal.outLog) + OutSlots(tx.cfg, descs[..count])
      ensures |tx.ideal.outLog| == |old(tx.ideal.outLog)| + count
      ensures forall j :: 0 <= j < count ==>
        tx.ideal.outLog[|old(tx.ideal.outLog)| + j] == DescSlot(descs[j].addr, descs[j].len)
      ensures BackKept(old(tx.ideal), tx.ideal)
      ensures KernelMoved(old(rx.ideal), rx.ideal)
      ensures old(ListsExclude()) ==> (ListsExclude() <==> Above(tx.cfg, options.fillRing, descs[..count]))
    {
      count := tx.Submit(descs);
      OutSlotsAre(tx.cfg, descs[..count]);
      rx.KernelRuns();
      if old(ListsExclude()) {
        AcquiredPrefix(tx.cfg, old(tx.free[..]), descs, count);
        TransmitExcludes(tx.cfg, options.fillRing, rx.free[..], old(tx.free[..]), descs[..count]);
      }
    }

    /** `got` is the stretch of the Rx log that the call reads. */
    method Receive(num: int) returns (descs: seq<Desc>, ghost got: seq<Slot>)
      requires Valid()
      modifies rx.Repr(), tx`kernel, tx`run, tx`ideal, tx.out`consumer, tx.back`producer, tx.back.descs
      ensures Valid() && old(rx.run) <= rx.run && old(tx.run) <= tx.run
      ensures |descs| <= num || descs == []
      ensures Min(num, old(NumPending(rx.back.View()))) <= |descs|
      ensures rx.outstanding == old(rx.outstanding) - |descs|
      ensures descs == AsDescs(got) && Read(old(rx.ideal), rx.ideal, got)
      ensures |descs| == |got|
      ensures forall j :: 0 <= j < |got| ==>
        got[j].DescSlot? && descs[j].addr == got[j].addr && descs[j].len == got[j].len
      ensures Recovered(rx.cfg, old(rx.free[..]), rx.free[..], got)
      ensures Acquired(rx.cfg, rx.free[..], descs)
      ensures KernelMoved(old(tx.ideal), tx.ideal)
      ensures old(ListsExclude()) ==> ListsExclude()
    {
      var slots := rx.Collect(num);
      tx.KernelRuns();
      if old(ListsExclude()) {
        CollectExcludes(options.fillRing, old(rx.free[..]), tx.free[..], Frames(rx.cfg, slots));
      }
      descs, got := AsDescs(slots), slots;
      AsDescsAre(rx.cfg, got);
    }

    /** `got` is the stretch of the completion log that the call reads. */
    method Complete(n: int) returns (ghost got: seq<Slot>)
      requires Valid() && 0 <= n <= NumPending(tx.back.View())
      modifies tx.Repr(), rx`kernel, rx`run, rx`ideal, rx.out`consumer, rx.back`producer, rx.back.descs
      ensures Valid() && old(rx.run) <= rx.run && old(tx.run) <= tx.run
      ensures tx.outstanding == old(tx.outstanding) - n
      ensures |got| == n && Read(old(tx.ideal), tx.ideal, got)
      ensures Recovered(tx.cfg, old(tx.free[..]), tx.free[..], got)
      ensures KernelMoved(old(rx.ideal), rx.ideal)
      ensures old(ListsExclude()) ==> ListsExclude()
    {
      var slots := tx.Collect(n);
      rx.KernelRuns();
      if old(ListsExclude()) {
        CollectExcludes(options.fillRing, rx.free[..], old(tx.free[..]), Frames(tx.cfg, slots));
      }
      got := slots;
    }

    /** The clamps, the choice of the half and the scan of GetDescs. */
    method Hand(n: int, forRx: bool) returns (descs: seq<Desc>)
      requires Valid()
      ensures descs == Handed(options, if forRx then rx.free[..] else tx.free[..], n, forRx)
    {
      var m := n;
      if m > options.fillRing {
        m := options.fillRing;
      }
      if !forRx {
        if m > options.completionRing {
          m := options.completionRing;
        }
      }
      var first, end, freeList := 0, options.fillRing, rx.free;
      if !forRx {
        first, end, freeList := options.fillRing, options.numFrames, tx.free;
      }
      descs := Scan(freeList, first, end, m, options.frameSize);
    }

    /**
     * GetDescs: the first free frames of one half of the umem, in ascending
     * order, as many as asked for, as are free, and as the buffers hold.
     */
    method GetDescs(n: int, forRx: bool) returns (descs: seq<Desc>)
      requires Valid()
      ensures descs == Handed(options, if forRx then rx.free[..] else tx.free[..], n, forRx)
      ensures forRx ==> Acquired(rx.cfg, rx.free[..], descs)
      ensures !forRx && tx.cfg.lo <= options.fillRing ==> Acquired(tx.cfg, tx.free[..], descs)
      ensures |descs| <= n || descs == []
      ensures |descs| <= options.fillRing && (!forRx ==> |descs| <= options.completionRing)
      ensures forRx && |descs| < n && |descs| < options.fillRing ==>
        forall k :: 0 <= k < options.fillRing && rx.free[k] ==> Desc(k * options.frameSize, options.frameSize) in descs
      ensures !forRx && |descs| < n && |descs| < options.fillRing && |descs| < options.completionRing ==>
        forall k :: options.fillRing <= k < options.numFrames && tx.free[k] ==>
          Desc(k * options.frameSize, options.frameSize) in descs
    {
      descs := Hand(n, forRx);
      ghost var free := if forRx then rx.free[..] else tx.free[..];
      HandedAcquired(options, if forRx then rx.cfg else tx.cfg, free, n, forRx);
      HandedAll(options, free, n, forRx);
      HandedEvery(options, free, n, forRx);
    }

    /**
     * `Transmit(GetDescs(n, false))`: under a prompt kernel, with a Tx slot for
     * every frame that may be sent, every descriptor handed out is submitted.
     */
    method TransmitFresh(n: int) returns (count: nat)
      requires Valid() && tx.cfg.prompt && tx.cfg.lo <= options.fillRing
      requires tx.cfg.hi - tx.cfg.lo <= tx.cfg.outSize
      modifies tx.Repr(), rx`kernel, rx`run, rx`ideal, rx.out`consumer, rx.back`producer, rx.back.descs
      ensures Valid()
      ensures count == |Handed(options, old(tx.free[..]), n, false)|
      ensures tx.outstanding == old(tx.outstanding) + count
      ensures Taken(tx.cfg, old(tx.free[..]), tx.free[..], Handed(options, old(tx.free[..]), n, false))
      ensures old(ListsExclude()) ==> ListsExclude()
    {
      tx.FreeCount();
      FreeInNarrower(tx.free[..], tx.cfg.lo, options.fillRing, options.numFrames);
      HandedAbove(options, tx.cfg, tx.free[..], n);
      var descs := GetDescs(n, false);
      count := Transmit(descs);
      assert descs[..count] == descs;
    }

    /** `Fill(GetDescs(n, true))`: likewise, whatever `n`. */
    method FillFresh(n: int) returns (count: nat)
      requires Valid() && rx.cfg.prompt
      modifies rx.Repr(), tx`kernel, tx`run, tx`ideal, tx.out`consumer, tx.back`producer, tx.back.descs
      ensures Valid()
      ensures count == |Handed(options, old(rx.free[..]), n, true)|
      ensures rx.outstanding == old(rx.outstanding) + count
      ensures Taken(rx.cfg, old(rx.free[..]), rx.free[..], Handed(options, old(rx.free[..]), n, true))
    {
      rx.FreeCount();
      var descs := GetDescs(n, true);
      count := Fill(descs);
      assert descs[..count] == descs;
    }

    method NumFreeFillSlots() returns (n: nat)
      requires Valid()
      modifies rx`kernel, rx`run, rx`ideal, rx.out`consumer, rx.back`producer, rx.back.descs
      ensures Valid() && old(rx.run) <= rx.run && KernelMoved(old(rx.ideal), rx.ideal)
      ensures old(NumFree(rx.out.View())) <= n == NumFree(rx.out.View())
      ensures n == options.fillRing - (rx.ideal.outPub - rx.ideal.outFreed)
    {
      n := rx.NumFreeSlots();
    }

    method NumFreeTxSlots() returns (n: nat)
      requires Valid()
      modifies tx`kernel, tx`run, tx`ideal, tx.out`consumer, tx.back`producer, tx.back.descs
      ensures Valid() && old(tx.run) <= tx.run && KernelMoved(old(tx.ideal), tx.ideal)
      ensures old(NumFree(tx.out.View())) <= n == NumFree(tx.out.View())
      ensures n == options.txRing - (tx.ideal.outPub - tx.ideal.outFreed)
    {
      n := tx.NumFreeSlots();
    }

    method NumReceived() returns (n: nat)
      requires Valid()
      modifies rx`kernel, rx`run, rx`ideal, rx.out`consumer, rx.back`producer, rx.back.descs
      ensures Valid() && old(rx.run) <= rx.run && KernelMoved(old(rx.ideal), rx.ideal)
      ensures old(NumPending(rx.back.View())) <= n <= NumPending(rx.back.View())
      ensures n <= rx.ideal.backPub - rx.ideal.backRead
    {
      n := rx.NumPendingSlots();
    }

    method NumCompleted() returns (n: nat)
      requires Valid()
      modifies tx`kernel, tx`run, tx`ideal, tx.out`consumer, tx.back`producer, tx.back.descs
      ensures Valid() && old(tx.run) <= tx.run && KernelMoved(old(tx.ideal), tx.ideal)
      ensures old(NumPending(tx.back.View())) <= n <= NumPending(tx.back.View())
      ensures n <= tx.ideal.backPub - tx.ideal.backRead
    {
      n := tx.NumPendingSlots();
    }

    /** Collect the completions seen, if any. */
    method Settle(numCompleted: nat) returns (ghost got: seq<Slot>)
      requires Valid() && numCompleted <= NumPending(tx.back.View())
      modifies tx.Repr(), rx`kernel, rx`run, rx`ideal, rx.out`consumer, rx.back`producer, rx.back.descs
      ensures Valid() && old(rx.run) <= rx.run && old(tx.run) <= tx.run
      ensures KernelMoved(old(rx.ideal), rx.ideal)
      ensures tx.outstanding == old(tx.outstanding) - numCompleted
      ensures |got| == numCompleted && Read(old(tx.ideal), tx.ideal, got)
      ensures Recovered(tx.cfg, old(tx.free[..]), tx.free[..], got)
      ensures old(ListsExclude()) ==> ListsExclude()
    {
      got := [];
      tx.PendingExact();
      ReadNothing(tx.cfg, tx.ideal, tx.ideal, tx.free[..]);
      if numCompleted > 0 {
        got := Complete(numCompleted);
      }
    }

    /** The end of Poll: count the received frames and collect the completions seen. */
    method Harvest() returns (numReceived: nat, numCompleted: nat, ghost got: seq<Slot>)
      requires Valid()
      modifies tx.Repr(), rx`kernel, rx`run, rx`ideal, rx.out`consumer, rx.back`producer, rx.back.descs
      ensures Valid() && old(rx.run) <= rx.run && old(tx.run) <= tx.run
      ensures KernelMoved(old(rx.ideal), rx.ideal)
      ensures old(NumPending(rx.back.View())) <= numReceived <= NumPending(rx.back.View())
      ensures old(NumPending(tx.back.View())) <= numCompleted == |got|
      ensures tx.outstanding == old(tx.outstanding) - numCompleted
      ensures Read(old(tx.ideal), tx.ideal, got)
      ensures Recovered(tx.cfg, old(tx.free[..]), tx.free[..], got)
      ensures old(ListsExclude()) ==> ListsExclude()
    {
      numReceived := NumReceived();
      numCompleted := NumCompleted();
      rx.PendingExact();
      ghost var i := tx.ideal;
      got := Settle(numCompleted);
      ReadSince(old(tx.ideal), i, tx.ideal, got);
      rx.PendingExact();
    }

    /** The system call of Poll, which may fail, and what follows it. */
    method Ask() returns (numReceived: nat, numCompleted: nat, failed: bool, ghost got: seq<Slot>)
      requires Valid()
      modifies tx.Repr(), rx`kernel, rx`run, rx`ideal, rx.out`consumer, rx.back`producer, rx.back.descs
      ensures Valid() && old(rx.run) <= rx.run && old(tx.run) <= tx.run
      ensures failed ==> numReceived == numCompleted == 0
      ensures !failed ==> numReceived >= old(NumPending(rx.back.View()))
      ensures !failed ==> numCompleted >= old(NumPending(tx.back.View()))
      ensures KernelMoved(old(rx.ideal), rx.ideal)
      ensures numReceived <= NumPending(rx.back.View())
      ensures tx.outstanding == old(tx.outstanding) - numCompleted
      ensures |got| == numCompleted && Read(old(tx.ideal), tx.ideal, got)
      ensures Recovered(tx.cfg, old(tx.free[..]), tx.free[..], got)
      ensures old(ListsExclude()) ==> ListsExclude()
    {
      numReceived, numCompleted, got := 0, 0, [];
      rx.PendingExact();
      tx.PendingExact();
      KernelRuns();
      rx.PendingExact();
      tx.PendingExact();
      failed := *;
      if failed {
        ReadNothing(tx.cfg, old(tx.ideal), tx.ideal, tx.free[..]);
      } else {
        ghost var i := tx.ideal;
        numReceived, numCompleted, got := Harvest();
        ReadSince(old(tx.ideal), i, tx.ideal, got);
      }
    }

    /**
     * Poll: ask the kernel only if frames are outstanding; then collect every
     * completion seen and report how many frames have been received. `asked` says
     * that the early return was not taken, `failed` that the system call failed.
     */
    method Poll() returns (numReceived: nat, numCompleted: nat, failed: bool, ghost asked: bool, ghost got: seq<Slot>)
      requires Valid()
      modifies this`polls
      modifies tx.Repr(), rx`kernel, rx`run, rx`ideal, rx.out`consumer, rx.back`producer, rx.back.descs
      ensures Valid() && old(rx.run) <= rx.run && old(tx.run) <= tx.run
      ensures polls == old(polls) + [PollCall(|old(rx.run)|, |old(tx.run)|, asked, failed, numReceived)]
      ensures asked <==> old(rx.outstanding) > 0 || old(tx.outstanding) > 0
      ensures !asked ==> !failed && rx.run == old(rx.run) && tx.run == old(tx.run)
      ensures !asked || failed ==> numReceived == numCompleted == 0
      ensures asked && !failed ==> numReceived >= old(NumPending(rx.back.View()))
      ensures asked && !failed ==> numCompleted >= old(NumPending(tx.back.View()))
      ensures KernelMoved(old(rx.ideal), rx.ideal)
      ensures numReceived <= NumPending(rx.back.View())
      ensures tx.outstanding == old(tx.outstanding) - numCompleted
      ensures |got| == numCompleted && Read(old(tx.ideal), tx.ideal, got)
      ensures Recovered(tx.cfg, old(tx.free[..]), tx.free[..], got)
      ensures old(ListsExclude()) ==> ListsExclude()
    {
      numReceived, numCompleted, failed, got := 0, 0, false, [];
      asked := false;
      var pollIn, pollOut := rx.outstanding > 0, tx.outstanding > 0;
      if !pollIn && !pollOut {
        tx.PendingExact();
        ReadNothing(tx.cfg, old(tx.ideal), tx.ideal, tx.free[..]);
        polls := polls + [PollCall(|old(rx.run)|, |old(tx.run)|, asked, failed, 0)];
        return;
      }
      asked := true;
      numReceived, numCompleted, failed, got := Ask();
      polls := polls + [PollCall(|old(rx.run)|, |old(tx.run)|, asked, failed, numReceived)];
    }

    /** GetFrame: the bytes of the umem that a descriptor names; `None` is a slice out of range. */
    method GetFrame(d: Desc) returns (slice: Option<(nat, nat)>)
      requires Valid()
      modifies this`accesses
      ensures accesses == old(accesses) + [Access(d, |rx.run|, |tx.run|)]
      ensures slice.Some? <==> d.addr + d.len <= rx.cfg.frames * rx.cfg.frameSize
      ensures slice.Some? ==> slice.value == (d.addr, d.addr + d.len)
    {
      accesses := accesses + [Access(d, |rx.run|, |tx.run|)];
      var umem := options.numFrames * options.frameSize;
      slice := if d.addr + d.len <= umem then Some((d.addr, d.addr + d.len)) else None;
    }

    /** A client that has nothing in flight for sending has exclusive lists. */
    lemma QuietExcludes()
      requires Valid() && tx.outstanding == 0
      ensures ListsExclude()
    {
      tx.IdleCounts();
      forall k: nat | k < options.numFrames ensures OneSide(options.fillRing, rx.free[..], tx.free[..], k) {
        NoneBusy(tx.free[..], k);
        rx.FreeIsUntouched(k);
      }
    }

    /** The counters Stats reports are the true totals modulo 2^32. */
    method Stats() returns (filled: nat, received: nat, transmitted: nat, completed: nat)
      requires Valid()
      ensures filled == HistoryOf(rx.cfg, rx.start, rx.run).kernelReleased % 0x1_0000_0000
      ensures received == |HistoryOf(rx.cfg, rx.start, rx.run).collected| % 0x1_0000_0000
      ensures transmitted == HistoryOf(tx.cfg, tx.start, tx.run).kernelReleased % 0x1_0000_0000
      ensures completed == |HistoryOf(tx.cfg, tx.start, tx.run).collected| % 0x1_0000_0000
    {
      rx.Totals();
      tx.Totals();
      filled, received := rx.out.consumer, rx.back.consumer;
      transmitted, completed := tx.out.consumer, tx.back.consumer;
    }
  }
}
