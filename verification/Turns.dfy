/**
 * What the turns of the receive loop are to guarantee, stated on the states that
 * the runs of the two lanes went through.
 */
module Turns {
  import opened Rings
  import opened Flows
  import opened Effects
  import opened Allocation
  import opened Traces
  import opened Sockets

  // ---- At Poll -------------------------------------------------------------

  /** Positions in the receive lane's run: where the free Fill slots were counted, and the end of the turn. */
  datatype Turn = Turn(seen: nat, end: nat)

  /**
   * At the call `c` of Poll, all receive frames are in flight exactly when each
   * free one found a Fill slot. Poll returns early exactly when nothing was
   * outstanding and no Fill slot was free. With a prompt kernel the former always
   * holds and the latter never.
   */
  ghost predicate AtPoll(o: Options, rx: Trace, tx: Trace, c: PollCall, seen: nat) {
    var before, at, sending := FlowAt(rx, seen), FlowAt(rx, c.rxAt), FlowAt(tx, c.txAt);
    && seen <= c.rxAt <= |rx.run| && c.txAt <= |tx.run|
    && before.user.Idle? && at.user.Idle? && sending.user.Idle?
    && at.outstanding == Min(o.fillRing, before.outstanding + NumFree(before.out))
    && (at.outstanding == o.fillRing <==> NumFree(before.out) >= o.fillRing - before.outstanding)
    && (c.asked <==> at.outstanding > 0 || sending.outstanding > 0)
    && (!c.asked <==> before.outstanding + NumFree(before.out) == 0 && sending.outstanding == 0)
    && (rx.cfg.prompt ==> at.outstanding == o.fillRing && c.asked)
  }

  /** And at the end of the turn, unless Poll failed, all that was published at Poll has been read. */
  ghost predicate Kept(o: Options, rx: Trace, tx: Trace, c: PollCall, t: Turn) {
    && AtPoll(o, rx, tx, c, t.seen) && c.rxAt <= t.end <= |rx.run|
    && (!c.failed ==> IdealAt(rx, t.end).backRead >= IdealAt(rx, c.rxAt).backPub)
  }

  lemma AtPollLater(o: Options, rx: Trace, tx: Trace, rx': Trace, tx': Trace, c: PollCall, seen: nat)
    requires AtPoll(o, rx, tx, c, seen) && Later(rx, rx') && Later(tx, tx')
    ensures AtPoll(o, rx', tx', c, seen)
  {
    StateLater(rx, rx', seen);
    StateLater(rx, rx', c.rxAt);
    StateLater(tx, tx', c.txAt);
  }

  lemma KeptLater(o: Options, rx: Trace, tx: Trace, rx': Trace, tx': Trace, c: PollCall, t: Turn)
    requires Kept(o, rx, tx, c, t) && Later(rx, rx') && Later(tx, tx')
    ensures Kept(o, rx', tx', c, t) && FlowAt(tx', c.txAt) == FlowAt(tx, c.txAt)
  {
    AtPollLater(o, rx, tx, rx', tx', c, t.seen);
    StateLater(rx, rx', c.rxAt);
    StateLater(rx, rx', t.end);
    StateLater(tx, tx', c.txAt);
  }

  lemma AtPollHolds(o: Options, rx: Trace, tx: Trace, c: PollCall, seen: nat, outstanding: nat, slots: nat)
    requires 0 < o.fillRing && seen <= c.rxAt <= |rx.run| && c.txAt <= |tx.run|
    requires var f := FlowAt(rx, seen); f.user.Idle? && f.outstanding == outstanding && NumFree(f.out) == slots
    requires var f := FlowAt(rx, c.rxAt);
      f.user.Idle? && f.outstanding == Min(o.fillRing, outstanding + slots) && (rx.cfg.prompt ==> f.outstanding == o.fillRing)
    requires FlowAt(tx, c.txAt).user.Idle? && FlowAt(tx, c.txAt).outstanding >= 0
    requires c.asked <==> FlowAt(rx, c.rxAt).outstanding > 0 || FlowAt(tx, c.txAt).outstanding > 0
    ensures AtPoll(o, rx, tx, c, seen)
  {
  }

  lemma KeptAtEnd(o: Options, rx: Trace, tx: Trace, rx': Trace, tx': Trace, c: PollCall, t: Turn)
    requires AtPoll(o, rx, tx, c, t.seen) && Later(rx, rx') && Later(tx, tx') && t.end == |rx'.run|
    requires !c.failed ==> IdealAt(rx', t.end).backRead >= IdealAt(rx, c.rxAt).backPub
    ensures Kept(o, rx', tx', c, t) && FlowAt(tx', c.txAt) == FlowAt(tx, c.txAt)
  {
    AtPollLater(o, rx, tx, rx', tx', c, t.seen);
    StateLater(rx, rx', c.rxAt);
    StateLater(tx, tx', c.txAt);
  }

  /** Nothing is outstanding for sending at the call. */
  ghost predicate Silent(tx: Trace, c: PollCall) {
    FlowAt(tx, c.txAt).outstanding == 0
  }

  /** Each call of Poll from the `n`th on belongs to a turn. */
  ghost predicate AllKept(
    o: Options, rx: Trace, tx: Trace, polls: seq<PollCall>, n: nat, turns: seq<Turn>, quiet: bool)
  {
    && |polls| == n + |turns|
    && forall k :: 0 <= k < |turns| ==>
         Kept(o, rx, tx, polls[n + k], turns[k]) && (quiet ==> Silent(tx, polls[n + k]))
  }

  lemma KeptMore(
    o: Options, rx: Trace, tx: Trace, rx': Trace, tx': Trace,
    polls: seq<PollCall>, n: nat, turns: seq<Turn>, quiet: bool, c: PollCall, t: Turn)
    requires AllKept(o, rx, tx, polls, n, turns, quiet) && Later(rx, rx') && Later(tx, tx')
    requires Kept(o, rx', tx', c, t) && (quiet ==> Silent(tx', c))
    ensures AllKept(o, rx', tx', polls + [c], n, turns + [t], quiet)
  {
    var polls', turns' := polls + [c], turns + [t];
    forall k | 0 <= k < |turns'|
      ensures Kept(o, rx', tx', polls'[n + k], turns'[k]) && (quiet ==> Silent(tx', polls'[n + k]))
    {
      if k < |turns| {
        assert polls'[n + k] == polls[n + k] && turns'[k] == turns[k];
        KeptLater(o, rx, tx, rx', tx', polls[n + k], turns[k]);
      } else {
        assert polls'[n + k] == c && turns'[k] == t;
      }
    }
  }

  // ---- While frames are read -----------------------------------------------

  /** Stretches of the two runs, from the return of Receive to the end of the turn. */
  datatype Window = Window(rxFrom: nat, rxTo: nat, txFrom: nat, txTo: nat)

  /** The call `a` of GetFrame is for slot `s` and falls into the window. */
  predicate Within(a: Access, s: Slot, w: Window) {
    a.d == AsDesc(s) && w.rxFrom <= a.rxAt <= w.rxTo && w.txFrom <= a.txAt <= w.txTo
  }

  /**
   * Throughout the window the frame of slot `s` is on neither receive ring and not
   * with the kernel for receiving, and likewise for sending if the free lists
   * exclude each other. Its data lies inside it.
   */
  ghost predicate ClearFrame(rx: Trace, tx: Trace, s: Slot, w: Window, apart: bool) {
    var k := FrameOf(rx.cfg, s.addr);
    && InsideFrame(rx.cfg, k, s.addr, s.addr + AsDesc(s).len)
    && Clear(rx, w.rxFrom, w.rxTo, k) && (apart ==> Clear(tx, w.txFrom, w.txTo, k))
  }

  /** The calls of GetFrame from the `n`th on are for `got`, in order, each in a window in which its frame is clear. */
  ghost predicate SafeReads(
    rx: Trace, tx: Trace, accesses: seq<Access>, n: nat, got: seq<Slot>, windows: seq<Window>, apart: bool)
  {
    && |accesses| == n + |got| && |windows| == |got|
    && forall j :: 0 <= j < |got| ==>
         Within(accesses[n + j], got[j], windows[j]) && ClearFrame(rx, tx, got[j], windows[j], apart)
  }

  /** All calls of GetFrame from the `n`th on are for `got` and fall into one window. */
  ghost predicate AllWithin(accesses: seq<Access>, n: nat, got: seq<Slot>, w: Window) {
    |accesses| == n + |got| && forall j :: 0 <= j < |got| ==> Within(accesses[n + j], got[j], w)
  }

  function Constant(n: nat, w: Window): seq<Window> {
    seq(n, _ => w)
  }

  ghost predicate AllClear(rx: Trace, tx: Trace, got: seq<Slot>, w: Window, apart: bool) {
    forall j :: 0 <= j < |got| ==> ClearFrame(rx, tx, got[j], w, apart)
  }

  lemma WithinMore(accesses: seq<Access>, n: nat, got: seq<Slot>, i: nat, w: Window, a: Access, w': Window)
    requires i < |got| && AllWithin(accesses, n, got[..i], w) && Within(a, got[i], w')
    requires w' == w.(rxTo := w'.rxTo, txTo := w'.txTo) && w.rxTo <= w'.rxTo && w.txTo <= w'.txTo
    ensures AllWithin(accesses + [a], n, got[..i + 1], w')
  {
    var more, upTo := accesses + [a], got[..i + 1];
    forall j | 0 <= j < |upTo| ensures Within(more[n + j], upTo[j], w') {
      if j < i {
        assert got[..i][j] == upTo[j] && more[n + j] == accesses[n + j];
      }
    }
  }

  /** Since `log`, `rx0` and `tx0` the calls of GetFrame were for `got`, and only the kernel stepped. */
  ghost predicate ReadAll(
    log: seq<Access>, log': seq<Access>, rx: seq<Label>, rx': seq<Label>, tx: seq<Label>, tx': seq<Label>, got: seq<Slot>,
    slices: seq<(nat, nat)>)
  {
    && slices == Slices(got)
    && log <= log' && KernelRun(rx, rx') && KernelRun(tx, tx')
    && AllWithin(log', |log|, got, Window(|rx|, |rx'|, |tx|, |tx'|))
  }

  lemma ReadMoreOf(
    log0: seq<Access>, log: seq<Access>, log': seq<Access>, rx0: seq<Label>, rx: seq<Label>, rx': seq<Label>,
    tx0: seq<Label>, tx: seq<Label>, tx': seq<Label>, got: seq<Slot>, i: nat,
    slices: seq<(nat, nat)>, slice: (nat, nat))
    requires i < |got| && ReadAll(log0, log, rx0, rx, tx0, tx, got[..i], slices)
    requires slice == (got[i].addr, got[i].addr + AsDesc(got[i]).len)
    requires KernelRun(rx, rx') && KernelRun(tx, tx') && log' == log + [Access(AsDesc(got[i]), |rx|, |tx|)]
    ensures ReadAll(log0, log', rx0, rx', tx0, tx', got[..i + 1], slices + [slice])
  {
    assert got[..i + 1] == got[..i] + [got[i]] && Slices([got[i]]) == [slice];
    SlicesConcat(got[..i], [got[i]]);
    KernelRunTwice(rx0, rx, rx');
    KernelRunTwice(tx0, tx, tx');
    WithinMore(log, |log0|, got, i, Window(|rx0|, |rx|, |tx0|, |tx|), Access(AsDesc(got[i]), |rx|, |tx|),
               Window(|rx0|, |rx'|, |tx0|, |tx'|));
  }

  lemma NthReadable(cfg: Config, free: seq<bool>, got: seq<Slot>, i: nat)
    requires Readable(cfg, free, got) && i < |got|
    ensures ReadableAt(cfg, free, got[i])
    ensures AsDescs(got)[i] == AsDesc(got[i])
  {
  }

  lemma WindowReads(rx: Trace, tx: Trace, accesses: seq<Access>, n: nat, got: seq<Slot>, w: Window, apart: bool)
    requires AllWithin(accesses, n, got, w) && AllClear(rx, tx, got, w, apart)
    ensures SafeReads(rx, tx, accesses, n, got, Constant(|got|, w), apart)
  {
  }

  lemma ClearFrameLater(rx: Trace, tx: Trace, rx': Trace, tx': Trace, s: Slot, w: Window, apart: bool)
    requires ClearFrame(rx, tx, s, w, apart) && Later(rx, rx') && Later(tx, tx')
    ensures ClearFrame(rx', tx', s, w, apart)
  {
    var k := FrameOf(rx.cfg, s.addr);
    ClearLater(rx, rx', w.rxFrom, w.rxTo, k);
    if apart {
      ClearLater(tx, tx', w.txFrom, w.txTo, k);
    }
  }

  lemma SafeReadsMore(
    rx: Trace, tx: Trace, rx': Trace, tx': Trace, accesses: seq<Access>, accesses': seq<Access>, n: nat,
    got: seq<Slot>, windows: seq<Window>, apart: bool, more: seq<Slot>, moreWindows: seq<Window>, now: bool)
    requires SafeReads(rx, tx, accesses, n, got, windows, apart) && Later(rx, rx') && Later(tx, tx')
    requires accesses <= accesses' && SafeReads(rx', tx', accesses', |accesses|, more, moreWindows, now)
    requires apart ==> now
    ensures SafeReads(rx', tx', accesses', n, got + more, windows + moreWindows, apart)
  {
    forall j | 0 <= j < |got + more|
      ensures Within(accesses'[n + j], (got + more)[j], (windows + moreWindows)[j])
      ensures ClearFrame(rx', tx', (got + more)[j], (windows + moreWindows)[j], apart)
    {
      if j < |got| {
        assert accesses'[n + j] == accesses[n + j];
        ClearFrameLater(rx, tx, rx', tx', got[j], windows[j], apart);
      } else {
        var i := j - |got|;
        assert accesses'[|accesses| + i] == accesses'[n + j];
        assert Within(accesses'[|accesses| + i], more[i], moreWindows[i]);
      }
    }
  }

  /** From state `i` to `j` exactly `got` was collected, and `printed` names its slices. */
  ghost predicate Progress(i: Ideal, j: Ideal, printed: seq<(nat, nat)>, got: seq<Slot>) {
    Collected(i, j, got) && AllDescs(got) && printed == Slices(got)
  }

  lemma ProgressNone(i: Ideal)
    requires i.backRead <= |i.backLog|
    ensures Progress(i, i, [], [])
  {
    CollectedNothing(i, i);
  }

  lemma ProgressSince(i: Ideal, j: Ideal, k: Ideal, slices: seq<(nat, nat)>, got: seq<Slot>)
    requires BackKept(i, j) && Progress(j, k, slices, got)
    ensures Progress(i, k, slices, got) && k.backRead == j.backRead + |got|
  {
  }

  lemma ProgressMore(
    i: Ideal, j: Ideal, k: Ideal, printed: seq<(nat, nat)>, got: seq<Slot>, slices: seq<(nat, nat)>, more: seq<Slot>)
    requires Progress(i, j, printed, got) && Progress(j, k, slices, more)
    ensures Progress(i, k, printed + slices, got + more)
  {
    CollectedTwice(i, j, k, got, more);
    SlicesConcat(got, more);
  }

  /** What was printed are the bytes of the slots collected, and GetFrame was called with them. */
  lemma PrintedAre(
    i: Ideal, j: Ideal, printed: seq<(nat, nat)>, got: seq<Slot>,
    rx: Trace, tx: Trace, accesses: seq<Access>, n: nat, windows: seq<Window>, apart: bool)
    requires Progress(i, j, printed, got) && SafeReads(rx, tx, accesses, n, got, windows, apart)
    ensures |printed| == |got| && |accesses| == n + |got|
    ensures forall k :: 0 <= k < |got| ==> got[k].DescSlot? && printed[k] == (got[k].addr, got[k].addr + got[k].len)
    ensures forall k :: 0 <= k < |got| ==>
      got[k].DescSlot? && accesses[n + k].d == Desc(got[k].addr, got[k].len)
  {
    SlicesAre(got);
    forall k | 0 <= k < |got| ensures accesses[n + k].d == Desc(got[k].addr, got[k].len) {
      assert Within(accesses[n + k], got[k], windows[k]);
    }
  }
}
