/**
 * The receive loop of the dumpframes program as a client of the socket.
 */
module DumpFrames {
  import opened Rings
  import opened Flows
  import opened Effects
  import opened Allocation
  import opened Exclusion
  import opened Traces
  import opened Sockets
  import opened Turns

  /** With a count in hand that is exact, `Fill(GetDescs(n, true))` submits all it can. */
  method PushFree(xsk: Socket, n: nat)
    requires xsk.Valid() && n == NumFree(xsk.rx.out.View())
    modifies xsk.rx.Repr(), xsk.tx`kernel, xsk.tx`run, xsk.tx`ideal
    modifies xsk.tx.out`consumer, xsk.tx.back`producer, xsk.tx.back.descs
    ensures xsk.Valid() && BackKept(old(xsk.rx.ideal), xsk.rx.ideal)
    ensures old(xsk.rx.run) <= xsk.rx.run && old(xsk.tx.run) <= xsk.tx.run
    ensures xsk.rx.outstanding == Min(xsk.options.fillRing, old(xsk.rx.outstanding) + n)
    ensures old(xsk.ListsExclude()) ==> xsk.ListsExclude()
  {
    xsk.rx.FreeCount();
    var descs := xsk.GetDescs(n, true);
    HandedCount(xsk.options, xsk.rx.free[..], n);
    var count := xsk.Fill(descs);
  }

  /**
   * The head of the loop: push free receive frames onto the Fill ring, `n` being
   * the free slots seen at position `seen` of the run. All receive frames are then
   * in flight if and only if there was a slot for each free one; with a prompt
   * kernel there always is.
   */
  method Refill(xsk: Socket) returns (n: nat, ghost seen: nat)
    requires xsk.Valid()
    modifies xsk.rx.Repr(), xsk.tx`kernel, xsk.tx`run, xsk.tx`ideal
    modifies xsk.tx.out`consumer, xsk.tx.back`producer, xsk.tx.back.descs
    ensures xsk.Valid() && BackKept(old(xsk.rx.ideal), xsk.rx.ideal)
    ensures old(xsk.rx.run) <= xsk.rx.run && old(xsk.tx.run) <= xsk.tx.run
    ensures |old(xsk.rx.run)| <= seen <= |xsk.rx.run|
    ensures var f := FlowAt(xsk.rx.Past(), seen);
      f.user.Idle? && f.outstanding == old(xsk.rx.outstanding) && NumFree(f.out) == n
    ensures n >= old(NumFree(xsk.rx.out.View()))
    ensures xsk.rx.outstanding == Min(xsk.options.fillRing, old(xsk.rx.outstanding) + n)
    ensures old(xsk.ListsExclude()) ==> xsk.ListsExclude()
    ensures xsk.rx.cfg.prompt ==> xsk.rx.outstanding == xsk.options.fillRing
  {
    n := xsk.NumFreeFillSlots();
    seen := |xsk.rx.run|;
    ghost var past := xsk.rx.Past();
    xsk.rx.Here();
    xsk.rx.FreeCount();
    if n > 0 {
      PushFree(xsk, n);
    }
    StateLater(past, xsk.rx.Past(), seen);
  }

  /** Then none of them is free: every one is on a ring or with the kernel. */
  lemma NoneLeaked(xsk: Socket, k: nat)
    requires xsk.Valid() && xsk.rx.outstanding == xsk.options.fillRing && k < xsk.options.fillRing
    ensures !xsk.rx.free[k] && !xsk.rx.Untouched(k)
  {
    xsk.rx.AllInFlight(k);
    xsk.rx.FreeIsUntouched(k);
  }

  /**
   * Reading a received frame: GetFrame, and the kernel running while its bytes
   * are used. At every point the frame is on neither receive ring and not with the
   * kernel for receiving; it is clear of the sending side exactly when its sending
   * flag is set. The slice read lies inside that frame and inside the umem.
   */
  method ReadFrame(xsk: Socket, d: Desc, ghost s: Slot) returns (slice: (nat, nat))
    requires xsk.Valid() && d == AsDesc(s) && ReadableAt(xsk.rx.cfg, xsk.rx.free[..], s)
    modifies xsk`accesses
    modifies xsk.rx`kernel, xsk.rx`run, xsk.rx`ideal, xsk.rx.out`consumer, xsk.rx.back`producer, xsk.rx.back.descs
    modifies xsk.tx`kernel, xsk.tx`run, xsk.tx`ideal, xsk.tx.out`consumer, xsk.tx.back`producer, xsk.tx.back.descs
    ensures xsk.Valid() && KernelMoved(old(xsk.rx.ideal), xsk.rx.ideal)
    ensures KernelRun(old(xsk.rx.run), xsk.rx.run) && KernelRun(old(xsk.tx.run), xsk.tx.run)
    ensures xsk.accesses == old(xsk.accesses) + [Access(d, |old(xsk.rx.run)|, |old(xsk.tx.run)|)]
    ensures slice == (d.addr, d.addr + d.len)
    ensures InsideFrame(xsk.rx.cfg, FrameOf(xsk.rx.cfg, d.addr), slice.0, slice.1)
    ensures Clear(xsk.rx.Past(), |old(xsk.rx.run)|, |xsk.rx.run|, FrameOf(xsk.rx.cfg, d.addr))
    ensures var k := FrameOf(xsk.rx.cfg, d.addr);
      k < xsk.tx.free.Length && (Clear(xsk.tx.Past(), |old(xsk.tx.run)|, |xsk.tx.run|, k) <==> xsk.tx.free[k])
  {
    ghost var k := FrameOf(xsk.rx.cfg, d.addr);
    SliceInside(xsk.rx.cfg, s);
    var r := xsk.GetFrame(d);
    slice := r.value;
    ghost var rx, tx := xsk.rx.Past(), xsk.tx.Past();
    xsk.KernelRuns();
    xsk.rx.ClearSince(rx, k);
    xsk.tx.ClearSince(tx, k);
  }

  /** Where the runs of the two lanes went, from the given lengths on. */
  ghost function Since(xsk: Socket, rxFrom: nat, txFrom: nat): Window
    reads xsk.rx, xsk.tx
  {
    Window(rxFrom, |xsk.rx.run|, txFrom, |xsk.tx.run|)
  }

  /** One turn of the inner loop, after `i` frames have been read since the given logs. */
  method ReadNext(
      xsk: Socket, d: Desc, slices: seq<(nat, nat)>, ghost got: seq<Slot>, ghost i: nat,
      ghost log: seq<Access>, ghost rx: seq<Label>, ghost tx: seq<Label>) returns (more: seq<(nat, nat)>)
    requires xsk.Valid() && Readable(xsk.rx.cfg, xsk.rx.free[..], got) && i < |got| && d == AsDesc(got[i])
    requires ReadAll(log, xsk.accesses, rx, xsk.rx.run, tx, xsk.tx.run, got[..i], slices)
    modifies xsk`accesses
    modifies xsk.rx`kernel, xsk.rx`run, xsk.rx`ideal, xsk.rx.out`consumer, xsk.rx.back`producer, xsk.rx.back.descs
    modifies xsk.tx`kernel, xsk.tx`run, xsk.tx`ideal, xsk.tx.out`consumer, xsk.tx.back`producer, xsk.tx.back.descs
    ensures xsk.Valid() && KernelMoved(old(xsk.rx.ideal), xsk.rx.ideal)
    ensures ReadAll(log, xsk.accesses, rx, xsk.rx.run, tx, xsk.tx.run, got[..i + 1], more)
  {
    ghost var log1, rx1, tx1 := xsk.accesses, xsk.rx.run, xsk.tx.run;
    NthReadable(xsk.rx.cfg, xsk.rx.free[..], got, i);
    var slice := ReadFrame(xsk, d, got[i]);
    ReadMoreOf(log, log1, xsk.accesses, rx, rx1, xsk.rx.run, tx, tx1, xsk.tx.run, got, i, slices, slice);
    more := slices + [slice];
  }

  lemma SlotClear(xsk: Socket, rx: Trace, tx: Trace, s: Slot)
    requires xsk.Valid() && Later(rx, xsk.rx.Past()) && Later(tx, xsk.tx.Past())
    requires KernelRun(rx.run, xsk.rx.run) && KernelRun(tx.run, xsk.tx.run)
    requires ReadableAt(xsk.rx.cfg, xsk.rx.free[..], s)
    ensures ClearFrame(xsk.rx.Past(), xsk.tx.Past(), s, Since(xsk, |rx.run|, |tx.run|), xsk.ListsExclude())
  {
    var k := FrameOf(xsk.rx.cfg, s.addr);
    SliceInside(xsk.rx.cfg, s);
    xsk.rx.ClearSince(rx, k);
    xsk.tx.ClearSince(tx, k);
    if xsk.ListsExclude() {
      assert OneSide(xsk.options.fillRing, xsk.rx.free[..], xsk.tx.free[..], k);
    }
  }

  /** The frames read since `rx` and `tx`, with only the kernel stepping, were clear all the while. */
  lemma ReadsAreSafe(xsk: Socket, rx: Trace, tx: Trace, log: seq<Access>, got: seq<Slot>, slices: seq<(nat, nat)>)
    requires xsk.Valid() && Later(rx, xsk.rx.Past()) && Later(tx, xsk.tx.Past())
    requires Readable(xsk.rx.cfg, xsk.rx.free[..], got)
    requires ReadAll(log, xsk.accesses, rx.run, xsk.rx.run, tx.run, xsk.tx.run, got, slices)
    ensures SafeReads(
      xsk.rx.Past(), xsk.tx.Past(), xsk.accesses, |log|, got,
      Constant(|got|, Since(xsk, |rx.run|, |tx.run|)), xsk.ListsExclude())
  {
    var w := Since(xsk, |rx.run|, |tx.run|);
    forall j | 0 <= j < |got| ensures ClearFrame(xsk.rx.Past(), xsk.tx.Past(), got[j], w, xsk.ListsExclude()) {
      NthReadable(xsk.rx.cfg, xsk.rx.free[..], got, j);
      SlotClear(xsk, rx, tx, got[j]);
    }
    WindowReads(xsk.rx.Past(), xsk.tx.Past(), xsk.accesses, |log|, got, w, xsk.ListsExclude());
  }

  /** The inner loop over the frames of one Receive: all are read, in order, with only the kernel stepping. */
  method ReadFrames(xsk: Socket, descs: seq<Desc>, ghost got: seq<Slot>) returns (slices: seq<(nat, nat)>)
    requires xsk.Valid() && descs == AsDescs(got) && Readable(xsk.rx.cfg, xsk.rx.free[..], got)
    modifies xsk`accesses
    modifies xsk.rx`kernel, xsk.rx`run, xsk.rx`ideal, xsk.rx.out`consumer, xsk.rx.back`producer, xsk.rx.back.descs
    modifies xsk.tx`kernel, xsk.tx`run, xsk.tx`ideal, xsk.tx.out`consumer, xsk.tx.back`producer, xsk.tx.back.descs
    ensures xsk.Valid() && KernelMoved(old(xsk.rx.ideal), xsk.rx.ideal)
    ensures ReadAll(
      old(xsk.accesses), xsk.accesses, old(xsk.rx.run), xsk.rx.run, old(xsk.tx.run), xsk.tx.run, got, slices)
    ensures SafeReads(
      xsk.rx.Past(), xsk.tx.Past(), xsk.accesses, |old(xsk.accesses)|, got,
      Constant(|got|, Since(xsk, |old(xsk.rx.run)|, |old(xsk.tx.run)|)), xsk.ListsExclude())
  {
    slices := [];
    for i := 0 to |descs|
      invariant xsk.Valid() && KernelMoved(old(xsk.rx.ideal), xsk.rx.ideal)
      invariant ReadAll(
        old(xsk.accesses), xsk.accesses, old(xsk.rx.run), xsk.rx.run, old(xsk.tx.run), xsk.tx.run, got[..i], slices)
    {
      slices := ReadNext(xsk, descs[i], slices, got, i, old(xsk.accesses), old(xsk.rx.run), old(xsk.tx.run));
    }
    assert got[..|descs|] == got;
    ReadsAreSafe(xsk, old(xsk.rx.Past()), old(xsk.tx.Past()), old(xsk.accesses), got, slices);
  }

  /** Receive: the descriptors are those collected, and their frames may be read. */
  method Fetch(xsk: Socket, numRx: nat) returns (descs: seq<Desc>, ghost got: seq<Slot>)
    requires xsk.Valid()
    modifies xsk.rx.Repr(), xsk.tx`kernel, xsk.tx`run, xsk.tx`ideal
    modifies xsk.tx.out`consumer, xsk.tx.back`producer, xsk.tx.back.descs
    ensures xsk.Valid() && old(xsk.rx.run) <= xsk.rx.run && old(xsk.tx.run) <= xsk.tx.run
    ensures Collected(old(xsk.rx.ideal), xsk.rx.ideal, got) && descs == AsDescs(got)
    ensures Min(numRx, old(NumPending(xsk.rx.back.View()))) <= |got| <= numRx
    ensures Readable(xsk.rx.cfg, xsk.rx.free[..], got) && AllDescs(got)
    ensures old(xsk.ListsExclude()) ==> xsk.ListsExclude()
  {
    ghost var i, before := xsk.rx.ideal, xsk.rx.free[..];
    descs, got := xsk.Receive(numRx);
    CollectedOne(i, i, xsk.rx.ideal, got);
    RecoveredReadable(xsk.rx.cfg, before, xsk.rx.free[..], got);
  }

  /** Receive and read what it returns. */
  method Serve(xsk: Socket, numRx: nat) returns (slices: seq<(nat, nat)>, ghost got: seq<Slot>, ghost windows: seq<Window>)
    requires xsk.Valid() && numRx <= NumPending(xsk.rx.back.View())
    modifies xsk`accesses, xsk.rx.Repr(), xsk.tx`kernel, xsk.tx`run, xsk.tx`ideal
    modifies xsk.tx.out`consumer, xsk.tx.back`producer, xsk.tx.back.descs
    ensures xsk.Valid() && old(xsk.rx.run) <= xsk.rx.run && old(xsk.tx.run) <= xsk.tx.run
    ensures Progress(old(xsk.rx.ideal), xsk.rx.ideal, slices, got) && |got| == numRx
    ensures old(xsk.ListsExclude()) ==> xsk.ListsExclude()
    ensures old(xsk.accesses) <= xsk.accesses
    ensures SafeReads(xsk.rx.Past(), xsk.tx.Past(), xsk.accesses, |old(xsk.accesses)|, got, windows, xsk.ListsExclude())
  {
    ghost var i := xsk.rx.ideal;
    var descs;
    descs, got := Fetch(xsk, numRx);
    ghost var j, rx, tx := xsk.rx.ideal, xsk.rx.Past(), xsk.tx.Past();
    slices := ReadFrames(xsk, descs, got);
    CollectedKept(i, j, xsk.rx.ideal, got);
    windows := Constant(|got|, Since(xsk, |rx.run|, |tx.run|));
  }

  /** The tail of the loop: receive what Poll reported, if anything, and read it. */
  method Drain(xsk: Socket, numRx: nat) returns (slices: seq<(nat, nat)>, ghost got: seq<Slot>, ghost windows: seq<Window>)
    requires xsk.Valid() && numRx <= NumPending(xsk.rx.back.View())
    modifies xsk`accesses, xsk.rx.Repr(), xsk.tx`kernel, xsk.tx`run, xsk.tx`ideal
    modifies xsk.tx.out`consumer, xsk.tx.back`producer, xsk.tx.back.descs
    ensures xsk.Valid() && old(xsk.rx.run) <= xsk.rx.run && old(xsk.tx.run) <= xsk.tx.run
    ensures Progress(old(xsk.rx.ideal), xsk.rx.ideal, slices, got) && |got| == numRx
    ensures old(xsk.ListsExclude()) ==> xsk.ListsExclude()
    ensures old(xsk.accesses) <= xsk.accesses
    ensures SafeReads(xsk.rx.Past(), xsk.tx.Past(), xsk.accesses, |old(xsk.accesses)|, got, windows, xsk.ListsExclude())
  {
    if numRx > 0 {
      slices, got, windows := Serve(xsk, numRx);
    } else {
      slices, got, windows := [], [], [];
      xsk.rx.PendingExact();
      ProgressNone(xsk.rx.ideal);
    }
  }

  /** Poll, and where the runs were when it was called. */
  method PollHere(xsk: Socket) returns (numRx: nat, failed: bool, ghost c: PollCall)
    requires xsk.Valid()
    modifies xsk`polls, xsk.tx.Repr()
    modifies xsk.rx`kernel, xsk.rx`run, xsk.rx`ideal, xsk.rx.out`consumer, xsk.rx.back`producer, xsk.rx.back.descs
    ensures xsk.Valid() && KernelMoved(old(xsk.rx.ideal), xsk.rx.ideal)
    ensures old(xsk.rx.run) <= xsk.rx.run && old(xsk.tx.run) <= xsk.tx.run
    ensures xsk.polls == old(xsk.polls) + [c] && c.failed == failed && c.numReceived == numRx
    ensures c.rxAt == |old(xsk.rx.run)| && c.txAt == |old(xsk.tx.run)|
    ensures c.asked <==> old(xsk.rx.outstanding) > 0 || old(xsk.tx.outstanding) > 0
    ensures FlowAt(xsk.rx.Past(), c.rxAt) == old(xsk.rx.Snapshot()) && IdealAt(xsk.rx.Past(), c.rxAt) == old(xsk.rx.ideal)
    ensures FlowAt(xsk.tx.Past(), c.txAt) == old(xsk.tx.Snapshot())
    ensures numRx <= NumPending(xsk.rx.back.View()) && (failed ==> numRx == 0)
    ensures !failed ==> xsk.rx.ideal.backRead + numRx >= old(xsk.rx.ideal.backPub)
    ensures old(xsk.tx.outstanding) == 0 ==> xsk.tx.outstanding == 0
    ensures old(xsk.ListsExclude()) ==> xsk.ListsExclude()
  {
    ghost var rx, tx := xsk.rx.Past(), xsk.tx.Past();
    xsk.rx.Here();
    xsk.tx.Here();
    xsk.rx.PendingExact();
    xsk.rx.PendingOutstanding();
    ghost var asked, completed;
    var numCompleted;
    numRx, numCompleted, failed, asked, completed := xsk.Poll();
    c := PollCall(|rx.run|, |tx.run|, asked, failed, numRx);
    StateLater(rx, xsk.rx.Past(), |rx.run|);
    StateLater(tx, xsk.tx.Past(), |tx.run|);
    xsk.tx.IdleCounts();
  }

  /** Refill and Poll: what the turn sees, with everything published so far reported. */
  method Await(xsk: Socket) returns (numRx: nat, failed: bool, ghost seen: nat, ghost c: PollCall)
    requires xsk.Valid()
    modifies xsk`polls, xsk.rx.Repr(), xsk.tx.Repr()
    ensures xsk.Valid() && BackKept(old(xsk.rx.ideal), xsk.rx.ideal)
    ensures old(xsk.rx.run) <= xsk.rx.run && old(xsk.tx.run) <= xsk.tx.run && |old(xsk.rx.run)| <= seen
    ensures xsk.polls == old(xsk.polls) + [c] && c.failed == failed && c.numReceived == numRx
    ensures AtPoll(xsk.options, xsk.rx.Past(), xsk.tx.Past(), c, seen)
    ensures FlowAt(xsk.tx.Past(), c.txAt).outstanding == old(xsk.tx.outstanding)
    ensures numRx <= NumPending(xsk.rx.back.View()) && (failed ==> numRx == 0)
    ensures !failed ==> xsk.rx.ideal.backRead + numRx >= IdealAt(xsk.rx.Past(), c.rxAt).backPub
    ensures old(xsk.tx.outstanding) == 0 ==> xsk.tx.outstanding == 0
    ensures old(xsk.ListsExclude()) ==> xsk.ListsExclude()
  {
    xsk.rx.NonNegative();
    xsk.tx.NonNegative();
    var n;
    n, seen := Refill(xsk);
    ghost var rx := xsk.rx.Past();
    numRx, failed, c := PollHere(xsk);
    StateLater(rx, xsk.rx.Past(), seen);
    AtPollHolds(xsk.options, xsk.rx.Past(), xsk.tx.Past(), c, seen, old(xsk.rx.outstanding), n);
  }

  /**
   * One turn of the loop: one call of Poll, and exactly as many frames read as it
   * reported, the oldest ones received and unread; each is clear while it is read.
   */
  method Round(xsk: Socket) returns (
      slices: seq<(nat, nat)>, failed: bool, ghost c: PollCall, ghost t: Turn, ghost got: seq<Slot>, ghost windows: seq<Window>)
    requires xsk.Valid()
    modifies xsk`polls, xsk`accesses, xsk.rx.Repr(), xsk.tx.Repr()
    ensures xsk.Valid() && old(xsk.rx.run) <= xsk.rx.run && old(xsk.tx.run) <= xsk.tx.run
    ensures xsk.polls == old(xsk.polls) + [c] && c.failed == failed && c.numReceived == |got|
    ensures |old(xsk.rx.run)| <= t.seen && t.end == |xsk.rx.run|
    ensures Kept(xsk.options, xsk.rx.Past(), xsk.tx.Past(), c, t)
    ensures FlowAt(xsk.tx.Past(), c.txAt).outstanding == old(xsk.tx.outstanding)
    ensures Progress(old(xsk.rx.ideal), xsk.rx.ideal, slices, got)
    ensures old(xsk.tx.outstanding) == 0 ==> xsk.tx.outstanding == 0
    ensures old(xsk.ListsExclude()) ==> xsk.ListsExclude()
    ensures old(xsk.accesses) <= xsk.accesses
    ensures SafeReads(xsk.rx.Past(), xsk.tx.Past(), xsk.accesses, |old(xsk.accesses)|, got, windows, xsk.ListsExclude())
  {
    var numRx;
    ghost var seen;
    numRx, failed, seen, c := Await(xsk);
    ghost var i, rx, tx := xsk.rx.ideal, xsk.rx.Past(), xsk.tx.Past();
    slices, got, windows := Drain(xsk, numRx);
    ProgressSince(old(xsk.rx.ideal), i, xsk.rx.ideal, slices, got);
    t := Turn(seen, |xsk.rx.run|);
    xsk.rx.Here();
    KeptAtEnd(xsk.options, rx, tx, xsk.rx.Past(), xsk.tx.Past(), c, t);
  }

  /** The turns of the loop. */
  method Rounds(xsk: Socket, limit: nat) returns (
      printed: seq<(nat, nat)>, failed: bool, ghost turns: seq<Turn>, ghost got: seq<Slot>, ghost windows: seq<Window>)
    requires xsk.Valid()
    modifies xsk`polls, xsk`accesses, xsk.rx.Repr(), xsk.tx.Repr()
    ensures xsk.Valid() && old(xsk.rx.run) <= xsk.rx.run && old(xsk.tx.run) <= xsk.tx.run
    ensures old(xsk.polls) <= xsk.polls && |turns| <= limit && (!failed ==> |turns| == limit)
    ensures AllKept(xsk.options, xsk.rx.Past(), xsk.tx.Past(), xsk.polls, |old(xsk.polls)|, turns, old(xsk.tx.outstanding) == 0)
    ensures Progress(old(xsk.rx.ideal), xsk.rx.ideal, printed, got) && old(xsk.accesses) <= xsk.accesses
    ensures SafeReads(xsk.rx.Past(), xsk.tx.Past(), xsk.accesses, |old(xsk.accesses)|, got, windows, old(xsk.ListsExclude()))
    ensures old(xsk.tx.outstanding) == 0 ==> old(xsk.ListsExclude())
  {
    printed, turns, got, windows, failed := [], [], [], [], false;
    ghost var quiet, apart, n, m := xsk.tx.outstanding == 0, xsk.ListsExclude(), |xsk.polls|, |xsk.accesses|;
    if quiet {
      xsk.QuietExcludes();
    }
    xsk.rx.PendingExact();
    ProgressNone(xsk.rx.ideal);
    for turn := 0 to limit
      invariant xsk.Valid() && old(xsk.rx.run) <= xsk.rx.run && old(xsk.tx.run) <= xsk.tx.run
      invariant old(xsk.polls) <= xsk.polls && old(xsk.accesses) <= xsk.accesses && |turns| == turn && !failed
      invariant AllKept(xsk.options, xsk.rx.Past(), xsk.tx.Past(), xsk.polls, n, turns, quiet)
      invariant (quiet ==> xsk.tx.outstanding == 0) && (apart ==> xsk.ListsExclude())
      invariant Progress(old(xsk.rx.ideal), xsk.rx.ideal, printed, got)
      invariant SafeReads(xsk.rx.Past(), xsk.tx.Past(), xsk.accesses, m, got, windows, apart)
    {
      ghost var i, rx, tx := xsk.rx.ideal, xsk.rx.Past(), xsk.tx.Past();
      ghost var polls, accesses := xsk.polls, xsk.accesses;
      ghost var c, t, more, moreWindows;
      var slices;
      slices, failed, c, t, more, moreWindows := Round(xsk);
      KeptMore(xsk.options, rx, tx, xsk.rx.Past(), xsk.tx.Past(), polls, n, turns, quiet, c, t);
      ProgressMore(old(xsk.rx.ideal), i, xsk.rx.ideal, printed, got, slices, more);
      SafeReadsMore(rx, tx, xsk.rx.Past(), xsk.tx.Past(), accesses, xsk.accesses, m,
                    got, windows, apart, more, moreWindows, xsk.ListsExclude());
      turns, printed := turns + [t], printed + slices;
      got, windows := got + more, windows + moreWindows;
      if failed {
        return;
      }
    }
  }

  /**
   * The whole loop, for any number of turns (it ends early when Poll fails). Of
   * the states the runs went through: at every Poll, which frames are in flight
   * and whether the early return is taken; at the end of every turn, that all that
   * was published at its Poll has been read; and during every access to a frame,
   * that it is on no ring and not with the kernel. The frames printed are exactly
   * those received, each once and in order. A client that sends nothing, as here,
   * stays so and has exclusive lists.
   */
  method Loop(xsk: Socket, limit: nat) returns (
      printed: seq<(nat, nat)>, failed: bool, ghost turns: seq<Turn>, ghost got: seq<Slot>, ghost windows: seq<Window>)
    requires xsk.Valid()
    modifies xsk`polls, xsk`accesses, xsk.rx.Repr(), xsk.tx.Repr()
    ensures xsk.Valid() && old(xsk.rx.run) <= xsk.rx.run && old(xsk.tx.run) <= xsk.tx.run
    ensures old(xsk.polls) <= xsk.polls && |turns| <= limit && (!failed ==> |turns| == limit)
    ensures AllKept(xsk.options, xsk.rx.Past(), xsk.tx.Past(), xsk.polls, |old(xsk.polls)|, turns, old(xsk.tx.outstanding) == 0)
    ensures Progress(old(xsk.rx.ideal), xsk.rx.ideal, printed, got) && old(xsk.accesses) <= xsk.accesses
    ensures SafeReads(xsk.rx.Past(), xsk.tx.Past(), xsk.accesses, |old(xsk.accesses)|, got, windows, old(xsk.ListsExclude()))
    ensures old(xsk.tx.outstanding) == 0 ==> old(xsk.ListsExclude())
    ensures |printed| == |got| && |xsk.accesses| == |old(xsk.accesses)| + |got|
    ensures forall j :: 0 <= j < |got| ==> got[j].DescSlot? && printed[j] == (got[j].addr, got[j].addr + got[j].len)
    ensures forall j :: 0 <= j < |got| ==>
      got[j].DescSlot? && xsk.accesses[|old(xsk.accesses)| + j].d == Desc(got[j].addr, got[j].len)
  {
    ghost var apart, m := xsk.ListsExclude(), |xsk.accesses|;
    printed, failed, turns, got, windows := Rounds(xsk, limit);
    PrintedAre(old(xsk.rx.ideal), xsk.rx.ideal, printed, got, xsk.rx.Past(), xsk.tx.Past(), xsk.accesses, m, windows, apart);
  }
}
