/**
 * The two maps shared with the XDP programs, and the order in which `Register`
 * and `Unregister` update them. Every map operation may fail without effect,
 * packets run between any two of them, and calls may overlap.
 */
module QueueMaps {
  import opened Packets
  import opened Bytecode
  import opened Codec

  /** `qidconf_map`, an array of flags, and `xsks_map`, of the same size. */
  datatype Maps = Maps(queues: seq<nat>, sockets: map<nat, nat>)

  datatype Op = PutSocket(q: nat, fd: nat) | PutQueue(q: nat) | DelQueue(q: nat) | DelSocket(q: nat)

  predicate Enabled(m: Maps, q: nat) {
    q < |m.queues| && m.queues[q] != 0
  }

  /** An enabled queue has a socket. */
  ghost predicate Safe(m: Maps) {
    forall q: nat :: Enabled(m, q) ==> q in m.sockets
  }

  function Apply(m: Maps, op: Op): Maps {
    match op
    case PutSocket(q, fd) => if q < |m.queues| then m.(sockets := m.sockets[q := fd]) else m
    case PutQueue(q) => if q < |m.queues| then m.(queues := m.queues[q := 1]) else m
    case DelQueue(q) => if q < |m.queues| then m.(queues := m.queues[q := 0]) else m
    case DelSocket(q) => m.(sockets := m.sockets - {q})
  }

  /** Only a key in range can succeed; `ok` says whether it then does. */
  predicate Succeeds(m: Maps, op: Op, ok: bool) {
    ok && op.q < |m.queues|
  }

  function Attempt(m: Maps, op: Op, ok: bool): Maps {
    if Succeeds(m, op, ok) then Apply(m, op) else m
  }

  /** What must hold for an operation to be harmless. */
  predicate Harmless(m: Maps, op: Op) {
    match op
    case PutQueue(q) => q < |m.queues| ==> q in m.sockets
    case DelSocket(q) => !Enabled(m, q)
    case _ => true
  }

  /** Exactly the harmless operations keep the maps safe. */
  lemma SafeIffHarmless(m: Maps, op: Op)
    requires Safe(m)
    ensures Safe(Apply(m, op)) <==> Harmless(m, op)
  {
    var n := Apply(m, op);
    match op
    case PutSocket(q, fd) =>
      assert forall r: nat :: Enabled(n, r) ==> Enabled(m, r);
    case PutQueue(q) =>
      assert q < |m.queues| ==> Enabled(n, q);
      assert forall r: nat :: r != q && Enabled(n, r) ==> Enabled(m, r);
    case DelQueue(q) =>
      assert forall r: nat :: Enabled(n, r) ==> Enabled(m, r);
    case DelSocket(q) =>
      assert forall r: nat :: Enabled(n, r) <==> Enabled(m, r);
  }

  /** Which socket each enabled queue delivers to. */
  function Serving(m: Maps): map<nat, nat> {
    map q | q in m.sockets && Enabled(m, q) :: m.sockets[q]
  }

  // ---- Single calls --------------------------------------------------------

  /** `PutSocket` then `PutQueue`, stopping at an error. */
  function Registered(m: Maps, q: nat, fd: nat, first: bool, second: bool): (Maps, bool) {
    var n := Attempt(m, PutSocket(q, fd), first);
    if !Succeeds(m, PutSocket(q, fd), first) then (n, false)
    else (Attempt(n, PutQueue(q), second), Succeeds(n, PutQueue(q), second))
  }

  /** `DelQueue` then `DelSocket`, stopping at an error. */
  function Unregistered(m: Maps, q: nat, first: bool, second: bool): (Maps, bool) {
    var n := Attempt(m, DelQueue(q), first);
    if !Succeeds(m, DelQueue(q), first) then (n, false)
    else (Attempt(n, DelSocket(q), second), Succeeds(n, DelSocket(q), second))
  }

  /**
   * A successful `Register` makes the queue deliver to the socket and touches no
   * other queue. A failed one changes the deliveries exactly when the queue was
   * already enabled and the socket was replaced by a different one.
   */
  lemma RegisterServes(m: Maps, q: nat, fd: nat, first: bool, second: bool)
    requires Safe(m)
    ensures var (n, ok) := Registered(m, q, fd, first, second);
      && (ok ==> Serving(n) == Serving(m)[q := fd])
      && (!ok ==> (Serving(n) == Serving(m) <==> !(first && Enabled(m, q) && m.sockets[q] != fd)))
      && (!ok && Serving(n) != Serving(m) ==> Serving(n) == Serving(m)[q := fd])
  {
    var (n, ok) := Registered(m, q, fd, first, second);
    if first && q < |m.queues| && !second {
      assert forall r: nat :: Enabled(n, r) <==> Enabled(m, r);
      if Enabled(m, q) {
        assert Serving(n)[q] == fd && Serving(m)[q] == m.sockets[q];
        assert Serving(n) == Serving(m)[q := fd];
      } else {
        assert Serving(n) == Serving(m);
      }
    }
  }

  /**
   * A successful `Unregister` stops deliveries on the queue and only there. A
   * failed one does so too exactly when its first step succeeded.
   */
  lemma UnregisterStops(m: Maps, q: nat, first: bool, second: bool)
    requires Safe(m)
    ensures var (n, ok) := Unregistered(m, q, first, second);
      && Serving(n) == (if first then Serving(m) - {q} else Serving(m))
      && (ok ==> first && n.sockets == m.sockets - {q})
  {
  }

  /** `Unregister` undoes `Register` on a queue that was not in use. */
  lemma UnregisterUndoes(m: Maps, q: nat, fd: nat)
    requires q < |m.queues| && m.queues[q] == 0 && q !in m.sockets
    ensures var (n, ok) := Registered(m, q, fd, true, true);
      ok && Unregistered(n, q, true, true) == (m, true)
  {
    var n := Registered(m, q, fd, true, true).0;
    assert n.queues[q := 0] == m.queues;
    assert n.sockets - {q} == m.sockets;
  }

  // ---- Overlapping calls ---------------------------------------------------

  /** Calls between their two operations: on which queue, and how many. */
  datatype Flight = Flight(maps: Maps, adding: multiset<nat>, removing: multiset<nat>)

  datatype Move =
    | BeginRegister(q: nat, fd: nat, ok: bool)
    | EndRegister(q: nat, ok: bool)
    | BeginUnregister(q: nat, ok: bool)
    | EndUnregister(q: nat, ok: bool)

  function OpOf(move: Move): Op {
    match move
    case BeginRegister(q, fd, _) => PutSocket(q, fd)
    case EndRegister(q, _) => PutQueue(q)
    case BeginUnregister(q, _) => DelQueue(q)
    case EndUnregister(q, _) => DelSocket(q)
  }

  /** A call ends only if begun; it may begin at any time. */
  predicate Can(f: Flight, move: Move) {
    match move
    case EndRegister(q, _) => q in f.adding
    case EndUnregister(q, _) => q in f.removing
    case _ => true
  }

  /** No queue is being registered and unregistered at once. */
  predicate Apart(f: Flight) {
    forall q :: q in f.adding ==> q !in f.removing
  }

  function After(f: Flight, move: Move): Flight {
    var m := Attempt(f.maps, OpOf(move), move.ok);
    var goes := Succeeds(f.maps, OpOf(move), move.ok);
    match move
    case BeginRegister(q, _, _) => Flight(m, if goes then f.adding + multiset{q} else f.adding, f.removing)
    case EndRegister(q, _) => Flight(m, f.adding - multiset{q}, f.removing)
    case BeginUnregister(q, _) => Flight(m, f.adding, if goes then f.removing + multiset{q} else f.removing)
    case EndUnregister(q, _) => Flight(m, f.adding, f.removing - multiset{q})
  }

  lemma AfterMaps(f: Flight, move: Move)
    ensures After(f, move).maps == Attempt(f.maps, OpOf(move), move.ok)
  {
  }

  /** The flight after the first `n` moves. */
  function EndAt(f: Flight, moves: seq<Move>, n: nat): Flight
    requires n <= |moves|
  {
    if n == 0 then f else After(EndAt(f, moves, n - 1), moves[n - 1])
  }

  function End(f: Flight, moves: seq<Move>): Flight {
    EndAt(f, moves, |moves|)
  }

  predicate CanAt(f: Flight, moves: seq<Move>, k: nat)
    requires k < |moves|
  {
    Can(EndAt(f, moves, k), moves[k])
  }

  predicate ApartAt(f: Flight, moves: seq<Move>, n: nat)
    requires n <= |moves|
  {
    Apart(EndAt(f, moves, n))
  }

  /** Any interleaving of calls. */
  predicate Possible(f: Flight, moves: seq<Move>) {
    forall k :: 0 <= k < |moves| ==> CanAt(f, moves, k)
  }

  /** In the first `n` moves opposite calls on one queue are never under way together. */
  predicate ApartUpTo(f: Flight, moves: seq<Move>, n: nat)
    requires n <= |moves|
  {
    forall k :: 0 < k <= n ==> ApartAt(f, moves, k)
  }

  /** An interleaving in which opposite calls on one queue are never under way together. */
  predicate Legal(f: Flight, moves: seq<Move>) {
    Possible(f, moves) && ApartUpTo(f, moves, |moves|)
  }

  lemma {:induction false} EndPrefix(f: Flight, moves: seq<Move>, more: seq<Move>, n: nat)
    requires n <= |moves| && moves <= more
    ensures EndAt(f, more, n) == EndAt(f, moves, n)
  {
    if n > 0 {
      EndPrefix(f, moves, more, n - 1);
    }
  }

  lemma AtPrefix(f: Flight, moves: seq<Move>, move: Move, k: nat)
    requires k <= |moves|
    ensures EndAt(f, moves + [move], k) == EndAt(f, moves, k)
    ensures ApartAt(f, moves + [move], k) == ApartAt(f, moves, k)
    ensures k < |moves| ==> CanAt(f, moves + [move], k) == CanAt(f, moves, k)
  {
    EndPrefix(f, moves, moves + [move], k);
  }

  lemma Appends(f: Flight, moves: seq<Move>, move: Move)
    requires Can(End(f, moves), move)
    ensures End(f, moves + [move]) == After(End(f, moves), move)
    ensures Possible(f, moves) ==> Possible(f, moves + [move])
  {
    AtPrefix(f, moves, move, |moves|);
    if Possible(f, moves) {
      forall k | 0 <= k < |moves + [move]| ensures CanAt(f, moves + [move], k) {
        AtPrefix(f, moves, move, k);
        assert k < |moves| ==> CanAt(f, moves, k);
      }
    }
  }

  lemma AppendsApart(f: Flight, moves: seq<Move>, move: Move)
    requires Can(End(f, moves), move) && Legal(f, moves) && Apart(After(End(f, moves), move))
    ensures Legal(f, moves + [move])
  {
    Appends(f, moves, move);
    forall k | 0 < k <= |moves + [move]| ensures ApartAt(f, moves + [move], k) {
      if k <= |moves| {
        AtPrefix(f, moves, move, k);
        assert ApartAt(f, moves, k);
      }
    }
  }

  // ---- Safety of all interleavings without opposite calls ------------------

  /** What calls under way have established. */
  ghost predicate Midway(f: Flight) {
    && Safe(f.maps)
    && (forall q :: q in f.adding ==> q < |f.maps.queues| && q in f.maps.sockets)
    && (forall q :: q in f.removing ==> !Enabled(f.maps, q))
  }

  ghost predicate Ready(f: Flight) {
    Midway(f) && Apart(f)
  }

  lemma BeginKeepsMidway(f: Flight, move: Move)
    requires Midway(f) && (move.BeginRegister? || move.BeginUnregister?)
    ensures Midway(After(f, move))
  {
    if Succeeds(f.maps, OpOf(move), move.ok) {
      SafeIffHarmless(f.maps, OpOf(move));
    }
  }

  predicate IsEnd(move: Move) {
    move.EndRegister? || move.EndUnregister?
  }

  lemma EndKeepsReady(f: Flight, move: Move)
    requires Ready(f) && Can(f, move) && IsEnd(move)
    ensures Ready(After(f, move))
  {
    if Succeeds(f.maps, OpOf(move), move.ok) {
      SafeIffHarmless(f.maps, OpOf(move));
    }
  }

  /** Every map operation keeps what calls under way rely on, until opposite calls meet. */
  lemma MoveKeepsMidway(f: Flight, move: Move)
    requires Ready(f) && Can(f, move)
    ensures Midway(After(f, move))
  {
    if move.BeginRegister? || move.BeginUnregister? {
      BeginKeepsMidway(f, move);
    } else {
      EndKeepsReady(f, move);
    }
  }

  lemma {:induction false} RunKeepsReady(f: Flight, moves: seq<Move>, n: nat)
    requires Ready(f) && Possible(f, moves) && n <= |moves| && ApartUpTo(f, moves, n)
    ensures Ready(EndAt(f, moves, n))
  {
    if n > 0 {
      RunKeepsReady(f, moves, n - 1);
      assert CanAt(f, moves, n - 1) && ApartAt(f, moves, n);
      MoveKeepsMidway(EndAt(f, moves, n - 1), moves[n - 1]);
    }
  }

  /**
   * In every run of calls, overlapping or not, whatever fails in them, every
   * state between two map operations is safe, provided no queue is ever being
   * registered and unregistered at once.
   */
  lemma AlwaysSafe(f: Flight, moves: seq<Move>, k: nat)
    requires Ready(f) && Legal(f, moves) && k <= |moves|
    ensures Safe(EndAt(f, moves, k).maps)
  {
    RunKeepsReady(f, moves, k);
  }

  /** Empty maps of the given size, no call under way. */
  function Fresh(entries: nat): Flight {
    Flight(Maps(seq(entries, _ => 0), map[]), multiset{}, multiset{})
  }

  /** A run from empty maps. Only a mention of `Legal` unfolds it. */
  ghost predicate RunsTo(entries: nat, moves: seq<Move>, f: Flight) {
    forall m {:trigger Legal(Fresh(entries), m)} ::
      m == moves ==> Legal(Fresh(entries), m) && End(Fresh(entries), m) == f
  }

  /** The move can be made, and keeps opposite calls apart whatever comes of it. */
  predicate Alone(f: Flight, move: Move) {
    Can(f, move) && Apart(f) && if move.BeginRegister? then move.q !in f.removing else move.BeginUnregister? ==> move.q !in f.adding
  }

  lemma AloneKeepsApart(f: Flight, move: Move, ok: bool)
    requires Alone(f, move)
    ensures Can(f, move.(ok := ok)) && Apart(After(f, move.(ok := ok)))
  {
  }

  lemma RunsOn(entries: nat, moves: seq<Move>, f: Flight, move: Move)
    requires RunsTo(entries, moves, f) && Can(f, move) && Apart(After(f, move))
    ensures RunsTo(entries, moves + [move], After(f, move))
  {
    assert Legal(Fresh(entries), moves);
    Appends(Fresh(entries), moves, move);
    AppendsApart(Fresh(entries), moves, move);
  }

  /** Every state between two operations is safe. */
  ghost predicate SafeAlong(entries: nat, moves: seq<Move>) {
    forall k :: 0 <= k <= |moves| ==> Safe(EndAt(Fresh(entries), moves, k).maps)
  }

  /** What a run reaches is safe, and so is every state on the way. */
  lemma RunsSafely(entries: nat, moves: seq<Move>, f: Flight)
    requires RunsTo(entries, moves, f)
    ensures Safe(f.maps) && SafeAlong(entries, moves)
  {
    assert Ready(Fresh(entries)) && Legal(Fresh(entries), moves);
    forall k | 0 <= k <= |moves| ensures Safe(EndAt(Fresh(entries), moves, k).maps) {
      AlwaysSafe(Fresh(entries), moves, k);
    }
  }

  // ---- The proviso is exact ------------------------------------------------

  predicate Finishing(moves: seq<Move>) {
    forall k :: 0 <= k < |moves| ==> IsEnd(moves[k])
  }

  /** Fewer calls are under way in `g` than in `f`. */
  predicate Shrunk(g: Flight, f: Flight) {
    && (forall q :: q in g.adding ==> q in f.adding)
    && (forall q :: q in g.removing ==> q in f.removing)
  }

  lemma EndShrinks(f: Flight, g: Flight, move: Move)
    requires Shrunk(g, f) && IsEnd(move)
    ensures Shrunk(After(g, move), f)
  {
  }

  lemma {:induction false} FinishingShrinks(f: Flight, moves: seq<Move>, n: nat)
    requires Finishing(moves) && n <= |moves|
    ensures Shrunk(EndAt(f, moves, n), f)
  {
    if n > 0 {
      FinishingShrinks(f, moves, n - 1);
      EndShrinks(f, EndAt(f, moves, n - 1), moves[n - 1]);
    }
  }

  lemma FinishingReady(f: Flight, moves: seq<Move>)
    requires Ready(f) && Finishing(moves) && Possible(f, moves)
    ensures Ready(End(f, moves))
  {
    forall k | 0 < k <= |moves| ensures ApartAt(f, moves, k) {
      FinishingShrinks(f, moves, k);
    }
    RunKeepsReady(f, moves, |moves|);
  }

  /** Two moves, one after the other. */
  lemma TwoMoves(f: Flight, a: Move, b: Move)
    requires Can(f, a) && Can(After(f, a), b)
    ensures Possible(f, [a, b]) && End(f, [a, b]) == After(After(f, a), b)
  {
    Appends(f, [], a);
    assert [] + [a] == [a];
    Appends(f, [a], b);
    assert [a] + [b] == [a, b];
  }

  lemma OverlapBreaks(f: Flight, q: nat)
    requires Midway(f) && q in f.adding && q in f.removing
    ensures var moves := [EndUnregister(q, true), EndRegister(q, true)];
      Finishing(moves) && Possible(f, moves) && !Safe(End(f, moves).maps)
  {
    var a, b := EndUnregister(q, true), EndRegister(q, true);
    TwoMoves(f, a, b);
    var g := After(After(f, a), b);
    assert Enabled(g.maps, q) && q !in g.maps.sockets;
  }

  /** Every way of ending the calls under way is safe. */
  ghost predicate EndsSafely(f: Flight) {
    forall tail :: Finishing(tail) && Possible(f, tail) ==> Safe(End(f, tail).maps)
  }

  /**
   * The calls under way end safely in every order exactly when no queue is being
   * registered and unregistered at once.
   */
  lemma SafeIffNoOverlap(f: Flight)
    requires Midway(f)
    ensures EndsSafely(f) <==> Apart(f)
  {
    forall tail | Ready(f) && Finishing(tail) && Possible(f, tail) ensures Safe(End(f, tail).maps) {
      FinishingReady(f, tail);
    }
    forall q | q in f.adding && q in f.removing
      ensures exists tail :: Finishing(tail) && Possible(f, tail) && !Safe(End(f, tail).maps)
    {
      OverlapBreaks(f, q);
    }
  }

  /** Where a run first lets opposite calls meet. */
  lemma {:induction false} FirstOverlap(f: Flight, moves: seq<Move>, n: nat) returns (k: nat)
    requires Ready(f) && Possible(f, moves) && n <= |moves| && !ApartUpTo(f, moves, n)
    ensures k <= n && Midway(EndAt(f, moves, k)) && !Apart(EndAt(f, moves, k))
    decreases n
  {
    if ApartUpTo(f, moves, n - 1) {
      k := n;
      assert !ApartAt(f, moves, n) && CanAt(f, moves, n - 1);
      RunKeepsReady(f, moves, n - 1);
      MoveKeepsMidway(EndAt(f, moves, n - 1), moves[n - 1]);
    } else {
      k := FirstOverlap(f, moves, n - 1);
    }
  }

  /**
   * Over whole runs: an interleaving keeps opposite calls apart throughout exactly
   * when, at each of its points, every way of ending the calls under way is safe.
   */
  lemma LegalIffEndsSafely(f: Flight, moves: seq<Move>)
    requires Ready(f) && Possible(f, moves)
    ensures Legal(f, moves) <==> forall k :: 0 <= k <= |moves| ==> EndsSafely(EndAt(f, moves, k))
  {
    if Legal(f, moves) {
      forall k | 0 <= k <= |moves| ensures EndsSafely(EndAt(f, moves, k)) {
        RunKeepsReady(f, moves, k);
        SafeIffNoOverlap(EndAt(f, moves, k));
      }
    } else {
      var k := FirstOverlap(f, moves, |moves|);
      SafeIffNoOverlap(EndAt(f, moves, k));
    }
  }

  /** Register once; then an Unregister and a second Register that overlap. */
  const OverlapRun: seq<Move> :=
    [BeginRegister(0, 3, true), EndRegister(0, true), BeginUnregister(0, true), BeginRegister(0, 4, true)]

  lemma FollowFour(f0: Flight, f1: Flight, f2: Flight, f3: Flight, m1: Move, m2: Move, m3: Move, m4: Move)
    requires Can(f0, m1) && After(f0, m1) == f1 && Can(f1, m2) && After(f1, m2) == f2
    requires Can(f2, m3) && After(f2, m3) == f3 && Can(f3, m4)
    ensures Possible(f0, [m1, m2, m3, m4]) && End(f0, [m1, m2, m3, m4]) == After(f3, m4)
  {
    TwoMoves(f0, m1, m2);
    Appends(f0, [m1, m2], m3);
    assert [m1, m2] + [m3] == [m1, m2, m3];
    Appends(f0, [m1, m2, m3], m4);
    assert [m1, m2, m3] + [m4] == [m1, m2, m3, m4];
  }

  /**
   * From empty maps that run lets opposite calls meet, and when both then end, in
   * this order, the queue is enabled without a socket.
   */
  lemma OverlapReachable(entries: nat)
    requires entries > 0
    ensures var f, tail := End(Fresh(entries), OverlapRun), [EndUnregister(0, true), EndRegister(0, true)];
      && Possible(Fresh(entries), OverlapRun) && Midway(f) && !Apart(f)
      && Possible(f, tail) && !Safe(End(f, tail).maps)
  {
    var off, one := seq(entries, _ => 0), multiset{0};
    var on := off[0 := 1];
    assert on[0 := 0] == off && one - one == multiset{};
    var f1 := Flight(Maps(off, map[0 := 3]), one, multiset{});
    var f2 := Flight(Maps(on, map[0 := 3]), multiset{}, multiset{});
    var f3 := Flight(Maps(off, map[0 := 3]), multiset{}, one);
    assert map[][0 := 3] == map[0 := 3];
    FollowFour(Fresh(entries), f1, f2, f3, OverlapRun[0], OverlapRun[1], OverlapRun[2], OverlapRun[3]);
    assert OverlapRun == [OverlapRun[0], OverlapRun[1], OverlapRun[2], OverlapRun[3]];
    OverlapBreaks(After(f3, OverlapRun[3]), 0);
  }

  // ---- What a packet sees --------------------------------------------------

  function Zeros(n: nat): Bytes {
    seq(n, _ => 0)
  }

  /** A plain packet to the knocking port. */
  function Knock(): (x: Packet)
    ensures Good(x) && x.tcp.dstPort == 7777
  {
    Packet(Headers(Zeros(12), [], V6(Zeros(6), Zeros(33))), Segment(Zeros(2), 7777, Zeros(8), 0, Zeros(7), []), [])
  }

  /** The maps are safe exactly when no packet to the knocking port is ever dropped. */
  lemma SafeIffNoKnockDropped(m: Maps)
    ensures Safe(m)
       <==> forall p: Bytes, index: nat :: ClassOf(p) == Tcp(7777) ==>
              SockVerdict(p, index, m.queues, m.sockets) != XDP_ABORTED
  {
    var p := Encode(Knock());
    EncodedIsTcp(Knock());
    assert ClassOf(p) == Tcp(7777);
    if !Safe(m) {
      var q: nat :| Enabled(m, q) && q !in m.sockets;
      assert SockVerdict(p, q, m.queues, m.sockets) == XDP_ABORTED;
    }
    forall p: Bytes, index: nat | Safe(m) && ClassOf(p) == Tcp(7777)
      ensures SockVerdict(p, index, m.queues, m.sockets) != XDP_ABORTED
    {
      assert Enabled(m, index) ==> index in m.sockets;
    }
  }

  /** The maps are safe exactly when the default program never drops on a queue in range. */
  lemma SafeIffDefaultNeverDrops(m: Maps)
    ensures Safe(m)
       <==> forall index: nat :: index < |m.queues| ==> DefaultVerdict(index, m.queues, m.sockets) != XDP_ABORTED
  {
    if !Safe(m) {
      var q: nat :| Enabled(m, q) && q !in m.sockets;
      assert DefaultVerdict(q, m.queues, m.sockets) == XDP_ABORTED;
    }
    forall index: nat | Safe(m) && index < |m.queues|
      ensures DefaultVerdict(index, m.queues, m.sockets) != XDP_ABORTED
    {
      assert Enabled(m, index) ==> index in m.sockets;
    }
  }

  /**
   * Whenever a packet arrives during a run, either program drops it only for the
   * packet's own sake: a malformed packet, or a queue out of range.
   */
  lemma NeverDroppedForSocket(f: Flight, moves: seq<Move>, k: nat, p: Bytes, index: nat)
    requires Ready(f) && Legal(f, moves) && k <= |moves|
    ensures var m := EndAt(f, moves, k).maps;
      && (SockVerdict(p, index, m.queues, m.sockets) == XDP_ABORTED
          <==> index < |m.queues| && (ClassOf(p).TooShort? || ClassOf(p).BadTcp?))
      && (DefaultVerdict(index, m.queues, m.sockets) == XDP_ABORTED <==> index >= |m.queues|)
  {
    AlwaysSafe(f, moves, k);
    var m := EndAt(f, moves, k).maps;
    assert Enabled(m, index) ==> index in m.sockets;
  }
}
