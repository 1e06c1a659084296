/**
 * The object that holds the two maps. Each of its methods is a run of map
 * operations, any of which may fail without effect.
 */
module Programs {
  import opened QueueMaps

  /** A signed number converted to 32 unsigned bits. */
  function Uint32(x: int): (r: nat)
    ensures r < 0x1_0000_0000 && (x - r) % 0x1_0000_0000 == 0
    ensures 0 <= x < 0x1_0000_0000 ==> r == x
  {
    x % 0x1_0000_0000
  }

  /** Exactly the numbers that agree modulo 2^32 name the same queue. */
  lemma SameQueue(x: int, y: int)
    ensures Uint32(x) == Uint32(y) <==> (x - y) % 0x1_0000_0000 == 0
  {
  }

  class Program {
    var queues: seq<nat>
    var sockets: map<nat, nat>
    const entries: nat
    ghost var moves: seq<Move>

    ghost function Now(): Maps
      reads this
    {
      Maps(queues, sockets)
    }

    /** The maps are where the recorded operations lead; no call is under way. */
    ghost predicate Valid()
      reads this
    {
      RunsTo(entries, moves, Flight(Now(), multiset{}, multiset{}))
    }

    constructor (maxQueueEntries: nat)
      ensures Valid() && entries == maxQueueEntries && moves == []
      ensures |queues| == maxQueueEntries && sockets == map[] && Serving(Now()) == map[]
      ensures forall q :: 0 <= q < |queues| ==> queues[q] == 0
    {
      queues, sockets, entries := seq(maxQueueEntries, _ => 0), map[], maxQueueEntries;
      moves := [];
    }

    /** One map operation, which may fail. `move.ok` is decided here. */
    method Try(move: Move, ghost f: Flight) returns (ok: bool, ghost goes: bool, ghost g: Flight)
      requires RunsTo(entries, moves, f) && f.maps == Now() && Alone(f, move)
      modifies this
      ensures moves == old(moves) + [move.(ok := goes)]
      ensures g == After(f, move.(ok := goes)) && RunsTo(entries, moves, g) && g.maps == Now()
      ensures ok == Succeeds(old(Now()), OpOf(move), goes) && Now() == Attempt(old(Now()), OpOf(move), goes)
    {
      var does: bool := *;
      ok := does && move.q < |queues|;
      goes := does;
      if ok {
        match move
        case BeginRegister(q, fd, _) => sockets := sockets[q := fd];
        case EndRegister(q, _) => queues := queues[q := 1];
        case BeginUnregister(q, _) => queues := queues[q := 0];
        case EndUnregister(q, _) => sockets := sockets - {q};
      }
      ghost var made := move.(ok := goes);
      assert Now() == Attempt(f.maps, OpOf(made), goes);
      g := After(f, made);
      AfterMaps(f, made);
      AloneKeepsApart(f, move, goes);
      RunsOn(entries, moves, f, made);
      moves := moves + [made];
    }

    /** Make `fd` the recipient of the queue's packets. */
    method Register(queueID: int, fd: int) returns (err: bool)
      requires Valid()
      modifies this
      ensures Valid() && |queues| == old(|queues|)
      ensures SafeAlong(entries, moves) && old(moves) <= moves
      ensures exists first, second ::
        (Now(), !err) == Registered(old(Now()), Uint32(queueID), Uint32(fd), first, second)
      ensures !err ==> Serving(Now()) == old(Serving(Now()))[Uint32(queueID) := Uint32(fd)]
      ensures var q, s := queueID % 0x1_0000_0000, fd % 0x1_0000_0000;
        && (!err ==> q < |queues| && queues == old(queues)[q := 1] && sockets == old(sockets)[q := s])
        && (err ==> queues == old(queues) && (sockets == old(sockets) || sockets == old(sockets)[q := s]))
      ensures 0 <= queueID < 0x1_0000_0000 && 0 <= fd < 0x1_0000_0000 && !err ==>
        && Serving(Now()) == old(Serving(Now()))[queueID := fd]
        && queueID < |queues| && queues == old(queues)[queueID := 1] && sockets == old(sockets)[queueID := fd]
    {
      var q, s := Uint32(queueID), Uint32(fd);
      ghost var f := Flight(Now(), multiset{}, multiset{});
      RunsSafely(entries, moves, f);
      ghost var first, second := false, false;
      var ok;
      ok, first, f := Try(BeginRegister(q, s, true), f);
      if ok {
        ok, second, f := Try(EndRegister(q, true), f);
      }
      err := !ok;
      RunsSafely(entries, moves, f);
      assert (Now(), !err) == Registered(old(Now()), q, s, first, second);
      RegisterServes(old(Now()), q, s, first, second);
    }

    /** Stop delivering the queue's packets. */
    method Unregister(queueID: int) returns (err: bool)
      requires Valid()
      modifies this
      ensures Valid() && |queues| == old(|queues|)
      ensures SafeAlong(entries, moves) && old(moves) <= moves
      ensures exists first, second ::
        (Now(), !err) == Unregistered(old(Now()), Uint32(queueID), first, second)
      ensures !err ==> Serving(Now()) == old(Serving(Now())) - {Uint32(queueID)}
      ensures var q := queueID % 0x1_0000_0000;
        && (!err ==> q < |queues| && queues == old(queues)[q := 0] && sockets == old(sockets) - {q})
        && (err ==> sockets == old(sockets) && (queues == old(queues) || (q < |queues| && queues == old(queues)[q := 0])))
      ensures 0 <= queueID < 0x1_0000_0000 && !err ==>
        && Serving(Now()) == old(Serving(Now())) - {queueID}
        && queueID < |queues| && queues == old(queues)[queueID := 0] && sockets == old(sockets) - {queueID}
    {
      var q := Uint32(queueID);
      ghost var f := Flight(Now(), multiset{}, multiset{});
      RunsSafely(entries, moves, f);
      ghost var first, second := false, false;
      var ok;
      ok, first, f := Try(BeginUnregister(q, true), f);
      if ok {
        ok, second, f := Try(EndUnregister(q, true), f);
      }
      err := !ok;
      RunsSafely(entries, moves, f);
      assert (Now(), !err) == Unregistered(old(Now()), q, first, second);
      UnregisterStops(old(Now()), q, first, second);
    }
  }
}
