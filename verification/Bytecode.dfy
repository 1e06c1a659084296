/**
 * The hand-assembled default XDP program, run by an interpreter for the part of
 * the BPF instruction set that it uses. The interpreter faults on a read of an
 * uninitialised or call-clobbered register and of an unwritten stack slot.
 */
module Bytecode {
  import opened Wrappers
  import opened Words
  import opened Packets

  const DWORD: nat := 0x1_0000_0000_0000_0000

  datatype Insn = Insn(op: nat, dst: nat, src: nat, off: int, imm: int)

  /** What a register may hold. A pointer into a map names the entry. */
  datatype Value =
    | Num(n: nat)
    | Context
    | Stack(at: int)
    | MapRef(fd: int)
    | Entry(key: nat)

  /** The packet's queue index and the two maps with their file descriptors. */
  datatype Env = Env(index: nat, queues: seq<nat>, sockets: map<nat, nat>, queuesFd: int, socketsFd: int)

  datatype State = State(pc: int, regs: seq<Option<Value>>, stack: map<int, nat>)

  datatype Outcome = Running(state: State) | Exit(value: nat) | Fault

  /** Take the queue index, store it as the key, point at it. */
  const Head: seq<Insn> :=
    [ Insn(97, 1, 1, 16, 0),
      Insn(99, 10, 1, -4, 0),
      Insn(191, 2, 10, 0, 0),
      Insn(7, 2, 0, 0, -4)]

  /** Look the key up; return 0 on a miss, 2 on a zero entry. */
  const Middle: seq<Insn> :=
    [ Insn(133, 0, 0, 0, 1),
      Insn(191, 1, 0, 0, 0),
      Insn(180, 0, 0, 0, 0),
      Insn(21, 1, 0, 8, 0),
      Insn(180, 0, 0, 0, 2),
      Insn(97, 1, 1, 0, 0),
      Insn(21, 1, 0, 5, 0)]

  /** Redirect. */
  const Tail: seq<Insn> :=
    [ Insn(97, 2, 10, -4, 0),
      Insn(180, 3, 0, 0, 0),
      Insn(133, 0, 0, 0, 51),
      Insn(149, 0, 0, 0, 0)]

  function MapLoad(fd: int): Insn {
    Insn(24, 1, 1, 0, fd)
  }

  /** The instruction list, map file descriptors filled in. */
  function Source(queuesFd: int, socketsFd: int): seq<Insn> {
    Head + ([MapLoad(queuesFd)] + (Middle + ([MapLoad(socketsFd)] + Tail)))
  }

  /** A 64-bit immediate load takes two slots; jumps count slots. */
  function Assemble(src: seq<Insn>): seq<Insn> {
    if src == [] then []
    else if src[0].op == 24 then [src[0], Insn(0, 0, 0, 0, 0)] + Assemble(src[1..])
    else [src[0]] + Assemble(src[1..])
  }

  function Get(s: State, r: nat): Option<Value> {
    if r < |s.regs| then s.regs[r] else None
  }

  /** Write a register and go to the next slot; r10 is read-only. */
  function Set(s: State, r: nat, v: Value): Outcome {
    if r < 10 && r < |s.regs| then Running(s.(pc := s.pc + 1, regs := s.regs[r := Some(v)])) else Fault
  }

  /** A 32-bit load. Offset 16 of the context is the receive queue index. */
  function Load(env: Env, s: State, base: Value, off: int): Option<nat> {
    match base
    case Context => if off == 16 then Some(env.index) else None
    case Stack(at) => if at + off in s.stack then Some(s.stack[at + off]) else None
    case Entry(key) => if off == 0 && key < |env.queues| then Some(env.queues[key]) else None
    case _ => None
  }

  /** A helper call: r1-r5 are lost, r0 holds the result. */
  function Return(s: State, v: Value): Outcome {
    if |s.regs| == 11 then
      Running(s.(pc := s.pc + 1, regs := [Some(v), None, None, None, None, None] + s.regs[6..]))
    else Fault
  }

  /** `map_lookup_elem` on the array map of queues: a pointer, or 0 out of range. */
  function CallLookup(env: Env, s: State): Outcome {
    match (Get(s, 1), Get(s, 2))
    case (Some(MapRef(fd)), Some(Stack(at))) =>
      if fd != env.queuesFd || at !in s.stack then Fault
      else if s.stack[at] < |env.queues| then Return(s, Entry(s.stack[at]))
      else Return(s, Num(0))
    case _ => Fault
  }

  /** `redirect_map` on the socket map. */
  function CallRedirect(env: Env, s: State): Outcome {
    match (Get(s, 1), Get(s, 2), Get(s, 3))
    case (Some(MapRef(fd)), Some(Num(key)), Some(Num(flags))) =>
      if fd != env.socketsFd || flags >= 4 then Fault
      else Return(s, Num(if key % WORD in env.sockets then XDP_REDIRECT else flags % 4))
    case _ => Fault
  }

  /** One instruction. */
  function Exec(env: Env, i: Insn, s: State): Outcome {
    match i.op
    case 97 => // 32-bit load
      (match Get(s, i.src)
       case None => Fault
       case Some(base) =>
         (match Load(env, s, base, i.off)
          case None => Fault
          case Some(n) => Set(s, i.dst, Num(n))))
    case 99 => // 32-bit store to the stack
      (match (Get(s, i.dst), Get(s, i.src))
       case (Some(Stack(at)), Some(Num(n))) =>
         if -512 <= at + i.off <= -4 && (at + i.off) % 4 == 0
         then Running(s.(pc := s.pc + 1, stack := s.stack[at + i.off := n % WORD])) else Fault
       case _ => Fault)
    case 191 => // 64-bit move
      (match Get(s, i.src)
       case None => Fault
       case Some(v) => Set(s, i.dst, v))
    case 7 => // 64-bit add of an immediate
      (match Get(s, i.dst)
       case Some(Num(n)) => Set(s, i.dst, Num((n + i.imm) % DWORD))
       case Some(Stack(at)) => Set(s, i.dst, Stack(at + i.imm))
       case _ => Fault)
    case 24 => // load of a map reference, two slots
      if i.src == 1 && i.dst < 10 && i.dst < |s.regs|
      then Running(s.(pc := s.pc + 2, regs := s.regs[i.dst := Some(MapRef(i.imm))])) else Fault
    case 133 =>
      if i.imm == 1 then CallLookup(env, s) else if i.imm == 51 then CallRedirect(env, s) else Fault
    case 180 => // 32-bit move of an immediate
      Set(s, i.dst, Num(i.imm % WORD))
    case 21 => // jump if equal to an immediate
      (match Get(s, i.dst)
       case Some(Num(n)) => Running(s.(pc := s.pc + 1 + (if n == i.imm % DWORD then i.off else 0)))
       case Some(Entry(_)) => if i.imm == 0 then Running(s.(pc := s.pc + 1)) else Fault
       case _ => Fault)
    case 149 =>
      (match Get(s, 0)
       case Some(Num(n)) => Exit(n)
       case _ => Fault)
    case _ => Fault
  }

  function Step(env: Env, prog: seq<Insn>, s: State): Outcome {
    if 0 <= s.pc < |prog| then Exec(env, prog[s.pc], s) else Fault
  }

  /** Run for at most `fuel` instructions. */
  function Run(env: Env, prog: seq<Insn>, s: State, fuel: nat): Outcome
    decreases fuel
  {
    if fuel == 0 then Running(s)
    else
      match Step(env, prog, s)
      case Running(t) => Run(env, prog, t, fuel - 1)
      case o => o
  }

  /** On entry r1 is the context and r10 the frame pointer; nothing else is set. */
  const Entry0 := State(0, [None, Some(Context), None, None, None, None, None, None, None, None, Some(Stack(0))], map[])

  /** What the program computes. */
  function DefaultVerdict(index: nat, queues: seq<nat>, sockets: map<nat, nat>): nat {
    if index >= |queues| then XDP_ABORTED
    else if queues[index] == 0 then XDP_PASS
    else RedirectMap(sockets, index)
  }

  predicate GoodEnv(env: Env) {
    && env.index < WORD
    && forall k :: 0 <= k < |env.queues| ==> env.queues[k] < WORD
  }

  /** The 19 slots of the program. */
  function Image(q: int, x: int): (r: seq<Insn>)
    ensures |r| == 19
  {
    Head + ([MapLoad(q), Insn(0, 0, 0, 0, 0)] + (Middle + ([MapLoad(x), Insn(0, 0, 0, 0, 0)] + Tail)))
  }

  function Slots(i: Insn): seq<Insn> {
    if i.op == 24 then [i, Insn(0, 0, 0, 0, 0)] else [i]
  }

  lemma AssembleFirst(i: Insn, rest: seq<Insn>)
    ensures Assemble([i] + rest) == Slots(i) + Assemble(rest)
  {
    assert ([i] + rest)[1..] == rest;
  }

  lemma Associates(a: seq<Insn>, b: seq<Insn>, c: seq<Insn>)
    ensures a + (b + c) == (a + b) + c
  {
  }

  lemma {:induction false} AssembleConcat(a: seq<Insn>, b: seq<Insn>)
    ensures Assemble(a + b) == Assemble(a) + Assemble(b)
  {
    if a == [] {
      assert a + b == b;
    } else {
      var i, rest := a[0], a[1..];
      AssembleConcat(rest, b);
      AssembleFirst(i, rest);
      AssembleFirst(i, rest + b);
      assert [i] + rest == a && [i] + (rest + b) == a + b;
      Associates(Slots(i), Assemble(rest), Assemble(b));
    }
  }

  lemma {:induction false} AssemblePlain(a: seq<Insn>)
    requires forall k :: 0 <= k < |a| ==> a[k].op != 24
    ensures Assemble(a) == a
  {
    if a != [] {
      AssemblePlain(a[1..]);
    }
  }

  /** Plain instructions, an immediate load, and the rest. */
  lemma AssembleLoad(a: seq<Insn>, i: Insn, rest: seq<Insn>)
    requires i.op == 24 && forall k :: 0 <= k < |a| ==> a[k].op != 24
    ensures Assemble(a + ([i] + rest)) == a + ([i, Insn(0, 0, 0, 0, 0)] + Assemble(rest))
  {
    AssembleConcat(a, [i] + rest);
    AssemblePlain(a);
    AssembleFirst(i, rest);
  }

  /** The two immediate loads get their second slot; everything else stays as listed. */
  lemma Assembled(q: int, x: int)
    ensures Assemble(Source(q, x)) == Image(q, x)
  {
    AssembleLoad(Head, MapLoad(q), Middle + ([MapLoad(x)] + Tail));
    AssembleLoad(Middle, MapLoad(x), Tail);
    AssemblePlain(Tail);
  }

  /** A state in which only r0-r3 and the frame pointer can be set. */
  function At(pc: int, r0: Option<Value>, r1: Option<Value>, r2: Option<Value>, r3: Option<Value>, stack: map<int, nat>): State {
    State(pc, [r0, r1, r2, r3, None, None, None, None, None, None, Some(Stack(0))], stack)
  }

  /** Exactly `n` steps lead from `s` to `t`, without fault or exit. */
  ghost predicate Leads(env: Env, prog: seq<Insn>, s: State, t: State, n: nat) {
    exists m: nat :: m == n && Run(env, prog, s, m) == Running(t)
  }

  lemma {:induction false} RunAdd(env: Env, prog: seq<Insn>, s: State, t: State, n: nat, fuel: nat)
    requires Leads(env, prog, s, t, n)
    ensures Run(env, prog, s, n + fuel) == Run(env, prog, t, fuel)
    decreases n
  {
    assert Run(env, prog, s, n) == Running(t);
    if n > 0 {
      assert Run(env, prog, Step(env, prog, s).state, n - 1) == Running(t);
      RunAdd(env, prog, Step(env, prog, s).state, t, n - 1, fuel);
    }
  }

  /** `step` is the program's step function. Only a mention of `Step` unfolds it. */
  ghost predicate Machine(env: Env, prog: seq<Insn>, step: State -> Outcome) {
    forall s {:trigger Step(env, prog, s)} :: step(s) == Step(env, prog, s)
  }

  /** One more step. */
  lemma Onward(env: Env, prog: seq<Insn>, step: State -> Outcome, s: State, t: State, n: nat, u: State)
    requires Machine(env, prog, step)
    requires Leads(env, prog, s, t, n) && step(t) == Running(u)
    ensures Leads(env, prog, s, u, n + 1)
  {
    RunAdd(env, prog, s, t, n, 1);
    assert Step(env, prog, t) == Running(u);
    assert Run(env, prog, t, 1) == Run(env, prog, u, 0);
    assert Run(env, prog, s, n + 1) == Running(u);
  }

  ghost predicate Loaded(env: Env, prog: seq<Insn>, step: State -> Outcome) {
    prog == Image(env.queuesFd, env.socketsFd) && Machine(env, prog, step)
  }

  // ---- What each instruction does here -------------------------------------

  function Key(env: Env): map<int, nat> {
    map[-4 := env.index]
  }

  function S1(env: Env): State { At(1, None, Some(Num(env.index)), None, None, map[]) }
  function S2(env: Env): State { At(2, None, Some(Num(env.index)), None, None, Key(env)) }
  function S3(env: Env): State { At(3, None, Some(Num(env.index)), Some(Stack(0)), None, Key(env)) }
  function S4(env: Env): State { At(4, None, Some(Num(env.index)), Some(Stack(-4)), None, Key(env)) }
  function S6(env: Env): State { At(6, None, Some(MapRef(env.queuesFd)), Some(Stack(-4)), None, Key(env)) }
  function S7(env: Env, found: Value): State { At(7, Some(found), None, None, None, Key(env)) }
  function S8(env: Env, found: Value): State { At(8, Some(found), Some(found), None, None, Key(env)) }
  function S9(env: Env, found: Value): State { At(9, Some(Num(0)), Some(found), None, None, Key(env)) }
  function S10(env: Env, found: Value): State {
    At(if found.Num? then 18 else 10, Some(Num(0)), Some(found), None, None, Key(env))
  }
  function S11(env: Env): State { At(11, Some(Num(2)), Some(Entry(env.index)), None, None, Key(env)) }
  function S12(env: Env, v: nat): State { At(12, Some(Num(2)), Some(Num(v)), None, None, Key(env)) }
  function S13(env: Env, v: nat): State {
    At(if v == 0 then 18 else 13, Some(Num(2)), Some(Num(v)), None, None, Key(env))
  }
  function S15(env: Env): State { At(15, Some(Num(2)), Some(MapRef(env.socketsFd)), None, None, Key(env)) }
  function S16(env: Env): State {
    At(16, Some(Num(2)), Some(MapRef(env.socketsFd)), Some(Num(env.index)), None, Key(env))
  }
  function S17(env: Env): State {
    At(17, Some(Num(2)), Some(MapRef(env.socketsFd)), Some(Num(env.index)), Some(Num(0)), Key(env))
  }
  function S18(env: Env): State {
    At(18, Some(Num(RedirectMap(env.sockets, env.index))), None, None, None, Key(env))
  }

  lemma StoresKey(env: Env, prog: seq<Insn>, step: State -> Outcome)
    requires Loaded(env, prog, step)
    requires GoodEnv(env)
    ensures step(Entry0) == Running(S1(env))
    ensures step(S1(env)) == Running(S2(env))
  {
    assert map[][-4 := env.index] == Key(env);
    assert Step(env, prog, Entry0) == Running(S1(env));
    assert Step(env, prog, S1(env)) == Running(S2(env));
  }

  lemma AddressesKey(env: Env, prog: seq<Insn>, step: State -> Outcome)
    requires Loaded(env, prog, step)
    ensures step(S2(env)) == Running(S3(env))
    ensures step(S3(env)) == Running(S4(env))
  {
    assert Step(env, prog, S2(env)) == Running(S3(env));
    assert Step(env, prog, S3(env)) == Running(S4(env));
  }

  lemma NamesQueues(env: Env, prog: seq<Insn>, step: State -> Outcome)
    requires Loaded(env, prog, step)
    ensures step(S4(env)) == Running(S6(env))
  {
    assert Step(env, prog, S4(env)) == Running(S6(env));
  }

  function Found(env: Env): Value {
    if env.index < |env.queues| then Entry(env.index) else Num(0)
  }

  lemma LooksUp(env: Env, prog: seq<Insn>, step: State -> Outcome)
    requires Loaded(env, prog, step)
    ensures step(S6(env)) == Running(S7(env, Found(env)))
    ensures step(S7(env, Found(env))) == Running(S8(env, Found(env)))
  {
    assert Step(env, prog, S6(env)) == Running(S7(env, Found(env)));
    assert Step(env, prog, S7(env, Found(env))) == Running(S8(env, Found(env)));
  }

  lemma TestsPointer(env: Env, prog: seq<Insn>, step: State -> Outcome)
    requires Loaded(env, prog, step)
    ensures step(S8(env, Found(env))) == Running(S9(env, Found(env)))
    ensures step(S9(env, Found(env))) == Running(S10(env, Found(env)))
  {
    assert Step(env, prog, S8(env, Found(env))) == Running(S9(env, Found(env)));
    assert Step(env, prog, S9(env, Found(env))) == Running(S10(env, Found(env)));
  }

  lemma ReadsEntry(env: Env, prog: seq<Insn>, step: State -> Outcome)
    requires Loaded(env, prog, step)
    requires env.index < |env.queues| && GoodEnv(env)
    ensures step(S10(env, Entry(env.index))) == Running(S11(env))
    ensures step(S11(env)) == Running(S12(env, env.queues[env.index]))
    ensures step(S12(env, env.queues[env.index])) == Running(S13(env, env.queues[env.index]))
  {
    assert Step(env, prog, S10(env, Entry(env.index))) == Running(S11(env));
    assert Step(env, prog, S11(env)) == Running(S12(env, env.queues[env.index]));
    assert Step(env, prog, S12(env, env.queues[env.index])) == Running(S13(env, env.queues[env.index]));
  }

  lemma PreparesRedirect(env: Env, prog: seq<Insn>, step: State -> Outcome, v: nat)
    requires Loaded(env, prog, step)
    requires v != 0
    ensures step(S13(env, v)) == Running(S15(env))
    ensures step(S15(env)) == Running(S16(env))
    ensures step(S16(env)) == Running(S17(env))
  {
    assert Step(env, prog, S13(env, v)) == Running(S15(env));
    assert Step(env, prog, S15(env)) == Running(S16(env));
    assert Step(env, prog, S16(env)) == Running(S17(env));
  }

  lemma Redirects(env: Env, prog: seq<Insn>, step: State -> Outcome)
    requires Loaded(env, prog, step)
    requires GoodEnv(env)
    ensures step(S17(env)) == Running(S18(env))
  {
    assert Step(env, prog, S17(env)) == Running(S18(env));
  }

  // ---- Whole runs ----------------------------------------------------------

  lemma ReachesTest(env: Env, prog: seq<Insn>, step: State -> Outcome)
    requires GoodEnv(env) && Loaded(env, prog, step)
    ensures Leads(env, prog, Entry0, S10(env, Found(env)), 9)
  {
    var f := Found(env);
    assert Run(env, prog, Entry0, 0) == Running(Entry0);
    StoresKey(env, prog, step);
    AddressesKey(env, prog, step);
    NamesQueues(env, prog, step);
    LooksUp(env, prog, step);
    TestsPointer(env, prog, step);
    Onward(env, prog, step, Entry0, Entry0, 0, S1(env));
    Onward(env, prog, step, Entry0, S1(env), 1, S2(env));
    Onward(env, prog, step, Entry0, S2(env), 2, S3(env));
    Onward(env, prog, step, Entry0, S3(env), 3, S4(env));
    Onward(env, prog, step, Entry0, S4(env), 4, S6(env));
    Onward(env, prog, step, Entry0, S6(env), 5, S7(env, f));
    Onward(env, prog, step, Entry0, S7(env, f), 6, S8(env, f));
    Onward(env, prog, step, Entry0, S8(env, f), 7, S9(env, f));
    Onward(env, prog, step, Entry0, S9(env, f), 8, S10(env, f));
  }

  lemma ReachesEntry(env: Env, prog: seq<Insn>, step: State -> Outcome)
    requires GoodEnv(env) && Loaded(env, prog, step)
    requires env.index < |env.queues|
    ensures Leads(env, prog, Entry0, S13(env, env.queues[env.index]), 12)
  {
    var v := env.queues[env.index];
    ReachesTest(env, prog, step);
    ReadsEntry(env, prog, step);
    Onward(env, prog, step, Entry0, S10(env, Entry(env.index)), 9, S11(env));
    Onward(env, prog, step, Entry0, S11(env), 10, S12(env, v));
    Onward(env, prog, step, Entry0, S12(env, v), 11, S13(env, v));
  }

  lemma ReachesRedirect(env: Env, prog: seq<Insn>, step: State -> Outcome)
    requires GoodEnv(env) && Loaded(env, prog, step)
    requires env.index < |env.queues| && env.queues[env.index] != 0
    ensures Leads(env, prog, Entry0, S18(env), 16)
  {
    var v := env.queues[env.index];
    ReachesEntry(env, prog, step);
    PreparesRedirect(env, prog, step, v);
    Redirects(env, prog, step);
    Onward(env, prog, step, Entry0, S13(env, v), 12, S15(env));
    Onward(env, prog, step, Entry0, S15(env), 13, S16(env));
    Onward(env, prog, step, Entry0, S16(env), 14, S17(env));
    Onward(env, prog, step, Entry0, S17(env), 15, S18(env));
  }

  /** A state at the exit instruction ends the run with r0. */
  lemma Exits(env: Env, prog: seq<Insn>, s: State, t: State, n: nat, v: nat, fuel: nat)
    requires Leads(env, prog, s, t, n) && n < fuel
    requires 0 <= t.pc < |prog| && prog[t.pc].op == 149 && Get(t, 0) == Some(Num(v))
    ensures Run(env, prog, s, fuel) == Exit(v)
  {
    RunAdd(env, prog, s, t, n, fuel - n);
  }

  /**
   * The default program refines `DefaultVerdict`: for every queue index and all
   * map contents it stops within 17 instructions, without a fault.
   */
  lemma ProgramRefines(env: Env, fuel: nat)
    requires GoodEnv(env) && fuel >= 17
    ensures Run(env, Assemble(Source(env.queuesFd, env.socketsFd)), Entry0, fuel)
         == Exit(DefaultVerdict(env.index, env.queues, env.sockets))
  {
    var prog := Image(env.queuesFd, env.socketsFd);
    Assembled(env.queuesFd, env.socketsFd);
    var step := s => Step(env, prog, s);
    var n, t, v := LastState(env, prog, step);
    Exits(env, prog, Entry0, t, n, v, fuel);
  }

  /** Exactly when the program returns 0 (abort), 2 (pass) and 4 (redirect). */
  lemma ProgramReturns(env: Env, fuel: nat)
    requires GoodEnv(env) && fuel >= 17
    ensures var out := Run(env, Assemble(Source(env.queuesFd, env.socketsFd)), Entry0, fuel);
      && (out == Exit(0)
          <==> env.index >= |env.queues| || (env.queues[env.index] != 0 && env.index !in env.sockets))
      && (out == Exit(2) <==> env.index < |env.queues| && env.queues[env.index] == 0)
      && (out == Exit(4) <==> env.index < |env.queues| && env.queues[env.index] != 0 && env.index in env.sockets)
  {
    ProgramRefines(env, fuel);
  }

  lemma LastState(env: Env, prog: seq<Insn>, step: State -> Outcome) returns (n: nat, t: State, v: nat)
    requires GoodEnv(env) && Loaded(env, prog, step)
    ensures n <= 16 && Leads(env, prog, Entry0, t, n)
    ensures t.pc == 18 && Get(t, 0) == Some(Num(v))
    ensures v == DefaultVerdict(env.index, env.queues, env.sockets)
  {
    if env.index >= |env.queues| {
      ReachesTest(env, prog, step);
      n, t, v := 9, S10(env, Found(env)), 0;
    } else if env.queues[env.index] == 0 {
      ReachesEntry(env, prog, step);
      n, t, v := 12, S13(env, env.queues[env.index]), 2;
    } else {
      ReachesRedirect(env, prog, step);
      n, t, v := 16, S18(env), RedirectMap(env.sockets, env.index);
    }
  }
}
