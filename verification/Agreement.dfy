/**
 * The three programs side by side: the socket program, the event program and
 * the default bytecode program, on the same packet and queue.
 */
module Agreement {
  import opened Packets
  import opened Bytecode
  import opened Codec

  /** The socket program takes its redirect branch: its verdict hangs on the socket map. */
  ghost predicate TakesRedirect(p: Bytes, index: nat, queues: seq<nat>) {
    exists a, b :: SockVerdict(p, index, queues, a) != SockVerdict(p, index, queues, b)
  }

  lemma RedirectBranch(p: Bytes, index: nat, queues: seq<nat>)
    ensures TakesRedirect(p, index, queues)
       <==> index < |queues| && queues[index] != 0 && ClassOf(p) == Tcp(KNOCK_PORT)
  {
    if index < |queues| && queues[index] != 0 && ClassOf(p) == Tcp(KNOCK_PORT) {
      var a, b: map<nat, nat> := map[index := 1], map[];
      assert SockVerdict(p, index, queues, a) == XDP_REDIRECT;
      assert SockVerdict(p, index, queues, b) == XDP_ABORTED;
    }
  }

  /** Where the socket program redirects, running the default program ends in the same verdict. */
  lemma DefaultAgrees(p: Bytes, env: Env, fuel: nat)
    requires GoodEnv(env) && fuel >= 17 && TakesRedirect(p, env.index, env.queues)
    ensures Run(env, Assemble(Source(env.queuesFd, env.socketsFd)), Entry0, fuel)
         == Exit(SockVerdict(p, env.index, env.queues, env.sockets))
  {
    RedirectBranch(p, env.index, env.queues);
    ProgramRefines(env, fuel);
  }

  /**
   * On an enabled queue, the redirected packets are exactly those for which the
   * event program tries to output a record; it is written if the output succeeds.
   */
  lemma EmitsIffRedirects(p: Bytes, index: nat, queues: seq<nat>, outputOk: bool)
    requires index < |queues| && queues[index] != 0
    ensures EventVerdict(p, outputOk).tried <==> TakesRedirect(p, index, queues)
    ensures EventVerdict(p, outputOk).written <==> TakesRedirect(p, index, queues) && outputOk
    ensures EventVerdict(p, outputOk).tried
       <==> exists x :: Good(x) && x.tcp.dstPort == 7777 && Encode(x) == p
  {
    RedirectBranch(p, index, queues);
    TcpIffEncoded(p, KNOCK_PORT);
  }

  /** Neither program can make sense of the packet. */
  predicate Malformed(p: Bytes) {
    ClassOf(p).TooShort? || ClassOf(p).BadTcp?
  }

  /**
   * Both C programs drop on the same parse failures: on a queue in range the
   * socket program returns ABORTED exactly when the event program does without
   * having tried to emit, or when it redirects to a missing socket.
   */
  lemma SameAborts(p: Bytes, index: nat, queues: seq<nat>, sockets: map<nat, nat>, outputOk: bool)
    requires index < |queues|
    ensures SockVerdict(p, index, queues, sockets) == XDP_ABORTED
       <==> || (EventVerdict(p, outputOk).action == XDP_ABORTED && !EventVerdict(p, outputOk).tried)
            || (TakesRedirect(p, index, queues) && index !in sockets)
    ensures EventVerdict(p, outputOk).action == XDP_ABORTED && !EventVerdict(p, outputOk).tried <==> Malformed(p)
  {
    RedirectBranch(p, index, queues);
  }

  /**
   * Exactly when the default program and the socket program give the same
   * verdict. They differ on every queue out of range.
   */
  lemma AgreeExactly(p: Bytes, env: Env, fuel: nat)
    requires GoodEnv(env) && fuel >= 17
    ensures Run(env, Assemble(Source(env.queuesFd, env.socketsFd)), Entry0, fuel)
         == Exit(SockVerdict(p, env.index, env.queues, env.sockets))
       <==> && env.index < |env.queues|
            && if env.queues[env.index] == 0 then !Malformed(p)
               else ClassOf(p) == Tcp(KNOCK_PORT) || (Malformed(p) && env.index !in env.sockets)
  {
    ProgramRefines(env, fuel);
  }
}
