/**
 * The states that a recorded run went through, by position. What is said of a
 * position stays true however the run goes on.
 */
module Traces {
  import opened Wrappers
  import opened Flows
  import opened Safety
  import opened Exclusion

  /** A flow's configuration, its initial state and the steps taken so far. */
  datatype Trace = Trace(cfg: Config, start: Flow, run: seq<Label>)

  /** The run is one of a freshly created socket. */
  ghost predicate Runs(t: Trace) {
    exists f, i :: Reaches(t.cfg, t.start, t.run, f, i)
  }

  /** The first `p` steps lead to `s`. Only a mention of `Exec` unfolds it. */
  ghost predicate IsState(t: Trace, p: nat, s: (Flow, Ideal))
    requires p <= |t.run|
  {
    forall r {:trigger Exec(t.cfg, t.start, r)} :: r == t.run[..p] ==> Exec(t.cfg, t.start, r) == Some(s)
  }

  /** The state after the first `p` steps. */
  ghost function StateAt(t: Trace, p: nat): (Flow, Ideal) {
    if p <= |t.run| && exists s :: IsState(t, p, s) then
      var s :| IsState(t, p, s);
      s
    else (t.start, Empty)
  }

  lemma StateIs(t: Trace, p: nat, s: (Flow, Ideal))
    requires p <= |t.run| && Exec(t.cfg, t.start, t.run[..p]) == Some(s)
    ensures StateAt(t, p) == s
  {
    assert IsState(t, p, s);
  }

  ghost function FlowAt(t: Trace, p: nat): Flow {
    StateAt(t, p).0
  }

  ghost function IdealAt(t: Trace, p: nat): Ideal {
    StateAt(t, p).1
  }

  /** `u` goes on where `t` ends. */
  ghost predicate Later(t: Trace, u: Trace) {
    u.cfg == t.cfg && u.start == t.start && t.run <= u.run
  }

  lemma StateLater(t: Trace, u: Trace, p: nat)
    requires Later(t, u) && p <= |t.run|
    ensures StateAt(u, p) == StateAt(t, p)
  {
    assert u.run[..p] == t.run[..p];
    assert forall s :: IsState(u, p, s) <==> IsState(t, p, s);
    var e := Exec(t.cfg, t.start, t.run[..p]);
  }

  lemma {:induction false} ExecPrefix(t: Trace, p: nat)
    requires Runs(t) && p <= |t.run|
    ensures Exec(t.cfg, t.start, t.run[..p]) == Some(StateAt(t, p))
    decreases |t.run| - p
  {
    var f, i :| Reaches(t.cfg, t.start, t.run, f, i);
    assert Exec(t.cfg, t.start, t.run) == Some((f, i));
    if p == |t.run| {
      assert t.run[..p] == t.run;
    } else {
      ExecPrefix(t, p + 1);
      assert t.run[..p + 1][..p] == t.run[..p];
    }
    StateIs(t, p, Exec(t.cfg, t.start, t.run[..p]).value);
  }

  /** Every position of a run is the end of a run. */
  lemma ReachesAt(t: Trace, p: nat)
    requires Runs(t) && p <= |t.run|
    ensures Reaches(t.cfg, t.start, t.run[..p], FlowAt(t, p), IdealAt(t, p))
  {
    ExecPrefix(t, p);
  }

  lemma StepAt(t: Trace, p: nat)
    requires Runs(t) && p < |t.run|
    ensures Step(t.cfg, FlowAt(t, p), t.run[p]) == To(FlowAt(t, p + 1))
  {
    ExecPrefix(t, p);
    ExecPrefix(t, p + 1);
    assert t.run[..p + 1][..p] == t.run[..p];
  }

  /** Only the kernel steps between positions `a` and `b`. */
  predicate KernelOnly(t: Trace, a: nat, b: nat) {
    b <= |t.run| && forall j :: a <= j < b ==> IsKernel(t.run[j])
  }

  lemma KernelKeepsFlags(cfg: Config, f: Flow, l: Label)
    requires IsKernel(l) && Step(cfg, f, l).To?
    ensures Step(cfg, f, l).flow.free == f.free && Step(cfg, f, l).flow.user == f.user
  {
  }

  lemma {:induction false} KernelWindow(t: Trace, a: nat, b: nat)
    requires Runs(t) && a <= b && KernelOnly(t, a, b)
    ensures FlowAt(t, b).free == FlowAt(t, a).free && FlowAt(t, b).user == FlowAt(t, a).user
    decreases b
  {
    if a < b {
      KernelWindow(t, a, b - 1);
      StepAt(t, b - 1);
      KernelKeepsFlags(t.cfg, FlowAt(t, b - 1), t.run[b - 1]);
    }
  }

  /** At every position from `a` to `b`, frame `k` is on neither ring and not with the kernel. */
  ghost predicate Clear(t: Trace, a: nat, b: nat, k: nat) {
    b <= |t.run| && forall p: nat :: a <= p <= b ==> ClearAt(t, p, k)
  }

  ghost predicate ClearAt(t: Trace, p: nat, k: nat) {
    InFlight(t.cfg, FlowAt(t, p), k) == 0
  }

  /** A free frame stays clear while only the kernel steps. */
  lemma FreeStaysClear(t: Trace, a: nat, b: nat, k: nat)
    requires Runs(t) && a <= b && KernelOnly(t, a, b) && k < t.cfg.frames
    requires k < |FlowAt(t, a).free| && FlowAt(t, a).free[k]
    ensures Clear(t, a, b, k)
  {
    forall p: nat | a <= p <= b ensures ClearAt(t, p, k) {
      KernelWindow(t, a, p);
      ReachesAt(t, p);
      FrameOwnership(t.cfg, t.start, t.run[..p], FlowAt(t, p), IdealAt(t, p), k);
    }
  }

  /** And only a free one does. */
  lemma ClearIffFree(t: Trace, a: nat, b: nat, k: nat)
    requires Runs(t) && a <= b && KernelOnly(t, a, b) && k < t.cfg.frames
    ensures k < |FlowAt(t, a).free| && (Clear(t, a, b, k) <==> FlowAt(t, a).free[k])
  {
    ReachesAt(t, a);
    FrameOwnership(t.cfg, t.start, t.run[..a], FlowAt(t, a), IdealAt(t, a), k);
    assert ClearAt(t, a, k) <==> FlowAt(t, a).free[k];
    if FlowAt(t, a).free[k] {
      FreeStaysClear(t, a, b, k);
    }
  }

  lemma ClearLater(t: Trace, u: Trace, a: nat, b: nat, k: nat)
    requires Clear(t, a, b, k) && Later(t, u)
    ensures Clear(u, a, b, k)
  {
    forall p: nat | a <= p <= b ensures ClearAt(u, p, k) {
      StateLater(t, u, p);
      assert ClearAt(t, p, k);
    }
  }
}
