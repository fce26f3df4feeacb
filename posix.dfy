/** The POSIX path of `main`: build the child's argument vector, fork and
    exec it, then poll once a second. Each poll first asks `waitpid` whether
    the child has ended and only then asks `getppid` whether the parent has;
    an orphaned supervisor sends SIGTERM, waits 5 s, and sends SIGKILL and
    reaps if the child is still there. Every ending exits with EXIT_SUCCESS. */
module PosixSupervisor {
  import opened Process
  import Launch

  /** One iteration's observations: what `waitpid(child, &status, WNOHANG)`
      reported and what `getppid()` returned. */
  datatype Poll = Poll(child: WaitPid, ppid: int)

  /** Which test decides that the child is gone. `AsWritten` is the test at
      both places in `main`: a nonzero status or a negative result.
      `Corrected` counts every report of a state change as the child gone,
      including an exit with status 0. */
  datatype ReapRule = AsWritten | Corrected

  predicate ChildGone(rule: ReapRule, w: WaitPid)
  {
    match rule
    case AsWritten => (w.Changed? && w.status != 0) || w.Failed?
    case Corrected => !w.NoChange?
  }

  /** The escalation: SIGTERM, a 5 s grace period, one more `waitpid`, and
      SIGKILL followed by a blocking reap unless that found the child gone. */
  function Escalate(grace: WaitPid, rule: ReapRule): (t: seq<Action>)
  {
    [Signal(SigTerm), Sleep(5000), PollChild(grace)]
      + (if ChildGone(rule, grace) then [] else [Signal(SigKill), Reap])
  }

  /** The reference monitor from iteration `i` on: the polls are the
      observations of successive iterations and `grace` the result of the
      `waitpid` after the grace period. When the polls run out inside the
      loop, the run is still monitoring. */
  function MonitorFrom(polls: seq<Poll>, i: nat, grace: WaitPid, rule: ReapRule): (m: Run)
    requires i <= |polls|
    decreases |polls| - i
  {
    if i == |polls| then Run(Monitoring, [])
    else
      var p := polls[i];
      if ChildGone(rule, p.child) then Run(Exited(ExitSuccess), [Sleep(1000), PollChild(p.child)])
      else if p.ppid == OrphanPpid then
        Run(Exited(ExitSuccess), [Sleep(1000), PollChild(p.child), GetParent(p.ppid)] + Escalate(grace, rule))
      else
        var rest := MonitorFrom(polls, i + 1, grace, rule);
        Run(rest.exit, [Sleep(1000), PollChild(p.child), GetParent(p.ppid)] + rest.trace)
  }

  /** The reference run of `main` on POSIX. */
  function PosixRun(argv: seq<string>, polls: seq<Poll>, grace: WaitPid, rule: ReapRule): (r: Run)
  {
    if |argv| < MinArgc then Run(Exited(ExitUsage), [])
    else
      var m := MonitorFrom(polls, 0, grace, rule);
      Run(m.exit, [ForkExec(argv[2], argv[2..])] + m.trace)
  }

  /** `main` on POSIX, with the system's answers as input: the argument
      vector is built in an array and handed to `execv`, then the monitor
      loop runs. */
  method SupervisePosix(argv: seq<string>, polls: seq<Poll>, grace: WaitPid, rule: ReapRule)
    returns (r: Run)
    ensures r == PosixRun(argv, polls, grace, rule)
  {
    if |argv| < MinArgc {
      return Run(Exited(ExitUsage), []);
    }
    var childArgv := Launch.BuildChildArgv(argv);
    Launch.ChildArgvIsExecVector(argv, childArgv[..]);
    var execArgs := Launch.ExecVector(childArgv[..]).value;
    var m := Monitor(polls, grace, rule);
    r := Run(m.exit, [ForkExec(childArgv[0].s, execArgs)] + m.trace);
  }

  /** The `for (;;)` loop of `main`, run over the observations until it
      breaks, exits or they run out. */
  method Monitor(polls: seq<Poll>, grace: WaitPid, rule: ReapRule) returns (m: Run)
    ensures m == MonitorFrom(polls, 0, grace, rule)
  {
    ghost var whole := MonitorFrom(polls, 0, grace, rule);
    var trace: seq<Action> := [];
    var exit := Monitoring;
    var i := 0;
    while i < |polls|
      invariant i <= |polls|
      invariant whole.exit == MonitorFrom(polls, i, grace, rule).exit
      invariant whole.trace == trace + MonitorFrom(polls, i, grace, rule).trace
    {
      IterationTrace(polls, i, grace, rule, trace, whole);
      // sleep(1), then waitpid(child_pid, &child_status, WNOHANG)
      var waitResult := polls[i].child;
      trace := trace + [Sleep(1000), PollChild(waitResult)];
      if ChildGone(rule, waitResult) {
        exit := Exited(ExitSuccess);
        break;
      }

      var ppid := polls[i].ppid;
      trace := trace + [GetParent(ppid)];
      if ppid == OrphanPpid {
        trace := trace + [Signal(SigTerm), Sleep(5000), PollChild(grace)];
        if ChildGone(rule, grace) {
          return Run(Exited(ExitSuccess), trace);
        }
        trace := trace + [Signal(SigKill), Reap];
        return Run(Exited(ExitSuccess), trace);
      }
      i := i + 1;
    }
    m := Run(exit, trace);
  }

  /** What one iteration of the loop adds to the trace, stated in the order
      the loop appends it. */
  lemma IterationTrace(polls: seq<Poll>, i: nat, grace: WaitPid, rule: ReapRule, before: seq<Action>, whole: Run)
    requires i < |polls|
    requires whole.exit == MonitorFrom(polls, i, grace, rule).exit
    requires whole.trace == before + MonitorFrom(polls, i, grace, rule).trace
    ensures var p := polls[i];
      var checked := before + [Sleep(1000), PollChild(p.child)];
      var asked := checked + [GetParent(p.ppid)];
      var warned := asked + [Signal(SigTerm), Sleep(5000), PollChild(grace)];
      if ChildGone(rule, p.child) then whole == Run(Exited(ExitSuccess), checked)
      else if p.ppid != OrphanPpid then
        whole.exit == MonitorFrom(polls, i + 1, grace, rule).exit
        && whole.trace == asked + MonitorFrom(polls, i + 1, grace, rule).trace
      else if ChildGone(rule, grace) then whole == Run(Exited(ExitSuccess), warned)
      else whole == Run(Exited(ExitSuccess), warned + [Signal(SigKill), Reap])
  {
  }

  // ---------------------------------------------------------------------
  // Properties of the monitor

  /** The signals and reaps of a trace, in order. */
  function Escalation(t: seq<Action>): (e: seq<Action>)
  {
    if t == [] then []
    else (if t[0].Signal? || t[0].Reap? then [t[0]] else []) + Escalation(t[1..])
  }

  lemma {:induction false} EscalationAppend(a: seq<Action>, b: seq<Action>)
    ensures Escalation(a + b) == Escalation(a) + Escalation(b)
    decreases |a|
  {
    if a == [] {
      assert a + b == b;
    } else {
      assert a + b == [a[0]] + (a[1..] + b);
      assert a == [a[0]] + a[1..];
      EscalationCons(a[0], a[1..] + b);
      EscalationCons(a[0], a[1..]);
      EscalationAppend(a[1..], b);
    }
  }

  lemma EscalationCons(a: Action, t: seq<Action>)
    ensures Escalation([a] + t) == (if a.Signal? || a.Reap? then [a] else []) + Escalation(t)
  {
    assert ([a] + t)[1..] == t;
  }

  /** The escalation sends SIGTERM, and then SIGKILL and reaps unless the
      grace-period `waitpid` found the child gone. */
  lemma EscalateSignals(grace: WaitPid, rule: ReapRule)
    ensures Escalation(Escalate(grace, rule)) ==
      if ChildGone(rule, grace) then [Signal(SigTerm)] else [Signal(SigTerm), Signal(SigKill), Reap]
  {
    var warn := [Signal(SigTerm), Sleep(5000), PollChild(grace)];
    var kill := [Signal(SigKill), Reap];
    EscalationCons(PollChild(grace), []);
    EscalationCons(Sleep(5000), [PollChild(grace)]);
    EscalationCons(Signal(SigTerm), [Sleep(5000), PollChild(grace)]);
    if !ChildGone(rule, grace) {
      EscalationCons(Reap, []);
      EscalationCons(Signal(SigKill), [Reap]);
      EscalationAppend(warn, kill);
    } else {
      assert Escalate(grace, rule) == warn;
    }
  }

  /** Every run of the monitor exits with EXIT_SUCCESS or is still polling. */
  lemma {:induction false} MonitorSucceeds(polls: seq<Poll>, i: nat, grace: WaitPid, rule: ReapRule)
    requires i <= |polls|
    ensures MonitorFrom(polls, i, grace, rule).exit in {Monitoring, Exited(ExitSuccess)}
    decreases |polls| - i
  {
    if i < |polls| {
      MonitorSucceeds(polls, i + 1, grace, rule);
    }
  }

  /** Signals are sent only in the escalation, which happens once and only
      after `getppid` reported the orphan value. */
  lemma {:induction false} MonitorEscalation(polls: seq<Poll>, i: nat, grace: WaitPid, rule: ReapRule)
    requires i <= |polls|
    ensures var t := MonitorFrom(polls, i, grace, rule).trace;
      Escalation(t) == if GetParent(OrphanPpid) in t then Escalation(Escalate(grace, rule)) else []
    decreases |polls| - i
  {
    if i < |polls| {
      var p := polls[i];
      if ChildGone(rule, p.child) {
        EscalationCons(PollChild(p.child), []);
        EscalationCons(Sleep(1000), [PollChild(p.child)]);
      } else if p.ppid == OrphanPpid {
        IterationEscalation(p, Escalate(grace, rule));
      } else {
        IterationEscalation(p, MonitorFrom(polls, i + 1, grace, rule).trace);
        MonitorEscalation(polls, i + 1, grace, rule);
      }
    }
  }

  /** An iteration that reaches the parent check adds no signal, and adds an
      orphan report exactly when `getppid` returned the orphan value. */
  lemma IterationEscalation(p: Poll, rest: seq<Action>)
    ensures var t := [Sleep(1000), PollChild(p.child), GetParent(p.ppid)] + rest;
      Escalation(t) == Escalation(rest)
      && (GetParent(OrphanPpid) in t <==> p.ppid == OrphanPpid || GetParent(OrphanPpid) in rest)
  {
    var t := [Sleep(1000), PollChild(p.child), GetParent(p.ppid)] + rest;
    assert t == [Sleep(1000)] + ([PollChild(p.child)] + ([GetParent(p.ppid)] + rest));
    EscalationCons(GetParent(p.ppid), rest);
    EscalationCons(PollChild(p.child), [GetParent(p.ppid)] + rest);
    EscalationCons(Sleep(1000), [PollChild(p.child)] + ([GetParent(p.ppid)] + rest));
    assert t[2] == GetParent(p.ppid);
  }

  /** Within each iteration the child check comes first: every `getppid` in
      the trace directly follows a `waitpid` that did not find the child gone. */
  ghost predicate ParentCheckedAfterChild(t: seq<Action>, rule: ReapRule)
  {
    forall j :: 0 <= j < |t| && t[j].GetParent? ==>
      1 <= j && t[j - 1].PollChild? && !ChildGone(rule, t[j - 1].reported)
  }

  lemma {:induction false} ChildCheckedFirst(polls: seq<Poll>, i: nat, grace: WaitPid, rule: ReapRule)
    requires i <= |polls|
    ensures ParentCheckedAfterChild(MonitorFrom(polls, i, grace, rule).trace, rule)
    decreases |polls| - i
  {
    if i < |polls| {
      var p := polls[i];
      if !ChildGone(rule, p.child) && p.ppid != OrphanPpid {
        ChildCheckedFirst(polls, i + 1, grace, rule);
        var rest := MonitorFrom(polls, i + 1, grace, rule).trace;
        ChildCheckedPrefix(p, rest, rule);
      } else if !ChildGone(rule, p.child) {
        var esc := Escalate(grace, rule);
        assert forall j :: 0 <= j < |esc| ==> !esc[j].GetParent?;
        ChildCheckedPrefix(p, esc, rule);
      }
    }
  }

  /** One iteration that went on to the next keeps the order. */
  lemma ChildCheckedPrefix(p: Poll, rest: seq<Action>, rule: ReapRule)
    requires !ChildGone(rule, p.child) && ParentCheckedAfterChild(rest, rule)
    ensures ParentCheckedAfterChild([Sleep(1000), PollChild(p.child), GetParent(p.ppid)] + rest, rule)
  {
    var t := [Sleep(1000), PollChild(p.child), GetParent(p.ppid)] + rest;
    forall j | 0 <= j < |t| && t[j].GetParent?
      ensures 1 <= j && t[j - 1].PollChild? && !ChildGone(rule, t[j - 1].reported)
    {
      if j > 3 {
        assert t[j] == rest[j - 3];
        assert t[j - 1] == rest[j - 4];
      }
    }
  }

  /** The escalation is final: once `getppid` reports the orphan value, the
      rest of the trace is the escalation and nothing else, the loop is never
      re-entered, and the run exits with EXIT_SUCCESS. */
  ghost predicate EscalationEndsRun(m: Run, grace: WaitPid, rule: ReapRule)
  {
    forall j :: 0 <= j < |m.trace| && m.trace[j] == GetParent(OrphanPpid) ==>
      m.trace[j + 1..] == Escalate(grace, rule) && m.exit == Exited(ExitSuccess)
  }

  lemma {:induction false} EscalationIsFinal(polls: seq<Poll>, i: nat, grace: WaitPid, rule: ReapRule)
    requires i <= |polls|
    ensures EscalationEndsRun(MonitorFrom(polls, i, grace, rule), grace, rule)
    decreases |polls| - i
  {
    if i < |polls| {
      var p := polls[i];
      var esc := Escalate(grace, rule);
      if ChildGone(rule, p.child) {
        assert MonitorFrom(polls, i, grace, rule).trace == [Sleep(1000), PollChild(p.child)];
      } else if p.ppid == OrphanPpid {
        var t := [Sleep(1000), PollChild(p.child), GetParent(p.ppid)] + esc;
        assert MonitorFrom(polls, i, grace, rule) == Run(Exited(ExitSuccess), t);
        forall j | 3 <= j < |t|
          ensures t[j] != GetParent(OrphanPpid)
        {
          assert t[j] == esc[j - 3];
        }
        assert t[3..] == esc;
      } else {
        EscalationIsFinal(polls, i + 1, grace, rule);
        var m := MonitorFrom(polls, i + 1, grace, rule);
        var t := [Sleep(1000), PollChild(p.child), GetParent(p.ppid)] + m.trace;
        assert MonitorFrom(polls, i, grace, rule) == Run(m.exit, t);
        forall j | 0 <= j < |t| && t[j] == GetParent(OrphanPpid)
          ensures t[j + 1..] == esc && m.exit == Exited(ExitSuccess)
        {
          assert j >= 3;
          assert m.trace[j - 3] == GetParent(OrphanPpid);
          assert t[j + 1..] == m.trace[j - 3 + 1..];
        }
      }
    }
  }

  /** A child found gone ends the loop quietly: if the first `k` polls found
      the child present and the parent alive and poll `k` finds the child
      gone, the monitor exits with EXIT_SUCCESS after `k + 1` iterations
      without sending any signal. */
  lemma {:induction false} ChildGoneEndsQuietly(polls: seq<Poll>, i: nat, k: nat, grace: WaitPid, rule: ReapRule)
    requires i <= k < |polls| && ChildGone(rule, polls[k].child)
    requires forall j :: i <= j < k ==> !ChildGone(rule, polls[j].child) && polls[j].ppid != OrphanPpid
    ensures var m := MonitorFrom(polls, i, grace, rule);
      m.exit == Exited(ExitSuccess) && |m.trace| == 3 * (k - i) + 2
      && forall a <- m.trace :: !a.Signal? && !a.Reap?
    decreases k - i
  {
    if i < k {
      ChildGoneEndsQuietly(polls, i + 1, k, grace, rule);
    }
  }

  // ---------------------------------------------------------------------
  // Properties of the whole run

  /** With fewer than three arguments nothing is spawned and the exit code is 1. */
  lemma UsageErrorSpawnsNothing(argv: seq<string>, polls: seq<Poll>, grace: WaitPid, rule: ReapRule)
    requires |argv| < MinArgc
    ensures PosixRun(argv, polls, grace, rule) == Run(Exited(ExitUsage), [])
  {
  }

  /** Otherwise the child is started first, with the path as argument 0 and
      the supervisor's arguments from index 2 on, and the run never exits
      with anything but EXIT_SUCCESS. */
  lemma SpawnThenSucceed(argv: seq<string>, polls: seq<Poll>, grace: WaitPid, rule: ReapRule)
    requires |argv| >= MinArgc
    ensures var r := PosixRun(argv, polls, grace, rule);
      r.trace[0] == ForkExec(argv[2], argv[2..]) && r.trace[0].args[0] == argv[2]
      && (forall j :: 0 < j < |r.trace| ==> !r.trace[j].ForkExec?)
      && r.exit in {Monitoring, Exited(ExitSuccess)}
  {
    MonitorSucceeds(polls, 0, grace, rule);
    MonitorNeverForks(polls, 0, grace, rule);
    var m := MonitorFrom(polls, 0, grace, rule).trace;
    var t := PosixRun(argv, polls, grace, rule).trace;
    forall j | 0 < j < |t|
      ensures !t[j].ForkExec?
    {
      assert t[j] == m[j - 1];
    }
  }

  /** The monitor never spawns: a supervisor has one child for its whole life. */
  lemma {:induction false} MonitorNeverForks(polls: seq<Poll>, i: nat, grace: WaitPid, rule: ReapRule)
    requires i <= |polls|
    ensures forall a <- MonitorFrom(polls, i, grace, rule).trace :: !a.ForkExec?
    decreases |polls| - i
  {
    if i < |polls| && !ChildGone(rule, polls[i].child) && polls[i].ppid != OrphanPpid {
      MonitorNeverForks(polls, i + 1, grace, rule);
    }
  }

  /** A child whose `execv` failed exits at once with a nonzero status (2
      when the program does not exist); the first poll finds it gone and the
      supervisor itself exits with EXIT_SUCCESS, under either test. */
  lemma MissingProgramExitsSuccess(argv: seq<string>, polls: seq<Poll>, grace: WaitPid, rule: ReapRule, status: int)
    requires |argv| >= MinArgc && |polls| > 0 && polls[0].child == Changed(status) && status != 0
    ensures PosixRun(argv, polls, grace, rule)
      == Run(Exited(ExitSuccess), [ForkExec(argv[2], argv[2..]), Sleep(1000), PollChild(Changed(status))])
  {
  }

  /** SIGTERM is sent at most once and before any SIGKILL; SIGKILL is always
      followed by the reap, and is sent exactly when the grace-period
      `waitpid` did not find the child gone; and only a supervisor whose
      `getppid` reported the orphan value signals at all. */
  lemma GracefulBeforeForceful(argv: seq<string>, polls: seq<Poll>, grace: WaitPid, rule: ReapRule)
    requires |argv| >= MinArgc
    ensures var t := PosixRun(argv, polls, grace, rule).trace;
      Escalation(t) ==
        if GetParent(OrphanPpid) !in t then []
        else if ChildGone(rule, grace) then [Signal(SigTerm)]
        else [Signal(SigTerm), Signal(SigKill), Reap]
  {
    var m := MonitorFrom(polls, 0, grace, rule);
    var spawn := [ForkExec(argv[2], argv[2..])];
    MonitorEscalation(polls, 0, grace, rule);
    EscalateSignals(grace, rule);
    EscalationAppend(spawn, m.trace);
    assert Escalation(spawn) == [];
    assert GetParent(OrphanPpid) in spawn + m.trace <==> GetParent(OrphanPpid) in m.trace;
  }

  /** As written, a child that exits with status 0 is not yet treated as
      gone: the loop goes on to the parent check, and it ends only at a later
      poll whose `waitpid` fails. */
  lemma ExitZeroSeenLater(polls: seq<Poll>, k: nat, grace: WaitPid)
    requires k + 1 < |polls| && polls[k].child == Changed(0) && polls[k].ppid != OrphanPpid
    requires polls[k + 1].child == Failed
    requires forall j :: 0 <= j < k ==> !ChildGone(AsWritten, polls[j].child) && polls[j].ppid != OrphanPpid
    ensures var m := MonitorFrom(polls, 0, grace, AsWritten);
      m.exit == Exited(ExitSuccess) && |m.trace| == 3 * k + 5
      && m.trace[3 * k + 2] == GetParent(polls[k].ppid)
      && m.trace[3 * k + 4] == PollChild(Failed)
  {
    ChildGoneEndsQuietly(polls, 0, k + 1, grace, AsWritten);
    PrefixIterations(polls, 0, k, grace, AsWritten);
  }

  /** Unfolds the monitor over `k - i` iterations that neither end the loop
      nor escalate. */
  lemma {:induction false} PrefixIterations(polls: seq<Poll>, i: nat, k: nat, grace: WaitPid, rule: ReapRule)
    requires i <= k < |polls|
    requires forall j :: i <= j < k ==> !ChildGone(rule, polls[j].child) && polls[j].ppid != OrphanPpid
    ensures var m := MonitorFrom(polls, i, grace, rule);
      var n := MonitorFrom(polls, k, grace, rule);
      m.exit == n.exit && |m.trace| == 3 * (k - i) + |n.trace| && m.trace[3 * (k - i)..] == n.trace
    decreases k - i
  {
    if i < k {
      PrefixIterations(polls, i + 1, k, grace, rule);
    }
  }

  // ---------------------------------------------------------------------
  // Signals to a child already reaped

  /** No signal follows a `waitpid` that reported the child's exit: once
      reaped, its pid may belong to another process. */
  ghost predicate NoSignalAfterReap(t: seq<Action>)
  {
    forall i, j :: 0 <= i < j < |t| && t[i].PollChild? && t[i].reported.Changed? ==> !t[j].Signal?
  }

  /** As written, a child that exits with status 0 in the same second the
      parent dies is reaped by the poll and then sent SIGTERM. */
  lemma AsWrittenSignalsReapedChild()
    ensures var r := PosixRun(["child_container", "1", "app"], [Poll(Changed(0), OrphanPpid)], Failed, AsWritten);
      r.exit == Exited(ExitSuccess) && r.trace[2] == PollChild(Changed(0)) && r.trace[4] == Signal(SigTerm)
      && !NoSignalAfterReap(r.trace)
  {
    var t := PosixRun(["child_container", "1", "app"], [Poll(Changed(0), OrphanPpid)], Failed, AsWritten).trace;
    assert t[2].PollChild? && t[2].reported.Changed? && t[4].Signal?;
  }

  /** As written, a child that honours SIGTERM and exits with status 0 is
      reaped by the grace-period `waitpid` and then sent SIGKILL. */
  lemma AsWrittenKillsGracefulChild()
    ensures var r := PosixRun(["child_container", "1", "app"], [Poll(NoChange, OrphanPpid)], Changed(0), AsWritten);
      r.exit == Exited(ExitSuccess) && r.trace[6] == PollChild(Changed(0)) && r.trace[7] == Signal(SigKill)
      && !NoSignalAfterReap(r.trace)
  {
    var t := PosixRun(["child_container", "1", "app"], [Poll(NoChange, OrphanPpid)], Changed(0), AsWritten).trace;
    assert t[6].PollChild? && t[6].reported.Changed? && t[7].Signal?;
  }

  /** With the corrected test no signal ever follows a reap. */
  lemma {:induction false} CorrectedNeverSignalsReapedChild(polls: seq<Poll>, i: nat, grace: WaitPid)
    requires i <= |polls|
    ensures NoSignalAfterReap(MonitorFrom(polls, i, grace, Corrected).trace)
    decreases |polls| - i
  {
    if i < |polls| {
      var p := polls[i];
      if !ChildGone(Corrected, p.child) && p.ppid != OrphanPpid {
        CorrectedNeverSignalsReapedChild(polls, i + 1, grace);
        var rest := MonitorFrom(polls, i + 1, grace, Corrected).trace;
        var t := [Sleep(1000), PollChild(p.child), GetParent(p.ppid)] + rest;
        forall a, b | 0 <= a < b < |t| && t[a].PollChild? && t[a].reported.Changed?
          ensures !t[b].Signal?
        {
          assert a >= 3;
          assert t[a] == rest[a - 3] && t[b] == rest[b - 3];
        }
      }
    }
  }

  /** With the corrected test a child that has exited after SIGTERM, with any
      status, is never sent SIGKILL. */
  lemma CorrectedSparesGracefulChild(argv: seq<string>, polls: seq<Poll>, status: int)
    requires |argv| >= MinArgc
    ensures var t := PosixRun(argv, polls, Changed(status), Corrected).trace;
      Signal(SigKill) !in t && Reap !in t
  {
    GracefulBeforeForceful(argv, polls, Changed(status), Corrected);
    var t := PosixRun(argv, polls, Changed(status), Corrected).trace;
    if Signal(SigKill) in t || Reap in t {
      var a := if Signal(SigKill) in t then Signal(SigKill) else Reap;
      EscalationHolds(t, a);
    }
  }

  /** Every signal or reap of a trace is in its escalation. */
  lemma {:induction false} EscalationHolds(t: seq<Action>, a: Action)
    requires a in t && (a.Signal? || a.Reap?)
    ensures a in Escalation(t)
  {
    if t[0] != a {
      EscalationHolds(t[1..], a);
    }
  }
}
