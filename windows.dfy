/** The Windows path of `main`: open the parent, spawn the child with one
    assembled command line, wait for whichever of the two ends first, and if
    it was the parent, ask the child to stop through an injected Ctrl-C
    thread before terminating it from outside. */
module WindowsSupervisor {
  import opened Process
  import Launch

  /** What the Windows calls of one run return, in the order `main` makes them. */
  datatype WinOs = WinOs(
    parentPid: int,       // `atoi(argv[1])`
    parentOpened: bool,   // OpenProcess gave a non-null handle
    created: bool,        // CreateProcessA returned nonzero
    waitAny: int,         // index from the infinite wait on {child, parent}
    threadCreated: bool,  // CreateRemoteThread gave a non-null handle
    quickCheck: int,      // zero-timeout wait on the child after 250 ms
    graceCheck: int)      // zero-timeout wait on the child after 5000 ms more

  /** The reference run: the exit code and the calls made, in order. */
  function WindowsRun(argv: seq<string>, os: WinOs): (r: Run)
  {
    if |argv| < MinArgc then Run(Exited(ExitUsage), [])
    else
      var started := [OpenParent(os.parentPid)];
      if !os.parentOpened then Run(Exited(ExitNoParentHandle), started)
      else
        var spawned := started + [CreateProcess(argv[2], Launch.CommandLine(argv))];
        if !os.created then Run(Exited(ExitSpawnFailed), spawned)
        else
          var waited := spawned + [WaitAny(os.waitAny)];
          if os.waitAny == WaitObject0 then Run(Exited(ExitSuccess), waited)
          else if !os.threadCreated then
            Run(Exited(ExitSpawnFailed), waited + [CreateRemoteThread(false), TerminateProcess])
          else
            var quick := waited + [CreateRemoteThread(true), CloseThreadHandle, Sleep(250), CheckChild(os.quickCheck)];
            if os.quickCheck == WaitObject0 then Run(Exited(ExitSuccess), quick)
            else
              var grace := quick + [Sleep(5000), CheckChild(os.graceCheck)];
              if os.graceCheck != WaitObject0 then Run(Exited(ExitSuccess), grace + [TerminateProcess])
              else Run(Exited(ExitSuccess), grace)
  }

  /** `main` on Windows, with the operating system's answers as input. The
      command line is assembled in a buffer, and `CreateProcessA` receives
      the C string in it. */
  method SuperviseWindows(argv: seq<string>, os: WinOs) returns (r: Run)
    requires Launch.CStrings(argv)
    ensures r == WindowsRun(argv, os)
  {
    if |argv| < MinArgc {
      return Run(Exited(ExitUsage), []);
    }
    var trace := [OpenParent(os.parentPid)];
    if !os.parentOpened {
      return Run(Exited(ExitNoParentHandle), trace);
    }

    var line := Launch.AssembleCommandLine(argv);
    trace := trace + [CreateProcess(argv[2], line[..line.Length - 1])];
    if !os.created {
      return Run(Exited(ExitSpawnFailed), trace);
    }

    trace := trace + [WaitAny(os.waitAny)];
    if os.waitAny == WaitObject0 {
      return Run(Exited(ExitSuccess), trace);
    }

    trace := trace + [CreateRemoteThread(os.threadCreated)];
    if !os.threadCreated {
      trace := trace + [TerminateProcess];
      return Run(Exited(ExitSpawnFailed), trace);
    }
    trace := trace + [CloseThreadHandle];

    trace := trace + [Sleep(250), CheckChild(os.quickCheck)];
    if os.quickCheck == WaitObject0 {
      return Run(Exited(ExitSuccess), trace);
    }

    trace := trace + [Sleep(5000), CheckChild(os.graceCheck)];
    if os.graceCheck != WaitObject0 {
      trace := trace + [TerminateProcess];
    }
    return Run(Exited(ExitSuccess), trace);
  }

  /** The exit code of every run, by the first step that fails. */
  lemma ExitCodes(argv: seq<string>, os: WinOs)
    ensures var r := WindowsRun(argv, os);
      r.exit.Exited? && r.exit.code in {ExitSuccess, ExitUsage, ExitSpawnFailed, ExitNoParentHandle}
      && (r.exit.code == ExitUsage <==> |argv| < MinArgc)
      && (r.exit.code == ExitNoParentHandle <==> |argv| >= MinArgc && !os.parentOpened)
      && (r.exit.code == ExitSpawnFailed <==>
            |argv| >= MinArgc && os.parentOpened
            && (!os.created || (os.waitAny != WaitObject0 && !os.threadCreated)))
  {
  }

  /** With fewer than three arguments nothing is opened or spawned. */
  lemma UsageErrorTouchesNothing(argv: seq<string>, os: WinOs)
    requires |argv| < MinArgc
    ensures WindowsRun(argv, os) == Run(Exited(ExitUsage), [])
  {
  }

  /** The parent handle is opened first of all, and a null handle stops the
      run before any spawn is attempted. */
  lemma ParentOpenedBeforeSpawn(argv: seq<string>, os: WinOs)
    requires |argv| >= MinArgc
    ensures var t := WindowsRun(argv, os).trace;
      t[0] == OpenParent(os.parentPid)
      && (!os.parentOpened ==> forall a <- t :: !a.CreateProcess?)
  {
  }

  /** At most one child is spawned, with the executable path as application
      and the assembled command line, whose first token is that path. */
  lemma SpawnsOneChild(argv: seq<string>, os: WinOs)
    requires |argv| >= MinArgc
    ensures var t := WindowsRun(argv, os).trace;
      forall j :: 0 <= j < |t| && t[j].CreateProcess? ==>
        j == 1 && t[j] == CreateProcess(argv[2], Launch.CommandLine(argv))
    ensures |argv[2]| + 3 <= |Launch.CommandLine(argv)|
    ensures Launch.CommandLine(argv)[..|argv[2]| + 3] == Launch.QuoteArg(argv[2])
  {
    Launch.CommandLineStartsWithPath(argv);
  }

  /** A child that ends first is left alone: the run succeeds without
      injecting a thread or terminating anything. */
  lemma ChildEndsFirst(argv: seq<string>, os: WinOs)
    requires |argv| >= MinArgc && os.parentOpened && os.created && os.waitAny == WaitObject0
    ensures var r := WindowsRun(argv, os);
      r.exit == Exited(ExitSuccess)
      && forall a <- r.trace :: !a.CreateRemoteThread? && a != TerminateProcess
  {
  }

  /** `TerminateProcess` is called exactly when the injection failed or both
      the 250 ms and the 5000 ms checks found the child still running. */
  lemma WhenTerminated(argv: seq<string>, os: WinOs)
    ensures TerminateProcess in WindowsRun(argv, os).trace <==>
      |argv| >= MinArgc && os.parentOpened && os.created && os.waitAny != WaitObject0
      && (!os.threadCreated || (os.quickCheck != WaitObject0 && os.graceCheck != WaitObject0))
  {
  }

  /** `TerminateProcess` is the last resort: called at most once, as the last
      call of the run, after the Ctrl-C injection was attempted. */
  lemma TerminateLast(argv: seq<string>, os: WinOs)
    ensures var t := WindowsRun(argv, os).trace;
      forall k :: 0 <= k < |t| && t[k] == TerminateProcess ==>
        k == |t| - 1 && exists j :: 0 <= j < k && t[j] == CreateRemoteThread(os.threadCreated)
  {
    var t := WindowsRun(argv, os).trace;
    if |argv| >= MinArgc && os.parentOpened && os.created && os.waitAny != WaitObject0 {
      assert t[3] == CreateRemoteThread(os.threadCreated);
    }
  }

  /** A failed injection ends the run with code 2 after terminating the
      child; a successful one always ends with success. */
  lemma InjectionOutcome(argv: seq<string>, os: WinOs)
    requires |argv| >= MinArgc && os.parentOpened && os.created && os.waitAny != WaitObject0
    ensures var r := WindowsRun(argv, os);
      (!os.threadCreated ==> r.exit == Exited(ExitSpawnFailed) && TerminateProcess in r.trace)
      && (os.threadCreated ==> r.exit == Exited(ExitSuccess))
  {
  }
}
