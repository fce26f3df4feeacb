/** The vocabulary shared by both platform paths of the supervisor: its
    constants, what the operating system answers, the actions it takes and
    the outcome of one run. Operating-system calls are not executed: their
    results are inputs, and each call appears in the trace with its result. */
module Process {

  datatype Option<T> = None | Some(value: T)

  /** `argv[0]` (the supervisor), `argv[1]` (the parent id), `argv[2]` (the child). */
  const MinArgc := 3

  const ExitSuccess := 0
  const ExitUsage := 1
  const ExitSpawnFailed := 2
  const ExitNoParentHandle := 3

  /** Linux signal numbers. */
  const SigTerm := 15
  const SigKill := 9

  /** What `getppid()` returns once the parent has died and init adopted us. */
  const OrphanPpid := 1

  /** `WAIT_OBJECT_0`: the first handle of a Windows wait was signalled. */
  const WaitObject0 := 0

  /** What `waitpid(child, &status, WNOHANG)` reports: 0 (the child has not
      changed state; status is left alone), the child's pid (it exited and is
      now reaped; status is written) or -1 (an error, e.g. no such child). */
  datatype WaitPid = NoChange | Changed(status: int) | Failed

  datatype Action =
      // Windows path
    | OpenParent(pid: int)                              // OpenProcess on the parent id
    | CreateProcess(application: string, commandLine: string)
    | WaitAny(result: int)                              // infinite wait on {child, parent}
    | CreateRemoteThread(ok: bool)                      // inject the Ctrl-C routine into the child
    | CloseThreadHandle
    | CheckChild(result: int)                           // zero-timeout wait on the child
    | TerminateProcess
      // POSIX path
    | ForkExec(path: string, args: seq<string>)         // fork, then execv in the child
    | PollChild(reported: WaitPid)
    | GetParent(ppid: int)
    | Signal(sig: int)                                  // kill(child, sig)
    | Reap                                              // blocking wait(0)
      // both
    | Sleep(ms: nat)

  /** How a run ends: the process exit code, or still in the monitoring loop
      when the observations given to the model run out. */
  datatype Exit = Exited(code: int) | Monitoring

  datatype Run = Run(exit: Exit, trace: seq<Action>)

}
