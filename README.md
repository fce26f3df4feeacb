# child_container supervisor, modelled in Dafny

`child_container` is a small supervisor process. It is started as
`child_container <parent_pid> <path/to/child/exe> [child arguments]`. It
starts the child, watches both the child and its own parent, and when the
parent dies it makes sure the child does not survive as an orphan. All of it
is `main` in `child_container.cpp`, which has two platform paths.

- **Windows.** Open a handle on the parent. Assemble one command line in which
  every argument is wrapped as `"arg" `. Spawn the child with
  `CreateProcessA`. Wait on {child, parent}. If the wait did not report the
  child's handle (the parent's handle, or a failed wait), inject a Ctrl-C thread into the child and check at 250 ms and again after
  5000 ms more. Call `TerminateProcess` if the child is still there.
- **POSIX.** Build a null-terminated argument vector for `execv`, fork and
  exec. Then poll once a second: `waitpid(WNOHANG)` on the child first, then
  `getppid()`. Once the parent is gone (`getppid() == 1`), send SIGTERM, wait
  5 s, poll once more, and send SIGKILL and reap if the child is still alive.

The model has four modules:

- `Process` (process.dfy) holds the shared vocabulary. It has the exit codes
  (0 success, 1 usage, 2 spawn failed, 3 no parent handle), the signal
  numbers, what `waitpid` reports, and the actions a run takes.
- `Launch` (launch.dfy) covers the two ways arguments reach the child. The
  Windows command line is assembled in an `array<char>` through a moving
  write index, with `strcpy` and `strlen` as loops over the buffer. The
  POSIX `child_argv` vector is an `array<Slot>` filled by indexed stores.
  Both are proved against specification functions (`CommandLine`,
  `ExecVector`).
- `WindowsSupervisor` (windows.dfy) and `PosixSupervisor` (posix.dfy) model
  the two `main` paths. The operating system's answers are inputs: a `WinOs`
  record on Windows, and on POSIX a sequence of per-iteration `Poll`
  observations plus the grace-period `waitpid` result. Each run yields an
  exit code and a trace of the calls made. The methods `SuperviseWindows`,
  `SupervisePosix` and `Monitor` follow the source step by step and are
  proved equal to the reference functions `WindowsRun`, `PosixRun` and
  `MonitorFrom`. The properties are lemmas about those reference functions.
  A POSIX run whose observations run out inside the `for (;;)` loop ends in
  `Monitoring`.

The two paths treat a nonexistent executable differently. On Windows a
failed `CreateProcessA` makes the supervisor return 2
(child_container.cpp:165). On POSIX the forked child exits with 2 when
`execv` reports ENOENT (child_container.cpp:238), but that is the child's
exit code, not the supervisor's. The parent's first `waitpid` sees the
nonzero status, leaves the loop, and the supervisor exits with 0
(child_container.cpp:259-260 and 289; `MissingProgramExitsSuccess`). The
model follows the code.

## Model

| member | source | states |
|---|---|---|
| Launch.AssembleCommandLine | child_container.cpp:135-151 | The buffer is sized as the sum of each argument's length plus 3, plus 1. Every store lands inside it. Its contents are exactly the wrapped arguments from `argv[2]` on, in order, followed by one NUL at the last index. |
| Launch.AppendQuoted | child_container.cpp:143-150 | One pass of the fill loop appends `"`, the argument and `" ` after what was already written. It leaves a NUL at the new write index, which has advanced by the argument's length plus 3. Every cell after that index keeps its old value. |
| Launch.StrCpy | child_container.cpp:145 | For a string with no NUL, `strcpy` writes the string's bytes and then a NUL at the target offset, and changes no other cell. |
| Launch.StrLen | child_container.cpp:146 | `strlen` returns the distance to the first NUL at or after the offset: no NUL comes before it. |
| Launch.QuotedLength | child_container.cpp:135-138 | The size computed by the first loop equals the length of the content written by the second loop. |
| Launch.ArgumentInPlace | child_container.cpp:142-151 | Each argument appears verbatim between quotes, with embedded quotes not escaped. It starts at the offset given by the sizes of the arguments before it. |
| Launch.CommandLineStartsWithPath | child_container.cpp:142-161 | The first token of the command line handed to `CreateProcessA` is the quoted executable path. |
| Launch.QuotedHasNoNul | child_container.cpp:145-161 | When no argument holds a NUL, the assembled line holds none either, so the C string `CreateProcessA` reads is the whole line. |
| Launch.BuildChildArgv | child_container.cpp:222-226 | Slot 0 holds `argv[2]` and slot j holds `argv[j+2]` for 1 ≤ j ≤ argc-3. Slot argc-2 is the null pointer. Every store index is below the argc slots, and slot argc-1 is never written. |
| Launch.ChildArgvIsExecVector | child_container.cpp:222-233 | The vector `execv` reads, up to the null pointer, is exactly `argv[2..]`. The path is argument 0. |
| WindowsSupervisor.SuperviseWindows | child_container.cpp:110-218 | The Windows path, with the command line built in the array, makes exactly the calls of the reference run and returns its exit code. |
| WindowsSupervisor.ExitCodes | child_container.cpp:110-218 | Every run exits with 0, 1, 2 or 3. The code is 1 iff there are fewer than 3 arguments. It is 3 iff the parent handle is null. It is 2 iff `CreateProcessA` failed, or the wait did not report the child's handle (the parent's handle, or a failed wait) and the remote thread could not be created. |
| WindowsSupervisor.UsageErrorTouchesNothing | child_container.cpp:110-115 | With fewer than 3 arguments the run returns 1 and makes no call. |
| WindowsSupervisor.ParentOpenedBeforeSpawn | child_container.cpp:122-130 | `OpenProcess` on the parent is the first call. A null handle means no spawn is attempted. |
| WindowsSupervisor.SpawnsOneChild | child_container.cpp:161-166 | At most one `CreateProcessA` is made, as the second call. Its arguments are the path and the assembled command line. |
| WindowsSupervisor.ChildEndsFirst | child_container.cpp:172-176 | If the child's handle signals first, the run returns 0 with no remote thread and no `TerminateProcess`. |
| WindowsSupervisor.WhenTerminated | child_container.cpp:187-218 | `TerminateProcess` is called iff the wait did not report the child's handle (the parent's handle, or a failed wait) and either the remote thread failed or both the 250 ms and the 5000 ms checks found the child running. |
| WindowsSupervisor.TerminateLast | child_container.cpp:187-218 | `TerminateProcess` is called at most once. It is the last call and comes after the remote-thread attempt. |
| WindowsSupervisor.InjectionOutcome | child_container.cpp:187-218 | A failed injection returns 2 after terminating the child. A successful one returns 0. |
| PosixSupervisor.SupervisePosix | child_container.cpp:222-289 | The POSIX path, with the vector built in the array, spawns the child with the vector `execv` reads and then runs the monitor. It makes exactly the calls of the reference run. |
| PosixSupervisor.Monitor | child_container.cpp:251-289 | The `for (;;)` loop, run over the observations, produces exactly the reference monitor's trace and exit, including the `break` and the two `exit` calls. |
| PosixSupervisor.EscalateSignals | child_container.cpp:266-285 | The escalation sends SIGTERM, then sends SIGKILL and reaps unless the grace-period `waitpid` found the child gone. |
| PosixSupervisor.MonitorSucceeds | child_container.cpp:251-289 | Every monitor run exits with EXIT_SUCCESS or is still polling. |
| PosixSupervisor.MonitorEscalation | child_container.cpp:262-286 | The monitor sends signals only in the escalation, and does so iff `getppid` reported 1. |
| PosixSupervisor.ChildCheckedFirst | child_container.cpp:254-263 | Every `getppid` directly follows a `waitpid` that did not find the child gone. |
| PosixSupervisor.EscalationIsFinal | child_container.cpp:263-286 | Once `getppid` reports 1, the rest of the trace is the escalation and nothing else. The run exits with EXIT_SUCCESS and the loop is not re-entered. |
| PosixSupervisor.ChildGoneEndsQuietly | child_container.cpp:251-289 | A poll that finds the child gone, after k polls that found child and parent alive, ends the loop with EXIT_SUCCESS after k+1 iterations. No signal is sent. |
| PosixSupervisor.UsageErrorSpawnsNothing | child_container.cpp:110-115 | With fewer than 3 arguments the run returns 1 and spawns nothing. |
| PosixSupervisor.SpawnThenSucceed | child_container.cpp:222-289 | The child is spawned first, with the path as argument 0, and no later action spawns another child. The run never exits with anything but EXIT_SUCCESS. |
| PosixSupervisor.MonitorNeverForks | child_container.cpp:251-289 | No action of the monitoring loop, in any run, spawns a process. |
| PosixSupervisor.MissingProgramExitsSuccess | child_container.cpp:233-289 | If the first poll reports a nonzero status, as it does for a child whose `execv` failed, the run ends after that poll with exit code 0, under either test. |
| PosixSupervisor.GracefulBeforeForceful | child_container.cpp:263-286 | The whole run's signals are none when `getppid` never reported 1. Otherwise they are SIGTERM alone, or SIGTERM, SIGKILL, reap, the latter exactly when the grace-period `waitpid` did not find the child gone. |
| PosixSupervisor.ExitZeroSeenLater | child_container.cpp:257-260 | As written, a child that exits with status 0 is not treated as gone. The loop goes on to `getppid`, and ends at a later poll whose `waitpid` fails. |
| PosixSupervisor.AsWrittenSignalsReapedChild | child_container.cpp:257-266 | As written, a child reaped with status 0 in the poll where the parent is found gone is then sent SIGTERM. |
| PosixSupervisor.AsWrittenKillsGracefulChild | child_container.cpp:266-280 | As written, a child that honours SIGTERM and exits with status 0 is reaped by the grace-period `waitpid` and then sent SIGKILL. |
| PosixSupervisor.CorrectedNeverSignalsReapedChild | child_container.cpp:251-286 | With the corrected test, no signal ever follows a `waitpid` that reaped the child. |
| PosixSupervisor.CorrectedSparesGracefulChild | child_container.cpp:272-283 | With the corrected test, a child that exited during the grace period, with any status, is never sent SIGKILL or reaped again. |

## Left out

- `RemoteThreadProc` (child_container.cpp:73-83) runs inside the child's address space and consists only of foreign calls. The model records only whether `CreateRemoteThread` succeeded.
- The hand-written Windows structures and extern declarations (child_container.cpp:10-65) hold no logic.
- The real semantics of `fork`, `execv`, `waitpid`, `wait`, `kill`, `getppid`, `sleep`, `OpenProcess`, `CreateProcessA`, `WaitForMultipleObjects`, `CreateRemoteThread`, `CloseHandle` and `TerminateProcess` are not modelled. Their results are inputs, and their calls are entries of the trace. Cross-process races and real time are out of reach; sleeps are labels in the trace.
- `atoi` parsing of the parent id is not modelled; the id is a given integer.
- The `printf`/`fprintf` diagnostics are not modelled.
- The forked child's own exits when `execv` fails (2 on ENOENT, 1 otherwise) are not modelled. They appear only as the nonzero status the parent's `waitpid` observes.
- An unchecked `fork` failure (`child_pid == -1`) is not modelled: `ForkExec` is assumed to have produced a child.
- `alloca` failure is not modelled.
- The `size_t`-to-`int` narrowing of `total_len` is not modelled: lengths are unbounded integers.
- `Launch.BuildChildArgv`: the slot at argc-1 is allocated but never written; the model marks it `Unset` rather than modelling stack garbage.
- `Launch.StrLen`: the real `strlen` walks past the buffer when no NUL follows. The model requires a NUL at or after the offset, which `AppendQuoted` always provides.
- `PosixSupervisor.Monitor`: the unbounded loop is modelled over a finite sequence of observations. When they run out, the run is reported as still monitoring rather than running forever.

## Findings

| source | as written | input that shows it | evidently intended | confidence | as-written member | corrected member |
|---|---|---|---|---|---|---|
| child_container.cpp:257-260 | `if (child_status \|\| waitresult < 0) break;` treats a child reaped with exit status 0 as still running. | One poll in which `waitpid` reaps the child with status 0 and `getppid()` returns 1 (the child exits normally in the same second the parent dies). The supervisor then sends SIGTERM to a pid it has already reaped, which may by then belong to another process. | Any `waitpid` result other than 0 (reaped or failed) means the child is gone. | not executed | PosixSupervisor.AsWrittenSignalsReapedChild | PosixSupervisor.CorrectedNeverSignalsReapedChild |
| child_container.cpp:272-280 | `if (waitpid(...) < 0 \|\| child_status) exit(EXIT_SUCCESS);` treats a child that honoured SIGTERM and exited with status 0 as still alive. | Parent gone, the child still running at the poll, and the grace-period `waitpid` reaps it with status 0. The supervisor then sends SIGKILL to the reaped pid and calls `wait(0)` with no child left. | A child reaped during the grace period is never sent SIGKILL. | not executed | PosixSupervisor.AsWrittenKillsGracefulChild | PosixSupervisor.CorrectedSparesGracefulChild |

The test that decides "the child is gone" is a parameter of the POSIX model
(`ReapRule`). `AsWritten` is the source's test and `Corrected` is the
intended one. Every general property above holds under both.
