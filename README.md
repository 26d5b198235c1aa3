# Debugger break-time compensator, modelled in Dafny

The `Debuger` helper (`Net7/debuggerBreakTime/Debuger.cs`) gives time-based
applications a corrected clock that leaves out time spent stopped at
breakpoints. A monitor thread busy-polls the wall clock. Each gap between two
samples is classified:

- A gap shorter than `loopCheckInterval` (2000 ticks) is normal running. It is
  added to the run accumulator `runTime`.
- Any longer gap is a pause. The whole gap is added to `breakingTime` and
  taken off `runTime`, which is clamped at zero.

The monitor stops once `runTime` reaches `cooldown` (five seconds by default).
`Now` is the wall clock less `breakingTime`. While a monitor runs, it is the
last sample less `breakingTime` instead. The `Break` getter is the activation
gate: it starts a monitor when a debugger is attached and none is running. The
lazy monitor polls the corrected clock and passes the gate when the clock
drifts by more than twice its sleep interval.

Every quantity is an integer count of .NET ticks (100 ns). The model has three
files:

- `virtual_clock.dfy` (module `VirtualClock`) holds the state as a value
  (`Monitor`) and the pure rules that change it: `Step` (one loop iteration),
  `Loop` (the whole loop over a finite sample stream), `Activated` (the gate)
  and `PollStep` (one lazy-monitor iteration).
- `accounting.dfy` (module `MonitorAccounting`) defines independent totals over
  a sample stream, `PauseTotal` and `RunningTotal`. Its lemmas relate the loop
  to these totals, state the loop's exact exit rule, and work through steady
  500-tick running and a single 50 ms jump.
- `debuger.dfy` (module `DebuggerBreakTime`) has the classes `Debuger` and
  `DebuggerLazyMonitor`. Their fields are the source's static and instance
  fields. Their methods run the source's statements and are proved against the
  pure rules.

The wall clock becomes parameters. `MonitorLoop` takes the samples it reads as
a sequence. `Break`, `StartLazyMonitor` and `Poll` take the wall-clock readings
they make as arguments. Whether a debugger is attached is a boolean argument.
The host's interactive break is the token `DebuggerBreak`.

Two facts about the run accumulator shape the model:

- Starting the monitor does not reset `runTime`. The loop resets it on exit
  (Debuger.cs:52), and `Debuger.Valid` keeps it zero while idle, so a freshly
  started monitor begins from zero (`Debuger.Break` states this).
- `runTime` is clamped only on the pause branch (Debuger.cs:45-47). A clock
  that steps backwards takes the running branch with a negative gap and drives
  `runTime` below zero (`BackwardJumpMakesRunTimeNegative`). Non-negativity is
  therefore proved only for clocks that never go back
  (`LoopRunTimeNonNegative`).

## Model

| member | source | states |
|---|---|---|
| `VirtualClock.Step` | Net7/debuggerBreakTime/Debuger.cs:40-50 | A gap below 2000 ticks adds exactly the gap to `runTime` and leaves `breakingTime` alone. A longer gap adds the whole gap to `breakingTime` and sets `runTime` to max(0, runTime - gap). `lastCheck` becomes the sample. `breakingTime` never decreases. From a non-negative run accumulator, `runTime` stays non-negative on a forward step and does not grow on a pause. The monitoring-time corrected clock advances by the running part of the gap only. |
| `VirtualClock.Loop` | Net7/debuggerBreakTime/Debuger.cs:38-54 | The loop takes at most the samples it is given. `breakingTime` never decreases. It is still running only if every sample was taken and `runTime` is below the cooldown. When it stops, `runTime` is zero. |
| `VirtualClock.Activated` | Net7/debuggerBreakTime/Debuger.cs:60-73 | With no debugger attached, or a monitor already running, the state is unchanged. Otherwise the monitor starts with the current time as its first sample. The pause total and run accumulator are kept, and the corrected clock does not move at the activation instant. |
| `VirtualClock.PollStep` | Net7/debuggerBreakTime/Debuger.cs:93-99 | The lazy step fires if and only if the corrected clock moved by more than the tolerance and no monitor runs. It changes the state only when it fires with a debugger attached, and then the monitor is running from the gate's sample. `lastTime` becomes the corrected clock read at the refresh. |
| `MonitorAccounting.PauseTotal` | Net7/debuggerBreakTime/Debuger.cs:44-48 | The time credited to pauses over any stream is never negative, so `breakingTime` only grows. |
| `MonitorAccounting.Telescope` | Net7/debuggerBreakTime/Debuger.cs:41-50 | Each gap is classified as either pause or running: the pause total plus the running total equals the last sample minus the start. |
| `MonitorAccounting.NoPauseIffAllRunning` | Net7/debuggerBreakTime/Debuger.cs:42-48 | The pause total is zero if and only if every gap is below the threshold. |
| `MonitorAccounting.LoopAccounting` | Net7/debuggerBreakTime/Debuger.cs:38-51 | Over the samples the loop took, `breakingTime` grew by exactly the pause total and `lastCheck` is the last sample taken. The corrected clock (`lastCheck - breakingTime`) advanced by exactly the running total. |
| `MonitorAccounting.RunningOnlyKeepsBreakingTime` | Net7/debuggerBreakTime/Debuger.cs:42-43 | A stream made only of sub-threshold gaps leaves `breakingTime` at its starting value. |
| `MonitorAccounting.LoopRunTimeNonNegative` | Net7/debuggerBreakTime/Debuger.cs:42-47 | If the clock never goes back and `runTime` starts non-negative, it is non-negative when the loop ends. |
| `MonitorAccounting.BackwardJumpMakesRunTimeNegative` | Net7/debuggerBreakTime/Debuger.cs:42-43 | From a zero run accumulator, a clock that steps back by 1000 ticks makes `runTime` equal -1000, because the clamp exists only on the pause branch. |
| `MonitorAccounting.StopsOnlyAfterCooldown` | Net7/debuggerBreakTime/Debuger.cs:39-47 | A necessary condition, for clocks that never go back: the monitor stops only after the samples it took contain at least `cooldown - runTime` ticks of normal running. The exact exit rule is `LoopStopsAtCooldown`. |
| `VirtualClock.Run` | Net7/debuggerBreakTime/Debuger.cs:39-51 | Stepping through any samples keeps the monitoring flag, never lowers `breakingTime`, and leaves `lastCheck` at the last sample. |
| `MonitorAccounting.LoopStopsAtCooldown` | Net7/debuggerBreakTime/Debuger.cs:39-53 | For every clock: before each sample the loop takes, the run accumulator after the previous samples is below the cooldown. When the loop stops, the samples it took bring `runTime` to at least the cooldown, and the final state is that state with `runTime` reset to zero and monitoring off. If it is still running, its state is the result of stepping through every sample. |
| `MonitorAccounting.RunAllRunning` | Net7/debuggerBreakTime/Debuger.cs:42-43 | While every gap is below the threshold, `runTime` is its starting value plus the running total. |
| `MonitorAccounting.RunningOnlyReachesCooldown` | Net7/debuggerBreakTime/Debuger.cs:39-43 | Any stream of only sub-threshold gaps whose running total reaches `cooldown - runTime` stops the monitor. |
| `MonitorAccounting.SteadyRunning` | Net7/debuggerBreakTime/Debuger.cs:38-54 | A clock advancing by a steady sub-threshold step makes the monitor stop at the first sample that brings `runTime` to the cooldown, with `breakingTime` unchanged. |
| `MonitorAccounting.FiveSecondsOfSteadyRunning` | Net7/debuggerBreakTime/Debuger.cs:29-54 | Consider 500-tick steps under the default five-second cooldown, starting from `runTime = 0`. The monitor stops after exactly 100,000 samples and counts no pause. |
| `MonitorAccounting.FiftyMillisecondJump` | Net7/debuggerBreakTime/Debuger.cs:44-49 | A single 50 ms (500,000-tick) jump while monitoring adds exactly 500,000 ticks to `breakingTime` and leaves the monitor running. |
| `MonitorAccounting.ActivationIdempotent` | Net7/debuggerBreakTime/Debuger.cs:62-69 | Passing the gate a second time, at any later instant, changes nothing. |
| `DebuggerBreakTime.Debuger.constructor` | Net7/debuggerBreakTime/Debuger.cs:29-37 | Static initialisation sets zero pause time, zero run time, the first wall-clock reading as `lastCheck`, no monitor, a five-second cooldown and no lazy monitor. |
| `DebuggerBreakTime.Debuger.Now` | Net7/debuggerBreakTime/Debuger.cs:20-27 | When idle, the corrected clock is the wall clock less `BreakTime()`. While monitoring it is `lastCheck` less `BreakTime()`, whatever the wall clock reads. |
| `DebuggerBreakTime.Debuger.MonitorLoop` | Net7/debuggerBreakTime/Debuger.cs:38-54 | The new state and the number of samples taken are those of `Loop`. `breakingTime` grows by the pause total of the samples taken, and `lastCheck` is the last of them. With a clock that never goes back, `runTime` ends non-negative; the loop invariant keeps it so after every iteration. |
| `DebuggerBreakTime.Debuger.Break` | Net7/debuggerBreakTime/Debuger.cs:60-73 | The new state is `Activated` of the old one. A monitor it starts begins at `wall` with `runTime` zero. The gate returns the interactive break if and only if a debugger is attached. The corrected clock read at that instant is unchanged. |
| `DebuggerBreakTime.Debuger.StartLazyMonitor` | Net7/debuggerBreakTime/Debuger.cs:76-79 | A second start fails with `AlreadyStarted` and keeps the existing lazy monitor. A first start creates one whose tolerance is twice the refresh interval. |
| `DebuggerBreakTime.DebuggerLazyMonitor.constructor` | Net7/debuggerBreakTime/Debuger.cs:89-92 | The tolerance is twice the sleep time, and `lastTime` is the corrected clock at the task's first reading. |
| `DebuggerBreakTime.DebuggerLazyMonitor.Poll` | Net7/debuggerBreakTime/Debuger.cs:93-100 | One iteration moves the helper's state and `lastTime` as `PollStep` says. It stores the gate's action only when the step fires. |

## Left out

- Threads (`Thread`, `Task.Run`, `Thread.Sleep`), the `lock(sync)` and the unlocked reads from other threads are not modelled. Each operation is one atomic step, and the monitor thread's body is a method the caller runs after `Break`. Interleavings of the monitor with readers, or with a `cooldown` changed mid-loop, are not captured.
- `DateTime.Now` is not modelled as a real clock. Its readings are parameters: a finite sample sequence for the loop, and one argument per reading elsewhere.
- `Debugger.IsAttached` becomes a boolean argument. `Debugger.Break` becomes the token `DebuggerBreak`, and invoking it is not modelled.
- The lazy monitor's `while (true)` loop is not modelled as a loop. Only one iteration is modelled (`Poll`), together with its first clock reading (the constructor's `now`).
- `DebuggerBreakTime.Debuger.MonitorLoop` stops when its samples run out, even if the cooldown has not been reached. The monitor then stays running, and a further call continues it.
- Ticks are unbounded integers. The `OverflowException` of 64-bit `TimeSpan` arithmetic is not modelled, and neither is the out-of-range error of `DateTime` subtraction.
- How accurately the heuristic detects real pauses is not modelled.
- `RelativeImageSource/view/ImageContainer.xaml.cs` is not part of this model. It is user-interface code with no logic of the helper.
