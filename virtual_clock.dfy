/** The break-time monitor's state as a value, and the pure rules that change it.
    All times are .NET ticks (100 ns); a `DateTime` is its tick count and a
    `TimeSpan` its signed tick length, so every quantity is an integer. */
module VirtualClock {

  /** Largest gap between two consecutive samples that still counts as normal running. */
  const LoopCheckInterval: int := 2000
  /** `TimeSpan.FromSeconds(5)`: the default stretch of normal running after which the monitor stops. */
  const DefaultCooldown: int := 50_000_000

  datatype Option<T> = None | Some(value: T)

  /** What the activation gate hands back: nothing to do, or the host's interactive break. */
  datatype BreakAction = NoOp | DebuggerBreak

  /** The static fields of the debugger helper: accumulated pause time, the
      recent-run accumulator, the last sample taken and whether a monitor is running. */
  datatype Monitor = Monitor(breakingTime: int, runTime: int, lastCheck: int, monitoring: bool)
  {
    /** The corrected clock, given the raw wall-clock reading. */
    function Now(wall: int): int {
      if monitoring then lastCheck - breakingTime else wall - breakingTime
    }
  }

  function Max(a: int, b: int): int { if a < b then b else a }

  /** One iteration of the monitor loop on the sample `n`. */
  function Step(s: Monitor, n: int): (r: Monitor)
    ensures r.lastCheck == n && r.monitoring == s.monitoring
    // a short gap is running time and leaves the pause total alone
    ensures n - s.lastCheck < LoopCheckInterval ==>
              r.runTime == s.runTime + (n - s.lastCheck) && r.breakingTime == s.breakingTime
    // a long gap is credited to the pause total in full and taken off the run accumulator, not below zero
    ensures n - s.lastCheck >= LoopCheckInterval ==>
              r.breakingTime == s.breakingTime + (n - s.lastCheck) &&
              r.runTime == Max(0, s.runTime - (n - s.lastCheck))
    ensures r.breakingTime >= s.breakingTime
    ensures s.runTime >= 0 && s.lastCheck <= n ==> 0 <= r.runTime
    ensures s.runTime >= 0 && n - s.lastCheck >= LoopCheckInterval ==> r.runTime <= s.runTime
    // while monitoring, the corrected clock advances by the running part of the gap only
    ensures r.lastCheck - r.breakingTime ==
              s.lastCheck - s.breakingTime + (if n - s.lastCheck < LoopCheckInterval then n - s.lastCheck else 0)
  {
    var e := n - s.lastCheck;
    if e < LoopCheckInterval then
      s.(runTime := s.runTime + e, lastCheck := n)
    else
      var run := s.runTime - e;
      s.(runTime := if run < 0 then 0 else run, breakingTime := s.breakingTime + e, lastCheck := n)
  }

  /** The state after stepping through every sample, with no cooldown test. */
  function Run(s: Monitor, xs: seq<int>): (r: Monitor)
    ensures r.monitoring == s.monitoring && r.breakingTime >= s.breakingTime
    ensures xs != [] ==> r.lastCheck == xs[|xs| - 1]
    decreases |xs|
  {
    if xs == [] then s else Run(Step(s, xs[0]), xs[1..])
  }

  /** The outcome of running the monitor loop over a finite stream of samples:
      the final state and how many samples the loop took. */
  datatype LoopResult = LoopResult(state: Monitor, consumed: nat)

  /** The monitor loop: step while the run accumulator is below the cooldown;
      once it reaches the cooldown, reset it and stop monitoring. If the samples
      run out first the loop is still running in the returned state. */
  function Loop(s: Monitor, samples: seq<int>, cooldown: int): (r: LoopResult)
    requires s.monitoring
    ensures r.consumed <= |samples|
    ensures r.state.breakingTime >= s.breakingTime
    // still running only when every sample was taken and the cooldown not reached
    ensures r.state.monitoring ==> r.consumed == |samples| && r.state.runTime < cooldown
    ensures !r.state.monitoring ==> r.state.runTime == 0
    decreases |samples|
  {
    if s.runTime >= cooldown then
      LoopResult(s.(runTime := 0, monitoring := false), 0)
    else if samples == [] then
      LoopResult(s, 0)
    else
      var rest := Loop(Step(s, samples[0]), samples[1..], cooldown);
      LoopResult(rest.state, rest.consumed + 1)
  }

  /** The activation gate's effect on the state: with a debugger attached and
      no monitor running, take the current time as the first sample and start one. */
  function Activated(s: Monitor, attached: bool, wall: int): (r: Monitor)
    ensures !attached || s.monitoring ==> r == s
    ensures attached ==> r.monitoring
    ensures r.breakingTime == s.breakingTime && r.runTime == s.runTime
    ensures r != s ==> r.lastCheck == wall
    // starting the monitor does not move the corrected clock
    ensures r.Now(wall) == s.Now(wall)
  {
    if !attached || s.monitoring then s else s.(lastCheck := wall, monitoring := true)
  }

  /** The action the activation gate returns. */
  function ActionFor(attached: bool): BreakAction {
    if attached then DebuggerBreak else NoOp
  }

  /** The outcome of one iteration of the lazy monitor's polling loop. */
  datatype PollResult = PollResult(state: Monitor, lastTime: int, fired: bool)

  /** One iteration of the lazy monitor: read the corrected clock at `wallAtRead`;
      if it moved more than `tolerance` since `lastTime` and no monitor runs,
      pass the activation gate (which reads the clock at `wallAtBreak`); then
      remember the corrected clock read at `wallAtRefresh`. */
  function PollStep(s: Monitor, lastTime: int, tolerance: int, attached: bool,
                    wallAtRead: int, wallAtBreak: int, wallAtRefresh: int): (r: PollResult)
    ensures r.fired <==> s.Now(wallAtRead) - lastTime > tolerance && !s.monitoring
    ensures r.state != s ==> r.fired && attached
    ensures r.fired && attached ==> r.state.monitoring && r.state.lastCheck == wallAtBreak
    ensures r.state.breakingTime == s.breakingTime && r.state.runTime == s.runTime
    ensures r.lastTime == r.state.Now(wallAtRefresh)
  {
    var fired := s.Now(wallAtRead) - lastTime > tolerance && !s.monitoring;
    var t := if fired then Activated(s, attached, wallAtBreak) else s;
    PollResult(t, t.Now(wallAtRefresh), fired)
  }
}
