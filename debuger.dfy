/** The debugger helper as the process sees it: the static `Debuger` state with
    its monitor loop, corrected clock and activation gate, and the lazy monitor
    that starts the monitor when the corrected clock drifts. Threads are not
    modelled: a thread's body is a method the caller runs, and every reading of
    the wall clock is a parameter. */
module DebuggerBreakTime {
  import opened VirtualClock
  import opened MonitorAccounting

  /** Outcome of `StartLazyMonitor`; the second start is the source's exception. */
  datatype StartResult = Started | AlreadyStarted

  class Debuger {
    var breakingTime: int
    var runTime: int
    var lastCheck: int
    /** A monitor thread exists (`monitor != null`). */
    var monitoring: bool
    var cooldown: int
    var lazyMonitor: DebuggerLazyMonitor?

    /** The run accumulator is zero whenever no monitor runs. */
    ghost predicate Valid()
      reads this
    {
      !monitoring ==> runTime == 0
    }

    function State(): Monitor
      reads this
    {
      Monitor(breakingTime, runTime, lastCheck, monitoring)
    }

    /** Estimated time spent at breakpoints. */
    function BreakTime(): int
      reads this
    {
      breakingTime
    }

    function IsMonitoring(): bool
      reads this
    {
      monitoring
    }

    /** Static initialisation; `wall` is the wall clock when the type is first used. */
    constructor (wall: int)
      ensures Valid()
      ensures State() == Monitor(0, 0, wall, false)
      ensures cooldown == DefaultCooldown && lazyMonitor == null
    {
      breakingTime, runTime, lastCheck, monitoring := 0, 0, wall, false;
      cooldown := DefaultCooldown;
      lazyMonitor := null;
    }

    /** The corrected clock: the wall clock less the pause total when idle,
        the last monitor sample less the pause total while monitoring. */
    function Now(wall: int): (t: int)
      reads this
      ensures !IsMonitoring() ==> t == wall - BreakTime()
      ensures IsMonitoring() ==> t == lastCheck - BreakTime()
    {
      State().Now(wall)
    }

    /** The monitor thread's body, fed with the wall-clock samples it reads.
        Returns how many samples it took; when they run out before the
        cooldown is reached the monitor is still running. */
    method MonitorLoop(samples: seq<int>) returns (consumed: nat)
      requires Valid() && monitoring
      modifies this`breakingTime, this`runTime, this`lastCheck, this`monitoring
      ensures Valid()
      ensures State() == Loop(old(State()), samples, cooldown).state
      ensures consumed == Loop(old(State()), samples, cooldown).consumed
      ensures breakingTime == old(breakingTime) + PauseTotal(old(lastCheck), samples[..consumed])
      ensures lastCheck == Last(old(lastCheck), samples[..consumed])
      ensures old(runTime) >= 0 && NonDecreasing(old(lastCheck), samples) ==> runTime >= 0
    {
      ghost var s0 := State();
      consumed := 0;
      while runTime < cooldown && consumed < |samples|
        invariant consumed <= |samples| && monitoring
        invariant Loop(s0, samples, cooldown).state == Loop(State(), samples[consumed..], cooldown).state
        invariant Loop(s0, samples, cooldown).consumed == consumed + Loop(State(), samples[consumed..], cooldown).consumed
        invariant s0.runTime >= 0 && NonDecreasing(s0.lastCheck, samples) ==>
                    runTime >= 0 && NonDecreasing(lastCheck, samples[consumed..])
        decreases |samples| - consumed
      {
        ghost var before := State();
        var n := samples[consumed];
        var e := n - lastCheck;
        if e < LoopCheckInterval {
          runTime := runTime + e;
        } else {
          runTime := runTime - e;
          if runTime < 0 {
            runTime := 0;
          }
          breakingTime := breakingTime + e;
        }
        lastCheck := n;
        assert State() == Step(before, n);
        assert samples[consumed..][1..] == samples[consumed + 1..];
        consumed := consumed + 1;
      }
      if runTime >= cooldown {
        runTime := 0;
        monitoring := false;
      }
      LoopAccounting(s0, samples, cooldown);
    }

    /** The activation gate: with a debugger attached and no monitor running,
        take `wall` as the first sample and start the monitor. Returns the
        interactive break when a debugger is attached and a no-op otherwise. */
    method Break(attached: bool, wall: int) returns (action: BreakAction)
      requires Valid()
      modifies this`lastCheck, this`monitoring
      ensures Valid()
      ensures State() == Activated(old(State()), attached, wall)
      ensures action == ActionFor(attached)
      ensures attached && !old(monitoring) ==> monitoring && lastCheck == wall && runTime == 0
      ensures Now(wall) == old(Now(wall))
    {
      if !attached {
        return NoOp;
      }
      if !monitoring {
        lastCheck := wall;
        monitoring := true;
      }
      action := DebuggerBreak;
    }

    /** Creates the lazy monitor, at most once; `wall` is the wall clock when
        the lazy monitor first reads the corrected clock. */
    method StartLazyMonitor(refreshInterval: int, wall: int) returns (r: StartResult)
      modifies this`lazyMonitor
      ensures old(lazyMonitor) != null ==> r == AlreadyStarted && lazyMonitor == old(lazyMonitor)
      ensures old(lazyMonitor) == null ==> r == Started && lazyMonitor != null && fresh(lazyMonitor)
      ensures old(lazyMonitor) == null ==>
                lazyMonitor.tolerance == 2 * refreshInterval &&
                lazyMonitor.lastTime == Now(wall) && lazyMonitor.action == None
    {
      if lazyMonitor != null {
        return AlreadyStarted;
      }
      lazyMonitor := new DebuggerLazyMonitor(refreshInterval, Now(wall));
      r := Started;
    }
  }

  class DebuggerLazyMonitor {
    const tolerance: int
    var lastTime: int
    /** The last action taken from the activation gate, kept and never invoked. */
    var action: Option<BreakAction>

    /** `now` is the corrected clock at the lazy task's first reading. */
    constructor (sleepTime: int, now: int)
      ensures tolerance == 2 * sleepTime && lastTime == now && action == None
    {
      tolerance := 2 * sleepTime;
      lastTime := now;
      action := None;
    }

    /** One iteration of the lazy task's loop, with the wall clock read at
        the drift check, inside the activation gate and at the refresh. */
    method Poll(d: Debuger, attached: bool, wallAtRead: int, wallAtBreak: int, wallAtRefresh: int)
      requires d.Valid()
      modifies this`lastTime, this`action, d`lastCheck, d`monitoring
      ensures d.Valid()
      ensures var p := PollStep(old(d.State()), old(lastTime), tolerance, attached,
                                wallAtRead, wallAtBreak, wallAtRefresh);
              d.State() == p.state && lastTime == p.lastTime &&
              action == (if p.fired then Some(ActionFor(attached)) else old(action))
    {
      var n := d.Now(wallAtRead);
      var e := n - lastTime;
      if e > tolerance && !d.IsMonitoring() {
        var a := d.Break(attached, wallAtBreak);
        action := Some(a);
      }
      lastTime := d.Now(wallAtRefresh);
    }
  }
}
