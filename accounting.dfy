/** Independent accounts of a stream of samples, and what the monitor loop
    does in terms of them: every gap is either running time or pause time,
    the pause total is exactly what `breakingTime` gains, and the corrected
    clock advances by exactly the running total. */
module MonitorAccounting {
  import opened VirtualClock

  /** Sum of the gaps of at least `LoopCheckInterval`, starting after `start`. */
  function PauseTotal(start: int, xs: seq<int>): (t: int)
    ensures t >= 0
    decreases |xs|
  {
    if xs == [] then 0
    else (if xs[0] - start >= LoopCheckInterval then xs[0] - start else 0) + PauseTotal(xs[0], xs[1..])
  }

  /** Sum of the gaps shorter than `LoopCheckInterval`, starting after `start`. */
  function RunningTotal(start: int, xs: seq<int>): int
    decreases |xs|
  {
    if xs == [] then 0
    else (if xs[0] - start < LoopCheckInterval then xs[0] - start else 0) + RunningTotal(xs[0], xs[1..])
  }

  /** The last sample taken, or `start` when none was. */
  function Last(start: int, xs: seq<int>): int {
    if xs == [] then start else xs[|xs| - 1]
  }

  /** No sample is earlier than the one before it. */
  predicate NonDecreasing(start: int, xs: seq<int>)
    decreases |xs|
  {
    xs == [] || (start <= xs[0] && NonDecreasing(xs[0], xs[1..]))
  }

  /** Every gap is shorter than `LoopCheckInterval`. */
  predicate AllRunning(start: int, xs: seq<int>)
    decreases |xs|
  {
    xs == [] || (xs[0] - start < LoopCheckInterval && AllRunning(xs[0], xs[1..]))
  }

  /** Every gap is classified one way or the other: the two totals add up to the elapsed time. */
  lemma {:induction false} Telescope(start: int, xs: seq<int>)
    ensures PauseTotal(start, xs) + RunningTotal(start, xs) == Last(start, xs) - start
    decreases |xs|
  {
    if xs != [] {
      Telescope(xs[0], xs[1..]);
      assert Last(xs[0], xs[1..]) == Last(start, xs);
    }
  }

  /** No pause is counted exactly when no gap reaches the threshold. */
  lemma {:induction false} NoPauseIffAllRunning(start: int, xs: seq<int>)
    ensures PauseTotal(start, xs) == 0 <==> AllRunning(start, xs)
    decreases |xs|
  {
    if xs != [] {
      NoPauseIffAllRunning(xs[0], xs[1..]);
    }
  }

  lemma TakeSplit(xs: seq<int>, k: nat)
    requires 0 < k <= |xs|
    ensures xs[..k][0] == xs[0] && xs[..k][1..] == xs[1..][..k - 1]
  {
  }

  /** What the loop did, in terms of the samples it took: `breakingTime` gained
      exactly the pause total, `lastCheck` is the last sample taken, and the
      corrected clock advanced by exactly the running total. */
  lemma {:induction false} LoopAccounting(s: Monitor, samples: seq<int>, cooldown: int)
    requires s.monitoring
    ensures var r := Loop(s, samples, cooldown);
            var taken := samples[..r.consumed];
            r.state.breakingTime == s.breakingTime + PauseTotal(s.lastCheck, taken) &&
            r.state.lastCheck == Last(s.lastCheck, taken) &&
            r.state.lastCheck - r.state.breakingTime ==
              s.lastCheck - s.breakingTime + RunningTotal(s.lastCheck, taken)
    decreases |samples|
  {
    var r := Loop(s, samples, cooldown);
    if s.runTime < cooldown && samples != [] {
      var t := Step(s, samples[0]);
      LoopAccounting(t, samples[1..], cooldown);
      TakeSplit(samples, r.consumed);
      var taken := samples[..r.consumed];
      assert Last(t.lastCheck, taken[1..]) == Last(s.lastCheck, taken);
    }
  }

  /** A stream with no gap of `LoopCheckInterval` or more leaves the pause total where it was. */
  lemma {:induction false} RunningOnlyKeepsBreakingTime(s: Monitor, samples: seq<int>, cooldown: int)
    requires s.monitoring && AllRunning(s.lastCheck, samples)
    ensures Loop(s, samples, cooldown).state.breakingTime == s.breakingTime
    decreases |samples|
  {
    if s.runTime < cooldown && samples != [] {
      RunningOnlyKeepsBreakingTime(Step(s, samples[0]), samples[1..], cooldown);
    }
  }

  /** With a clock that never goes back, the run accumulator is never negative. */
  lemma {:induction false} LoopRunTimeNonNegative(s: Monitor, samples: seq<int>, cooldown: int)
    requires s.monitoring && s.runTime >= 0 && NonDecreasing(s.lastCheck, samples)
    ensures Loop(s, samples, cooldown).state.runTime >= 0
    decreases |samples|
  {
    if s.runTime < cooldown && samples != [] {
      LoopRunTimeNonNegative(Step(s, samples[0]), samples[1..], cooldown);
    }
  }

  /** The clamp is only on the pause branch: one step back in time makes the run accumulator negative. */
  lemma BackwardJumpMakesRunTimeNegative()
    ensures Step(Monitor(0, 0, 10_000, true), 9_000).runTime == -1_000
  {
  }

  /** The exit rule of the loop, for every clock: the monitor stops right after
      the first sample that brings the run accumulator to the cooldown, having
      taken exactly those samples; it is still running only if no prefix of the
      samples reached the cooldown. */
  lemma {:induction false} LoopStopsAtCooldown(s: Monitor, samples: seq<int>, cooldown: int)
    requires s.monitoring
    ensures var r := Loop(s, samples, cooldown);
            forall j :: 0 <= j < r.consumed ==> Run(s, samples[..j]).runTime < cooldown
    ensures var r := Loop(s, samples, cooldown);
            !r.state.monitoring ==>
              Run(s, samples[..r.consumed]).runTime >= cooldown &&
              r.state == Run(s, samples[..r.consumed]).(runTime := 0, monitoring := false)
    ensures var r := Loop(s, samples, cooldown);
            r.state.monitoring ==> r.state == Run(s, samples)
    decreases |samples|
  {
    var r := Loop(s, samples, cooldown);
    if s.runTime < cooldown && samples != [] {
      var t := Step(s, samples[0]);
      LoopStopsAtCooldown(t, samples[1..], cooldown);
      TakeSplit(samples, r.consumed);
      forall j | 0 <= j < r.consumed
        ensures Run(s, samples[..j]).runTime < cooldown
      {
        if j > 0 {
          TakeSplit(samples, j);
        }
      }
      assert samples[..|samples|] == samples;
    }
  }

  /** While every gap is below the threshold, the run accumulator is the
      starting value plus the running total. */
  lemma {:induction false} RunAllRunning(s: Monitor, xs: seq<int>)
    requires AllRunning(s.lastCheck, xs)
    ensures Run(s, xs).runTime == s.runTime + RunningTotal(s.lastCheck, xs)
    decreases |xs|
  {
    if xs != [] {
      RunAllRunning(Step(s, xs[0]), xs[1..]);
    }
  }

  /** A stream of only sub-threshold gaps whose running total reaches the
      cooldown (less what had already run) always stops the monitor. */
  lemma RunningOnlyReachesCooldown(s: Monitor, samples: seq<int>, cooldown: int)
    requires s.monitoring && AllRunning(s.lastCheck, samples)
    requires s.runTime + RunningTotal(s.lastCheck, samples) >= cooldown
    ensures !Loop(s, samples, cooldown).state.monitoring
  {
    LoopStopsAtCooldown(s, samples, cooldown);
    RunAllRunning(s, samples);
  }

  /** With a clock that never goes back, the monitor stops only after the
      samples it took hold at least `cooldown` (less what had already run) of normal running. */
  lemma {:induction false} StopsOnlyAfterCooldown(s: Monitor, samples: seq<int>, cooldown: int)
    requires s.monitoring && s.runTime >= 0 && NonDecreasing(s.lastCheck, samples)
    ensures var r := Loop(s, samples, cooldown);
            !r.state.monitoring ==> RunningTotal(s.lastCheck, samples[..r.consumed]) >= cooldown - s.runTime
    decreases |samples|
  {
    var r := Loop(s, samples, cooldown);
    if s.runTime < cooldown && samples != [] {
      StopsOnlyAfterCooldown(Step(s, samples[0]), samples[1..], cooldown);
      TakeSplit(samples, r.consumed);
    }
  }

  /** `k` samples `d` ticks apart, the first `d` after `start`. */
  function Ramp(start: int, d: int, k: nat): (r: seq<int>)
    ensures |r| == k
    ensures forall i :: 0 <= i < k ==> r[i] == start + d * (i + 1)
    decreases k
  {
    if k == 0 then [] else [start + d] + Ramp(start + d, d, k - 1)
  }

  /** A clock that advances by a steady step below the threshold: the monitor
      counts no pause and stops at the first sample that brings the run
      accumulator to the cooldown. */
  lemma {:induction false} SteadyRunning(s: Monitor, d: int, k: nat, cooldown: int)
    requires s.monitoring && 0 < d < LoopCheckInterval && 0 <= s.runTime
    requires s.runTime + d * k >= cooldown
    ensures var r := Loop(s, Ramp(s.lastCheck, d, k), cooldown);
            !r.state.monitoring && r.state.breakingTime == s.breakingTime &&
            s.runTime + d * r.consumed >= cooldown &&
            (r.consumed == 0 || s.runTime + d * (r.consumed - 1) < cooldown)
    decreases k
  {
    var xs := Ramp(s.lastCheck, d, k);
    if s.runTime < cooldown {
      assert k != 0 by { MulStep(d, 0); }
      var t := Step(s, xs[0]);
      assert t == s.(runTime := s.runTime + d, lastCheck := s.lastCheck + d);
      assert xs[1..] == Ramp(s.lastCheck + d, d, k - 1);
      MulStep(d, k - 1);
      SteadyRunning(t, d, k - 1, cooldown);
      var c := Loop(t, xs[1..], cooldown).consumed;
      MulStep(d, c);
      if c > 0 { MulStep(d, c - 1); } else { MulStep(d, -1); }
    }
  }

  lemma MulStep(d: int, c: int)
    ensures d * (c + 1) == d * c + d && d * 0 == 0
  {
  }

  /** A clock advancing in 500-tick steps for five seconds under the default
      cooldown: the monitor stops after exactly the 100,000th sample and counts no pause. */
  lemma FiveSecondsOfSteadyRunning(s: Monitor)
    requires s.monitoring && s.runTime == 0
    ensures var r := Loop(s, Ramp(s.lastCheck, 500, 100_000), DefaultCooldown);
            !r.state.monitoring && r.state.breakingTime == s.breakingTime && r.consumed == 100_000
  {
    SteadyRunning(s, 500, 100_000, DefaultCooldown);
  }

  /** A single 50 ms jump while monitoring is credited to the pause total in
      full and does not bring the run accumulator to the cooldown. */
  lemma FiftyMillisecondJump(s: Monitor)
    requires s.monitoring && 0 <= s.runTime < DefaultCooldown
    ensures var r := Loop(s, [s.lastCheck + 500_000], DefaultCooldown);
            r.state.breakingTime == s.breakingTime + 500_000 && r.state.monitoring && r.consumed == 1
  {
    var t := Step(s, s.lastCheck + 500_000);
    assert Loop(t, [], DefaultCooldown) == LoopResult(t, 0);
  }

  /** Activation is idempotent: passing the gate again, at any later time, changes nothing. */
  lemma ActivationIdempotent(s: Monitor, attached: bool, wall: int, later: int)
    ensures Activated(Activated(s, attached, wall), attached, later) == Activated(s, attached, wall)
  {
    var once := Activated(s, attached, wall);
    assert !attached ==> once == s;
    assert attached ==> once.monitoring;
  }
}
