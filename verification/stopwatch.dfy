/** The stopwatch: a state `{running, startTime, elapsed, laps}` changed
    by the start/stop button, the reset button, the lap button and the
    animation-frame tick. Times are integer milliseconds of the monotonic
    page clock; every operation that reads the clock takes the reading as
    the parameter `now`. */
module Stopwatch {

  /** One recorded lap: its 1-based number, the elapsed time when it was
      recorded and the difference from the previous lap's time. */
  datatype Lap = Lap(number: int, time: int, split: int)

  datatype State = State(running: bool, startTime: int, elapsed: int, laps: seq<Lap>)

  /** The state when the page loads. */
  const Initial := State(false, 0, 0, [])

  /** The time of the last lap, or 0 before the first. */
  function PreviousTime(laps: seq<Lap>): int {
    if laps == [] then 0 else laps[|laps| - 1].time
  }

  /** Lap numbers run 1, 2, 3, ... and each split is the difference
      between the lap's time and the previous lap's (0 before the first). */
  predicate LapsWellFormed(laps: seq<Lap>) {
    forall i :: 0 <= i < |laps| ==>
      && laps[i].number == i + 1
      && laps[i].split == laps[i].time - PreviousTime(laps[..i])
  }

  /** `updateStopwatchLoop`: while running, the elapsed time becomes the
      distance from the start reference to the clock reading; otherwise
      nothing changes. */
  function Tick(sw: State, now: int): (r: State)
    ensures !sw.running ==> r == sw
    ensures sw.running ==> r.running && r.startTime + r.elapsed == now
    ensures r.startTime == sw.startTime && r.laps == sw.laps
  {
    if !sw.running then sw else sw.(elapsed := now - sw.startTime)
  }

  /** `stopStopwatch`: stops without reading the clock, so the elapsed
      time stays what the last tick made it. */
  function Stop(sw: State): (r: State)
    ensures !r.running
    ensures r.elapsed == sw.elapsed && r.laps == sw.laps && r.startTime == sw.startTime
  {
    sw.(running := false)
  }

  /** `startStopwatch`, the start/stop button: when stopped, starts with
      the reference `now - elapsed` so that time accumulated by earlier
      runs is kept; when running, stops. */
  function Start(sw: State, now: int): (r: State)
    ensures !sw.running ==> r.running && r.startTime + r.elapsed == now
    ensures sw.running ==> r == Stop(sw)
    ensures r.elapsed == sw.elapsed && r.laps == sw.laps
  {
    if !sw.running then sw.(startTime := now - sw.elapsed, running := true) else Stop(sw)
  }

  /** `resetStopwatch`: stops (also when running) and clears elapsed time
      and laps. */
  function Reset(sw: State): (r: State)
    ensures !r.running && r.elapsed == 0 && r.laps == []
  {
    Stop(sw).(elapsed := 0, laps := [])
  }

  /** `recordLap`: does nothing unless running; otherwise appends a lap
      numbered one past the last, timed with the elapsed value of the last
      tick, with its split from the previous lap. */
  function RecordLap(sw: State): (r: State)
    ensures !sw.running ==> r == sw
    ensures r.running == sw.running && r.startTime == sw.startTime && r.elapsed == sw.elapsed
    ensures sw.running ==> |r.laps| == |sw.laps| + 1 && r.laps[..|sw.laps|] == sw.laps
    ensures sw.running ==>
      r.laps[|sw.laps|] == Lap(|sw.laps| + 1, sw.elapsed, sw.elapsed - PreviousTime(sw.laps))
  {
    if !sw.running then sw
    else
      var lap := Lap(|sw.laps| + 1, sw.elapsed, sw.elapsed - PreviousTime(sw.laps));
      var r := sw.(laps := sw.laps + [lap]);
      assert r.laps[..|sw.laps|] == sw.laps;
      r
  }

  /** Recording a lap keeps the lap list well formed. */
  lemma RecordLapWellFormed(sw: State)
    requires LapsWellFormed(sw.laps)
    ensures LapsWellFormed(RecordLap(sw).laps)
  {
    var laps := RecordLap(sw).laps;
    forall i | 0 <= i < |laps|
      ensures laps[i].number == i + 1
      ensures laps[i].split == laps[i].time - PreviousTime(laps[..i])
    {
      assert laps[..i] == sw.laps[..i] || i == |sw.laps|;
      if i == |sw.laps| {
        assert laps[..i] == sw.laps;
      }
    }
  }

  /** The sum of the splits of a lap list. */
  function SumSplits(laps: seq<Lap>): int {
    if laps == [] then 0 else SumSplits(laps[..|laps| - 1]) + laps[|laps| - 1].split
  }

  /** The splits of a well-formed lap list add up to the last lap's time. */
  lemma {:induction false} SplitsSumToLastTime(laps: seq<Lap>)
    requires LapsWellFormed(laps)
    ensures SumSplits(laps) == PreviousTime(laps)
  {
    if laps != [] {
      var init := laps[..|laps| - 1];
      assert LapsWellFormed(init) by {
        forall i | 0 <= i < |init|
          ensures init[i].number == i + 1
          ensures init[i].split == init[i].time - PreviousTime(init[..i])
        {
          assert init[..i] == laps[..i];
        }
      }
      SplitsSumToLastTime(init);
      assert laps[..|laps| - 1] == init;
    }
  }

  /** What every reachable state satisfies, given the latest clock reading
      `clock`: elapsed time is not negative; while running, the elapsed
      time was measured at a reading no later than `clock`; the laps are
      well formed, their splits are not negative and the last lap's time
      does not exceed the elapsed time. */
  predicate Valid(sw: State, clock: int) {
    && sw.elapsed >= 0
    && (sw.running ==> sw.startTime + sw.elapsed <= clock)
    && LapsWellFormed(sw.laps)
    && (forall i :: 0 <= i < |sw.laps| ==> sw.laps[i].split >= 0)
    && PreviousTime(sw.laps) <= sw.elapsed
  }

  lemma InitialValid(clock: int)
    ensures Valid(Initial, clock)
  {
  }

  /** A user action or a frame callback. The clock is read by the
      start/stop button and by the tick. */
  datatype Event = StartStop(now: int) | LapButton | ResetButton | Frame(now: int)

  /** The clock reading after an event, given the previous one. */
  function ClockAfter(e: Event, clock: int): int {
    match e
    case StartStop(now) => now
    case Frame(now) => now
    case _ => clock
  }

  /** One event. Only reset removes laps; only the lap button adds one;
      the lap button and reset do not read the clock. */
  function Step(sw: State, e: Event): (r: State)
    ensures !e.ResetButton? ==> |sw.laps| <= |r.laps| && r.laps[..|sw.laps|] == sw.laps
    ensures !e.LapButton? && !e.ResetButton? ==> r.laps == sw.laps
    ensures e.LapButton? && sw.running ==> |r.laps| == |sw.laps| + 1 && r.laps[|sw.laps|].time == sw.elapsed
    ensures e.LapButton? ==> r.elapsed == sw.elapsed && r.running == sw.running
    ensures e.ResetButton? ==> !r.running && r.elapsed == 0 && r.laps == []
  {
    match e
    case StartStop(now) => Start(sw, now)
    case LapButton => RecordLap(sw)
    case ResetButton => Reset(sw)
    case Frame(now) => Tick(sw, now)
  }

  /** With a clock that does not go backwards, every event keeps the state
      valid, and every event other than reset leaves the elapsed time no
      smaller than it was. */
  lemma StepPreservesValid(sw: State, clock: int, e: Event)
    requires Valid(sw, clock)
    requires ClockAfter(e, clock) >= clock
    ensures Valid(Step(sw, e), ClockAfter(e, clock))
    ensures !e.ResetButton? ==> Step(sw, e).elapsed >= sw.elapsed
  {
    match e
    case LapButton =>
      RecordLapWellFormed(sw);
      var r := RecordLap(sw);
      if sw.running {
        forall i | 0 <= i < |r.laps|
          ensures r.laps[i].split >= 0
        {
          if i < |sw.laps| {
            assert r.laps[i] == sw.laps[i];
          }
        }
      }
    case _ =>
  }

  /** Events applied in order. */
  function Run(sw: State, es: seq<Event>): State
    decreases |es|
  {
    if es == [] then sw else Run(Step(sw, es[0]), es[1..])
  }

  /** Clock readings in a sequence of events never go below `clock` and
      never go backwards. */
  predicate ClockMonotone(es: seq<Event>, clock: int)
    decreases |es|
  {
    es == [] || (ClockAfter(es[0], clock) >= clock && ClockMonotone(es[1..], ClockAfter(es[0], clock)))
  }

  /** The last clock reading after a sequence of events. */
  function LastClock(es: seq<Event>, clock: int): int
    decreases |es|
  {
    if es == [] then clock else LastClock(es[1..], ClockAfter(es[0], clock))
  }

  /** Over any run with a clock that does not go backwards, the state
      stays valid, and without a reset the elapsed time never decreases. */
  lemma {:induction false} RunPreservesValid(sw: State, clock: int, es: seq<Event>)
    requires Valid(sw, clock)
    requires ClockMonotone(es, clock)
    ensures Valid(Run(sw, es), LastClock(es, clock))
    ensures (forall i :: 0 <= i < |es| ==> !es[i].ResetButton?) ==> Run(sw, es).elapsed >= sw.elapsed
    decreases |es|
  {
    if es != [] {
      StepPreservesValid(sw, clock, es[0]);
      RunPreservesValid(Step(sw, es[0]), ClockAfter(es[0], clock), es[1..]);
      if forall i :: 0 <= i < |es| ==> !es[i].ResetButton? {
        assert forall i :: 0 <= i < |es[1..]| ==> !es[1..][i].ResetButton? by {
          forall i | 0 <= i < |es[1..]|
            ensures !es[1..][i].ResetButton?
          {
            assert es[1..][i] == es[i + 1];
          }
        }
      }
    }
  }

  /** In a reachable state the splits of the recorded laps add up to the
      last lap's time, and no split is negative. */
  lemma ReachableLaps(es: seq<Event>, clock: int)
    requires ClockMonotone(es, clock)
    ensures SumSplits(Run(Initial, es).laps) == PreviousTime(Run(Initial, es).laps)
    ensures forall i :: 0 <= i < |Run(Initial, es).laps| ==> Run(Initial, es).laps[i].split >= 0
  {
    InitialValid(clock);
    RunPreservesValid(Initial, clock, es);
    SplitsSumToLastTime(Run(Initial, es).laps);
  }

  /** Starting at `now` and ticking at the same `now` reproduces the time
      accumulated before the start. */
  lemma ResumeKeepsElapsed(sw: State, now: int)
    requires !sw.running
    ensures Tick(Start(sw, now), now).elapsed == sw.elapsed
    ensures Tick(Start(sw, now), now).running
  {
  }

  /** With a clock that does not go backwards, a later tick never shows
      less elapsed time than an earlier one. */
  lemma TicksNonDecreasing(sw: State, now1: int, now2: int)
    requires now1 <= now2
    ensures Tick(Tick(sw, now1), now2).elapsed >= Tick(sw, now1).elapsed
  {
  }

  /** A tick at `now` followed by the lap button, from a running state:
      the new lap's time is the tick's elapsed value. */
  lemma TickThenLap(sw: State, now: int)
    requires sw.running
    ensures RecordLap(Tick(sw, now)).laps ==
      sw.laps + [Lap.Lap(|sw.laps| + 1, now - sw.startTime, now - sw.startTime - PreviousTime(sw.laps))]
    ensures RecordLap(Tick(sw, now)).running && RecordLap(Tick(sw, now)).startTime == sw.startTime
  {
  }

  /** The scenario, first part: start at 0, tick at 1500 ms, lap. The
      lap is (1, 1500, 1500). */
  lemma LapScenarioFirst()
    ensures RecordLap(Tick(Start(Initial, 0), 1500)) == State(true, 0, 1500, [Lap.Lap(1, 1500, 1500)])
  {
    TickThenLap(Start(Initial, 0), 1500);
  }

  /** The scenario, second part: tick at 2500 ms and lap again; the
      second lap is (2, 2500, 1000). Stopping and resetting then leaves no
      laps and no elapsed time. */
  lemma LapScenarioSecond()
    ensures RecordLap(Tick(State(true, 0, 1500, [Lap.Lap(1, 1500, 1500)]), 2500)).laps
         == [Lap.Lap(1, 1500, 1500), Lap.Lap(2, 2500, 1000)]
    ensures Reset(Start(RecordLap(Tick(State(true, 0, 1500, [Lap.Lap(1, 1500, 1500)]), 2500)), 2600))
         == State(false, 0, 0, [])
  {
    TickThenLap(State(true, 0, 1500, [Lap.Lap(1, 1500, 1500)]), 2500);
  }
}
