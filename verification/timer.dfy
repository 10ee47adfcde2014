/** The countdown timer: a state `{running, startTime, duration}` plus
    the three input fields for hours, minutes and seconds, changed by the
    start/stop button, the reset button, the preset buttons, typing into
    a field, and the animation-frame tick. The duration is in whole
    seconds; times are integer milliseconds of the monotonic page clock,
    passed as `now`. */
module Timer {
  import opened JsNumber
  import Format

  /** What `parseInt` makes of an input field's text: a number, or NaN. */
  datatype Field = Num(n: int) | NaN

  /** `parseInt(field.value) || 0`: NaN counts as 0. */
  function Value(f: Field): int {
    if f.Num? then f.n else 0
  }

  datatype Inputs = Inputs(hours: Field, minutes: Field, seconds: Field)

  /** The duration the inputs describe, in seconds, as both the start
      button and the idle display compute it. */
  function Composed(i: Inputs): (d: int)
    ensures FieldsNormal(i) ==> d >= 0 && Format.SplitSeconds(d) == AsHms(i)
    ensures i.hours.NaN? && i.minutes.NaN? && i.seconds.NaN? ==> d == 0
  {
    var d := Value(i.hours) * 3600 + Value(i.minutes) * 60 + Value(i.seconds);
    if FieldsNormal(i) then
      Format.SplitOfNormal(AsHms(i));
      d
    else
      d
  }

  /** The inputs read as hours, minutes and seconds, NaN as 0. */
  function AsHms(i: Inputs): Format.Hms {
    Format.Hms(Value(i.hours), Value(i.minutes), Value(i.seconds))
  }

  /** Every field holds a number, with minutes and seconds below sixty
      and hours not negative. */
  predicate FieldsNormal(i: Inputs) {
    i.hours.Num? && i.minutes.Num? && i.seconds.Num? && Format.Normal(AsHms(i))
  }

  /** The inputs the reset button writes: 0 h, 5 min, 0 s. */
  const ResetInputs := Inputs(Num(0), Num(5), Num(0))

  datatype State = State(running: bool, startTime: int, duration: int, inputs: Inputs)

  /** The state when the page loads, with whatever the fields hold. */
  function Initial(inputs: Inputs): State {
    State(false, 0, 0, inputs)
  }

  /** What a press of the start/stop button did. */
  datatype StartOutcome = Started | Rejected | StoppedRunning

  datatype StartResult = StartResult(next: State, outcome: StartOutcome)

  /** `stopTimer`: stops; duration, start reference and inputs stay. */
  function Stop(t: State): (r: State)
    ensures !r.running
    ensures r.duration == t.duration && r.startTime == t.startTime && r.inputs == t.inputs
  {
    t.(running := false)
  }

  /** `startTimer`, the start/stop button. When stopped, the duration is
      read afresh from the inputs (so a stopped timer restarts from the
      full duration, not from what remained). A duration that is not
      positive is rejected with the timer left stopped; the duration is
      overwritten even then. A positive one starts the countdown at
      `now`. When running, the button stops the timer. */
  function Start(t: State, now: int): (r: StartResult)
    ensures t.running ==> r == StartResult(Stop(t), StoppedRunning)
    ensures !t.running ==> r.next.duration == Composed(t.inputs) && r.next.inputs == t.inputs
    ensures !t.running ==> (r.outcome == Rejected <==> Composed(t.inputs) <= 0)
    ensures !t.running && r.outcome == Rejected ==> !r.next.running && r.next.startTime == t.startTime
    ensures !t.running && r.outcome != Rejected ==>
      r.outcome == Started && r.next.running && r.next.startTime == now
  {
    if t.running then StartResult(Stop(t), StoppedRunning)
    else
      var d := Composed(t.inputs);
      if d <= 0 then StartResult(t.(duration := d), Rejected)
      else StartResult(t.(duration := d, startTime := now, running := true), Started)
  }

  /** `resetTimer`: stops, writes 0/5/0 into the inputs and zeroes the
      duration. */
  function Reset(t: State): (r: State)
    ensures !r.running && r.duration == 0 && r.inputs == ResetInputs
    ensures r.startTime == t.startTime
  {
    Stop(t).(inputs := ResetInputs, duration := 0)
  }

  /** Milliseconds left: the duration minus the time since the start,
      never below zero. */
  function RemainingMs(t: State, now: int): (rem: int)
    ensures rem >= 0
    ensures rem == 0 <==> now - t.startTime >= t.duration * 1000
    ensures rem > 0 ==> rem + (now - t.startTime) == t.duration * 1000
  {
    Max(0, t.duration * 1000 - (now - t.startTime))
  }

  /** What one frame of the countdown shows. */
  datatype Frame = Idle | Show(seconds: int) | Complete

  datatype TickResult = TickResult(next: State, frame: Frame)

  /** `updateTimerLoop` with `timerComplete`: when stopped, nothing
      happens. When running and time is left, the remaining seconds
      rounded up are shown. When no time is left, the timer completes,
      which stops it. */
  function Tick(t: State, now: int): (r: TickResult)
    ensures !t.running ==> r == TickResult(t, Idle)
    ensures t.running && RemainingMs(t, now) > 0 ==>
      r.next == t && r.frame.Show? && (r.frame.seconds - 1) * 1000 < RemainingMs(t, now) <= r.frame.seconds * 1000
    ensures t.running && RemainingMs(t, now) == 0 ==> r == TickResult(Stop(t), Complete)
  {
    if !t.running then TickResult(t, Idle)
    else
      var rem := RemainingMs(t, now);
      if rem <= 0 then TickResult(Stop(t), Complete)
      else TickResult(t, Show(CeilDiv(rem, 1000)))
  }

  /** Which input field an edit is in. */
  datatype Unit = Hours | Minutes | Seconds

  function Limit(u: Unit): int {
    if u == Hours then 23 else 59
  }

  /** The `input` handler of a field: a non-number or a negative number
      becomes 0, more than 23 hours or 59 minutes or seconds becomes the
      limit, and anything else is left as typed. */
  function Clamp(u: Unit, f: Field): (r: Field)
    ensures r.Num? && 0 <= r.n <= Limit(u)
    ensures f.Num? && 0 <= f.n <= Limit(u) ==> r == f
    ensures f.Num? && f.n > Limit(u) ==> r == Num(Limit(u))
    ensures f.NaN? || f.n < 0 ==> r == Num(0)
  {
    if f.NaN? || f.n < 0 then Num(0)
    else if u == Hours && f.n > 23 then Num(23)
    else if (u == Minutes || u == Seconds) && f.n > 59 then Num(59)
    else f
  }

  /** Clamping twice is clamping once. */
  lemma ClampIdempotent(u: Unit, f: Field)
    ensures Clamp(u, Clamp(u, f)) == Clamp(u, f)
  {
  }

  /** Edits a field and applies its `input` handler. */
  function EditField(i: Inputs, u: Unit, typed: Field): (r: Inputs)
    ensures u == Hours ==> r == i.(hours := Clamp(Hours, typed))
    ensures u == Minutes ==> r == i.(minutes := Clamp(Minutes, typed))
    ensures u == Seconds ==> r == i.(seconds := Clamp(Seconds, typed))
  {
    match u
    case Hours => i.(hours := Clamp(u, typed))
    case Minutes => i.(minutes := Clamp(u, typed))
    case Seconds => i.(seconds := Clamp(u, typed))
  }

  /** Inputs that every field's handler has seen describe at most
      23:59:59 and are not negative. */
  lemma ClampedInputsBounded(h: Field, m: Field, s: Field)
    ensures 0 <= Composed(Inputs(Clamp(Hours, h), Clamp(Minutes, m), Clamp(Seconds, s))) <= 86399
  {
  }

  /** `setTimerPreset`: the preset's second count split into the three
      fields the way the timer formatter splits it. A preset that is not
      a number leaves NaN in every field. */
  function PresetInputs(total: Field): (i: Inputs)
    ensures total.NaN? ==> i == Inputs(NaN, NaN, NaN)
    ensures total.Num? && total.n >= 0 ==> FieldsNormal(i) && Composed(i) == total.n
  {
    match total
    case NaN => Inputs(NaN, NaN, NaN)
    case Num(n) =>
      var f := Format.SplitSeconds(n);
      Inputs(Num(f.hours), Num(f.minutes), Num(f.seconds))
  }

  /** A preset button, enabled only while the timer is stopped. */
  function Preset(t: State, total: Field): (r: State)
    ensures r.inputs == PresetInputs(total)
    ensures r.running == t.running && r.duration == t.duration && r.startTime == t.startTime
  {
    t.(inputs := PresetInputs(total))
  }

  /** A non-negative preset written into the fields reads back as the
      same second count, with minutes and seconds below sixty. */
  lemma PresetRoundTrip(total: nat)
    ensures Composed(PresetInputs(Num(total))) == total
    ensures 0 <= Value(PresetInputs(Num(total)).minutes) < 60
    ensures 0 <= Value(PresetInputs(Num(total)).seconds) < 60
  {
  }

  /** Conversely, fields that already hold a normal split are what the
      preset of their duration writes. */
  lemma PresetOfComposed(i: Inputs)
    requires FieldsNormal(i)
    ensures PresetInputs(Num(Composed(i))) == i
  {
  }

  /** After a non-negative preset the next start runs for exactly the
      preset's duration, and the idle display reads back as it. */
  lemma PresetThenStart(t: State, total: nat, now: int)
    requires !t.running && total > 0
    ensures Start(Preset(t, Num(total)), now).outcome == Started
    ensures Start(Preset(t, Num(total)), now).next.duration == total
    ensures Format.ParseHms(Format.FormatTimerTime(Composed(Preset(t, Num(total)).inputs))).Some?
    ensures Format.TotalSeconds(Format.ParseHms(Format.FormatTimerTime(Composed(Preset(t, Num(total)).inputs))).value) == total
  {
    PresetRoundTrip(total);
    Format.TimerTextRoundTrip(total);
  }

  /** A running timer has a positive duration. */
  predicate Valid(t: State) {
    t.running ==> t.duration > 0
  }

  /** A user action or a frame callback. */
  datatype Event =
    | StartStop(now: int)
    | ResetButton
    | PresetButton(total: Field)
    | Edit(unit: Unit, typed: Field)
    | AnimationFrame(now: int)

  /** Presets and edits come from controls that are disabled while the
      timer runs, so they only reach a stopped timer. */
  function Step(t: State, e: Event): (r: State)
    ensures t.running && (e.PresetButton? || e.Edit?) ==> r == t
    ensures !t.running && r.running ==> e.StartStop? && r.duration > 0
    ensures (e.StartStop? || e.AnimationFrame?) ==> r.inputs == t.inputs
    ensures e.ResetButton? ==> !r.running && r.inputs == ResetInputs
  {
    match e
    case StartStop(now) => Start(t, now).next
    case ResetButton => Reset(t)
    case PresetButton(total) => if t.running then t else Preset(t, total)
    case Edit(u, typed) => if t.running then t else t.(inputs := EditField(t.inputs, u, typed))
    case AnimationFrame(now) => Tick(t, now).next
  }

  /** Every event keeps a running timer's duration positive. */
  lemma StepPreservesValid(t: State, e: Event)
    requires Valid(t)
    ensures Valid(Step(t, e))
  {
  }

  /** While running, with the clock at or after the start, the time left
      lies between zero and the whole duration, and it never grows as the
      clock advances. */
  lemma RemainingBounds(t: State, now1: int, now2: int)
    requires t.startTime <= now1 <= now2
    requires t.duration >= 0
    ensures 0 <= RemainingMs(t, now1) <= t.duration * 1000
    ensures RemainingMs(t, now2) <= RemainingMs(t, now1)
  {
  }

  /** While time is left, the shown seconds lie between one and the whole
      duration. */
  lemma ShownSecondsBounds(t: State, now: int)
    requires t.running && t.startTime <= now && t.duration >= 0
    requires RemainingMs(t, now) > 0
    ensures 1 <= Tick(t, now).frame.seconds <= t.duration
  {
  }

  /** Completion stops the timer, so every later frame is idle until the
      timer is started again. */
  lemma CompletionIsFinal(t: State, now: int, later: int)
    requires Tick(t, now).frame == Complete
    ensures !Tick(t, now).next.running
    ensures Tick(Tick(t, now).next, later).frame == Idle
  {
  }

  /** Stopping and pressing start again restarts the countdown from the
      full duration in the inputs, not from the time that was left. */
  lemma StopStartRestartsFull(t: State, now1: int, now2: int)
    requires t.running && Composed(t.inputs) > 0
    ensures Start(Start(t, now1).next, now2).next.running
    ensures Start(Start(t, now1).next, now2).next.startTime == now2
    ensures RemainingMs(Start(Start(t, now1).next, now2).next, now2) == Composed(t.inputs) * 1000
  {
  }

  /** The scenario 0 h 0 min 5 s: started at 0, the frame at 5000 ms
      completes the timer; a second press of start then starts it again,
      since the timer keeps no completed flag. */
  lemma FiveSecondScenario(t: State)
    requires !t.running && t.inputs == Inputs(Num(0), Num(0), Num(5))
    ensures Start(t, 0).outcome == Started
    ensures Tick(Start(t, 0).next, 4999).frame == Show(1)
    ensures Tick(Start(t, 0).next, 5000).frame == Complete
    ensures Start(Tick(Start(t, 0).next, 5000).next, 6000).outcome == Started
  {
  }

  /** After a reset the idle display shows the 5-minute default. */
  lemma ResetShowsFiveMinutes(t: State)
    ensures Composed(Reset(t).inputs) == 300
    ensures !Reset(t).running && Reset(t).duration == 0
  {
  }
}
