/**
 * The Pomodoro timer of src/components/Timer.tsx as a state machine. Each
 * run of the countdown effect (one `setInterval` firing, or the completion
 * branch) is one `Tick`; the buttons and the purpose input are the other events.
 */
module Timer {
  import opened Wrappers
  import opened Sessions
  import Text

  datatype TimerState = TimerState(
    duration: nat, timeLeft: nat,
    isActive: bool, isPaused: bool, isCompleted: bool,
    purpose: string, error: string)

  const PurposeError := "\U{2728} Give your session a name first!"

  /** The preset buttons, in minutes. */
  const PresetMinutes: seq<nat> := [15, 25, 45, 60]

  /** 25 minutes, idle, no purpose yet. */
  const Initial := TimerState(1500, 1500, false, false, false, "", "")

  /** `handleStart`: refuses a purpose that is blank after trimming, otherwise starts running. */
  function Start(t: TimerState): (r: TimerState)
    ensures r.duration == t.duration && r.timeLeft == t.timeLeft && r.purpose == t.purpose
    ensures Text.AllSpace(t.purpose) ==>
      r.error == PurposeError && r.isActive == t.isActive && r.isPaused == t.isPaused && r.isCompleted == t.isCompleted
    ensures !Text.AllSpace(t.purpose) ==> r.isActive && !r.isPaused && !r.isCompleted && r.error == ""
  {
    if Text.Trim(t.purpose) == [] then t.(error := PurposeError)
    else t.(error := "", isActive := true, isPaused := false, isCompleted := false)
  }

  /**
   * One run of the countdown effect: while running with time left, one
   * second passes; once active at zero (paused or not), the timer completes
   * and emits one `'timer'` session titled with the purpose and lasting the
   * selected duration; otherwise nothing happens.
   */
  function Tick(t: TimerState, stamp: Stamp): (r: (TimerState, Option<Session>))
    ensures r.0.duration == t.duration && r.0.purpose == t.purpose && r.0.error == t.error
    ensures r.0.isPaused == t.isPaused
    ensures t.isActive && !t.isPaused && t.timeLeft > 0 ==>
      r.0 == t.(timeLeft := t.timeLeft - 1) && r.1.None?
    ensures t.isActive && t.timeLeft == 0 ==>
      && !r.0.isActive && r.0.isCompleted && r.0.timeLeft == 0
      && r.1 == Some(Session(stamp.id, TimerKind, t.purpose, t.duration, stamp.createdAt))
    ensures !t.isActive || (t.isPaused && t.timeLeft > 0) ==> r == (t, None)
  {
    if t.isActive && !t.isPaused && t.timeLeft > 0 then
      (t.(timeLeft := t.timeLeft - 1), None)
    else if t.timeLeft == 0 && t.isActive then
      (t.(isActive := false, isCompleted := true),
       Some(Session(stamp.id, TimerKind, t.purpose, t.duration, stamp.createdAt)))
    else
      (t, None)
  }

  /** The pause button: flips `isPaused` and nothing else. */
  function TogglePause(t: TimerState): (r: TimerState)
    ensures r.isPaused != t.isPaused
    ensures r.(isPaused := t.isPaused) == t
  {
    t.(isPaused := !t.isPaused)
  }

  /** `handleReset`: idle again with the full duration on the clock; the purpose is kept. */
  function Reset(t: TimerState): (r: TimerState)
    ensures !r.isActive && !r.isPaused && !r.isCompleted
    ensures r.timeLeft == r.duration == t.duration
    ensures r.purpose == t.purpose && r.error == t.error
  {
    t.(isActive := false, isPaused := false, isCompleted := false, timeLeft := t.duration)
  }

  /** The preset buttons are rendered only while the timer is idle. */
  predicate PresetsOffered(t: TimerState)
  {
    !t.isActive && !t.isCompleted
  }

  /** A preset button: `duration` and `timeLeft` both become `m` minutes. */
  function Preset(t: TimerState, m: nat): (r: TimerState)
    requires PresetsOffered(t) && m in PresetMinutes
    ensures r.duration == r.timeLeft == m * 60
    ensures r.duration in {900, 1500, 2700, 3600}
    ensures r.(duration := t.duration, timeLeft := t.timeLeft) == t
  {
    t.(duration := m * 60, timeLeft := m * 60)
  }

  /** Typing in the purpose field, which is disabled while the timer is active. */
  function EditPurpose(t: TimerState, text: string): (r: TimerState)
    ensures t.isActive ==> r == t
    ensures !t.isActive ==> r.purpose == text && r.(purpose := t.purpose) == t
  {
    if t.isActive then t else t.(purpose := text)
  }

  /** A user or clock event. */
  datatype Event =
    | StartPressed
    | Ticked(stamp: Stamp)
    | PausePressed
    | ResetPressed
    | PresetPressed(minutes: nat)
    | PurposeTyped(text: string)

  /** Whether the event can occur: the preset buttons exist only while idle, and only for the four presets. */
  predicate Enabled(t: TimerState, e: Event)
  {
    e.PresetPressed? ==> PresetsOffered(t) && e.minutes in PresetMinutes
  }

  function Step(t: TimerState, e: Event): (TimerState, Option<Session>)
    requires Enabled(t, e)
  {
    match e
    case StartPressed => (Start(t), None)
    case Ticked(stamp) => Tick(t, stamp)
    case PausePressed => (TogglePause(t), None)
    case ResetPressed => (Reset(t), None)
    case PresetPressed(m) => (Preset(t, m), None)
    case PurposeTyped(text) => (EditPurpose(t, text), None)
  }

  /** The countdown stays within the selected duration, which is always one of the presets, and a completed timer is never active. */
  ghost predicate Valid(t: TimerState)
  {
    && t.timeLeft <= t.duration
    && t.duration in {900, 1500, 2700, 3600}
    && !(t.isActive && t.isCompleted)
  }

  /** Every event keeps the timer valid. */
  lemma StepKeepsValid(t: TimerState, e: Event)
    requires Valid(t) && Enabled(t, e)
    ensures Valid(Step(t, e).0)
  {
  }

  /** Valid from the start, whatever events follow. */
  lemma {:induction false} RunKeepsValid(t: TimerState, es: seq<Event>)
    requires Valid(t)
    requires EnabledAlong(t, es)
    ensures Valid(RunEvents(t, es).0)
    decreases |es|
  {
    if |es| > 0 {
      StepKeepsValid(t, es[0]);
      RunKeepsValid(Step(t, es[0]).0, es[1..]);
    }
  }

  /** The freshly mounted timer is valid, and so is every state an enabled run reaches from it. */
  lemma RunFromInitialValid(es: seq<Event>)
    requires EnabledAlong(Initial, es)
    ensures Valid(Initial) && Valid(RunEvents(Initial, es).0)
  {
    RunKeepsValid(Initial, es);
  }

  /** Every event of the sequence is enabled when it occurs. */
  ghost predicate EnabledAlong(t: TimerState, es: seq<Event>)
    decreases |es|
  {
    |es| == 0 || (Enabled(t, es[0]) && EnabledAlong(Step(t, es[0]).0, es[1..]))
  }

  /** The events applied in order, with the sessions they emit. */
  function RunEvents(t: TimerState, es: seq<Event>): (TimerState, seq<Session>)
    requires EnabledAlong(t, es)
    decreases |es|
  {
    if |es| == 0 then (t, [])
    else
      var (t1, out) := Step(t, es[0]);
      var (t2, rest) := RunEvents(t1, es[1..]);
      (t2, (if out.Some? then [out.value] else []) + rest)
  }

  /** `n` ticks of the clock, all stamped alike, with the sessions they emit. */
  function Ticks(t: TimerState, n: nat, stamp: Stamp): (TimerState, seq<Session>)
    decreases n
  {
    if n == 0 then (t, [])
    else
      var (t1, out) := Tick(t, stamp);
      var (t2, rest) := Ticks(t1, n - 1, stamp);
      (t2, (if out.Some? then [out.value] else []) + rest)
  }

  /**
   * A started, unpaused countdown with `k` seconds left completes after
   * exactly `k + 1` ticks, emitting one session of the full duration; further
   * ticks change nothing and emit nothing more.
   */
  lemma {:induction false} RunToCompletion(t: TimerState, extra: nat, stamp: Stamp)
    requires t.isActive && !t.isPaused
    ensures var (t', out) := Ticks(t, t.timeLeft + 1 + extra, stamp);
      && out == [Session(stamp.id, TimerKind, t.purpose, t.duration, stamp.createdAt)]
      && !t'.isActive && t'.isCompleted && t'.timeLeft == 0
      && t'.duration == t.duration && t'.purpose == t.purpose
    decreases t.timeLeft
  {
    if t.timeLeft > 0 {
      RunToCompletion(t.(timeLeft := t.timeLeft - 1), extra, stamp);
    } else {
      var done := Tick(t, stamp).0;
      IdleTicksAreSilent(done, extra, stamp);
    }
  }

  /** Ticks of an inactive timer change nothing and emit nothing. */
  lemma {:induction false} IdleTicksAreSilent(t: TimerState, n: nat, stamp: Stamp)
    requires !t.isActive
    ensures Ticks(t, n, stamp) == (t, [])
    decreases n
  {
    if n > 0 {
      assert Tick(t, stamp) == (t, None);
      IdleTicksAreSilent(t, n - 1, stamp);
      assert Ticks(t, n, stamp).1 == [] + Ticks(t, n - 1, stamp).1;
      assert [] + Ticks(t, n - 1, stamp).1 == [];
    }
  }
}
