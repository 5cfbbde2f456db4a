/** The stopwatch of src/components/Stopwatch.tsx; each `setInterval` firing is one `Tick`. */
module Stopwatch {
  import opened Wrappers
  import opened Sessions

  datatype StopwatchState = StopwatchState(time: nat, isActive: bool)

  const Initial := StopwatchState(0, false)

  const FreestyleTitle := "Freestyle Flow"

  /** One second passes while running; a paused stopwatch does not count. */
  function Tick(w: StopwatchState): (r: StopwatchState)
    ensures r.isActive == w.isActive
    ensures r.time == if w.isActive then w.time + 1 else w.time
  {
    if w.isActive then w.(time := w.time + 1) else w
  }

  /** Start/Pause: flips `isActive`; the elapsed time is kept. */
  function Toggle(w: StopwatchState): (r: StopwatchState)
    ensures r.isActive != w.isActive && r.time == w.time
  {
    w.(isActive := !w.isActive)
  }

  /**
   * `handleStop`: always stops; with time elapsed it emits one `'stopwatch'`
   * session of that many seconds and clears the clock, otherwise it emits nothing.
   */
  function Stop(w: StopwatchState, stamp: Stamp): (r: (StopwatchState, Option<Session>))
    ensures !r.0.isActive
    ensures w.time > 0 ==>
      r.0.time == 0 && r.1 == Some(Session(stamp.id, StopwatchKind, FreestyleTitle, w.time, stamp.createdAt))
    ensures w.time == 0 ==> r == (StopwatchState(0, false), None)
  {
    if w.time > 0 then
      (StopwatchState(0, false), Some(Session(stamp.id, StopwatchKind, FreestyleTitle, w.time, stamp.createdAt)))
    else
      (w.(isActive := false), None)
  }

  /** `n` ticks. */
  function Ticks(w: StopwatchState, n: nat): StopwatchState
    decreases n
  {
    if n == 0 then w else Ticks(Tick(w), n - 1)
  }

  /** Started from rest, `n` ticks and a stop log exactly one session of `n` seconds (none when `n` is 0). */
  lemma {:induction false} StartTickStop(n: nat, stamp: Stamp)
    ensures var (w, out) := Stop(Ticks(Toggle(Initial), n), stamp);
      && w == Initial
      && (n > 0 ==> out == Some(Session(stamp.id, StopwatchKind, FreestyleTitle, n, stamp.createdAt)))
      && (n == 0 ==> out.None?)
  {
    TicksWhileActive(Toggle(Initial), n);
  }

  /** While running, `n` ticks add `n` seconds. */
  lemma {:induction false} TicksWhileActive(w: StopwatchState, n: nat)
    requires w.isActive
    ensures Ticks(w, n) == StopwatchState(w.time + n, true)
    decreases n
  {
    if n > 0 {
      TicksWhileActive(Tick(w), n - 1);
    }
  }
}
