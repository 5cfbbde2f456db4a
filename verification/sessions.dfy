/** The `Session` record of src/types/index.ts, shared by the timer, the stopwatch and the analytics page. */
module Sessions {

  /** `TimerType`: `'timer' | 'stopwatch'`. */
  datatype TimerType = TimerKind | StopwatchKind

  /** A completed session; `duration` is in seconds. */
  datatype Session = Session(id: string, kind: TimerType, title: string, duration: nat, createdAt: string)

  /** The fresh `crypto.randomUUID()` and `new Date().toISOString()` a session is stamped with. */
  datatype Stamp = Stamp(id: string, createdAt: string)
}
