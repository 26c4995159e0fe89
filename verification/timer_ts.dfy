/** The earlier timer (`src/timer.ts`): a countdown that alternates work and
    break intervals and stops when an interval runs out.

    The interval handle `timerInterval` is non-null exactly while `isRunning`
    holds (`startTimer` sets both, `stopTimer` clears both), so the handle is
    represented by the flag alone, and a tick is delivered only while the
    timer runs. */
module TimerTs {

  import opened Pomodoro

  /** `WORK_TIME = 25 * 60`, `BREAK_TIME = 5 * 60`. */
  const DefaultConfig: Config := Config(25 * 60, 5 * 60)

  datatype Timer = Timer(mode: Mode, timeRemaining: nat, isRunning: bool)

  /** The state the module starts in. */
  function Initial(c: Config): Timer {
    Timer(Work, c.workTime, false)
  }

  /** The countdown never exceeds the length of the current interval. */
  predicate Valid(c: Config, t: Timer) {
    t.timeRemaining <= Length(c, t.mode)
  }

  /** `stopTimer`: only the running flag changes. */
  function StopTimer(t: Timer): (r: Timer)
    ensures !r.isRunning
    ensures r.mode == t.mode && r.timeRemaining == t.timeRemaining
  {
    t.(isRunning := false)
  }

  /** `switchMode`: the other mode, with its full interval ahead. The alert
      it raises is a side effect with no bearing on the state. */
  function SwitchMode(c: Config, t: Timer): (r: Timer)
    ensures r.mode == Other(t.mode) && r.timeRemaining == Length(c, r.mode)
    ensures r.isRunning == t.isRunning
    ensures Valid(c, r)
  {
    var m := Other(t.mode);
    Timer(m, Length(c, m), t.isRunning)
  }

  /** `tick`: count down one second, or, with nothing left, stop and switch
      to the other mode, which then waits for the user to start it. */
  function Tick(c: Config, t: Timer): (r: Timer)
    ensures t.timeRemaining > 0 ==>
      r.mode == t.mode && r.isRunning == t.isRunning && r.timeRemaining + 1 == t.timeRemaining
    ensures t.timeRemaining == 0 ==>
      r.mode == Other(t.mode) && r.timeRemaining == Length(c, r.mode) && !r.isRunning
    ensures Valid(c, t) ==> Valid(c, r)
  {
    if t.timeRemaining > 0 then t.(timeRemaining := t.timeRemaining - 1)
    else SwitchMode(c, StopTimer(t))
  }

  /** `startTimer`: sets the timer running; mode and countdown are kept, and
      a running timer is left alone. */
  function StartTimer(t: Timer): (r: Timer)
    ensures r.isRunning
    ensures r.mode == t.mode && r.timeRemaining == t.timeRemaining
    ensures t.isRunning ==> r == t
  {
    if t.isRunning then t else t.(isRunning := true)
  }

  /** `pauseTimer`: stops a running timer without touching mode or
      countdown; a stopped timer is left alone. */
  function PauseTimer(t: Timer): (r: Timer)
    ensures !r.isRunning
    ensures r.mode == t.mode && r.timeRemaining == t.timeRemaining
    ensures !t.isRunning ==> r == t
  {
    if !t.isRunning then t else StopTimer(t)
  }

  /** `resetTimer`: back to a stopped, full work interval from any state. */
  function ResetTimer(c: Config, t: Timer): (r: Timer)
    ensures r == Initial(c)
  {
    var s := StopTimer(t);
    s.(mode := Work, timeRemaining := c.workTime)
  }

  /** What can happen to the timer: the three buttons and the interval
      firing. */
  datatype Event = StartClicked | PauseClicked | ResetClicked | IntervalFired

  /** One event; the interval fires only while it exists, i.e. while the
      timer runs. The reset button is never disabled, so a reset may come
      at any time. */
  function Step(c: Config, t: Timer, e: Event): (r: Timer)
    ensures t.isRunning && r.isRunning ==> r.mode == t.mode
    ensures t.isRunning && !r.isRunning ==>
      e.PauseClicked? || e.ResetClicked? || (e.IntervalFired? && t.timeRemaining == 0)
    ensures !t.isRunning && !e.StartClicked? && !e.ResetClicked? ==> r == t
  {
    match e
    case StartClicked => StartTimer(t)
    case PauseClicked => PauseTimer(t)
    case ResetClicked => ResetTimer(c, t)
    case IntervalFired => if t.isRunning then Tick(c, t) else t
  }

  /** The events in order. */
  function Run(c: Config, t: Timer, events: seq<Event>): Timer
    decreases |events|
  {
    if events == [] then t else Run(c, Step(c, t, events[0]), events[1..])
  }

  /** `n` firings of the interval in a row. */
  function Ticks(c: Config, t: Timer, n: nat): Timer {
    if n == 0 then t else Step(c, Ticks(c, t, n - 1), IntervalFired)
  }

  /** Every event keeps the countdown within its interval. */
  lemma StepKeepsValid(c: Config, t: Timer, e: Event)
    requires Valid(c, t)
    ensures Valid(c, Step(c, t, e))
  {
  }

  /** Any run of events from a valid state stays valid. */
  lemma {:induction false} RunKeepsValid(c: Config, t: Timer, events: seq<Event>)
    requires Valid(c, t)
    ensures Valid(c, Run(c, t, events))
    decreases |events|
  {
    if events != [] {
      StepKeepsValid(c, t, events[0]);
      RunKeepsValid(c, Step(c, t, events[0]), events[1..]);
    }
  }

  /** Every state reachable from the start keeps
      `0 <= timeRemaining <= length(mode)`. */
  lemma ReachableValid(c: Config, events: seq<Event>)
    ensures Valid(c, Run(c, Initial(c), events))
  {
    RunKeepsValid(c, Initial(c), events);
  }

  /** Pausing twice is pausing once. */
  lemma PauseIdempotent(t: Timer)
    ensures PauseTimer(PauseTimer(t)) == PauseTimer(t)
  {
  }

  /** Resetting twice is resetting once. */
  lemma ResetIdempotent(c: Config, t: Timer)
    ensures ResetTimer(c, ResetTimer(c, t)) == ResetTimer(c, t)
  {
  }

  /** While time is left, each firing takes one second off and nothing else. */
  lemma {:induction false} Countdown(c: Config, m: Mode, n: nat, k: nat)
    requires k <= n
    ensures Ticks(c, Timer(m, n, true), k) == Timer(m, n - k, true)
  {
    if k > 0 {
      Countdown(c, m, n, k - 1);
    }
  }

  /** A full interval takes its length plus one firings, the last one
      happening at zero; it ends in the other mode, stopped, with that mode's
      full interval ahead. */
  lemma IntervalEndsStopped(c: Config, m: Mode)
    ensures Ticks(c, Timer(m, Length(c, m), true), Length(c, m)) == Timer(m, 0, true)
    ensures Ticks(c, Timer(m, Length(c, m), true), Length(c, m) + 1)
         == Timer(Other(m), Length(c, Other(m)), false)
  {
    Countdown(c, m, Length(c, m), Length(c, m));
  }

  /** With the constants `WORK_TIME` and `BREAK_TIME`, a started work
      interval takes 1501 firings and leaves a stopped five-minute break
      waiting to be started. */
  lemma DefaultWorkInterval()
    ensures Ticks(DefaultConfig, StartTimer(Initial(DefaultConfig)), 1501)
         == Timer(Break, 300, false)
  {
    IntervalEndsStopped(DefaultConfig, Work);
  }

  /** Once stopped, the timer does not move again until started: the switch
      at the end of an interval does not restart it. */
  lemma {:induction false} StoppedStaysPut(c: Config, t: Timer, n: nat)
    requires !t.isRunning
    ensures Ticks(c, t, n) == t
  {
    if n > 0 {
      StoppedStaysPut(c, t, n - 1);
    }
  }
}
