/** The later timer (`dist/timer.js`): the same countdown, now restarting
    itself after every switch, together with the todo list and the work
    time credited to the selected todo.

    The clock is a parameter: every operation that reads `Date.now()` takes
    the reading as `now` (milliseconds). As in the earlier version, the
    interval handle exists exactly while `isRunning` holds, so it is
    represented by that flag, and the interval fires only while the timer
    runs. */
module TimerJs {

  import opened Optional
  import opened Strings
  import opened Pomodoro
  import Todos

  /** The module-level variables of the script. `workStartTime` is the clock
      reading at the last start in work mode, or `null`. */
  datatype Session = Session(
    mode: Mode,
    timeRemaining: nat,
    isRunning: bool,
    todos: seq<Todos.Todo>,
    currentTodoId: Option<string>,
    workStartTime: Option<int>)

  /** The state after loading: a stopped full work interval, no selection,
      and the todo list read from storage. */
  function Initial(c: Config, stored: seq<Todos.Todo>): Session {
    Session(Work, c.workTime, false, stored, None, None)
  }

  /** JavaScript truthiness of `currentTodoId`: set and not the empty string. */
  predicate IsSelected(id: Option<string>) {
    id.Some? && id.value != ""
  }

  /** JavaScript truthiness of `workStartTime`: set and not zero. */
  predicate HasStart(t: Option<int>) {
    t.Some? && t.value != 0
  }

  /** The guard `currentMode === 'work' && currentTodoId && workStartTime`
      shared by `pauseTimer` and `switchMode`. */
  predicate AccrualDue(s: Session) {
    s.mode == Work && IsSelected(s.currentTodoId) && HasStart(s.workStartTime)
  }

  /** `Math.floor((now - start) / 1000 / 60)`: whole minutes between two
      clock readings, rounded down (so a clock that went back gives a
      negative count). */
  function ElapsedMinutes(start: int, now: int): (r: int)
    ensures r * 60000 <= now - start < r * 60000 + 60000
    ensures now >= start ==> r >= 0
  {
    (now - start) / 60000
  }

  /** The block both `pauseTimer` and `switchMode` run when accrual is due:
      the selected todo (found by id; a missing one is skipped) gains the
      whole minutes since `workStartTime`. */
  function RecordWork(s: Session, now: int): (r: Session)
    requires AccrualDue(s)
    ensures Todos.Credited(s.todos, r.todos, s.currentTodoId.value,
                           ElapsedMinutes(s.workStartTime.value, now))
    ensures r == s.(todos := r.todos)
  {
    var minutes := ElapsedMinutes(s.workStartTime.value, now);
    s.(todos := Todos.AddWorkTime(s.todos, s.currentTodoId.value, minutes))
  }

  /** `startTimer`: sets the timer running and, in work mode only, records
      the start time; a running timer is left alone. */
  function StartTimer(s: Session, now: int): (r: Session)
    ensures r.isRunning
    ensures r.mode == s.mode && r.timeRemaining == s.timeRemaining
    ensures r.todos == s.todos && r.currentTodoId == s.currentTodoId
    ensures s.isRunning ==> r == s
    ensures !s.isRunning && s.mode == Work ==> r.workStartTime == Some(now)
    ensures s.mode == Break ==> r.workStartTime == s.workStartTime
  {
    if s.isRunning then s
    else
      var running := s.(isRunning := true);
      if s.mode == Work then running.(workStartTime := Some(now)) else running
  }

  /** `stopTimer`: only the running flag changes. */
  function StopTimer(s: Session): (r: Session)
    ensures !r.isRunning && r.(isRunning := s.isRunning) == s
  {
    s.(isRunning := false)
  }

  /** `pauseTimer`: stops a running timer with mode and countdown intact.
      When accrual is due, the selected todo is credited with the whole
      minutes worked and the start time is cleared; otherwise the todos and
      the start time are kept. A stopped timer is left alone. */
  function PauseTimer(s: Session, now: int): (r: Session)
    ensures !r.isRunning
    ensures r.mode == s.mode && r.timeRemaining == s.timeRemaining
    ensures r.currentTodoId == s.currentTodoId
    ensures !s.isRunning ==> r == s
    ensures s.isRunning && AccrualDue(s) ==>
      && r.workStartTime == None
      && Todos.Credited(s.todos, r.todos, s.currentTodoId.value,
                        ElapsedMinutes(s.workStartTime.value, now))
    ensures !AccrualDue(s) ==> r.todos == s.todos && r.workStartTime == s.workStartTime
  {
    if !s.isRunning then s
    else
      var recorded := if AccrualDue(s) then RecordWork(s, now).(workStartTime := None) else s;
      StopTimer(recorded)
  }

  /** `switchMode`: credits the selected todo when a work interval ends with
      accrual due, moves to the other mode with its full interval ahead and
      starts it at once. The start time is not cleared, so after work it
      keeps its old value through the break; the notification sound is a
      side effect outside the state. */
  function SwitchMode(c: Config, s: Session, now: int): (r: Session)
    ensures r.mode == Other(s.mode) && r.timeRemaining == Length(c, r.mode)
    ensures r.isRunning
    ensures r.currentTodoId == s.currentTodoId
    ensures AccrualDue(s) ==>
      Todos.Credited(s.todos, r.todos, s.currentTodoId.value,
                     ElapsedMinutes(s.workStartTime.value, now))
    ensures !AccrualDue(s) ==> r.todos == s.todos
    ensures !s.isRunning && r.mode == Work ==> r.workStartTime == Some(now)
    ensures r.mode == Break ==> r.workStartTime == s.workStartTime
  {
    var recorded := if AccrualDue(s) then RecordWork(s, now) else s;
    var m := Other(s.mode);
    StartTimer(recorded.(mode := m, timeRemaining := Length(c, m)), now)
  }

  /** `tick`: count down one second, or, with nothing left, stop, switch
      and restart in the other mode. */
  function Tick(c: Config, s: Session, now: int): (r: Session)
    ensures s.timeRemaining > 0 ==> r == s.(timeRemaining := s.timeRemaining - 1)
    ensures s.timeRemaining == 0 ==>
      && r.mode == Other(s.mode) && r.timeRemaining == Length(c, r.mode) && r.isRunning
      && (r.mode == Work ==> r.workStartTime == Some(now))
  {
    if s.timeRemaining > 0 then s.(timeRemaining := s.timeRemaining - 1)
    else SwitchMode(c, StopTimer(s), now)
  }

  /** `resetTimer`: back to a stopped, full work interval. Nothing is
      credited, and the todos, the selection and the start time are kept. */
  function ResetTimer(c: Config, s: Session): (r: Session)
    ensures r.mode == Work && r.timeRemaining == c.workTime && !r.isRunning
    ensures r.todos == s.todos && r.currentTodoId == s.currentTodoId
    ensures r.workStartTime == s.workStartTime
  {
    StopTimer(s).(mode := Work, timeRemaining := c.workTime)
  }

  /** The timer part of the state is the same in both. */
  predicate SameTimer(a: Session, b: Session) {
    && a.mode == b.mode && a.timeRemaining == b.timeRemaining
    && a.isRunning == b.isRunning && a.workStartTime == b.workStartTime
  }

  /** `addTodo`, reading the clock at `idTime` for the id and at
      `createdAt` for the timestamp. */
  function AddTodo(s: Session, input: string, idTime: int, createdAt: int): (r: Session)
    ensures SameTimer(r, s) && r.currentTodoId == s.currentTodoId
    ensures AllWhitespace(input) ==> r == s
    ensures !AllWhitespace(input) ==> |r.todos| == |s.todos| + 1 && r.todos[..|s.todos|] == s.todos
  {
    s.(todos := Todos.AddTodo(s.todos, input, idTime, createdAt))
  }

  /** `deleteTodo(id)`: drops every todo with the id and clears the
      selection exactly when it was that id. */
  function DeleteTodo(s: Session, id: string): (r: Session)
    ensures SameTimer(r, s)
    ensures forall t :: t in r.todos <==> t in s.todos && t.id != id
    ensures r.currentTodoId.None? <==> s.currentTodoId.None? || s.currentTodoId == Some(id)
    ensures r.currentTodoId.Some? ==> r.currentTodoId == s.currentTodoId
  {
    var selection := if s.currentTodoId == Some(id) then None else s.currentTodoId;
    s.(todos := Todos.RemoveId(s.todos, id), currentTodoId := selection)
  }

  /** `selectTodo(id)`: the selection becomes `id`, whether or not a todo
      has it; nothing else changes. */
  function SelectTodo(s: Session, id: string): (r: Session)
    ensures r.currentTodoId == Some(id)
    ensures r.(currentTodoId := s.currentTodoId) == s
  {
    s.(currentTodoId := Some(id))
  }

  /** `toggleComplete(id)` on the session. */
  function ToggleComplete(s: Session, id: string): (r: Session)
    ensures SameTimer(r, s) && r.currentTodoId == s.currentTodoId
    ensures Todos.Toggled(s.todos, r.todos, id)
  {
    s.(todos := Todos.ToggleComplete(s.todos, id))
  }

  /** The drop handler of the drag-and-drop list. */
  function MoveTodo(s: Session, oldIndex: nat, newIndex: nat): (r: Session)
    requires oldIndex < |s.todos|
    ensures SameTimer(r, s) && r.currentTodoId == s.currentTodoId
    ensures multiset(r.todos) == multiset(s.todos)
  {
    s.(todos := Todos.MoveTodo(s.todos, oldIndex, newIndex))
  }

  /** What can happen: the buttons, the interval firing, and the todo list's
      inputs. */
  datatype Event =
    | StartClicked(now: int)
    | PauseClicked(now: int)
    | ResetClicked
    | IntervalFired(now: int)
    | TodoSubmitted(input: string, idTime: int, createdAt: int)
    | DeleteClicked(id: string)
    | TodoClicked(id: string)
    | CheckboxClicked(id: string)
    | Dropped(oldIndex: nat, newIndex: nat)

  /** One event. The interval fires only while the timer runs. The reset
      button is disabled while the timer runs (`startTimer` disables it,
      `pauseTimer` and `resetTimer` enable it), so a click on it then is not
      delivered. A drop whose old index is not a position of the list is
      taken as a step that changes nothing. */
  function Step(c: Config, s: Session, e: Event): (r: Session)
    ensures s.isRunning && !e.PauseClicked? ==> r.isRunning
    ensures !s.isRunning && !e.StartClicked? ==> !r.isRunning
    ensures !s.isRunning && (e.IntervalFired? || e.PauseClicked?) ==> r == s
    ensures s.isRunning && e.ResetClicked? ==> r == s
    ensures e.Dropped? && e.oldIndex >= |s.todos| ==> r == s
  {
    match e
    case StartClicked(now) => StartTimer(s, now)
    case PauseClicked(now) => PauseTimer(s, now)
    case ResetClicked => if s.isRunning then s else ResetTimer(c, s)
    case IntervalFired(now) => if s.isRunning then Tick(c, s, now) else s
    case TodoSubmitted(input, idTime, createdAt) => AddTodo(s, input, idTime, createdAt)
    case DeleteClicked(id) => DeleteTodo(s, id)
    case TodoClicked(id) => SelectTodo(s, id)
    case CheckboxClicked(id) => ToggleComplete(s, id)
    case Dropped(oldIndex, newIndex) =>
      if oldIndex < |s.todos| then MoveTodo(s, oldIndex, newIndex) else s
  }

  function Run(c: Config, s: Session, events: seq<Event>): Session
    decreases |events|
  {
    if events == [] then s else Run(c, Step(c, s, events[0]), events[1..])
  }

  /** The invariant of the session: the countdown stays within its interval,
      and a timer running in work mode has a start time to measure from. */
  predicate Inv(c: Config, s: Session) {
    && s.timeRemaining <= Length(c, s.mode)
    && (s.isRunning && s.mode == Work ==> s.workStartTime.Some?)
  }

  lemma StepKeepsInv(c: Config, s: Session, e: Event)
    requires Inv(c, s)
    ensures Inv(c, Step(c, s, e))
  {
  }

  lemma {:induction false} RunKeepsInv(c: Config, s: Session, events: seq<Event>)
    requires Inv(c, s)
    ensures Inv(c, Run(c, s, events))
    decreases |events|
  {
    if events != [] {
      StepKeepsInv(c, s, events[0]);
      RunKeepsInv(c, Step(c, s, events[0]), events[1..]);
    }
  }

  /** Every state reachable after loading keeps the invariant. */
  lemma ReachableInv(c: Config, stored: seq<Todos.Todo>, events: seq<Event>)
    ensures Inv(c, Run(c, Initial(c, stored), events))
  {
    RunKeepsInv(c, Initial(c, stored), events);
  }

  /** Pausing twice is pausing once, whatever the clock says the second
      time. */
  lemma PauseIdempotent(s: Session, now1: int, now2: int)
    ensures PauseTimer(PauseTimer(s, now1), now2) == PauseTimer(s, now1)
  {
  }

  /** Resetting twice is resetting once. */
  lemma ResetIdempotent(c: Config, s: Session)
    ensures ResetTimer(c, ResetTimer(c, s)) == ResetTimer(c, s)
  {
  }

  /** Deleting twice is deleting once. */
  lemma DeleteIdempotent(s: Session, id: string)
    ensures DeleteTodo(DeleteTodo(s, id), id) == DeleteTodo(s, id)
  {
    Todos.RemoveIdIdempotent(s.todos, id);
  }

  /** Once the selected todo is deleted, pausing credits no one. */
  lemma DeletedSelectionEarnsNothing(s: Session, id: string, now: int)
    requires s.currentTodoId == Some(id)
    ensures PauseTimer(DeleteTodo(s, id), now).todos == DeleteTodo(s, id).todos
  {
  }

  /** Time worked under a selection no todo has is credited to no one. */
  lemma UnknownSelectionEarnsNothing(c: Config, s: Session, now: int)
    requires s.currentTodoId.Some? && !Todos.HasId(s.todos, s.currentTodoId.value)
    ensures PauseTimer(s, now).todos == s.todos
    ensures SwitchMode(c, s, now).todos == s.todos
  {
  }

  /** The accrual guard tests the selection and the start time for
      JavaScript truthiness: an empty id or a start time of 0 counts as
      unset. Then a pause keeps the todos and the start time, and a switch
      keeps the todos, even in work mode with a todo of that id. */
  lemma FalsyFieldsSkipAccrual(c: Config, s: Session, now: int)
    requires s.currentTodoId == Some("") || s.workStartTime == Some(0)
    ensures PauseTimer(s, now).todos == s.todos
    ensures PauseTimer(s, now).workStartTime == s.workStartTime
    ensures SwitchMode(c, s, now).todos == s.todos
  {
  }

  /** A pause less than a minute after the work start credits nothing, yet
      clears the start time: the partial minute is never credited. */
  lemma ShortSpanIsDropped(s: Session, now: int)
    requires s.isRunning && AccrualDue(s)
    requires 0 <= now - s.workStartTime.value < 60000
    ensures PauseTimer(s, now).todos == s.todos
    ensures PauseTimer(s, now).workStartTime == None
  {
    var minutes := ElapsedMinutes(s.workStartTime.value, now);
    assert minutes == 0;
    var r := PauseTimer(s, now);
    assert forall j :: 0 <= j < |s.todos| ==> r.todos[j] == s.todos[j];
  }

  /** The interval firing at the given clock readings, in order. */
  function FiredAt(c: Config, s: Session, times: seq<int>): Session
    decreases |times|
  {
    if times == [] then s
    else Step(c, FiredAt(c, s, times[..|times| - 1]), IntervalFired(times[|times| - 1]))
  }

  /** While time is left, each firing takes one second off and nothing else. */
  lemma {:induction false} Countdown(c: Config, s: Session, times: seq<int>)
    requires s.isRunning && |times| <= s.timeRemaining
    ensures FiredAt(c, s, times) == s.(timeRemaining := s.timeRemaining - |times|)
    decreases |times|
  {
    if times != [] {
      Countdown(c, s, times[..|times| - 1]);
    }
  }

  /** A running interval ends after its remaining seconds plus one firing,
      the last one at zero, and the next interval is already running. */
  lemma {:induction false} IntervalEnds(c: Config, s: Session, times: seq<int>)
    requires s.isRunning && |times| == s.timeRemaining + 1
    ensures FiredAt(c, s, times).mode == Other(s.mode)
    ensures FiredAt(c, s, times).timeRemaining == Length(c, Other(s.mode))
    ensures FiredAt(c, s, times).isRunning
    ensures FiredAt(c, s, times)
         == SwitchMode(c, s.(timeRemaining := 0, isRunning := false), times[|times| - 1])
  {
    Countdown(c, s, times[..|times| - 1]);
  }

  /** The strict work/break cycle with its bookkeeping: a work interval
      started at `t0` and run to its end credits the selected todo with the
      whole minutes from `t0` to the firing that ends it; the break that
      follows credits nothing and hands over to a fresh running work
      interval whose start time is the firing that ended the break. */
  lemma FullCycle(c: Config, s: Session, t0: int, work: seq<int>, rest: seq<int>)
    requires s.mode == Work && s.isRunning && s.timeRemaining == c.workTime
    requires s.workStartTime == Some(t0) && t0 != 0 && IsSelected(s.currentTodoId)
    requires |work| == c.workTime + 1 && |rest| == c.breakTime + 1
    ensures FiredAt(c, s, work).mode == Break
    ensures Todos.Credited(s.todos, FiredAt(c, s, work).todos, s.currentTodoId.value,
                           ElapsedMinutes(t0, work[|work| - 1]))
    ensures FiredAt(c, FiredAt(c, s, work), rest)
         == FiredAt(c, s, work).(mode := Work, timeRemaining := c.workTime,
                                 workStartTime := Some(rest[|rest| - 1]))
  {
    IntervalEnds(c, s, work);
    var b := FiredAt(c, s, work);
    IntervalEnds(c, b, rest);
  }
}
