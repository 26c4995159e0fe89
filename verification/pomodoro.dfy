/** What both versions of the timer share: the two modes and the length of
    the interval each one counts down. */
module Pomodoro {

  datatype Mode = Work | Break

  /** The interval lengths in seconds (`WORK_TIME`, `BREAK_TIME`). Neither
      version range-checks them, so zero is allowed. */
  datatype Config = Config(workTime: nat, breakTime: nat)

  function Length(c: Config, m: Mode): nat {
    match m
    case Work => c.workTime
    case Break => c.breakTime
  }

  /** The mode a switch moves to: the one that is not `m`. */
  function Other(m: Mode): (r: Mode)
    ensures r != m
  {
    if m == Work then Break else Work
  }
}
