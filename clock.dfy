/** The simulation clock of main.py: an HHMM time that starts, pauses,
    stops and ticks, raising StateError on a transition it does not allow.
    Each transition is a function on the clock's state; the Clock class
    applies them to its fields. */
module Clocks {
  import opened Util
  import opened Times

  /** The fields a transition changes: current_time (None before the first
      start), running and paused. */
  datatype ClockState = ClockState(currentTime: Option<nat>, running: bool, paused: bool)

  /** A transition either succeeds or raises StateError with its message. */
  datatype Outcome = Ok | StateError(message: string)

  /** The states the transitions can reach from a new clock: a running
      clock has a time, and only a running clock is paused. */
  predicate Reachable(s: ClockState) {
    (s.running ==> s.currentTime.Some?) && (s.paused ==> s.running)
  }

  /** Clock.start (main.py:69-77). */
  function StartStep(s: ClockState, startTime: nat): (r: (ClockState, Outcome))
    ensures r.1.Ok? <==> !s.running
    ensures r.1.StateError? ==> r.0 == s
    ensures r.1.Ok? ==> r.0.running && !r.0.paused
    ensures r.1.Ok? && !s.paused ==> r.0.currentTime == Some(startTime)
    ensures r.1.Ok? && s.paused ==> r.0.currentTime == s.currentTime
  {
    if !s.running then
      if !s.paused then (s.(running := true, currentTime := Some(startTime)), Ok)
      else (s.(running := true, paused := false), Ok)
    else (s, StateError("Clock is already running!"))
  }

  /** Clock.stop (main.py:80-85). */
  function StopStep(s: ClockState): (r: (ClockState, Outcome))
    ensures r.1.Ok? <==> s.running
    ensures r.1.StateError? ==> r.0 == s
    ensures r.1.Ok? ==> r.0 == s.(running := false, paused := false)
  {
    if s.running then (s.(running := false, paused := false), Ok)
    else (s, StateError("Clock is not running!"))
  }

  /** Clock.pause (main.py:99-103): running is left as it was. */
  function PauseStep(s: ClockState): (r: (ClockState, Outcome))
    ensures r.1.Ok? <==> s.running
    ensures r.1.StateError? ==> r.0 == s
    ensures r.1.Ok? ==> r.0 == s.(paused := true)
  {
    if s.running then (s.(paused := true), Ok)
    else (s, StateError("Clock is not running!"))
  }

  /** Clock.tick (main.py:89-96): a running, unpaused clock moves on by the
      interval with the minute-60 carry; otherwise it raises and the time
      stays. A running clock always has a time (Reachable). */
  function TickStep(s: ClockState, interval: nat): (r: (ClockState, Outcome))
    requires s.running && !s.paused ==> s.currentTime.Some?
    ensures r.1.Ok? <==> s.running && !s.paused
    ensures r.1.StateError? ==> r.0 == s
    ensures r.1.Ok? ==> r.0 == s.(currentTime := Some(TickTime(s.currentTime.value, interval)))
  {
    if s.running && !s.paused then (s.(currentTime := Some(TickTime(s.currentTime.value, interval))), Ok)
    else (s, StateError("Clock is not running or paused!"))
  }

  /** Every transition, successful or not, stays among the reachable
      states. */
  lemma StepsKeepReachable(s: ClockState, startTime: nat, interval: nat)
    requires Reachable(s)
    ensures Reachable(StartStep(s, startTime).0)
    ensures Reachable(StopStep(s).0)
    ensures Reachable(PauseStep(s).0)
    ensures Reachable(TickStep(s, interval).0)
  {
  }

  /** Since pause leaves running set, a paused clock cannot be started
      again: start raises and nothing changes (main.py:70, 99-101). */
  lemma StartAfterPauseFails(s: ClockState, startTime: nat)
    requires PauseStep(s).1.Ok?
    ensures StartStep(PauseStep(s).0, startTime) == (PauseStep(s).0, StateError("Clock is already running!"))
  {
  }

  /** A paused clock does not tick; after stop and start it runs again from
      the start time, not from where it was paused. */
  lemma PauseStopStart(s: ClockState, startTime: nat, interval: nat)
    requires Reachable(s) && s.running
    ensures var p := PauseStep(s).0;
      && TickStep(p, interval).1.StateError?
      && StartStep(StopStep(p).0, startTime) == (ClockState(Some(startTime), true, false), Ok)
  {
  }

  /** A clock that is started and ticked once a minute from a valid HHMM
      time counts minutes exactly: after n ticks it is n minutes later. */
  lemma {:induction false} TicksCountMinutes(s: ClockState, n: nat)
    requires s.running && !s.paused && s.currentTime.Some? && ValidHhmm(s.currentTime.value)
    ensures Ticks(s, n).currentTime.Some?
    ensures ValidHhmm(Ticks(s, n).currentTime.value)
    ensures ToMinutes(Ticks(s, n).currentTime.value) == ToMinutes(s.currentTime.value) + n
    ensures Ticks(s, n).running && !Ticks(s, n).paused
  {
    if n > 0 {
      TicksCountMinutes(s, n - 1);
      TickOneMinute(Ticks(s, n - 1).currentTime.value);
    }
  }

  /** The state after n one-minute ticks of a running clock. */
  function Ticks(s: ClockState, n: nat): ClockState
    requires s.running && !s.paused && s.currentTime.Some?
    ensures Ticks(s, n).running && !Ticks(s, n).paused && Ticks(s, n).currentTime.Some?
  {
    if n == 0 then s else TickStep(Ticks(s, n - 1), 1).0
  }

  class Clock {
    const startTime: nat
    const interval: nat
    var currentTime: Option<nat>
    var running: bool
    var paused: bool

    function State(): ClockState
      reads this
    {
      ClockState(currentTime, running, paused)
    }

    /** Clock(start_time=800, interval=1) (main.py:58-64). */
    constructor (startTime: nat, interval: nat)
      ensures this.startTime == startTime && this.interval == interval
      ensures State() == ClockState(None, false, false)
      ensures Reachable(State())
    {
      this.startTime := startTime;
      this.interval := interval;
      currentTime := None;
      running := false;
      paused := false;
    }

    method Start() returns (r: Outcome)
      modifies this
      ensures (State(), r) == StartStep(old(State()), startTime)
    {
      if !running {
        running := true;
        if !paused {
          currentTime := Some(startTime);
        } else {
          paused := false;
        }
        r := Ok;
      } else {
        r := StateError("Clock is already running!");
      }
    }

    method Stop() returns (r: Outcome)
      modifies this
      ensures (State(), r) == StopStep(old(State()))
    {
      if running {
        running := false;
        paused := false;
        r := Ok;
      } else {
        r := StateError("Clock is not running!");
      }
    }

    method Tick() returns (r: Outcome)
      requires running && !paused ==> currentTime.Some?
      modifies this
      ensures (State(), r) == TickStep(old(State()), interval)
    {
      if running && !paused {
        currentTime := Some(currentTime.value + interval);
      } else {
        return StateError("Clock is not running or paused!");
      }
      if LastTwo(currentTime.value) == "60" {
        currentTime := Some(currentTime.value + 40);
      }
      r := Ok;
    }

    method Pause() returns (r: Outcome)
      modifies this
      ensures (State(), r) == PauseStep(old(State()))
    {
      if running {
        paused := true;
        r := Ok;
      } else {
        r := StateError("Clock is not running!");
      }
    }
  }
}
