/** The pomodoro timer: 25 minutes of focus, 5 of break, counted down one second per tick. */
module Pomodoro {
  import opened Text

  datatype Mode = FOCUS | BREAK

  /** The full length of a period, in seconds. */
  function Duration(mode: Mode): (d: nat)
    ensures d > 0
  {
    match mode
    case FOCUS => 25 * 60
    case BREAK => 5 * 60
  }

  function Other(mode: Mode): Mode {
    match mode
    case FOCUS => BREAK
    case BREAK => FOCUS
  }

  datatype TimerState = TimerState(mode: Mode, timeLeft: int, isActive: bool)

  /** What the timer can show: between nothing and the full period left. */
  predicate ValidState(s: TimerState) {
    0 <= s.timeLeft <= Duration(s.mode)
  }

  /**
   * One turn of the timer effect: a second comes off while running with time left; at zero the
   * timer stops and the other period starts in full; otherwise nothing happens.
   */
  function Step(s: TimerState): (r: TimerState)
    ensures ValidState(s) ==> ValidState(r)
    ensures s.isActive && s.timeLeft > 0 ==> r.mode == s.mode && r.isActive && r.timeLeft == s.timeLeft - 1
    ensures s.timeLeft == 0 ==> r == TimerState(Other(s.mode), Duration(Other(s.mode)), false)
    ensures !s.isActive && s.timeLeft != 0 ==> r == s
  {
    if s.isActive && s.timeLeft > 0 then s.(timeLeft := s.timeLeft - 1)
    else if s.timeLeft == 0 then TimerState(Other(s.mode), Duration(Other(s.mode)), false)
    else s
  }

  /** `k` turns of the timer effect. */
  function Steps(s: TimerState, k: nat): TimerState
    decreases k
  {
    if k == 0 then s else Steps(Step(s), k - 1)
  }

  /** A running timer loses exactly one second per tick while it has time left. */
  lemma {:induction false} CountsDown(s: TimerState, k: nat)
    requires s.isActive && k <= s.timeLeft
    ensures Steps(s, k) == s.(timeLeft := s.timeLeft - k)
    decreases k
  {
    if k > 0 {
      CountsDown(Step(s), k - 1);
    }
  }

  /** A focus period started in full runs 1500 ticks, then the timer stops on a full 5-minute break. */
  lemma FocusThenBreak()
    ensures Steps(TimerState(FOCUS, Duration(FOCUS), true), Duration(FOCUS)) == TimerState(FOCUS, 0, true)
    ensures Steps(TimerState(FOCUS, Duration(FOCUS), true), Duration(FOCUS) + 1) == TimerState(BREAK, 300, false)
  {
    var s := TimerState(FOCUS, Duration(FOCUS), true);
    CountsDown(s, Duration(FOCUS));
    StepsSplit(s, Duration(FOCUS), 1);
  }

  lemma {:induction false} StepsSplit(s: TimerState, j: nat, k: nat)
    ensures Steps(s, j + k) == Steps(Steps(s, j), k)
    decreases j
  {
    if j > 0 {
      StepsSplit(Step(s), j - 1, k);
    }
  }

  /** The timer component's state. */
  class Timer {
    var mode: Mode
    var timeLeft: int
    var isActive: bool

    function State(): TimerState
      reads this
    {
      TimerState(mode, timeLeft, isActive)
    }

    predicate Valid()
      reads this
    {
      ValidState(State())
    }

    /** The timer opens on a full, stopped focus period. */
    constructor()
      ensures Valid() && State() == TimerState(FOCUS, 1500, false)
    {
      mode := FOCUS;
      timeLeft := 25 * 60;
      isActive := false;
    }

    /** One turn of the timer effect, as Step describes it. */
    method Tick()
      requires Valid()
      modifies this
      ensures Valid() && State() == Step(old(State()))
    {
      if isActive && timeLeft > 0 {
        timeLeft := timeLeft - 1;
      } else if timeLeft == 0 {
        isActive := false;
        if mode == FOCUS {
          mode := BREAK;
          timeLeft := 5 * 60;
        } else {
          mode := FOCUS;
          timeLeft := 25 * 60;
        }
      }
    }

    /** toggleTimer: start or pause, keeping the time left. */
    method Toggle()
      requires Valid()
      modifies this
      ensures Valid() && State() == old(State()).(isActive := !old(isActive))
    {
      isActive := !isActive;
    }

    /** resetTimer: stopped, with the current period in full. */
    method Reset()
      requires Valid()
      modifies this
      ensures Valid() && State() == TimerState(old(mode), Duration(old(mode)), false)
    {
      isActive := false;
      timeLeft := if mode == FOCUS then 25 * 60 else 5 * 60;
    }

    /** The "25 Phút" and "5 Phút" buttons: that period, in full, stopped. */
    method Select(m: Mode)
      modifies this
      ensures Valid() && State() == TimerState(m, Duration(m), false)
    {
      mode := m;
      timeLeft := if m == FOCUS then 25 * 60 else 5 * 60;
      isActive := false;
    }
  }

  /** formatTime: minutes and seconds, each with at least two digits, joined by a colon. */
  function FormatTime(seconds: nat): (t: string)
    ensures |t| >= 5 && t[|t| - 3] == ':'
    ensures seconds < 6000 ==> |t| == 5
  {
    Pad2RoundTrip(seconds / 60);
    Pad2RoundTrip(seconds % 60);
    Pad2(seconds / 60) + ":" + Pad2(seconds % 60)
  }

  /** The clock reads back: two seconds digits under 60 after the last colon, the minutes before it. */
  lemma FormatTimeReadsBack(seconds: nat)
    ensures var t := FormatTime(seconds);
      IsDigits(t[..|t| - 3]) && IsDigits(t[|t| - 2..])
      && ParseDigits(t[|t| - 2..]) < 60
      && ParseDigits(t[..|t| - 3]) * 60 + ParseDigits(t[|t| - 2..]) == seconds
  {
    var mins, secs := Pad2(seconds / 60), Pad2(seconds % 60);
    Pad2RoundTrip(seconds / 60);
    Pad2RoundTrip(seconds % 60);
    var t := FormatTime(seconds);
    assert t == mins + ":" + secs;
    assert t[..|t| - 3] == mins;
    assert t[|t| - 2..] == secs;
  }

  /** Different times show differently. */
  lemma FormatTimeInjective(a: nat, b: nat)
    requires FormatTime(a) == FormatTime(b)
    ensures a == b
  {
    FormatTimeReadsBack(a);
    FormatTimeReadsBack(b);
    OneReading(FormatTime(a), a, b);
  }

  /** A clock text reads back as one number of seconds only. */
  lemma OneReading(t: string, a: nat, b: nat)
    requires |t| >= 3 && IsDigits(t[..|t| - 3]) && IsDigits(t[|t| - 2..])
    requires ParseDigits(t[..|t| - 3]) * 60 + ParseDigits(t[|t| - 2..]) == a
    requires ParseDigits(t[..|t| - 3]) * 60 + ParseDigits(t[|t| - 2..]) == b
    ensures a == b
  {
  }
}
