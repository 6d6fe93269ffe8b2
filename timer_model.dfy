/**
 * The timer half of PomodoroApp as values: the six fields the timer methods update, and one
 * function per transition. The class in pomodoro_app.dfy is specified by these functions; the
 * lemmas here state what the transitions promise.
 *
 * The interval handle of the program is represented by `isRunning` alone: an interval is
 * scheduled exactly when `start` turns the flag on and cleared exactly when `pause` turns it off.
 */
module TimerModel {
  import opened JsText
  import opened TimerDisplay

  /** workTime and breakTime are in minutes, currentTime in seconds. */
  datatype TimerState = TimerState(
    workTime: int,
    breakTime: int,
    currentTime: int,
    isWorking: bool,
    isRunning: bool,
    sessionCount: nat)

  /** The notification shown after a session ends. */
  datatype Notification = Notification(title: string, body: string, icon: string)

  /** The values the constructor gives the timer fields. */
  function Initial(): TimerState
  {
    TimerState(25, 5, 25 * 60, true, false, 0)
  }

  /** The full length, in seconds, of the session the timer is in. */
  function SessionSeconds(s: TimerState): int
  {
    if s.isWorking then s.workTime * 60 else s.breakTime * 60
  }

  function Start(s: TimerState): TimerState
  {
    if !s.isRunning then s.(isRunning := true) else s
  }

  function Pause(s: TimerState): TimerState
  {
    if s.isRunning then s.(isRunning := false) else s
  }

  function Reset(s: TimerState): TimerState
  {
    var p := Pause(s);
    p.(currentTime := if p.isWorking then p.workTime * 60 else p.breakTime * 60)
  }

  function SwitchSession(s: TimerState): TimerState
  {
    if s.isWorking then
      s.(sessionCount := s.sessionCount + 1, isWorking := false, currentTime := s.breakTime * 60)
    else
      s.(isWorking := true, currentTime := s.workTime * 60)
  }

  function Tick(s: TimerState): TimerState
  {
    var d := s.(currentTime := s.currentTime - 1);
    if d.currentTime <= 0 then SwitchSession(Pause(d)) else d
  }

  /** The work-duration slider's input handler, given the parsed slider value. */
  function SetWorkTime(s: TimerState, minutes: int): TimerState
  {
    var w := s.(workTime := minutes);
    if w.isWorking && !w.isRunning then w.(currentTime := w.workTime * 60) else w
  }

  /** The break-duration slider's input handler, given the parsed slider value. */
  function SetBreakTime(s: TimerState, minutes: int): TimerState
  {
    var b := s.(breakTime := minutes);
    if !b.isWorking && !b.isRunning then b.(currentTime := b.breakTime * 60) else b
  }

  /** `n` successive ticks. */
  function Ticks(s: TimerState, n: nat): TimerState
    decreases n
  {
    if n == 0 then s else Ticks(Tick(s), n - 1)
  }

  /** The notification `playNotification` builds; it is called after the switch, so `isWorking`
      names the session that has just begun. */
  function NotificationFor(isWorking: bool): Notification
  {
    if isWorking then Notification("Break time is over!", "Time to get back to work!", "\U{1F345}")
    else Notification("Work session completed!", "Take a well-deserved break!", "\U{1F345}")
  }

  // ---------------------------------------------------------------------------
  // start, pause, reset
  // ---------------------------------------------------------------------------

  /** `start` leaves the timer running and touches nothing else; on a running timer it is a no-op. */
  lemma StartRuns(s: TimerState)
    ensures Start(s) == s.(isRunning := true)
    ensures s.isRunning ==> Start(s) == s
    ensures Start(Start(s)) == Start(s)
  {
  }

  /** `pause` leaves the timer stopped and touches nothing else; a second `pause` changes nothing. */
  lemma PauseStops(s: TimerState)
    ensures Pause(s) == s.(isRunning := false)
    ensures !s.isRunning ==> Pause(s) == s
    ensures Pause(Pause(s)) == Pause(s)
  {
  }

  /** `reset` stops the timer and rewinds it to the full length of the current session; the
      mode, both durations and the session count stay. */
  lemma ResetRewinds(s: TimerState)
    ensures Reset(s) == s.(isRunning := false, currentTime := SessionSeconds(s))
    ensures Reset(Reset(s)) == Reset(s)
  {
  }

  // ---------------------------------------------------------------------------
  // tick and switchSession
  // ---------------------------------------------------------------------------

  /** A tick above the last second only counts down by one. */
  lemma TickCountsDown(s: TimerState)
    requires s.currentTime > 1
    ensures Tick(s) == s.(currentTime := s.currentTime - 1)
  {
  }

  /** The tick that ends a work session stops the timer, starts a full break and counts the session. */
  lemma TickEndsWork(s: TimerState)
    requires s.isWorking && s.currentTime <= 1
    ensures Tick(s) == s.(isWorking := false, isRunning := false,
                          currentTime := s.breakTime * 60, sessionCount := s.sessionCount + 1)
  {
  }

  /** The tick that ends a break stops the timer and starts a full work session; the count stays. */
  lemma TickEndsBreak(s: TimerState)
    requires !s.isWorking && s.currentTime <= 1
    ensures Tick(s) == s.(isWorking := true, isRunning := false, currentTime := s.workTime * 60)
  {
  }

  /** A session switch alternates the mode, sets the countdown to the new session's full length,
      and counts exactly the work sessions that end; switching twice returns to the same mode. */
  lemma SwitchSessionAlternates(s: TimerState)
    ensures var r := SwitchSession(s);
      r.isWorking == !s.isWorking && r.currentTime == SessionSeconds(r) &&
      r.sessionCount == s.sessionCount + (if s.isWorking then 1 else 0) &&
      r.workTime == s.workTime && r.breakTime == s.breakTime && r.isRunning == s.isRunning
    ensures SwitchSession(SwitchSession(s)).isWorking == s.isWorking
  {
  }

  /** The notification after a finished session names the session that ended. */
  lemma NotificationNamesEndedSession(s: TimerState)
    requires s.currentTime <= 1
    ensures NotificationFor(Tick(s).isWorking).title ==
            if s.isWorking then "Work session completed!" else "Break time is over!"
  {
  }

  // ---------------------------------------------------------------------------
  // the sliders
  // ---------------------------------------------------------------------------

  /** The work slider always stores the new duration, and rewinds the countdown to it only while
      the timer is stopped in a work session. */
  lemma SetWorkTimeEffect(s: TimerState, minutes: int)
    ensures SetWorkTime(s, minutes) ==
      if s.isWorking && !s.isRunning then s.(workTime := minutes, currentTime := minutes * 60)
      else s.(workTime := minutes)
  {
  }

  /** The break slider always stores the new duration, and rewinds the countdown to it only while
      the timer is stopped in a break. */
  lemma SetBreakTimeEffect(s: TimerState, minutes: int)
    ensures SetBreakTime(s, minutes) ==
      if !s.isWorking && !s.isRunning then s.(breakTime := minutes, currentTime := minutes * 60)
      else s.(breakTime := minutes)
  {
  }

  // ---------------------------------------------------------------------------
  // counting down whole sessions
  // ---------------------------------------------------------------------------

  lemma {:induction false} TicksAdd(s: TimerState, m: nat, n: nat)
    ensures Ticks(s, m + n) == Ticks(Ticks(s, m), n)
    decreases m
  {
    if m > 0 {
      TicksAdd(Tick(s), m - 1, n);
    }
  }

  /** Fewer ticks than the seconds left only count down. */
  lemma {:induction false} TicksCountDown(s: TimerState, n: nat)
    requires n < s.currentTime
    ensures Ticks(s, n) == s.(currentTime := s.currentTime - n)
    decreases n
  {
    if n > 0 {
      TickCountsDown(s);
      TicksCountDown(Tick(s), n - 1);
    }
  }

  /** As many ticks as seconds are left end the session: the timer stops in the other mode with that
      session's full length, and the session count grows by one exactly when a work session ended. */
  lemma SessionEndsOnTime(s: TimerState)
    requires s.currentTime >= 1
    ensures Ticks(s, s.currentTime) == SwitchSession(s.(isRunning := false, currentTime := 0))
  {
    var c := s.currentTime;
    TicksAdd(s, c - 1, 1);
    TicksCountDown(s, c - 1);
  }

  /** A full work session, `start` pressed again, and a full break bring the timer back to where it
      began, stopped and with one more completed session. */
  lemma WorkAndBreakCycle(s: TimerState)
    requires s.isWorking && s.isRunning && s.workTime >= 1 && s.breakTime >= 1
    requires s.currentTime == s.workTime * 60
    ensures Ticks(Start(Ticks(s, s.workTime * 60)), s.breakTime * 60) ==
            s.(isRunning := false, sessionCount := s.sessionCount + 1)
  {
    SessionEndsOnTime(s);
    var b := Start(Ticks(s, s.workTime * 60));
    assert b.currentTime == s.breakTime * 60;
    SessionEndsOnTime(b);
  }

  // ---------------------------------------------------------------------------
  // the range invariant
  // ---------------------------------------------------------------------------

  /** The durations lie in the sliders' range of 1 to 60 minutes and the countdown is between one
      second and an hour. */
  predicate InRange(s: TimerState)
  {
    1 <= s.workTime <= 60 && 1 <= s.breakTime <= 60 && 1 <= s.currentTime <= 3600
  }

  /** Every transition keeps the range invariant, the sliders when given a value in their range. */
  lemma InRangePreserved(s: TimerState, minutes: int)
    requires InRange(s)
    ensures InRange(Start(s)) && InRange(Pause(s)) && InRange(Reset(s)) && InRange(Tick(s))
    ensures InRange(SwitchSession(s))
    ensures 1 <= minutes <= 60 ==> InRange(SetWorkTime(s, minutes)) && InRange(SetBreakTime(s, minutes))
  {
  }

  /** The countdown never displays as anything longer than `MM:SS` while the invariant holds. */
  lemma InRangeDisplaysFiveCharacters(s: TimerState)
    requires InRange(s)
    ensures |FormatTime(s.currentTime)| == 5 && FormatTime(s.currentTime)[2] == ':'
  {
    FormatTimeShape(s.currentTime);
  }

  lemma InitialInRange()
    ensures InRange(Initial()) && FormatTime(Initial().currentTime) == "25:00"
  {
  }
}
