/** src/components/PomodoroTimer.tsx: what the timer card derives from the
    provider's state — the m:ss text, the progress percentage, the main
    button's label and which extra controls appear. */
module PomodoroTimer {
  import opened Types
  import opened Text
  import opened PomodoroContext

  /** The two numbers `formatTime` prints: whole minutes and the seconds left over. */
  function SplitTime(seconds: nat): (mm: (nat, nat))
    ensures mm.0 * 60 + mm.1 == seconds && mm.1 < 60
  {
    (seconds / 60, seconds % 60)
  }

  /** The seconds field: zero-padded to two digits. */
  function SecondsField(secs: nat): (r: string)
    requires secs < 60
    ensures |r| == 2 && IsDigit(r[0]) && IsDigit(r[1])
    ensures r[0] == '0' <==> secs < 10
    ensures DecimalValue(r) == secs
  {
    DecimalRoundTrip(secs);
    var digits := DecimalString(secs);
    if secs < 10 then
      assert DecimalValue(['0'] + digits) == DecimalValue(digits) by {
        assert (['0'] + digits)[..1] == ['0'];
        assert DecimalValue(['0']) == 0 by { assert ['0'][..0] == []; }
      }
      ['0'] + digits
    else
      assert |digits| == 2;
      digits
  }

  /** `formatTime(seconds)`: minutes, a colon, the two-digit seconds. */
  function FormatTime(seconds: nat): (r: string)
    ensures |r| >= 4 && r[|r| - 3] == ':'
    ensures forall k :: 0 <= k < |r| && k != |r| - 3 ==> IsDigit(r[k])
    ensures r[0] == '0' ==> |r| == 4
    ensures DecimalValue(r[..|r| - 3]) == seconds / 60
    ensures DecimalValue(r[|r| - 2..]) == seconds % 60
  {
    var (mins, secs) := SplitTime(seconds);
    var m := DecimalString(mins);
    var f := SecondsField(secs);
    var r := m + ":" + f;
    assert r[..|r| - 3] == m && r[|r| - 2..] == f;
    DecimalRoundTrip(mins);
    r
  }

  /** Reads an `m:ss` string back into seconds; None when it is not of that form. */
  function ParseTime(t: string): Option<nat>
  {
    if |t| >= 4 && t[|t| - 3] == ':'
       && (forall k :: 0 <= k < |t| - 3 ==> IsDigit(t[k]))
       && IsDigit(t[|t| - 2]) && IsDigit(t[|t| - 1])
    then Some(DecimalValue(t[..|t| - 3]) * 60 + DecimalValue(t[|t| - 2..]))
    else None
  }

  /** The text shown on the timer determines the remaining seconds. */
  lemma FormatTimeRoundTrip(seconds: nat)
    ensures ParseTime(FormatTime(seconds)) == Some(seconds)
  {
    var (mins, secs) := SplitTime(seconds);
    var r := FormatTime(seconds);
    var m := DecimalString(mins);
    var f := SecondsField(secs);
    assert r == m + ":" + f;
    assert r[..|r| - 3] == m;
    assert r[|r| - 2..] == f;
    assert r[|r| - 2] == f[0] && r[|r| - 1] == f[1];
    DecimalRoundTrip(mins);
  }

  /** `getTotalSeconds`: the component's own table of interval lengths. */
  function TotalSeconds(m: TimerMode): (r: nat)
    ensures r == Duration(m)
  {
    match m
    case Pomodoro => 25 * 60
    case ShortBreak => 5 * 60
    case LongBreak => 15 * 60
  }

  function Clamp(lo: real, hi: real, x: real): real
    requires lo <= hi
  {
    if x < lo then lo else if x > hi then hi else x
  }

  /** `progress`: the elapsed share of the interval in percent, clamped to [0, 100]. */
  function Progress(m: TimerMode, timeLeft: int): (p: real)
    ensures 0.0 <= p <= 100.0
    ensures timeLeft == TotalSeconds(m) ==> p == 0.0
    ensures timeLeft == 0 ==> p == 100.0
  {
    var total := TotalSeconds(m) as real;
    Clamp(0.0, 100.0, (total - timeLeft as real) / total * 100.0)
  }

  /** Less time left never means less progress. */
  lemma ProgressMonotone(m: TimerMode, t1: int, t2: int)
    requires t1 <= t2
    ensures Progress(m, t2) <= Progress(m, t1)
  {
    var total := TotalSeconds(m) as real;
    assert (total - t2 as real) <= (total - t1 as real);
    DivMonotone(total - t2 as real, total - t1 as real, total);
  }

  lemma DivMonotone(a: real, b: real, c: real)
    requires a <= b && c > 0.0
    ensures a / c * 100.0 <= b / c * 100.0
  {
  }

  /** The main button's label: INICIAR, CONTINUAR or PAUSAR. */
  datatype ControlLabel = StartLabel | ContinueLabel | PauseLabel

  function ControlButton(isActive: bool, isPaused: bool): (l: ControlLabel)
    ensures l == StartLabel <==> !isActive
    ensures l == ContinueLabel <==> isActive && isPaused
    ensures l == PauseLabel <==> isActive && !isPaused
  {
    if !isActive then StartLabel else if isPaused then ContinueLabel else PauseLabel
  }

  /** The state after pressing the main button: start while stopped, the
      pause toggle while running. */
  function PressControl(s: TimerState): (r: TimerState)
    ensures r.isActive && r.mode == s.mode && r.timeLeft == s.timeLeft && r.stats == s.stats
    ensures !s.isActive ==> !r.isPaused
    ensures s.isActive ==> r.isPaused != s.isPaused
  {
    if !s.isActive then AfterStart(s) else AfterPause(s)
  }

  /** Pressing the main button moves INICIAR to PAUSAR, PAUSAR to CONTINUAR
      and CONTINUAR back to PAUSAR, without touching the time or the mode. */
  lemma PressControlCycle(s: TimerState)
    ensures var before := ControlButton(s.isActive, s.isPaused);
      var after := PressControl(s);
      && ControlButton(after.isActive, after.isPaused)
         == (if before == PauseLabel then ContinueLabel else PauseLabel)
      && after.timeLeft == s.timeLeft && after.mode == s.mode
  {
  }

  /** Reset and skip are offered only while the timer is active. */
  predicate ShowsResetAndSkip(isActive: bool)
  {
    isActive
  }

  /** Using either of them stops the timer, so both buttons disappear, and
      the main button goes back to INICIAR. */
  lemma ResetAndSkipHideThemselves(s: TimerState)
    requires ShowsResetAndSkip(s.isActive)
    ensures !ShowsResetAndSkip(AfterReset(s).isActive) && !ShowsResetAndSkip(AfterSkip(s).isActive)
    ensures ControlButton(AfterReset(s).isActive, AfterReset(s).isPaused) == StartLabel
    ensures ControlButton(AfterSkip(s).isActive, AfterSkip(s).isPaused) == StartLabel
  {
  }

  /** `tasks.find(task => task.id === selectedTaskId)`. */
  function FindTask(tasks: seq<Task>, id: int): (r: Option<Task>)
    ensures r.Some? ==> r.value in tasks && r.value.id == id
    ensures r.None? <==> forall k :: 0 <= k < |tasks| ==> tasks[k].id != id
    ensures r.Some? ==> exists k :: 0 <= k < |tasks| && tasks[k] == r.value
                                    && forall j :: 0 <= j < k ==> tasks[j].id != id
  {
    if tasks == [] then None
    else if tasks[0].id == id then Some(tasks[0])
    else
      var r := FindTask(tasks[1..], id);
      assert r.Some? ==> exists k :: 1 <= k < |tasks| && tasks[k] == r.value
                                    && forall j :: 0 <= j < k ==> tasks[j].id != id by {
        if r.Some? {
          var k :| 0 <= k < |tasks[1..]| && tasks[1..][k] == r.value
                   && forall j :: 0 <= j < k ==> tasks[1..][j].id != id;
          assert tasks[k + 1] == r.value;
          forall j | 0 <= j < k + 1 ensures tasks[j].id != id {
            if j > 0 { assert tasks[j] == tasks[1..][j - 1]; }
          }
        }
      }
      r
  }

  /** `selectedTask`: a falsy id (absent, null or 0) selects nothing. */
  function SelectedTask(tasks: seq<Task>, selectedTaskId: Option<int>): (r: Option<Task>)
    ensures selectedTaskId == None || selectedTaskId == Some(0) ==> r == None
    ensures r.Some? ==> r.value in tasks && Some(r.value.id) == selectedTaskId
  {
    match selectedTaskId
    case None => None
    case Some(id) => if id == 0 then None else FindTask(tasks, id)
  }

  /** The "Focando em" badge: a selected task while in focus mode. */
  function ShowsFocusBadge(tasks: seq<Task>, selectedTaskId: Option<int>, m: TimerMode): (shown: bool)
    ensures shown ==> m == Pomodoro && selectedTaskId.Some? && selectedTaskId != Some(0)
    ensures shown <==> m == Pomodoro && SelectedTask(tasks, selectedTaskId).Some?
  {
    SelectedTask(tasks, selectedTaskId).Some? && m == Pomodoro
  }

  /** The badge shows for a task in the list whenever the timer is in focus mode. */
  lemma FocusBadgeForListedTask(tasks: seq<Task>, k: int, m: TimerMode)
    requires 0 <= k < |tasks| && tasks[k].id != 0
    ensures ShowsFocusBadge(tasks, Some(tasks[k].id), m) <==> m == Pomodoro
  {
    var _ := FindTask(tasks, tasks[k].id);
  }
}
