/** src/context/PomodoroContext.tsx: the timer state machine. The pure
    After* functions give the state after each operation; the class
    `PomodoroProvider` holds the provider's state fields and its methods are
    proved to move between states exactly as those functions say. */
module PomodoroContext {
  import opened Types
  import opened Storage
  import PomodoroStorage

  datatype TimerMode = Pomodoro | ShortBreak | LongBreak

  /** DEFAULT_TIMES, in seconds. */
  function Duration(m: TimerMode): (d: nat)
    ensures m == Pomodoro ==> d == 1500
    ensures m == ShortBreak ==> d == 300
    ensures m == LongBreak ==> d == 900
  {
    match m
    case Pomodoro => 25 * 60
    case ShortBreak => 5 * 60
    case LongBreak => 15 * 60
  }

  /** The state the provider keeps. */
  datatype TimerState = TimerState(
    mode: TimerMode,
    timeLeft: int,
    isActive: bool,
    isPaused: bool,
    stats: PomodoroStats)

  /** The bound every reachable state keeps. */
  predicate Bounded(s: TimerState)
  {
    0 <= s.timeLeft <= Duration(s.mode)
  }

  /** The state on mount. */
  function Initial(): (s: TimerState)
    ensures Bounded(s)
  {
    TimerState(Pomodoro, Duration(Pomodoro), false, false, PomodoroStats(0, 0))
  }

  /** `setMode(m)`: a fresh, stopped interval of mode m; statistics kept. */
  function AfterSetMode(s: TimerState, m: TimerMode): (r: TimerState)
    ensures Bounded(r) && r.mode == m && r.timeLeft == Duration(m)
    ensures !r.isActive && !r.isPaused && r.stats == s.stats
  {
    s.(mode := m, timeLeft := Duration(m), isActive := false, isPaused := false)
  }

  /** `startTimer`. */
  function AfterStart(s: TimerState): (r: TimerState)
    ensures r.isActive && !r.isPaused
    ensures r.mode == s.mode && r.timeLeft == s.timeLeft && r.stats == s.stats
  {
    s.(isActive := true, isPaused := false)
  }

  /** `pauseTimer`: flips the paused flag whether or not the timer runs. */
  function AfterPause(s: TimerState): (r: TimerState)
    ensures r.isPaused != s.isPaused && r == s.(isPaused := r.isPaused)
  {
    s.(isPaused := !s.isPaused)
  }

  /** `resetTimer`: the current mode's interval from the start, stopped. */
  function AfterReset(s: TimerState): (r: TimerState)
    ensures r == AfterSetMode(s, s.mode)
  {
    s.(isActive := false, isPaused := false, timeLeft := Duration(s.mode))
  }

  /** The mode `skipTimer` moves to: pomodoro -> shortBreak -> longBreak -> pomodoro. */
  function SkipTarget(m: TimerMode): TimerMode
  {
    match m
    case Pomodoro => ShortBreak
    case ShortBreak => LongBreak
    case LongBreak => Pomodoro
  }

  /** `skipTimer`: a reset followed by `setMode(SkipTarget(mode))`; no credit. */
  function AfterSkip(s: TimerState): (r: TimerState)
    ensures r == AfterSetMode(s, SkipTarget(s.mode))
  {
    AfterSetMode(AfterReset(s), SkipTarget(s.mode))
  }

  /** The mode natural completion moves to: after a pomodoro a short break,
      after either break a pomodoro. */
  function CompletionTarget(m: TimerMode): TimerMode
  {
    if m == Pomodoro then ShortBreak else Pomodoro
  }

  /** The toast `handleTimerComplete` shows. */
  datatype Notice = FocusDone | BreakDone

  /** `handleTimerComplete`: stop, credit a finished pomodoro, move on. */
  function AfterComplete(s: TimerState): (r: TimerState)
    ensures Bounded(r) && !r.isActive && !r.isPaused
    ensures r.mode == CompletionTarget(s.mode) && r.timeLeft == Duration(r.mode)
    ensures r.stats.totalPomodoros == s.stats.totalPomodoros
    ensures r.stats.completedPomodoros
            == s.stats.completedPomodoros + (if s.mode == Pomodoro then 1 else 0)
  {
    var credited :=
      if s.mode == Pomodoro
      then s.stats.(completedPomodoros := s.stats.completedPomodoros + 1)
      else s.stats;
    AfterSetMode(s.(isActive := false, stats := credited), CompletionTarget(s.mode))
  }

  /** One run of the timer effect: while running, unpaused and above zero the
      scheduled callback takes one second off; at zero an active timer
      completes, paused or not; otherwise nothing happens. */
  function AfterEffect(s: TimerState): (r: TimerState)
    ensures r != s ==> s.isActive
    ensures r.stats.totalPomodoros == s.stats.totalPomodoros
    ensures r.stats.completedPomodoros == s.stats.completedPomodoros
            + (if s.isActive && s.timeLeft == 0 && s.mode == Pomodoro then 1 else 0)
  {
    if s.isActive && !s.isPaused && s.timeLeft > 0 then s.(timeLeft := s.timeLeft - 1)
    else if s.timeLeft == 0 && s.isActive then AfterComplete(s)
    else s
  }

  /** The notification that effect run shows, if any. */
  function EffectNotice(s: TimerState): (n: Option<Notice>)
    ensures n.Some? <==> AfterEffect(s) == AfterComplete(s) && s.timeLeft == 0 && s.isActive
    ensures n == Some(FocusDone) <==> n.Some? && s.mode == Pomodoro
  {
    if !(s.isActive && !s.isPaused && s.timeLeft > 0) && s.timeLeft == 0 && s.isActive
    then Some(if s.mode == Pomodoro then FocusDone else BreakDone)
    else None
  }

  /** `setTotalPomodoros(total)`: overwrites the planned count only. */
  function AfterSetTotal(s: TimerState, total: int): (r: TimerState)
    ensures r.stats.totalPomodoros == total
    ensures r.stats.completedPomodoros == s.stats.completedPomodoros
    ensures r == s.(stats := r.stats)
  {
    s.(stats := s.stats.(totalPomodoros := total))
  }

  // ---------------------------------------------------------------------
  // Single steps

  /** A tick of a running, unpaused timer takes exactly one second off and
      changes nothing else. */
  lemma TickDecrements(s: TimerState)
    requires s.isActive && !s.isPaused && s.timeLeft > 0
    ensures AfterEffect(s) == s.(timeLeft := s.timeLeft - 1)
  {
  }

  /** A stopped or paused timer away from zero does not move. */
  lemma EffectIdleWhenStopped(s: TimerState)
    requires !s.isActive || (s.isPaused && s.timeLeft != 0)
    ensures AfterEffect(s) == s && EffectNotice(s) == None
  {
  }

  /** Completion credits exactly one pomodoro after a focus interval and none
      after a break. */
  lemma EffectCompletion(s: TimerState)
    requires s.isActive && s.timeLeft == 0
    ensures AfterEffect(s) == AfterComplete(s)
    ensures AfterEffect(s).stats.completedPomodoros
            == s.stats.completedPomodoros + (if s.mode == Pomodoro then 1 else 0)
    ensures AfterEffect(s).stats.totalPomodoros == s.stats.totalPomodoros
    ensures AfterEffect(s).mode == (if s.mode == Pomodoro then ShortBreak else Pomodoro)
    ensures EffectNotice(s) == Some(if s.mode == Pomodoro then FocusDone else BreakDone)
  {
  }

  /** Pausing twice restores the state. */
  lemma PauseTwice(s: TimerState)
    ensures AfterPause(AfterPause(s)) == s
  {
  }

  /** Three skips come back to the starting mode, never touching the stats. */
  lemma SkipCycle(s: TimerState)
    ensures AfterSkip(AfterSkip(AfterSkip(s))).mode == s.mode
    ensures AfterSkip(s).stats == s.stats
    ensures AfterSkip(s).mode != s.mode
  {
  }

  // ---------------------------------------------------------------------
  // Sequences of operations

  /** The operations the provider exposes, plus one run of the timer effect. */
  datatype Action =
    | SetModeTo(m: TimerMode)
    | Start
    | Pause
    | Reset
    | Skip
    | SetTotal(total: int)
    | Effect

  function Apply(s: TimerState, a: Action): TimerState
  {
    match a
    case SetModeTo(m) => AfterSetMode(s, m)
    case Start => AfterStart(s)
    case Pause => AfterPause(s)
    case Reset => AfterReset(s)
    case Skip => AfterSkip(s)
    case SetTotal(n) => AfterSetTotal(s, n)
    case Effect => AfterEffect(s)
  }

  function Run(s: TimerState, actions: seq<Action>): TimerState
    decreases |actions|
  {
    if actions == [] then s else Run(Apply(s, actions[0]), actions[1..])
  }

  lemma ApplyKeepsBounded(s: TimerState, a: Action)
    requires Bounded(s)
    ensures Bounded(Apply(s, a))
  {
  }

  /** Whatever the operations and ticks, the remaining time stays between
      zero and the current mode's duration. */
  lemma {:induction false} RunKeepsBounded(s: TimerState, actions: seq<Action>)
    requires Bounded(s)
    ensures Bounded(Run(s, actions))
    decreases |actions|
  {
    if actions != [] {
      ApplyKeepsBounded(s, actions[0]);
      RunKeepsBounded(Apply(s, actions[0]), actions[1..]);
    }
  }

  /** The completed count never goes down. */
  lemma {:induction false} RunNeverLowersCompleted(s: TimerState, actions: seq<Action>)
    ensures Run(s, actions).stats.completedPomodoros >= s.stats.completedPomodoros
    decreases |actions|
  {
    if actions != [] {
      RunNeverLowersCompleted(Apply(s, actions[0]), actions[1..]);
    }
  }

  /** Only `setTotalPomodoros` changes the planned count. */
  lemma {:induction false} RunKeepsTotal(s: TimerState, actions: seq<Action>)
    requires forall k :: 0 <= k < |actions| ==> !actions[k].SetTotal?
    ensures Run(s, actions).stats.totalPomodoros == s.stats.totalPomodoros
    decreases |actions|
  {
    if actions != [] {
      RunKeepsTotal(Apply(s, actions[0]), actions[1..]);
    }
  }

  /** Skips and ticks never credit a pomodoro except by natural completion:
      without timer effects the completed count stays put. */
  lemma {:induction false} RunWithoutEffectKeepsCompleted(s: TimerState, actions: seq<Action>)
    requires forall k :: 0 <= k < |actions| ==> !actions[k].Effect?
    ensures Run(s, actions).stats.completedPomodoros == s.stats.completedPomodoros
    decreases |actions|
  {
    if actions != [] {
      RunWithoutEffectKeepsCompleted(Apply(s, actions[0]), actions[1..]);
    }
  }

  /** The long break is reached only by hand: starting outside it, no sequence
      of start, pause, reset, planned-count updates and ticks ever enters it. */
  lemma {:induction false} LongBreakOnlyByHand(s: TimerState, actions: seq<Action>)
    requires s.mode != LongBreak
    requires forall k :: 0 <= k < |actions| ==> !actions[k].Skip? && !actions[k].SetModeTo?
    ensures Run(s, actions).mode != LongBreak
    decreases |actions|
  {
    if actions != [] {
      LongBreakOnlyByHand(Apply(s, actions[0]), actions[1..]);
    }
  }

  /** `n` runs of the timer effect. */
  function Ticks(s: TimerState, n: nat): TimerState
    decreases n
  {
    if n == 0 then s else Ticks(AfterEffect(s), n - 1)
  }

  /** A running timer counts down one second per tick. */
  lemma {:induction false} CountDown(s: TimerState, n: nat)
    requires s.isActive && !s.isPaused && n <= s.timeLeft
    ensures Ticks(s, n) == s.(timeLeft := s.timeLeft - n)
    decreases n
  {
    if n > 0 {
      CountDown(AfterEffect(s), n - 1);
    }
  }

  /** A started focus interval, left alone, ends after its duration plus the
      completing tick in a stopped short break with exactly one more
      completed pomodoro. */
  lemma FocusIntervalCredits(s: TimerState)
    ensures var r := Ticks(AfterStart(AfterSetMode(s, Pomodoro)), Duration(Pomodoro) + 1);
      && r.mode == ShortBreak && r.timeLeft == Duration(ShortBreak)
      && !r.isActive && !r.isPaused
      && r.stats.completedPomodoros == s.stats.completedPomodoros + 1
      && r.stats.totalPomodoros == s.stats.totalPomodoros
  {
    var t := AfterStart(AfterSetMode(s, Pomodoro));
    var d := Duration(Pomodoro);
    CountDown(t, d);
    var z := t.(timeLeft := 0);
    assert Ticks(t, d + 1) == Ticks(z, 1) by {
      TicksSplit(t, d, 1);
    }
    assert Ticks(z, 1) == Ticks(AfterEffect(z), 0) == AfterEffect(z);
    EffectCompletion(z);
  }

  lemma {:induction false} TicksSplit(s: TimerState, a: nat, b: nat)
    ensures Ticks(s, a + b) == Ticks(Ticks(s, a), b)
    decreases a
  {
    if a > 0 {
      TicksSplit(AfterEffect(s), a - 1, b);
    }
  }

  // ---------------------------------------------------------------------
  // Estimated end

  /** The estimate's integer part: the `--:--` sentinel, or the number of
      seconds added to the wall clock. */
  datatype EndEstimate = Unknown | InSeconds(seconds: int)

  /** The part of the current interval `calculateEstimatedEndTime` subtracts. */
  function CurrentIntervalSeconds(s: TimerState): (r: int)
    ensures r != 0 ==> s.isActive && s.mode == Pomodoro && r == s.timeLeft
    ensures Bounded(s) ==> 0 <= r <= Duration(Pomodoro)
  {
    if s.isActive && s.mode == Pomodoro then s.timeLeft else 0
  }

  /** `calculateEstimatedEndTime` without the clock: Unknown when nothing is
      planned beyond what is done; otherwise the remaining pomodoros at full
      length less the running focus interval's remaining time. */
  function EstimatedEnd(s: TimerState): (r: EndEstimate)
    ensures r.Unknown? <==> s.stats.totalPomodoros <= s.stats.completedPomodoros
    ensures r.InSeconds? ==>
      r.seconds + CurrentIntervalSeconds(s)
      == (s.stats.totalPomodoros - s.stats.completedPomodoros) * Duration(Pomodoro)
  {
    if s.stats.totalPomodoros <= s.stats.completedPomodoros then Unknown
    else
      var remainingPomodoros := s.stats.totalPomodoros - s.stats.completedPomodoros;
      InSeconds(remainingPomodoros * Duration(Pomodoro) - CurrentIntervalSeconds(s))
  }

  /** In a bounded state the estimate is never negative and never more than
      the remaining pomodoros at full length. */
  lemma EstimateBounds(s: TimerState)
    requires Bounded(s)
    requires EstimatedEnd(s).InSeconds?
    ensures 0 <= EstimatedEnd(s).seconds
            <= (s.stats.totalPomodoros - s.stats.completedPomodoros) * Duration(Pomodoro)
  {
    var rem := s.stats.totalPomodoros - s.stats.completedPomodoros;
    assert rem >= 1;
    assert rem * Duration(Pomodoro) >= Duration(Pomodoro);
  }

  /** As written, each tick of a running focus interval adds one second to the
      remaining figure, and starting a focus interval removes its remaining
      time from it. */
  lemma EstimateDuringFocus(s: TimerState)
    requires s.stats.totalPomodoros > s.stats.completedPomodoros
    requires s.mode == Pomodoro && !s.isActive
    ensures EstimatedEnd(AfterStart(s)).seconds == EstimatedEnd(s).seconds - s.timeLeft
    ensures s.timeLeft > 0 ==>
      EstimatedEnd(AfterEffect(AfterStart(s))).seconds == EstimatedEnd(AfterStart(s)).seconds + 1
  {
  }

  /** Four planned pomodoros, one done, a focus interval running with 600 s
      left; and nothing planned at all. */
  lemma EstimateExample()
    ensures EstimatedEnd(TimerState(Pomodoro, 600, true, false, PomodoroStats(1, 4))) == InSeconds(3900)
    ensures EstimatedEnd(TimerState(Pomodoro, 1500, false, false, PomodoroStats(0, 0))) == Unknown
  {
  }

  // ---------------------------------------------------------------------
  // The provider

  class PomodoroProvider {
    var currentMode: TimerMode
    var timeLeft: int
    var isActive: bool
    var isPaused: bool
    var stats: PomodoroStats

    predicate Valid()
      reads this
    {
      Bounded(State())
    }

    function State(): TimerState
      reads this
    {
      TimerState(currentMode, timeLeft, isActive, isPaused, stats)
    }

    constructor ()
      ensures Valid() && State() == Initial()
    {
      currentMode := Pomodoro;
      timeLeft := Duration(Pomodoro);
      isActive := false;
      isPaused := false;
      stats := PomodoroStats(0, 0);
    }

    method SetMode(mode: TimerMode)
      requires Valid()
      modifies this
      ensures Valid() && State() == AfterSetMode(old(State()), mode)
    {
      currentMode := mode;
      timeLeft := Duration(mode);
      isActive := false;
      isPaused := false;
    }

    method HandleTimerComplete() returns (notice: Notice)
      requires Valid()
      modifies this
      ensures Valid() && State() == AfterComplete(old(State()))
      ensures notice == if old(currentMode) == Pomodoro then FocusDone else BreakDone
    {
      isActive := false;
      notice := if currentMode == Pomodoro then FocusDone else BreakDone;
      if currentMode == Pomodoro {
        stats := stats.(completedPomodoros := stats.completedPomodoros + 1);
      }
      if currentMode == Pomodoro {
        SetMode(ShortBreak);
      } else {
        SetMode(Pomodoro);
      }
    }

    /** One run of the timer effect. */
    method RunTimerEffect() returns (notice: Option<Notice>)
      requires Valid()
      modifies this
      ensures Valid() && State() == AfterEffect(old(State()))
      ensures notice == EffectNotice(old(State()))
    {
      notice := None;
      if isActive && !isPaused && timeLeft > 0 {
        timeLeft := timeLeft - 1;
      } else if timeLeft == 0 && isActive {
        var n := HandleTimerComplete();
        notice := Some(n);
      }
    }

    method StartTimer()
      requires Valid()
      modifies this
      ensures Valid() && State() == AfterStart(old(State()))
    {
      isActive := true;
      isPaused := false;
    }

    method PauseTimer()
      requires Valid()
      modifies this
      ensures Valid() && State() == AfterPause(old(State()))
    {
      isPaused := !isPaused;
    }

    method ResetTimer()
      requires Valid()
      modifies this
      ensures Valid() && State() == AfterReset(old(State()))
    {
      isActive := false;
      isPaused := false;
      timeLeft := Duration(currentMode);
    }

    method SkipTimer()
      requires Valid()
      modifies this
      ensures Valid() && State() == AfterSkip(old(State()))
    {
      var mode := currentMode;
      ResetTimer();
      if mode == Pomodoro {
        SetMode(ShortBreak);
      } else if mode == ShortBreak {
        SetMode(LongBreak);
      } else {
        SetMode(Pomodoro);
      }
    }

    method SetTotalPomodoros(total: int)
      requires Valid()
      modifies this
      ensures Valid() && State() == AfterSetTotal(old(State()), total)
    {
      stats := stats.(totalPomodoros := total);
    }

    /** The integer part of `estimatedEndTime`. */
    function EstimatedEndTime(): (r: EndEstimate)
      reads this
      ensures r.Unknown? <==> stats.totalPomodoros <= stats.completedPomodoros
      ensures r.InSeconds? && isActive && currentMode == Pomodoro ==>
        r.seconds + timeLeft == (stats.totalPomodoros - stats.completedPomodoros) * Duration(Pomodoro)
    {
      EstimatedEnd(State())
    }

    /** The mount effect that loads saved statistics: a stored record
        replaces the counters, anything else leaves them. */
    method LoadStatsEffect(store: KeyValueStore, codec: Codec)
      requires Valid()
      modifies this
      ensures Valid()
      ensures var loaded := PomodoroStorage.DecodeStats(store.Peek(PomodoroStorage.POMODORO_STATS_KEY), codec);
        State() == old(State()).(stats := if loaded.Some? then loaded.value else old(stats))
    {
      var loaded := PomodoroStorage.LoadPomodoroStats(store, codec);
      if loaded.Some? {
        stats := loaded.value;
      }
    }

    /** The effect that saves the statistics after each change. */
    method SaveStatsEffect(store: KeyValueStore, codec: Codec)
      modifies store`items
      ensures store.items ==
        if store.failing then old(store.items)
        else old(store.items)[PomodoroStorage.POMODORO_STATS_KEY := codec.stringify(PomodoroStorage.StatsToJson(stats))]
    {
      PomodoroStorage.SavePomodoroStats(store, codec, stats);
    }
  }
}
