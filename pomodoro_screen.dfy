/** src/screens/PomodoroScreen.tsx: the screen hosting the timer. It pushes
    the planned effort of the open tasks into the timer and shows a task
    summary. */
module PomodoroScreen {
  import opened Types
  import opened Text
  import opened TaskCounter
  import TasksContext
  import PomodoroContext
  import PomodoroTimer

  /** `task.estimatedPomodoros || 1`: an absent or zero estimate counts as one. */
  function EffectiveEstimate(t: Task): (e: int)
    ensures t.estimatedPomodoros == None || t.estimatedPomodoros == Some(0) ==> e == 1
    ensures t.estimatedPomodoros.Some? && t.estimatedPomodoros.value != 0 ==> e == t.estimatedPomodoros.value
  {
    match t.estimatedPomodoros
    case None => 1
    case Some(e) => if e == 0 then 1 else e
  }

  /** `reduce((total, task) => total + EffectiveEstimate(task), 0)`, folding from the left. */
  function SumEstimates(tasks: seq<Task>): int
  {
    if tasks == [] then 0 else SumEstimates(tasks[..|tasks| - 1]) + EffectiveEstimate(tasks[|tasks| - 1])
  }

  /** `totalEstimatedPomodoros`: the estimates of the open tasks, summed. */
  function PlannedTotal(tasks: seq<Task>): (r: int)
    ensures PendingCount(tasks) == 0 ==> r == 0
  {
    SumEstimates(PendingTasks(tasks))
  }

  lemma {:induction false} SumAppend(a: seq<Task>, b: seq<Task>)
    ensures SumEstimates(a + b) == SumEstimates(a) + SumEstimates(b)
    decreases |b|
  {
    if b == [] {
      assert a + b == a;
    } else {
      var c := b[..|b| - 1];
      assert (a + b)[..|a + b| - 1] == a + c;
      assert (a + b)[|a + b| - 1] == b[|b| - 1];
      SumAppend(a, c);
    }
  }

  /** The planned total of a list is the sum over its parts. */
  lemma PlannedTotalAppend(a: seq<Task>, b: seq<Task>)
    ensures PlannedTotal(a + b) == PlannedTotal(a) + PlannedTotal(b)
  {
    PendingAppend(a, b);
    SumAppend(PendingTasks(a), PendingTasks(b));
  }

  /** One task contributes its effective estimate when open and nothing when completed. */
  lemma PlannedTotalSingle(t: Task)
    ensures PlannedTotal([t]) == if t.completed then 0 else EffectiveEstimate(t)
  {
    assert [t][1..] == [];
    assert PendingTasks([t]) == (if t.completed then [] else [t]) + PendingTasks([]);
    if !t.completed {
      assert [t][..0] == [];
      assert SumEstimates([t]) == SumEstimates([]) + EffectiveEstimate(t);
    }
  }

  /** Completing an open task lowers the planned total by its effective
      estimate; the rest of the list is counted as before. */
  lemma CompletingLowersPlanned(tasks: seq<Task>, i: int)
    requires 0 <= i < |tasks| && !tasks[i].completed
    ensures PlannedTotal(tasks[i := tasks[i].(completed := true)])
            == PlannedTotal(tasks) - EffectiveEstimate(tasks[i])
  {
    var t := tasks[i];
    var done := t.(completed := true);
    var before, after := tasks[..i], tasks[i + 1..];
    assert tasks == before + [t] + after;
    assert tasks[i := done] == before + [done] + after;
    PlannedTotalAppend(before + [t], after);
    PlannedTotalAppend(before, [t]);
    PlannedTotalAppend(before + [done], after);
    PlannedTotalAppend(before, [done]);
    PlannedTotalSingle(t);
    PlannedTotalSingle(done);
  }

  /** Through the task provider: with unique ids, toggling an open task
      lowers the planned total by its effective estimate. */
  lemma ToggleLowersPlanned(tasks: seq<Task>, i: int)
    requires TasksContext.UniqueIds(tasks) && 0 <= i < |tasks| && !tasks[i].completed
    ensures PlannedTotal(TasksContext.AfterToggle(tasks, tasks[i].id))
            == PlannedTotal(tasks) - EffectiveEstimate(tasks[i])
  {
    TasksContext.ToggleUniqueIsUpdate(tasks, i);
    CompletingLowersPlanned(tasks, i);
  }

  /** When no estimate is negative each open task counts at least once. */
  lemma {:induction false} PlannedAtLeastPending(tasks: seq<Task>)
    requires forall k :: 0 <= k < |tasks| ==>
      tasks[k].estimatedPomodoros.None? || tasks[k].estimatedPomodoros.value >= 0
    ensures PlannedTotal(tasks) >= PendingCount(tasks)
  {
    if tasks != [] {
      var last := tasks[|tasks| - 1];
      var init := tasks[..|tasks| - 1];
      assert tasks == init + [last];
      PlannedAtLeastPending(init);
      PlannedTotalAppend(init, [last]);
      PlannedTotalSingle(last);
      PendingAppend(init, [last]);
      assert [last][1..] == [];
    }
  }

  /** A single negative estimate can pull the total below the pending count. */
  lemma NegativeEstimateBelowPending()
    ensures var tasks := [Task(1, "a", false, Some(-3))];
      PlannedTotal(tasks) < PendingCount(tasks)
  {
    PlannedTotalSingle(Task(1, "a", false, Some(-3)));
    assert [Task(1, "a", false, Some(-3))][1..] == [];
  }

  /** `pendingTasks` and `completedTasks`: together they count every task. */
  function TaskCounts(tasks: seq<Task>): (r: (nat, nat))
    ensures r.0 + r.1 == |tasks|
    ensures r.0 == PendingCount(tasks) && r.1 == CompletedCount(tasks)
  {
    CountsAddUp(tasks);
    (PendingCount(tasks), CompletedCount(tasks))
  }

  /** The screen's summary line: the all-done message, or "N tarefa(s)
      pendente(s)". */
  function PendingMessage(tasks: seq<Task>): (r: string)
    ensures r == ALL_DONE <==> PendingCount(tasks) == 0
    ensures |r| > 0
    ensures PendingCount(tasks) != 0 ==> (r[|r| - 1] == 's' <==> PendingCount(tasks) != 1)
    ensures var n := PendingCount(tasks);
      n != 0 ==> exists d :: IsDecimal(d) && DecimalValue(d) == n
                    && r == d + " tarefa" + PluralSuffix(n) + " pendente" + PluralSuffix(n)
  {
    var n := PendingCount(tasks);
    if n == 0 then ALL_DONE
    else
      var d := DecimalString(n);
      var r := d + " tarefa" + PluralSuffix(n) + " pendente" + PluralSuffix(n);
      assert IsDigit(r[0]) && !IsDigit(ALL_DONE[0]);
      DecimalRoundTrip(n);
      assert IsDecimal(d) && DecimalValue(d) == n;
      r
  }

  /** The summary box appears only for a non-empty list. */
  predicate ShowsSummary(tasks: seq<Task>)
  {
    |tasks| > 0
  }

  /** The box and the completed/total figure inside it appear for the same
      lists, so the inner guard never hides the figure, and a shown box
      always has at least one task to count. */
  lemma SummaryShowsFigure(tasks: seq<Task>)
    ensures ShowsSummary(tasks) <==> CompletedFigure(tasks).Some?
    ensures ShowsSummary(tasks) ==> TaskCounts(tasks).0 + TaskCounts(tasks).1 > 0
  {
  }

  /** The screen renders the timer with no selected task, so the focus badge
      never shows there. */
  lemma NoFocusBadgeOnScreen(tasks: seq<Task>, m: PomodoroContext.TimerMode)
    ensures !PomodoroTimer.ShowsFocusBadge(tasks, None, m)
  {
  }

  /** The effect that keeps the timer's planned count equal to the open
      tasks' effort. */
  method SyncPlannedTotal(timer: PomodoroContext.PomodoroProvider, tasks: seq<Task>)
    requires timer.Valid()
    modifies timer
    ensures timer.Valid()
    ensures timer.State() == PomodoroContext.AfterSetTotal(old(timer.State()), PlannedTotal(tasks))
  {
    var total := PlannedTotal(tasks);
    timer.SetTotalPomodoros(total);
  }
}
