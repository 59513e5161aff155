/** src/components/TaskCounter.tsx: the pending/completed counts of a task
    list and the summary line built from them. */
module TaskCounter {
  import opened Types
  import opened Text

  /** `tasks.filter(task => !task.completed)`. */
  function PendingTasks(tasks: seq<Task>): (r: seq<Task>)
    ensures forall t :: t in r <==> t in tasks && !t.completed
    ensures |r| <= |tasks|
  {
    if tasks == [] then []
    else (if !tasks[0].completed then [tasks[0]] else []) + PendingTasks(tasks[1..])
  }

  /** `tasks.filter(task => task.completed)`. */
  function CompletedTasks(tasks: seq<Task>): (r: seq<Task>)
    ensures forall t :: t in r <==> t in tasks && t.completed
    ensures |r| <= |tasks|
  {
    if tasks == [] then []
    else (if tasks[0].completed then [tasks[0]] else []) + CompletedTasks(tasks[1..])
  }

  /** The filter distributes over concatenation. */
  lemma {:induction false} PendingAppend(a: seq<Task>, b: seq<Task>)
    ensures PendingTasks(a + b) == PendingTasks(a) + PendingTasks(b)
  {
    if a == [] {
      assert a + b == b;
    } else {
      assert (a + b)[0] == a[0];
      assert (a + b)[1..] == a[1..] + b;
      PendingAppend(a[1..], b);
    }
  }

  function PendingCount(tasks: seq<Task>): nat
  {
    |PendingTasks(tasks)|
  }

  function CompletedCount(tasks: seq<Task>): nat
  {
    |CompletedTasks(tasks)|
  }

  /** Every task is either pending or completed. */
  lemma {:induction false} CountsAddUp(tasks: seq<Task>)
    ensures PendingCount(tasks) + CompletedCount(tasks) == |tasks|
  {
    if tasks != [] {
      CountsAddUp(tasks[1..]);
    }
  }

  /** The message shown when nothing is pending. */
  const ALL_DONE: string := "Todas as tarefas concluídas! \U{1F389}"

  /** The plural suffix of "tarefa" and "pendente". */
  function PluralSuffix(n: int): (r: string)
    ensures r == "s" <==> n != 1
    ensures r == "" <==> n == 1
  {
    if n != 1 then "s" else ""
  }

  /** The summary line: the all-done message, or "Você tem N tarefa(s)
      pendente(s)" with the suffix agreeing with N. */
  function CounterMessage(tasks: seq<Task>): (r: string)
    ensures r == ALL_DONE <==> PendingCount(tasks) == 0
    ensures |r| > 0
    ensures PendingCount(tasks) != 0 ==> (r[|r| - 1] == 's' <==> PendingCount(tasks) != 1)
    ensures var n := PendingCount(tasks);
      n != 0 ==> exists d :: IsDecimal(d) && DecimalValue(d) == n
                    && r == "Você tem " + d + " tarefa" + PluralSuffix(n) + " pendente" + PluralSuffix(n)
  {
    var n := PendingCount(tasks);
    if n == 0 then ALL_DONE
    else
      var d := DecimalString(n);
      var r := "Você tem " + d + " tarefa" + PluralSuffix(n) + " pendente" + PluralSuffix(n);
      assert r[0] == 'V' && ALL_DONE[0] == 'T';
      DecimalRoundTrip(n);
      assert IsDecimal(d) && DecimalValue(d) == n;
      r
  }

  /** An empty list counts as all done. */
  lemma EmptyListAllDone()
    ensures CounterMessage([]) == ALL_DONE
  {
  }

  /** The "completed/total" figure, shown only for a non-empty list. */
  function CompletedFigure(tasks: seq<Task>): (r: Option<(nat, nat)>)
    ensures r.Some? <==> |tasks| > 0
    ensures r.Some? ==> r.value.1 == |tasks| && r.value.0 <= r.value.1
    ensures r.Some? ==> r.value.1 - r.value.0 == PendingCount(tasks)
  {
    CountsAddUp(tasks);
    if |tasks| > 0 then Some((CompletedCount(tasks), |tasks|)) else None
  }
}
