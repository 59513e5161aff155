/** src/screens/TaskListScreen.tsx: the list screen. It toggles tasks through
    the navigator's list and asks before deleting one. */
module TaskListScreen {
  import opened Types
  import opened TasksContext
  import opened TaskCounter
  import AppNavigator

  /** The two buttons of the delete confirmation. */
  datatype DeleteChoice = Cancel | Delete

  /** `toggleTaskCompletion(id)`: the same map as the task provider's toggle. */
  method ToggleTaskCompletion(nav: AppNavigator.Navigator, id: int)
    modifies nav`tasks
    ensures nav.tasks == AfterToggle(old(nav.tasks), id)
  {
    nav.tasks := AfterToggle(nav.tasks, id);
  }

  /** `confirmDelete(id)` followed by the user's answer: only "Excluir" removes. */
  method ConfirmDelete(nav: AppNavigator.Navigator, id: int, choice: DeleteChoice)
    modifies nav`tasks
    ensures nav.tasks == if choice == Delete then AfterRemove(old(nav.tasks), id) else old(nav.tasks)
  {
    if choice == Delete {
      nav.RemoveTask(id);
    }
  }

  /** With unique ids, checking an open task moves it from pending to
      completed. */
  lemma ToggleOpenTaskCompletesOne(tasks: seq<Task>, i: int)
    requires UniqueIds(tasks) && 0 <= i < |tasks| && !tasks[i].completed
    ensures PendingCount(AfterToggle(tasks, tasks[i].id)) == PendingCount(tasks) - 1
    ensures CompletedCount(AfterToggle(tasks, tasks[i].id)) == CompletedCount(tasks) + 1
  {
    var t := tasks[i];
    var done := t.(completed := true);
    ToggleUniqueIsUpdate(tasks, i);
    var r := tasks[i := done];
    var before, after := tasks[..i], tasks[i + 1..];
    assert tasks == before + [t] + after;
    assert r == before + [done] + after;
    PendingAppend(before + [t], after);
    PendingAppend(before, [t]);
    PendingAppend(before + [done], after);
    PendingAppend(before, [done]);
    assert [t][1..] == [] && [done][1..] == [];
    assert PendingTasks([t]) == [t] + PendingTasks([]);
    assert PendingTasks([done]) == PendingTasks([]);
    CountsAddUp(tasks);
    CountsAddUp(r);
  }

  /** The list view: the empty-state message or one row per task, in order. */
  datatype ListView = EmptyState | Rows(rows: seq<Task>)

  function View(tasks: seq<Task>): (v: ListView)
    ensures v == EmptyState <==> |tasks| == 0
    ensures v.Rows? ==> v.rows == tasks
  {
    if |tasks| == 0 then EmptyState else Rows(tasks)
  }

  /** Toggling never switches between the empty state and the rows; deleting
      the last remaining task's id brings the empty state back. */
  lemma ViewAfterActions(tasks: seq<Task>, id: int)
    ensures View(AfterToggle(tasks, id)).EmptyState? == View(tasks).EmptyState?
    ensures (forall k :: 0 <= k < |tasks| ==> tasks[k].id == id) ==> View(AfterRemove(tasks, id)) == EmptyState
  {
    if forall k :: 0 <= k < |tasks| ==> tasks[k].id == id {
      var r := AfterRemove(tasks, id);
      if |r| > 0 {
        assert r[0] in r;
      }
    }
  }
}
