/** src/context/TasksContext.tsx: the task list provider. The list updaters
    are pure functions of the previous list (the After* functions); the class
    `TasksProvider` holds the list, the loading flag and the initial-mount
    guard that the load and save effects update. */
module TasksContext {
  import opened Types
  import opened Storage
  import TasksStorage

  /** `Math.max(...ids)` over a non-empty list. */
  function MaxId(tasks: seq<Task>): (m: int)
    requires |tasks| > 0
    ensures forall k :: 0 <= k < |tasks| ==> tasks[k].id <= m
    ensures exists k :: 0 <= k < |tasks| && tasks[k].id == m
  {
    if |tasks| == 1 then tasks[0].id
    else
      var rest := MaxId(tasks[1..]);
      assert exists k :: 1 <= k < |tasks| && tasks[k].id == rest by {
        var k :| 0 <= k < |tasks[1..]| && tasks[1..][k].id == rest;
        assert tasks[k + 1] == tasks[1..][k];
      }
      if tasks[0].id >= rest then tasks[0].id else rest
  }

  /** The id `addTask` gives a new task: one more than the largest id, 1 for
      an empty list. It is larger than every id in the list. */
  function NextId(tasks: seq<Task>): (id: int)
    ensures forall k :: 0 <= k < |tasks| ==> tasks[k].id < id
    ensures tasks == [] ==> id == 1
    ensures tasks != [] ==> exists k :: 0 <= k < |tasks| && tasks[k].id == id - 1
  {
    (if |tasks| > 0 then MaxId(tasks) else 0) + 1
  }

  /** `addTask(text)`: appends one open task without an estimate. */
  function AfterAdd(tasks: seq<Task>, text: string): (r: seq<Task>)
    ensures |r| == |tasks| + 1 && r[..|tasks|] == tasks
    ensures r[|tasks|].text == text && !r[|tasks|].completed && r[|tasks|].estimatedPomodoros == None
    ensures r[|tasks|].id == NextId(tasks)
    ensures forall k :: 0 <= k < |tasks| ==> tasks[k].id < r[|tasks|].id
  {
    tasks + [Task(NextId(tasks), text, false, None)]
  }

  /** `removeTask(id)`: keeps the tasks whose id differs. */
  function AfterRemove(tasks: seq<Task>, id: int): (r: seq<Task>)
    ensures forall t :: t in r <==> t in tasks && t.id != id
    ensures |r| <= |tasks|
  {
    if tasks == [] then []
    else (if tasks[0].id != id then [tasks[0]] else []) + AfterRemove(tasks[1..], id)
  }

  /** The filter keeps the survivors in their original order. */
  lemma {:induction false} RemoveAppend(a: seq<Task>, b: seq<Task>, id: int)
    ensures AfterRemove(a + b, id) == AfterRemove(a, id) + AfterRemove(b, id)
  {
    if a == [] {
      assert a + b == b;
    } else {
      assert (a + b)[0] == a[0];
      assert (a + b)[1..] == a[1..] + b;
      RemoveAppend(a[1..], b, id);
    }
  }

  /** Removing an id that is not in the list changes nothing. */
  lemma {:induction false} RemoveAbsent(tasks: seq<Task>, id: int)
    requires forall k :: 0 <= k < |tasks| ==> tasks[k].id != id
    ensures AfterRemove(tasks, id) == tasks
  {
    if tasks != [] {
      RemoveAbsent(tasks[1..], id);
      assert tasks == [tasks[0]] + tasks[1..];
    }
  }

  /** Removing twice is removing once. */
  lemma RemoveTwice(tasks: seq<Task>, id: int)
    ensures AfterRemove(AfterRemove(tasks, id), id) == AfterRemove(tasks, id)
  {
    var r := AfterRemove(tasks, id);
    assert forall k :: 0 <= k < |r| ==> r[k] in r;
    RemoveAbsent(r, id);
  }

  function Flip(t: Task, id: int): Task
  {
    if t.id == id then t.(completed := !t.completed) else t
  }

  /** `toggleTask(id)`: flips `completed` on the tasks with that id; every
      other field and every other task stays as it was. */
  function AfterToggle(tasks: seq<Task>, id: int): (r: seq<Task>)
    ensures |r| == |tasks|
    ensures forall k :: 0 <= k < |tasks| ==>
      && r[k].id == tasks[k].id && r[k].text == tasks[k].text
      && r[k].estimatedPomodoros == tasks[k].estimatedPomodoros
      && r[k].completed == (if tasks[k].id == id then !tasks[k].completed else tasks[k].completed)
  {
    seq(|tasks|, k requires 0 <= k < |tasks| => Flip(tasks[k], id))
  }

  /** Toggling the same id twice restores the list. */
  lemma ToggleTwice(tasks: seq<Task>, id: int)
    ensures AfterToggle(AfterToggle(tasks, id), id) == tasks
  {
    var r := AfterToggle(AfterToggle(tasks, id), id);
    assert forall k :: 0 <= k < |tasks| ==> r[k] == tasks[k];
  }

  /** `editTask(id, newText)`: replaces the text of the tasks with that id. */
  function AfterEdit(tasks: seq<Task>, id: int, newText: string): (r: seq<Task>)
    ensures |r| == |tasks|
    ensures forall k :: 0 <= k < |tasks| ==>
      && r[k].id == tasks[k].id && r[k].completed == tasks[k].completed
      && r[k].estimatedPomodoros == tasks[k].estimatedPomodoros
      && r[k].text == (if tasks[k].id == id then newText else tasks[k].text)
  {
    seq(|tasks|, k requires 0 <= k < |tasks| => if tasks[k].id == id then tasks[k].(text := newText) else tasks[k])
  }

  /** The last edit of an id wins. */
  lemma EditLastWins(tasks: seq<Task>, id: int, first: string, second: string)
    ensures AfterEdit(AfterEdit(tasks, id, first), id, second) == AfterEdit(tasks, id, second)
  {
    var r := AfterEdit(AfterEdit(tasks, id, first), id, second);
    assert forall k :: 0 <= k < |tasks| ==> r[k] == AfterEdit(tasks, id, second)[k];
  }

  // ---------------------------------------------------------------------
  // Unique ids

  predicate UniqueIds(tasks: seq<Task>)
  {
    forall i, j :: 0 <= i < j < |tasks| ==> tasks[i].id != tasks[j].id
  }

  lemma AddKeepsUnique(tasks: seq<Task>, text: string)
    requires UniqueIds(tasks)
    ensures UniqueIds(AfterAdd(tasks, text))
  {
    var r := AfterAdd(tasks, text);
    forall i, j | 0 <= i < j < |r| ensures r[i].id != r[j].id {
      if j < |tasks| {
        assert r[i] == tasks[i] && r[j] == tasks[j];
      } else {
        assert r[i] == tasks[i];
      }
    }
  }

  lemma {:induction false} RemoveKeepsUnique(tasks: seq<Task>, id: int)
    requires UniqueIds(tasks)
    ensures UniqueIds(AfterRemove(tasks, id))
  {
    if tasks != [] {
      var tail := tasks[1..];
      assert UniqueIds(tail) by {
        forall i, j | 0 <= i < j < |tail| ensures tail[i].id != tail[j].id {
          assert tail[i] == tasks[i + 1] && tail[j] == tasks[j + 1];
        }
      }
      RemoveKeepsUnique(tail, id);
      var rest := AfterRemove(tail, id);
      if tasks[0].id != id {
        forall t | t in tail ensures t.id != tasks[0].id {
          var m :| 0 <= m < |tail| && tail[m] == t;
          assert tasks[m + 1] == t;
        }
        var r := [tasks[0]] + rest;
        forall i, j | 0 <= i < j < |r| ensures r[i].id != r[j].id {
          assert r[j] == rest[j - 1] && r[j] in tail;
          if i > 0 {
            assert r[i] == rest[i - 1];
          }
        }
      }
    }
  }

  lemma ToggleKeepsUnique(tasks: seq<Task>, id: int)
    requires UniqueIds(tasks)
    ensures UniqueIds(AfterToggle(tasks, id))
  {
  }

  lemma EditKeepsUnique(tasks: seq<Task>, id: int, newText: string)
    requires UniqueIds(tasks)
    ensures UniqueIds(AfterEdit(tasks, id, newText))
  {
  }

  /** With unique ids, toggling a task's id toggles that one task. */
  lemma ToggleUniqueIsUpdate(tasks: seq<Task>, i: int)
    requires UniqueIds(tasks) && 0 <= i < |tasks|
    ensures AfterToggle(tasks, tasks[i].id) == tasks[i := tasks[i].(completed := !tasks[i].completed)]
  {
    var r := AfterToggle(tasks, tasks[i].id);
    var u := tasks[i := tasks[i].(completed := !tasks[i].completed)];
    forall k | 0 <= k < |tasks| ensures r[k] == u[k] {
      if k != i {
        assert k < i ==> tasks[k].id != tasks[i].id;
        assert k > i ==> tasks[i].id != tasks[k].id;
      }
    }
  }

  // ---------------------------------------------------------------------
  // The provider

  class TasksProvider {
    var tasks: seq<Task>
    var isLoading: bool
    var isInitialMount: bool
    const store: KeyValueStore
    const codec: Codec

    /** The first render: an empty list, still loading. */
    constructor (store: KeyValueStore, codec: Codec)
      ensures tasks == [] && isLoading && isInitialMount
      ensures this.store == store && this.codec == codec
    {
      tasks := [];
      isLoading := true;
      isInitialMount := true;
      this.store := store;
      this.codec := codec;
    }

    /** The mount effect: a loaded list replaces the current one; loading
        ends either way. When the component has unmounted (`mounted` false)
        nothing changes. `loadTasks` never rejects, so the alert branch of
        the source cannot run. */
    method LoadEffect(mounted: bool)
      modifies this`tasks, this`isLoading
      ensures var stored := TasksStorage.DecodeTasks(store.Peek(TasksStorage.STORAGE_KEY), codec);
        tasks == (if mounted && stored.Some? then stored.value else old(tasks))
      ensures isLoading == (if mounted then false else old(isLoading))
    {
      var stored := TasksStorage.LoadTasks(store, codec);
      if mounted && stored.Some? {
        tasks := stored.value;
      }
      if mounted {
        isLoading := false;
      }
    }

    /** The save effect: skipped on the first run and while loading. `saved`
        says whether `saveTasks` was called. */
    method SaveEffect() returns (saved: bool)
      modifies this`isInitialMount, store`items
      ensures saved <==> !old(isInitialMount) && !isLoading
      ensures !isInitialMount
      ensures store.items == if saved
        then TasksStorage.StoredAfterSave(old(store.items), store.failing, codec, tasks)
        else old(store.items)
    {
      if isInitialMount {
        isInitialMount := false;
        return false;
      }
      saved := !isLoading;
      if saved {
        TasksStorage.SaveTasks(store, codec, tasks);
      }
    }

    method AddTask(text: string)
      modifies this`tasks
      ensures tasks == AfterAdd(old(tasks), text)
    {
      var maxId := if |tasks| > 0 then MaxId(tasks) else 0;
      tasks := tasks + [Task(maxId + 1, text, false, None)];
    }

    method RemoveTask(id: int)
      modifies this`tasks
      ensures tasks == AfterRemove(old(tasks), id)
    {
      tasks := AfterRemove(tasks, id);
    }

    method ToggleTask(id: int)
      modifies this`tasks
      ensures tasks == AfterToggle(old(tasks), id)
    {
      tasks := AfterToggle(tasks, id);
    }

    method EditTask(id: int, newText: string)
      modifies this`tasks
      ensures tasks == AfterEdit(old(tasks), id, newText)
    {
      tasks := AfterEdit(tasks, id, newText);
    }
  }
}
