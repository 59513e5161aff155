/** src/navigation/AppNavigator.tsx: the navigator that owns the task list of
    the list and add screens. It starts from three sample tasks, replaces
    them with the stored list once loaded, and writes the list back on every
    change after that. */
module AppNavigator {
  import opened Types
  import opened Storage
  import TasksStorage
  import opened TasksContext
  import opened TaskCounter

  /** The list shown before the stored one has been read. */
  function DefaultTasks(): (r: seq<Task>)
    ensures |r| == 3 && UniqueIds(r)
    ensures forall k :: 0 <= k < 3 ==> r[k].id == k + 1 && r[k].estimatedPomodoros == None
    ensures PendingCount(r) == 2 && CompletedCount(r) == 1
  {
    var r := [ Task(1, "Comprar pão", false, None)
             , Task(2, "Estudar React Native", true, None)
             , Task(3, "Passear com o cachorro", false, None) ];
    assert r[1..][1..][1..] == [];
    assert PendingTasks(r) == [r[0], r[2]];
    CountsAddUp(r);
    r
  }

  /** `addTask(text)`: one open task whose id is the clock value `now`. */
  function AfterAppend(tasks: seq<Task>, text: string, now: int): (r: seq<Task>)
    ensures |r| == |tasks| + 1 && r[..|tasks|] == tasks
    ensures r[|tasks|] == Task(now, text, false, None)
  {
    tasks + [Task(now, text, false, None)]
  }

  /** The new task is open, so one more task is pending and the completed
      count stays. */
  lemma AppendAddsPending(tasks: seq<Task>, text: string, now: int)
    ensures PendingCount(AfterAppend(tasks, text, now)) == PendingCount(tasks) + 1
    ensures CompletedCount(AfterAppend(tasks, text, now)) == CompletedCount(tasks)
  {
    var t := Task(now, text, false, None);
    PendingAppend(tasks, [t]);
    assert [t][1..] == [];
    assert PendingTasks([t]) == [t] + PendingTasks([]);
    CountsAddUp(tasks);
    CountsAddUp(AfterAppend(tasks, text, now));
  }

  /** Ids stay unique when the clock value is not already an id. */
  lemma AppendFreshKeepsUnique(tasks: seq<Task>, text: string, now: int)
    requires UniqueIds(tasks)
    requires forall k :: 0 <= k < |tasks| ==> tasks[k].id != now
    ensures UniqueIds(AfterAppend(tasks, text, now))
  {
    var r := AfterAppend(tasks, text, now);
    forall i, j | 0 <= i < j < |r| ensures r[i].id != r[j].id {
      assert r[i] == tasks[i];
      if j < |tasks| {
        assert r[j] == tasks[j];
      }
    }
  }

  /** Nothing in the code keeps the clock value apart from the existing ids:
      a clock reading of 1 on the sample list duplicates an id. */
  lemma AppendMayDuplicateId()
    ensures !UniqueIds(AfterAppend(DefaultTasks(), "x", 1))
  {
    var r := AfterAppend(DefaultTasks(), "x", 1);
    assert r[0].id == 1 && r[3].id == 1;
  }

  class Navigator {
    var tasks: seq<Task>
    var hydrated: bool
    const store: KeyValueStore
    const codec: Codec

    /** The first render: the sample tasks, not yet hydrated. */
    constructor (store: KeyValueStore, codec: Codec)
      ensures tasks == DefaultTasks() && !hydrated
      ensures this.store == store && this.codec == codec
    {
      tasks := DefaultTasks();
      hydrated := false;
      this.store := store;
      this.codec := codec;
    }

    /** The mount effect. A loaded array, even an empty one, replaces the
        list; no stored list keeps it; either way the navigator becomes
        hydrated. After unmounting (`mounted` false) nothing changes. */
    method HydrateEffect(mounted: bool)
      modifies this`tasks, this`hydrated
      ensures var stored := TasksStorage.DecodeTasks(store.Peek(TasksStorage.STORAGE_KEY), codec);
        tasks == (if mounted && stored.Some? then stored.value else old(tasks))
      ensures hydrated == (mounted || old(hydrated))
    {
      var stored := TasksStorage.LoadTasks(store, codec);
      if mounted && stored.Some? {
        tasks := stored.value;
      }
      if mounted {
        hydrated := true;
      }
    }

    /** The save effect: writes the list only once hydrated. */
    method SaveEffect() returns (saved: bool)
      modifies store`items
      ensures saved == hydrated
      ensures store.items == if saved
        then TasksStorage.StoredAfterSave(old(store.items), store.failing, codec, tasks)
        else old(store.items)
    {
      saved := hydrated;
      if saved {
        TasksStorage.SaveTasks(store, codec, tasks);
      }
    }

    /** The `removeTask` handed to the list screen: the same filter as the
        task provider's. */
    method RemoveTask(id: int)
      modifies this`tasks
      ensures tasks == AfterRemove(old(tasks), id)
    {
      tasks := AfterRemove(tasks, id);
    }

    /** The `addTask` handed to the add screen; `now` is the clock reading. */
    method AddTask(text: string, now: int)
      modifies this`tasks
      ensures tasks == AfterAppend(old(tasks), text, now)
    {
      tasks := tasks + [Task(now, text, false, None)];
    }
  }
}
