/** src/storage/tasksStorage.ts: persisting the task list as one JSON array,
    keeping on load only the elements that look like tasks. */
module TasksStorage {
  import opened Types
  import opened Storage

  const STORAGE_KEY: string := "app-vb/tasks"

  /** `isTask`: a non-null object whose `id` is a number, `text` a string and
      `completed` a boolean. `estimatedPomodoros` is not looked at. */
  predicate IsTask(v: Json)
  {
    && v.JObject?
    && "id" in v.fields && v.fields["id"].JNumber?
    && "text" in v.fields && v.fields["text"].JString?
    && "completed" in v.fields && v.fields["completed"].JBool?
  }

  /** The object `JSON.stringify` writes for a task; an absent estimate is
      left out of the object. */
  function TaskToJson(t: Task): (v: Json)
    ensures IsTask(v)
  {
    var base := map["id" := JNumber(t.id), "text" := JString(t.text), "completed" := JBool(t.completed)];
    match t.estimatedPomodoros
    case None => JObject(base)
    case Some(e) => JObject(base["estimatedPomodoros" := JNumber(e)])
  }

  /** The task a value that passed `isTask` is used as. */
  function TaskOfJson(v: Json): (t: Task)
    requires IsTask(v)
    ensures t.id == v.fields["id"].n && t.text == v.fields["text"].s && t.completed == v.fields["completed"].b
  {
    var estimate :=
      if "estimatedPomodoros" in v.fields && v.fields["estimatedPomodoros"].JNumber?
      then Some(v.fields["estimatedPomodoros"].n) else None;
    Task(v.fields["id"].n, v.fields["text"].s, v.fields["completed"].b, estimate)
  }

  lemma TaskOfJsonInverts(t: Task)
    ensures TaskOfJson(TaskToJson(t)) == t
  {
  }

  /** The array `saveTasks` serialises. */
  function TasksToJson(tasks: seq<Task>): (vs: seq<Json>)
    ensures |vs| == |tasks|
    ensures forall k :: 0 <= k < |tasks| ==> vs[k] == TaskToJson(tasks[k])
  {
    if tasks == [] then [] else [TaskToJson(tasks[0])] + TasksToJson(tasks[1..])
  }

  /** `parsed.filter(isTask)`, each survivor read as a task. */
  function KeepTasks(items: seq<Json>): (r: seq<Task>)
    ensures |r| <= |items|
  {
    if items == [] then []
    else (if IsTask(items[0]) then [TaskOfJson(items[0])] else []) + KeepTasks(items[1..])
  }

  /** The filter works element by element and keeps the order: together with
      `KeepTasksSingle` this pins it down as the in-order subsequence of the
      elements passing `isTask`. */
  lemma {:induction false} KeepTasksAppend(a: seq<Json>, b: seq<Json>)
    ensures KeepTasks(a + b) == KeepTasks(a) + KeepTasks(b)
  {
    if a == [] {
      assert a + b == b;
    } else {
      var head := if IsTask(a[0]) then [TaskOfJson(a[0])] else [];
      assert (a + b)[0] == a[0];
      assert (a + b)[1..] == a[1..] + b;
      assert KeepTasks(a + b) == head + KeepTasks(a[1..] + b);
      KeepTasksAppend(a[1..], b);
      assert KeepTasks(a) == head + KeepTasks(a[1..]);
    }
  }

  lemma KeepTasksSingle(v: Json)
    ensures KeepTasks([v]) == if IsTask(v) then [TaskOfJson(v)] else []
  {
    assert [v][1..] == [];
  }

  /** Every serialised task passes the filter and reads back as itself. */
  lemma {:induction false} KeepTasksOfSaved(tasks: seq<Task>)
    ensures KeepTasks(TasksToJson(tasks)) == tasks
  {
    if tasks != [] {
      var vs := TasksToJson(tasks);
      assert vs[1..] == TasksToJson(tasks[1..]);
      KeepTasksOfSaved(tasks[1..]);
      TaskOfJsonInverts(tasks[0]);
      assert tasks == [tasks[0]] + tasks[1..];
    }
  }

  /** What `loadTasks` resolves to, given what `getItem` answered: None for a
      rejected read, a missing or empty string, a string `parse` rejects, or a
      parsed value that is not an array; otherwise the filtered array. */
  function DecodeTasks(fetch: Fetch, codec: Codec): (r: Option<seq<Task>>)
    ensures fetch.ReadFailed? ==> r == None
    ensures fetch == Read(None) || fetch == Read(Some("")) ==> r == None
    ensures r.Some? <==> fetch.Read? && fetch.value.Some? && fetch.value.value != ""
                         && codec.parse(fetch.value.value).Some?
                         && codec.parse(fetch.value.value).value.JArray?
    ensures r.Some? ==> r.value == KeepTasks(codec.parse(fetch.value.value).value.items)
  {
    match fetch
    case ReadFailed => None
    case Read(None) => None
    case Read(Some(json)) =>
      if json == "" then None
      else match codec.parse(json)
        case Some(JArray(items)) => Some(KeepTasks(items))
        case _ => None
  }

  /** Saving a task list and loading it again gives the same list. */
  lemma TasksRoundTrip(tasks: seq<Task>, codec: Codec)
    requires Faithful(codec)
    ensures DecodeTasks(Read(Some(codec.stringify(JArray(TasksToJson(tasks))))), codec) == Some(tasks)
  {
    var v := JArray(TasksToJson(tasks));
    assert codec.stringify(v) != "" && codec.parse(codec.stringify(v)) == Some(v);
    KeepTasksOfSaved(tasks);
  }

  /** `loadTasks`. */
  method LoadTasks(store: KeyValueStore, codec: Codec) returns (r: Option<seq<Task>>)
    ensures r == DecodeTasks(store.Peek(STORAGE_KEY), codec)
  {
    var fetch := store.GetItem(STORAGE_KEY);
    r := DecodeTasks(fetch, codec);
  }

  /** The store after `saveTasks(tasks)`: a failing store is unchanged. */
  function StoredAfterSave(items: map<string, string>, failing: bool, codec: Codec, tasks: seq<Task>): map<string, string>
  {
    if failing then items else items[STORAGE_KEY := codec.stringify(JArray(TasksToJson(tasks)))]
  }

  /** `saveTasks`: the failure of a write is swallowed. */
  method SaveTasks(store: KeyValueStore, codec: Codec, tasks: seq<Task>)
    modifies store`items
    ensures store.items == StoredAfterSave(old(store.items), store.failing, codec, tasks)
  {
    var _ := store.SetItem(STORAGE_KEY, codec.stringify(JArray(TasksToJson(tasks))));
  }
}
