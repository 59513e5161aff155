/** src/storage/pomodoroStorage.ts: persisting the timer statistics under one
    key, with a shape check on what is read back. */
module PomodoroStorage {
  import opened Types
  import opened Storage

  const POMODORO_STATS_KEY: string := "@pomodoro_stats"

  /** `isPomodoroStats`: a non-null object with both counters present as
      numbers. Neither their sign nor anything else is checked, and extra
      fields are allowed. */
  predicate IsPomodoroStats(v: Json)
  {
    && v.JObject?
    && "completedPomodoros" in v.fields
    && "totalPomodoros" in v.fields
    && v.fields["completedPomodoros"].JNumber?
    && v.fields["totalPomodoros"].JNumber?
  }

  /** The object `JSON.stringify(stats)` serialises. */
  function StatsToJson(stats: PomodoroStats): (v: Json)
    ensures IsPomodoroStats(v)
  {
    JObject(map["completedPomodoros" := JNumber(stats.completedPomodoros),
                "totalPomodoros" := JNumber(stats.totalPomodoros)])
  }

  /** The record a value that passed `isPomodoroStats` is used as. */
  function StatsOfJson(v: Json): (stats: PomodoroStats)
    requires IsPomodoroStats(v)
    ensures StatsToJson(stats).fields == v.fields
                                        - (v.fields.Keys - {"completedPomodoros", "totalPomodoros"})
  {
    PomodoroStats(v.fields["completedPomodoros"].n, v.fields["totalPomodoros"].n)
  }

  /** What `loadPomodoroStats` resolves to, given what `getItem` answered. A
      rejected read, a missing or empty string, a string `parse` rejects and a
      parsed value that fails the shape check all give None; nothing escapes
      as an error. */
  function DecodeStats(fetch: Fetch, codec: Codec): (r: Option<PomodoroStats>)
    ensures fetch.ReadFailed? ==> r == None
    ensures fetch == Read(None) || fetch == Read(Some("")) ==> r == None
    ensures r.Some? <==> fetch.Read? && fetch.value.Some? && fetch.value.value != ""
                         && codec.parse(fetch.value.value).Some?
                         && IsPomodoroStats(codec.parse(fetch.value.value).value)
    ensures r.Some? ==> r.value == StatsOfJson(codec.parse(fetch.value.value).value)
  {
    match fetch
    case ReadFailed => None
    case Read(None) => None
    case Read(Some(json)) =>
      if json == "" then None
      else match codec.parse(json)
        case None => None
        case Some(v) => if IsPomodoroStats(v) then Some(StatsOfJson(v)) else None
  }

  /** A parsed value that is not a stats object loads as null. */
  lemma DecodeStatsRejectsShape(json: string, codec: Codec)
    requires json != "" && codec.parse(json).Some? && !IsPomodoroStats(codec.parse(json).value)
    ensures DecodeStats(Read(Some(json)), codec) == None
  {
  }

  /** The shape check looks at nothing but the two counters being numbers:
      any record, negative counters included, loads as itself. */
  lemma DecodeStatsAcceptsAnyCounters(stats: PomodoroStats, codec: Codec, json: string)
    requires json != ""
    requires codec.parse(json) == Some(StatsToJson(stats))
    ensures DecodeStats(Read(Some(json)), codec) == Some(stats)
  {
  }

  /** Saving a stats pair and loading it again gives the same pair. */
  lemma StatsRoundTrip(stats: PomodoroStats, codec: Codec)
    requires Faithful(codec)
    ensures DecodeStats(Read(Some(codec.stringify(StatsToJson(stats)))), codec) == Some(stats)
  {
    var v := StatsToJson(stats);
    assert codec.stringify(v) != "" && codec.parse(codec.stringify(v)) == Some(v);
  }

  /** `loadPomodoroStats`. */
  method LoadPomodoroStats(store: KeyValueStore, codec: Codec) returns (r: Option<PomodoroStats>)
    ensures r == DecodeStats(store.Peek(POMODORO_STATS_KEY), codec)
  {
    var fetch := store.GetItem(POMODORO_STATS_KEY);
    r := DecodeStats(fetch, codec);
  }

  /** `savePomodoroStats`: writes the serialised stats; a failing store is
      left as it was and the failure is not reported to the caller. */
  method SavePomodoroStats(store: KeyValueStore, codec: Codec, stats: PomodoroStats)
    modifies store`items
    ensures store.items == if store.failing then old(store.items)
                           else old(store.items)[POMODORO_STATS_KEY := codec.stringify(StatsToJson(stats))]
  {
    var _ := store.SetItem(POMODORO_STATS_KEY, codec.stringify(StatsToJson(stats)));
  }

  /** Save followed by load on a working store returns what was saved. */
  method SaveThenLoad(store: KeyValueStore, codec: Codec, stats: PomodoroStats) returns (r: Option<PomodoroStats>)
    requires Faithful(codec) && !store.failing
    modifies store`items
    ensures r == Some(stats)
  {
    SavePomodoroStats(store, codec, stats);
    r := LoadPomodoroStats(store, codec);
    StatsRoundTrip(stats, codec);
  }
}
