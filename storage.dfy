/** The persistence boundary both storage adapters use: AsyncStorage as a
    key -> string map that can fail, and JSON values with the stringify/parse
    pair passed in as a `Codec`. */
module Storage {
  import opened Types

  /** A JSON value. Numbers are integers in this model. */
  datatype Json =
    | JNull
    | JBool(b: bool)
    | JNumber(n: int)
    | JString(s: string)
    | JArray(items: seq<Json>)
    | JObject(fields: map<string, Json>)

  /** `JSON.stringify` and `JSON.parse`; `parse` answers None where the real
      one throws. */
  datatype Codec = Codec(stringify: Json -> string, parse: string -> Option<Json>)

  /** What a well-behaved codec guarantees: stringify never produces the
      empty string, and parse undoes stringify. The round-trip lemmas take this
      as a hypothesis about the codec they are given. */
  ghost predicate Faithful(codec: Codec)
  {
    forall v: Json {:trigger codec.stringify(v)} ::
      codec.stringify(v) != "" && codec.parse(codec.stringify(v)) == Some(v)
  }

  /** The answer of `AsyncStorage.getItem`: a rejected promise, or the stored
      string (None for a missing key). */
  datatype Fetch = ReadFailed | Read(value: Option<string>)

  /** The device's key-value store. `failing` models a backend whose every
      call rejects. */
  class KeyValueStore {
    var items: map<string, string>
    var failing: bool

    constructor (items: map<string, string>, failing: bool)
      ensures this.items == items && this.failing == failing
    {
      this.items := items;
      this.failing := failing;
    }

    /** What `getItem(key)` would answer now. */
    function Peek(key: string): (r: Fetch)
      reads this
      ensures r.ReadFailed? <==> failing
      ensures r.Read? ==> (r.value.Some? <==> key in items)
      ensures r.Read? && r.value.Some? ==> r.value.value == items[key]
    {
      if failing then ReadFailed else Read(if key in items then Some(items[key]) else None)
    }

    method GetItem(key: string) returns (r: Fetch)
      ensures r == Peek(key)
    {
      if failing {
        r := ReadFailed;
      } else if key in items {
        r := Read(Some(items[key]));
      } else {
        r := Read(None);
      }
    }

    /** `setItem(key, value)`; `ok` is false where the promise rejects, and
        then nothing is written. */
    method SetItem(key: string, value: string) returns (ok: bool)
      modifies this`items
      ensures ok == !failing
      ensures items == if ok then old(items)[key := value] else old(items)
    {
      ok := !failing;
      if ok {
        items := items[key := value];
      }
    }
  }
}
