/** The persistence of the task list: one slot of the browser's key-value
    storage, read once at start-up and overwritten after every mutation. */
module Storage {
  import opened Wrappers
  import opened TaskList

  /** The key of the slot. */
  const StorageKey: string := "tasks_v1"

  /** The key-value storage, getItem/setItem over string keys and values. */
  type KeyValue = map<string, string>

  /** JSON.stringify and JSON.parse on task lists; parse gives None where
      JSON.parse throws. */
  datatype Codec = Codec(stringify: seq<Task> -> string, parse: string -> Option<seq<Task>>)

  /** The codec reads back what it writes for ts, and what it writes is never
      the empty string (JSON text for a list starts with '['). */
  predicate RoundTrips(codec: Codec, ts: seq<Task>) {
    codec.stringify(ts) != [] && codec.parse(codec.stringify(ts)) == Some(ts)
  }

  /** getItem: the stored value, or None (null) for a missing key. */
  function GetItem(kv: KeyValue, key: string): (r: Option<string>)
    ensures r.Some? <==> key in kv
    ensures r.Some? ==> r.value == kv[key]
  {
    if key in kv then Some(kv[key]) else None
  }

  /** loadFromStorage: an absent or empty slot, or one that does not parse,
      gives the empty list; otherwise whatever the slot parses to. */
  function Load(kv: KeyValue, codec: Codec): (ts: seq<Task>)
    ensures ts != [] ==> StorageKey in kv && kv[StorageKey] != []
                         && codec.parse(kv[StorageKey]) == Some(ts)
    ensures StorageKey in kv && kv[StorageKey] != [] && codec.parse(kv[StorageKey]).Some? ==>
              ts == codec.parse(kv[StorageKey]).value
  {
    match GetItem(kv, StorageKey)
    case None => []
    case Some(raw) =>
      if raw == [] then []
      else match codec.parse(raw)
        case None => []
        case Some(parsed) => parsed
  }

  /** saveToStorage: the slot holds the serialised list; other keys are kept. */
  function Save(kv: KeyValue, codec: Codec, ts: seq<Task>): (kv': KeyValue)
    ensures GetItem(kv', StorageKey) == Some(codec.stringify(ts))
    ensures forall k | k != StorageKey :: GetItem(kv', k) == GetItem(kv, k)
  {
    kv[StorageKey := codec.stringify(ts)]
  }

  /** The fallback policy: no slot, an empty slot or corrupt content all load as
      the empty list. */
  lemma LoadFallback(kv: KeyValue, codec: Codec)
    ensures StorageKey !in kv ==> Load(kv, codec) == []
    ensures StorageKey in kv && kv[StorageKey] == [] ==> Load(kv, codec) == []
    ensures StorageKey in kv && codec.parse(kv[StorageKey]) == None ==> Load(kv, codec) == []
  {
  }

  /** Saving a list and loading it again gives back the same tasks in the same
      order. */
  lemma SaveThenLoad(kv: KeyValue, codec: Codec, ts: seq<Task>)
    requires RoundTrips(codec, ts)
    ensures Load(Save(kv, codec, ts), codec) == ts
  {
  }

  /** Saving twice keeps only the last list. */
  lemma SaveOverwrites(kv: KeyValue, codec: Codec, a: seq<Task>, b: seq<Task>)
    ensures Save(Save(kv, codec, a), codec, b) == Save(kv, codec, b)
  {
  }
}
