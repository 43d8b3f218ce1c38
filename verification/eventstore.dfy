/** The organizer's persistent data: a key-value store of records, as the
    application keeps it in a JSON file. Two keys are used: `race` holds the
    event being organised and `checkpoints` holds the list of control points. */
module EventStore {
  import opened Results

  /** The event being organised: its name, its date as typed (`DD-MM-YYYY`)
      and the moment it was created. */
  datatype Race = Race(name: string, date: string, createdAt: string)

  /** A control point: its display name, the code punched there, its position
      in degrees and a free-text hint for finding it. */
  datatype Checkpoint = Checkpoint(name: string, code: string, latitude: real, longitude: real, hint: string)

  /** A stored record: the race, or a record holding the checkpoint list. */
  datatype Entry = RaceRecord(race: Race) | CheckpointList(items: seq<Checkpoint>)

  type Store = map<string, Entry>

  datatype StoreError = KeyNotFound(key: string)

  const RaceKey: string := "race"
  const CheckpointsKey: string := "checkpoints"

  /** `put`: the record under `key` replaced as a whole; nothing else changes. */
  function Put(s: Store, key: string, e: Entry): (r: Store)
    ensures key in r && r[key] == e
    ensures forall k | k != key :: (k in r <==> k in s)
    ensures forall k | k != key && k in s :: r[k] == s[k]
  {
    s[key := e]
  }

  /** `get`: the record under `key`, or the error raised for a missing key. */
  function Get(s: Store, key: string): (r: Result<Entry, StoreError>)
    ensures r.Success? <==> key in s
    ensures r.Success? ==> r.value == s[key]
    ensures r.Failure? ==> r.error == KeyNotFound(key)
  {
    if key in s then Success(s[key]) else Failure(KeyNotFound(key))
  }

  /** Reading a key just written gives back exactly the record written. */
  lemma {:induction false} GetAfterPut(s: Store, key: string, e: Entry)
    ensures Get(Put(s, key, e), key) == Success(e)
  {
  }

  /** Writing one key leaves every other key reading as it did, present or
      missing. */
  lemma {:induction false} GetAfterPutOther(s: Store, key: string, other: string, e: Entry)
    requires other != key
    ensures Get(Put(s, key, e), other) == Get(s, other)
  {
  }

  /** A second write to a key replaces the first record as a whole: nothing
      of the first survives, as if it had never been written. */
  lemma {:induction false} PutOverwrites(s: Store, key: string, first: Entry, second: Entry)
    ensures Put(Put(s, key, first), key, second) == Put(s, key, second)
  {
  }

  /** A record's `items` field, or the empty list when it has none. */
  function ItemsOf(e: Entry): seq<Checkpoint> {
    if e.CheckpointList? then e.items else []
  }

  /** The checkpoint list as the store holds it; empty when there is none. */
  function SavedCheckpoints(s: Store): seq<Checkpoint> {
    if CheckpointsKey in s then ItemsOf(s[CheckpointsKey]) else []
  }
}
