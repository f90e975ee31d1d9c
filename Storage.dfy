/**
  The key/value store the bot persists into (the host's bot storage or a JSON
  file), abstracted as a map from keys to JSON values. Only the two value shapes
  the bot writes are modelled: an object from tag to a list of users, and a list
  of users. Lists are kept as sets: the bot only ever reads them back into sets.
 */
module Storage {

  import opened Wrappers

  datatype Value = Object(entries: map<string, set<string>>) | Array(items: set<string>)

  type Store = map<string, Value>

  /** Key of the tag mapping (`TagMapping.STORAGE_KEY`, and `TagMapping`'s default `key`). */
  const MappingKey: string := "mapping"

  /** Key of the search limit set. */
  const LimitKey: string := "limit"

  /** `storage.get(key, default)` */
  function Get(st: Store, key: string, default: Value): Value {
    if key in st then st[key] else default
  }

  /**
    `set(storage.get("limit", []))`: the stored users; a stored object
    contributes its keys, as Python's `set(dict)` does.
   */
  function LimitSet(st: Store): set<string> {
    match Get(st, LimitKey, Array({}))
    case Array(us) => us
    case Object(m) => m.Keys
  }

  /**
    `storage.get(key, {})` read as a tag record; `None` when a list is stored
    there, whose missing `.items()` makes `load` raise.
   */
  function Record(st: Store, key: string): Option<map<string, set<string>>> {
    match Get(st, key, Object(map[]))
    case Object(m) => Some(m)
    case Array(_) => None
  }

  /** What `put` writes under a key, `get` reads back as a record. */
  lemma RecordAfterPut(st: Store, key: string, m: map<string, set<string>>)
    ensures Record(st[key := Object(m)], key) == Some(m)
  {
  }

  /** A `put` under another key leaves the record under `key` as it was. */
  lemma RecordAfterOtherPut(st: Store, key: string, k: string, v: Value)
    requires k != key
    ensures Record(st[k := v], key) == Record(st, key)
  {
  }

  /** A list of users `put` under the limit key reads back as exactly that limit set. */
  lemma LimitSetAfterPut(st: Store, us: set<string>)
    ensures LimitSet(st[LimitKey := Array(us)]) == us
  {
  }

  /** A `put` under another key leaves the limit set as it was. */
  lemma LimitSetAfterOtherPut(st: Store, k: string, v: Value)
    requires k != LimitKey
    ensures LimitSet(st[k := v]) == LimitSet(st)
  {
  }
}
