/**
 `EppoAsyncStorage`: the flag-configuration store, a string-keyed record
 whose `setEntries` merges new entries over the old ones.

 The source keeps the entries in a plain object literal, so a read of a key
 that was never set falls through to `Object.prototype`. `LookupAsWritten`
 models that read; `Get` is the intended read, which the rest of the model
 uses.
 */
module ConfigurationStore {
  import opened Wrappers

  /** The store: configuration values of type `T` by key. */
  type Store<T> = map<string, T>

  /** The constructor: an empty record. */
  function Fresh<T>(): (s: Store<T>)
    ensures forall k :: Get(s, k) == None
  {
    map[]
  }

  /** `get(key)` as intended: the value last set under `key`, or nothing. */
  function Get<T>(s: Store<T>, k: string): (r: Option<T>)
    ensures r.None? <==> k !in s.Keys
    ensures r.Some? ==> s[k := r.value] == s
  {
    if k in s then Some(s[k]) else None
  }

  /** The dictionary meaning of `setEntries(entries)`: every key of
      `entries` takes its new value, every other key keeps its old one. */
  function Merge<T>(s: Store<T>, entries: map<string, T>): (r: Store<T>)
    ensures forall k | k in entries :: Get(r, k) == Some(entries[k])
    ensures forall k | k !in entries :: Get(r, k) == Get(s, k)
  {
    s + entries
  }

  /** `setEntries(entries)`: the entries of the record are assigned into the
      store one key at a time. */
  method SetEntries<T>(s: Store<T>, entries: map<string, T>) returns (r: Store<T>)
    ensures r == Merge(s, entries)
  {
    r := s;
    var todo := entries.Keys;
    while todo != {}
      invariant todo <= entries.Keys
      invariant forall k | k in entries && k !in todo :: k in r && r[k] == entries[k]
      invariant forall k | k !in entries || k in todo :: Get(r, k) == Get(s, k)
      decreases todo
    {
      var k :| k in todo;
      r := r[k := entries[k]];
      todo := todo - {k};
    }
    assert r.Keys == Merge(s, entries).Keys;
  }

  /** `setEntries(e)` twice gives the same store as once. */
  lemma MergeIdempotent<T>(s: Store<T>, entries: map<string, T>)
    ensures Merge(Merge(s, entries), entries) == Merge(s, entries)
  {
  }

  /** A later `setEntries` wins on the keys it shares with an earlier one. */
  lemma LaterMergeWins<T>(s: Store<T>, first: map<string, T>, second: map<string, T>, k: string)
    requires k in second
    ensures Get(Merge(Merge(s, first), second), k) == Some(second[k])
  {
  }

  // ---------------------------------------------------------------------
  // The read as written

  /** The members every plain object inherits from `Object.prototype`. */
  const ObjectPrototypeMembers: set<string> := {
    "constructor", "hasOwnProperty", "isPrototypeOf", "propertyIsEnumerable",
    "toLocaleString", "toString", "valueOf", "__proto__",
    "__defineGetter__", "__defineSetter__", "__lookupGetter__", "__lookupSetter__"
  }

  /** What `this.store[key]` yields on a plain object: an own entry, an
      inherited member of `Object.prototype`, or `undefined`. */
  datatype Lookup<T> = Own(value: T) | Inherited(name: string) | Undefined

  /** `get(key)` as written: an unset key that names an inherited member
      yields that member instead of `undefined`. */
  function LookupAsWritten<T>(s: Store<T>, k: string): (r: Lookup<T>)
    ensures r.Own? <==> Get(s, k).Some?
    ensures r.Own? ==> Get(s, k) == Some(r.value)
    ensures r.Undefined? <==> k !in s && k !in ObjectPrototypeMembers
  {
    if k in s then Own(s[k])
    else if k in ObjectPrototypeMembers then Inherited(k)
    else Undefined
  }

  /** The discrepancy: on a fresh store, `get("toString")` does not yield
      `undefined`, although nothing was ever set. */
  lemma FreshStoreLookupNotAbsent()
    ensures LookupAsWritten(Fresh<int>(), "toString") == Inherited("toString")
    ensures Get(Fresh<int>(), "toString") == None
  {
  }

  /** The intended read agrees with the read as written wherever the
      written one finds an own entry or `undefined`. */
  lemma LookupAgreesOffPrototype<T>(s: Store<T>, k: string)
    requires k !in ObjectPrototypeMembers
    ensures LookupAsWritten(s, k) == (if k in s then Own(s[k]) else Undefined)
    ensures Get(s, k).None? <==> LookupAsWritten(s, k) == Undefined
  {
  }
}
