/**
 `AsyncStorageAssignmentShim`: a `Map<string, string>` held in memory and
 written through to one AsyncStorage key.

 AsyncStorage is modelled as a dictionary from storage keys to blobs; the
 JSON text of a blob is abstracted to what `JSON.parse` and `new Map(...)`
 make of it. Each storage write or removal is fire-and-forget: its outcome is
 a parameter `ok`, and a failed one (the promise rejects and the error is
 only logged) leaves storage as it was while the memory effect stands.
 */
module AssignmentShim {
  import opened Wrappers
  import opened OrderedMap

  /** What AsyncStorage holds under a key, as `initCache` reads it. */
  datatype Blob =
    | EmptyText                   // "", falsy, read as nothing stored
    | EntryList(pairs: seq<Pair>) // a JSON array of [key, value] pairs
    | Unparseable                 // text that `JSON.parse` or `new Map(...)` rejects

  type Storage = map<string, Blob>

  /** True iff storages `a` and `b` agree on every key except `key`. */
  predicate AgreeOutside(a: Storage, b: Storage, key: string) {
    forall k | k in a.Keys + b.Keys && k != key :: k in a && k in b && a[k] == b[k]
  }

  /** The shim: its storage key, its in-memory map, and the AsyncStorage
      contents it writes to. */
  datatype Shim = Shim(storageKey: string, cache: OMap, storage: Storage)

  const StoragePrefix := "eppo-assignment"

  /** The storage key chosen by the constructor: the prefix alone for an
      empty suffix, otherwise the prefix, a dash and the suffix. */
  function StorageKey(suffix: string): (key: string)
    ensures suffix == "" ==> key == "eppo-assignment"
    ensures suffix != "" ==> key == "eppo-assignment-" + suffix
  {
    StoragePrefix + (if suffix == "" then "" else "-" + suffix)
  }

  /** Recovers the suffix from a storage key. */
  function SuffixOf(key: string): string {
    if |key| > |StoragePrefix| + 1 then key[|StoragePrefix| + 1..] else ""
  }

  /** The suffix can be read back from the storage key, so instances with
      different suffixes never share a storage key. */
  lemma StorageKeyInjective(s1: string, s2: string)
    ensures SuffixOf(StorageKey(s1)) == s1
    ensures StorageKey(s1) == StorageKey(s2) ==> s1 == s2
  {
    if s1 != "" {
      assert StorageKey(s1)[|StoragePrefix| + 1..] == s1;
    }
    if s2 != "" {
      assert StorageKey(s2)[|StoragePrefix| + 1..] == s2;
    }
  }

  /** The constructor, before its `initCache` call completes. */
  function New(suffix: string, storage: Storage): (s: Shim)
    ensures s.storageKey == StorageKey(suffix) && s.storage == storage
    ensures forall k :: Get(s.cache, k) == None
  {
    Shim(StorageKey(suffix), [], storage)
  }

  /** The completion of `initCache`: the memory map is replaced by the stored
      entries, or by an empty map when nothing (or "") is stored. When the
      stored text cannot be parsed the promise rejects before the assignment,
      so memory is left as it was. Storage is only read. */
  function Hydrate(s: Shim): (r: Shim)
    ensures r.storageKey == s.storageKey && r.storage == s.storage
    ensures s.storageKey !in s.storage || s.storage[s.storageKey] == EmptyText ==> r.cache == []
    ensures s.storageKey in s.storage && s.storage[s.storageKey].EntryList? ==>
              ToMap(r.cache) == ToMap(s.storage[s.storageKey].pairs)
    ensures s.storageKey in s.storage && s.storage[s.storageKey] == Unparseable ==> r == s
  {
    if s.storageKey !in s.storage then s.(cache := [])
    else match s.storage[s.storageKey]
      case EmptyText => s.(cache := [])
      case EntryList(pairs) =>
        var cache := FromPairs(pairs);
        SetAllMeaning([], pairs);
        s.(cache := cache)
      case Unparseable => s
  }

  /** `persistCache`: a snapshot of the whole memory map, in order, written
      under the storage key when the write succeeds. */
  function Persist(s: Shim, ok: bool): (r: Shim)
    ensures r.storageKey == s.storageKey && r.cache == s.cache
    ensures ok ==> r.storage == s.storage[s.storageKey := EntryList(s.cache)]
    ensures !ok ==> r.storage == s.storage
  {
    if ok then s.(storage := s.storage[s.storageKey := EntryList(s.cache)]) else s
  }

  /** `set(k, v)`: `k` now maps to `v`, every other key reads as before, and
      (when the write succeeds) storage holds the snapshot of the new map. */
  function SetKey(s: Shim, k: string, v: string, ok: bool): (r: Shim)
    ensures r.storageKey == s.storageKey && r.cache == Set(s.cache, k, v)
    ensures Get(r.cache, k) == Some(v) && Has(r, k)
    ensures forall x | x != k :: Get(r.cache, x) == Get(s.cache, x)
    ensures ToMap(r.cache) == ToMap(s.cache)[k := v]
    ensures ok ==> r.storage == s.storage[s.storageKey := EntryList(r.cache)]
    ensures !ok ==> r.storage == s.storage
  {
    var cache := Set(s.cache, k, v);
    GetAfterSet(s.cache, k, v, k);
    assert forall x | x != k :: Get(cache, x) == Get(s.cache, x) by {
      forall x | x != k ensures Get(cache, x) == Get(s.cache, x) {
        GetAfterSet(s.cache, k, v, x);
      }
    }
    SetMeaning(s.cache, k, v);
    Persist(s.(cache := cache), ok)
  }

  /** `delete(k)`: reports whether `k` was present, removes only `k`, and
      (when the write succeeds) stores the snapshot of what remains. The
      snapshot is written even when `k` was absent. */
  function DeleteKey(s: Shim, k: string, ok: bool): (r: (Shim, bool))
    ensures r.1 == Has(s, k)
    ensures r.0.storageKey == s.storageKey && r.0.cache == Delete(s.cache, k)
    ensures Get(r.0.cache, k) == None
    ensures forall x | x != k :: Get(r.0.cache, x) == Get(s.cache, x)
    ensures ToMap(r.0.cache) == ToMap(s.cache) - {k}
    ensures ok ==> r.0.storage == s.storage[s.storageKey := EntryList(r.0.cache)]
    ensures !ok ==> r.0.storage == s.storage
  {
    var cache := Delete(s.cache, k);
    GetAfterDelete(s.cache, k, k);
    assert forall x | x != k :: Get(cache, x) == Get(s.cache, x) by {
      forall x | x != k ensures Get(cache, x) == Get(s.cache, x) {
        GetAfterDelete(s.cache, k, x);
      }
    }
    DeleteMeaning(s.cache, k);
    (Persist(s.(cache := cache), ok), HasKey(s.cache, k))
  }

  /** `clear()`: the memory map is emptied and the storage entry is removed
      (not overwritten with an empty snapshot) when the removal succeeds. */
  function Clear(s: Shim, ok: bool): (r: Shim)
    ensures r.storageKey == s.storageKey
    ensures forall k :: Get(r.cache, k) == None
    ensures ok ==> r.storage.Keys == s.storage.Keys - {s.storageKey}
    ensures ok ==> forall key | key in r.storage :: r.storage[key] == s.storage[key]
    ensures !ok ==> r.storage == s.storage
  {
    Shim(s.storageKey, [], if ok then s.storage - {s.storageKey} else s.storage)
  }

  /** `has(k)`: answered from the memory map alone. */
  function Has(s: Shim, k: string): (b: bool)
    ensures b <==> k in ToMap(s.cache)
  {
    GetMeaning(s.cache, k);
    HasKey(s.cache, k)
  }

  /** `get(k)`: answered from the memory map alone. */
  function GetKey(s: Shim, k: string): (r: Option<string>)
    ensures r.Some? <==> k in ToMap(s.cache)
    ensures r.Some? ==> r.value == ToMap(s.cache)[k]
  {
    GetMeaning(s.cache, k);
    Get(s.cache, k)
  }

  /** `size`: the number of keys of the memory map. */
  function Size(s: Shim): (n: nat)
    ensures n == |ToMap(s.cache)|
  {
    SizeMeaning(s.cache);
    |s.cache|
  }

  /** `entries()`: the pairs of the memory map. */
  function Entries(s: Shim): (es: seq<Pair>)
    ensures ToMap(es) == ToMap(s.cache) && |es| == Size(s)
    ensures forall i | 0 <= i < |es| :: GetKey(s, es[i].0) == Some(es[i].1)
  {
    ToMapOf(s.cache);
    s.cache
  }

  // ---------------------------------------------------------------------
  // Laws relating several operations

  /** Round trip: a new shim for the same suffix that hydrates from what
      `persistCache` wrote gets back exactly the persisted map, in order. */
  lemma PersistThenHydrate(s: Shim, suffix: string)
    requires s.storageKey == StorageKey(suffix)
    ensures Hydrate(New(suffix, Persist(s, true).storage)).cache == s.cache
  {
    FromPairsRoundTrip(s.cache);
  }

  /** Hydration replaces the memory map: whatever was in memory before has no
      influence on the result unless the stored text is unparseable. */
  lemma HydrateReplaces(s: Shim, other: OMap)
    requires s.storageKey !in s.storage || s.storage[s.storageKey] != Unparseable
    ensures Hydrate(s).cache == Hydrate(s.(cache := other)).cache
  {
  }

  /** A successful `clear()` is durable: a later hydration finds nothing. */
  lemma ClearThenHydrate(s: Shim, suffix: string)
    requires s.storageKey == StorageKey(suffix)
    ensures Hydrate(New(suffix, Clear(s, true).storage)).cache == []
  {
  }

  /** A failed write changes nothing durable: a later hydration sees the
      storage as it was before the `set`. */
  lemma FailedSetNotDurable(s: Shim, k: string, v: string, suffix: string)
    requires s.storageKey == StorageKey(suffix)
    ensures Hydrate(New(suffix, SetKey(s, k, v, false).storage)) == Hydrate(New(suffix, s.storage))
  {
  }

  /** Storage under any other key is never touched by the shim. */
  lemma OtherStorageKeysUntouched(s: Shim, k: string, v: string, ok: bool, key: string)
    requires key != s.storageKey
    ensures key in SetKey(s, k, v, ok).storage <==> key in s.storage
    ensures key in DeleteKey(s, k, ok).0.storage <==> key in s.storage
    ensures key in Clear(s, ok).storage <==> key in s.storage
    ensures key in s.storage ==>
              && SetKey(s, k, v, ok).storage[key] == s.storage[key]
              && DeleteKey(s, k, ok).0.storage[key] == s.storage[key]
              && Clear(s, ok).storage[key] == s.storage[key]
  {
  }
}
