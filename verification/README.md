# Assignment-deduplication cache of the Eppo React Native SDK, in Dafny

This project models the caching layer of the SDK:

- `AsyncStorageAssignmentShim`: a `Map<string, string>` kept in memory and written
  through, as one snapshot blob, to a single AsyncStorage key derived from a
  suffix.
- `AsyncStorageAssignmentCache`: the persistent tier. It puts the dedup rule on
  top of the shim and adds bulk `setEntries`/`getEntries`.
- `SimpleAssignmentCache`: the memory tier. It puts the dedup rule on top of an
  in-memory `Map` and adds a raw bulk `setEntries`.
- The hybrid composition of the two tiers. The memory tier answers `has`. `set`
  writes both tiers. `init` copies the persistent tier's entries into memory.
- `EppoAsyncStorage`: the flag-configuration store, a string-keyed record with a
  merge-overwrite `setEntries`.

Everything is a pure function over immutable values. The state of an operation
goes in and the new state comes out.

Modules, one per component:

| file | module | models |
|---|---|---|
| wrappers.dfy | `Wrappers` | `Option`, used for JavaScript's `undefined` |
| ordered_map.dfy | `OrderedMap` | a JavaScript `Map<string, string>` as an insertion-ordered list of entries with distinct keys, plus its dictionary meaning `ToMap` |
| assignment_dedup.dfy | `AssignmentDedup` | assignment entries, the opaque key/value encoding, and the single-slot `has`/`set` rule |
| assignment_shim.dfy | `AssignmentShim` | `AsyncStorageAssignmentShim` and the AsyncStorage it writes to |
| persistent_assignment_cache.dfy | `PersistentAssignmentCache` | `AsyncStorageAssignmentCache` |
| simple_assignment_cache.dfy | `SimpleAssignmentCache` | `SimpleAssignmentCache` |
| hybrid_assignment_cache.dfy | `HybridAssignmentCache` | the hybrid composition, as its tests describe it |
| configuration_store.dfy | `ConfigurationStore` | `EppoAsyncStorage` |

Modelling choices:

- **A JavaScript `Map` is an ordered entry list (`OrderedMap.OMap`).**
  - `set` on a present key replaces the value in place.
  - `set` on a new key appends the pair.
  - `delete` removes the one entry.
  - `new Map(pairs)` sets the pairs in order, so a later duplicate key wins.
  - Because order is kept, `persistCache` followed by hydration gives back the
    map exactly, order included (`OrderedMap.FromPairsRoundTrip`).
- **AsyncStorage is a dictionary from storage keys to blobs** (`AssignmentShim.Storage`).
  - The JSON text of a blob is abstracted to what `JSON.parse` and `new Map(...)`
    make of it: `EmptyText`, `EntryList(pairs)` or `Unparseable`.
  - `initCache` tests the stored text for truthiness, so an empty string counts
    as nothing stored.
  - If the text does not parse, `initCache` rejects before it assigns anything,
    so the memory map stays as it was.
- **Storage writes are fire-and-forget.** Each write or removal takes its outcome
  as a parameter `ok`. A failed one leaves storage unchanged, because the
  rejection is only logged, and the change to the memory map still stands.
  - The bulk `setEntries` of the persistent tier takes one outcome per pair,
    `writeOk(i)`.
- **The key/value encoding is opaque.** It lives in `AbstractAssignmentCache` of
  `@eppo/js-client-sdk-common`, which is not part of this model.
  - It enters as a `Codec` with two functions, `slotOf` and `valueOf`.
  - `ValidCodec` assumes only two things. Entries that agree on subject, flag and
    allocation share a slot. Slot and value together identify the entry.
  - `has(e)` holds iff `get(slotOf(e)) == valueOf(e)`. `set(e)` writes
    `valueOf(e)` under `slotOf(e)`.
  - The library's `entries()` is taken to return the delegate map's entries.
- **`HybridAssignmentCache` is modelled from its tests.**
  `src/cache/hybrid-assignment-cache.ts` is not part of this model.
  - `init` copies the persistent tier's `getEntries()` into the memory tier with
    the memory tier's raw `setEntries`.
  - `has` asks the memory tier.
  - `set` calls `set` on both tiers.
  - If `init` only copies when the memory tier is empty, every lemma that starts
    from an empty memory tier still holds.
- **Hydration of the shim is a separate step (`AssignmentShim.Hydrate`).** The
  constructor starts `initCache` without awaiting it. The model has the
  constructor (`New`) and the completion of `initCache` (`Hydrate`) as two
  operations.

## Model

| member | source | states |
|---|---|---|
| `OrderedMap.Get` | src/cache/async-storage-assignment-shim.ts:72-74 | `get` is absent exactly when no entry has the key; a present value is the value of an entry with that key |
| `OrderedMap.Set` | src/cache/async-storage-assignment-shim.ts:76-77 | `Map.set` replaces a present key's value in place and keeps every other entry; a new key is appended at the end |
| `OrderedMap.Delete` | src/cache/async-storage-assignment-shim.ts:31-32 | `Map.delete` cuts the entry with that key out where it stood and keeps all others in their insertion order; a missing key leaves the map unchanged |
| `OrderedMap.GetAfterSet` | src/cache/async-storage-assignment-shim.ts:72-80 | after `set(k, v)`, `get(k)` is `v` and every other key reads as before |
| `OrderedMap.GetAfterDelete` | src/cache/async-storage-assignment-shim.ts:31-35 | after `delete(k)`, `k` is absent and every other key reads as before |
| `OrderedMap.SetMeaning` | src/cache/async-storage-assignment-shim.ts:76-80 | as a dictionary, `set(k, v)` is the update `m[k := v]` |
| `OrderedMap.DeleteMeaning` | src/cache/async-storage-assignment-shim.ts:31-35 | as a dictionary, `delete(k)` is the removal `m - {k}` |
| `OrderedMap.GetMeaning` | src/cache/async-storage-assignment-shim.ts:72-74 | `get` answers from the dictionary meaning of the entry list |
| `OrderedMap.SetIdempotent` | src/cache/simple-assignment-cache.ts:24-26 | setting the same pair twice leaves the same entry list as setting it once |
| `OrderedMap.SetAllMeaning` | src/cache/simple-assignment-cache.ts:36 | a run of `set` calls means the same as applying the pairs left to right, so the last pair for a key wins |
| `OrderedMap.SetAllUntouched` | src/cache/simple-assignment-cache.ts:36 | keys that a run of `set` calls never mentions read as before |
| `OrderedMap.GetAfterSetAll` | src/__tests__/hybrid-assignment-cache.test.tsx:56-60 | setting every entry of one map into another makes the first map's keys read as in the first map and leaves the rest alone |
| `OrderedMap.FromPairs` | src/cache/async-storage-assignment-shim.ts:16 | `new Map(pairs)` has the dictionary meaning of the pairs, with a later duplicate winning, and one entry per distinct key |
| `OrderedMap.FromPairsRoundTrip` | src/cache/async-storage-assignment-shim.ts:14-24 | `new Map(entries)` built from a map's own entries gives back that map, order included |
| `OrderedMap.SizeMeaning` | src/cache/async-storage-assignment-shim.ts:44-46 | `size` equals the number of keys of the map |
| `AssignmentDedup.Hit` | src/cache/simple-assignment-cache.ts:28-30 | the `has` rule: `e` is a hit iff `e`'s encoded pair is an entry of the map, iff the map's dictionary holds `e`'s value under `e`'s slot |
| `AssignmentDedup.Record` | src/cache/simple-assignment-cache.ts:24-26 | `set(e)` makes `e` a hit and leaves every other slot unchanged |
| `AssignmentDedup.HitAfterRecord` | src/cache/simple-assignment-cache.ts:24-30 | after `set(a)`, `b` is a hit iff `b` is `a`, or `b` lives in another slot and was a hit before; another entry in `a`'s slot is a miss |
| `AssignmentDedup.HitAfterRecordAll` | src/__tests__/hybrid-assignment-cache.test.tsx:55-61 | after a run of `set` calls, `e` is a hit iff it was set and nothing later wrote its slot, or it was a hit before and the run never wrote its slot |
| `AssignmentShim.StorageKey` | src/cache/async-storage-assignment-shim.ts:8-9 | the storage key is `eppo-assignment-<suffix>` for a non-empty suffix and exactly `eppo-assignment` for an empty one |
| `AssignmentShim.StorageKeyInjective` | src/cache/async-storage-assignment-shim.ts:8-9 | the suffix can be read back from the storage key, so distinct suffixes get distinct storage keys |
| `AssignmentShim.New` | src/cache/async-storage-assignment-shim.ts:7-11 | a new shim has the derived storage key and an empty memory map, and storage is untouched |
| `AssignmentShim.Hydrate` | src/cache/async-storage-assignment-shim.ts:14-17 | hydration replaces memory with the decoded stored entries (later duplicates win); nothing stored or an empty string gives the empty map; unparseable text leaves memory as it was; storage is only read |
| `AssignmentShim.Persist` | src/cache/async-storage-assignment-shim.ts:19-24 | a successful persist writes the snapshot of the whole map under the storage key; a failed one changes nothing; memory is untouched |
| `AssignmentShim.SetKey` | src/cache/async-storage-assignment-shim.ts:76-80 | after `set(k, v)`, `get(k)` is `v`, `has(k)` holds, other keys are unchanged, and a successful write leaves storage holding the snapshot of the new map |
| `AssignmentShim.DeleteKey` | src/cache/async-storage-assignment-shim.ts:31-35 | `delete(k)` returns whether `k` was present, leaves the memory map as `Map.delete` does (only `k` removed, order kept), and a successful write stores the snapshot of what remains |
| `AssignmentShim.Clear` | src/cache/async-storage-assignment-shim.ts:26-29 | `clear()` empties memory; a successful removal deletes the storage entry instead of writing an empty snapshot, and leaves other storage keys alone |
| `AssignmentShim.Has` | src/cache/async-storage-assignment-shim.ts:68-70 | `has(k)` holds iff `k` is a key of the memory map |
| `AssignmentShim.GetKey` | src/cache/async-storage-assignment-shim.ts:72-74 | `get(k)` is the memory map's value for `k`, or absent |
| `AssignmentShim.Size` | src/cache/async-storage-assignment-shim.ts:44-46 | `size` is the number of keys of the memory map |
| `AssignmentShim.Entries` | src/cache/async-storage-assignment-shim.ts:48-50 | `entries()` lists exactly the memory map's pairs, one per key |
| `AssignmentShim.PersistThenHydrate` | src/cache/async-storage-assignment-shim.ts:14-24 | a new shim for the same suffix that hydrates from what `persistCache` wrote gets back exactly the persisted map |
| `AssignmentShim.HydrateReplaces` | src/cache/async-storage-assignment-shim.ts:14-17 | unless the stored text is unparseable, the hydrated map does not depend on what memory held before, so hydration does not merge |
| `AssignmentShim.ClearThenHydrate` | src/cache/async-storage-assignment-shim.ts:26-29 | after a successful `clear()`, a later hydration finds an empty map |
| `AssignmentShim.FailedSetNotDurable` | src/cache/async-storage-assignment-shim.ts:76-80 | a `set` whose write failed is invisible to a later hydration |
| `AssignmentShim.OtherStorageKeysUntouched` | src/cache/async-storage-assignment-shim.ts:19-35 | `set`, `delete` and `clear` never touch storage under any other key |
| `PersistentAssignmentCache.NewCache` | src/cache/async-storage-assignment-cache.ts:13-15 | the constructor's suffix fixes the shim's storage key, and the new cache reports no entry as seen |
| `PersistentAssignmentCache.SetEntry` | src/__tests__/hybrid-assignment-cache.test.tsx:56-57 | `set(e)` writes `e`'s slot through the shim, so `e` becomes a hit and the other slots keep their values; a successful write persists the new map and a failed one leaves storage unchanged |
| `PersistentAssignmentCache.AcceptedPairs` | src/cache/async-storage-assignment-cache.ts:19 | every kept pair has a non-empty key and a non-empty value and comes from the input, and every such input pair is kept |
| `PersistentAssignmentCache.AcceptedPairsSnoc` | src/cache/async-storage-assignment-cache.ts:18-22 | the filter keeps the input order: appending a pair to the input appends it to the kept pairs if it is accepted and changes nothing otherwise |
| `PersistentAssignmentCache.SetEntriesLastAcceptedWins` | src/cache/async-storage-assignment-cache.ts:17-23 | after `setEntries`, an accepted pair that no later accepted pair shares a key with decides that key's value, and skipped pairs never overwrite anything |
| `PersistentAssignmentCache.SetEntries` | src/cache/async-storage-assignment-cache.ts:17-23 | `setEntries` writes the accepted pairs through the shim in list order, so the last one for a key wins; keys in no accepted pair are unchanged; no accepted pair means no change at all; when the last write succeeds, storage holds the snapshot of the result |
| `PersistentAssignmentCache.GetEntries` | src/cache/async-storage-assignment-cache.ts:25-27 | `getEntries` returns exactly the delegate's entries: the same dictionary, one pair per key, each readable through the delegate |
| `PersistentAssignmentCache.Has` | src/cache/async-storage-assignment-cache.ts:9-14 | `has(e)` holds iff the delegate's `get` of `e`'s slot is `e`'s value, iff `e`'s encoded pair is among the listed entries |
| `SimpleAssignmentCache.Fresh` | src/cache/simple-assignment-cache.ts:19-22 | the constructor's store holds nothing under any key |
| `SimpleAssignmentCache.Has` | src/cache/simple-assignment-cache.ts:28-30 | `has(e)` holds iff `e`'s encoded pair is among the entries `getEntries()` lists |
| `SimpleAssignmentCache.FreshMissesEverything` | src/cache/simple-assignment-cache.ts:19-22 | a freshly constructed cache answers `has(e)` false for every `e` |
| `SimpleAssignmentCache.SetEntry` | src/cache/simple-assignment-cache.ts:24-30 | after `set(e)`, `has(e)` is true and no other slot changes |
| `SimpleAssignmentCache.SetEntryIdempotent` | src/cache/simple-assignment-cache.ts:24-26 | `set(e)` twice leaves the store equal to the store after one `set(e)` |
| `SimpleAssignmentCache.SetEntries` | src/cache/simple-assignment-cache.ts:32-37 | `setEntries` applies every raw pair in order, unfiltered, and leaves keys it does not mention unchanged |
| `SimpleAssignmentCache.SetEntriesLastWins` | src/cache/simple-assignment-cache.ts:36 | the last pair given for a key decides its value, even when the key or the value is empty |
| `SimpleAssignmentCache.GetEntries` | src/cache/simple-assignment-cache.ts:39-41 | `getEntries` returns all current store entries, one per key |
| `HybridAssignmentCache.NewHybrid` | src/__tests__/hybrid-assignment-cache.test.tsx:10-14 | the new hybrid's persistent tier uses the storage key derived from the given suffix, and the hybrid reports no entry as seen |
| `HybridAssignmentCache.Init` | src/__tests__/hybrid-assignment-cache.test.tsx:55-60 | after `init`, keys the persistent tier holds read as in the persistent tier, and the others keep their memory values; the persistent tier is unchanged |
| `HybridAssignmentCache.SetEntry` | src/__tests__/hybrid-assignment-cache.test.tsx:37-39 | `set(e)` makes `e` a hit in the hybrid, the memory tier and the persistent tier; the persistent tier's map is its old map with only `e`'s slot written, no other memory slot changes, storage under other keys is untouched, a successful write persists the new map, and a failed one leaves storage unchanged |
| `HybridAssignmentCache.Has` | src/__tests__/hybrid-assignment-cache.test.tsx:35-39 | the hybrid's `has(e)` holds iff `e`'s encoded pair is among the memory tier's entries |
| `HybridAssignmentCache.HasIgnoresPersistentTier` | src/__tests__/hybrid-assignment-cache.test.tsx:35-39 | the hybrid's `has` is the memory tier's `has`, whatever the persistent tier holds |
| `HybridAssignmentCache.InitEmptyMisses` | src/__tests__/hybrid-assignment-cache.test.tsx:16-25 | with both tiers empty, every entry is a miss after `init` |
| `HybridAssignmentCache.InitCopiesPersistentTier` | src/__tests__/hybrid-assignment-cache.test.tsx:55-60 | `init` on an empty memory tier copies the persistent tier exactly, so the memory tier's hits are exactly the persistent tier's |
| `HybridAssignmentCache.InitHits` | src/__tests__/hybrid-assignment-cache.test.tsx:58-61 | after `init`, the persistent tier decides the hits in the slots it holds, and the memory tier decides the rest |
| `HybridAssignmentCache.SetThenHas` | src/__tests__/hybrid-assignment-cache.test.tsx:37-39 | `set(e)` followed by `has(e)` is true on the hybrid and on its memory tier |
| `HybridAssignmentCache.OverwriteLaw` | src/__tests__/hybrid-assignment-cache.test.tsx:82-88 | `set(a)` then `set(b)`, with `b` differing from `a` only in its variation, leaves `a` a miss and `b` a hit, in both tiers |
| `HybridAssignmentCache.SetEntryIdempotent` | src/cache/simple-assignment-cache.ts:24-26 | `set(e)` twice leaves both tiers' maps as one `set(e)` does, and if the second write succeeds, storage is as after one successful write |
| `HybridAssignmentCache.RestartThenInit` | src/cache/async-storage-assignment-shim.ts:14-24 | if the last write succeeded, a new process hydrates and runs `init`, and then reports exactly the entries the old persistent tier reported |
| `HybridAssignmentCache.InitBeforeHydrationSeesNothing` | src/cache/async-storage-assignment-shim.ts:7-17 | an `init` that runs before the unawaited `initCache` finishes copies an empty persistent tier and reports no entry, whatever storage holds |
| `HybridAssignmentCache.SetSurvivesRestart` | src/cache/async-storage-assignment-shim.ts:14-24 | a `set(e)` whose write succeeded is still a hit after a restart and `init`, with no `set` in the new process |
| `HybridAssignmentCache.PopulateFromPersistentTier` | src/__tests__/hybrid-assignment-cache.test.tsx:42-62 | entries set in the persistent tier become memory-tier hits after `init`, and the same entry with allocation `foo` does not |
| `HybridAssignmentCache.PopulateThenInit` | src/__tests__/hybrid-assignment-cache.test.tsx:42-62 | for any two entries set into the persistent tier of a fresh hybrid, nothing is a memory-tier hit before `init`, and afterwards exactly the second entry and, when its slot differs, the first are |
| `HybridAssignmentCache.VariationChange` | src/__tests__/hybrid-assignment-cache.test.tsx:64-89 | `control` is a hit until `treatment` is set for the same subject, flag and allocation, and then it is a miss |
| `ConfigurationStore.Fresh` | src/async-storage.ts:2 | a new store reads every key as absent |
| `ConfigurationStore.Get` | src/async-storage.ts:4-6 | the intended `get`: absent exactly for keys never set, and a present value is the one the store holds under the key |
| `ConfigurationStore.Merge` | src/async-storage.ts:8-12 | after `setEntries(e)`, every key of `e` reads `e[k]`, and every other key reads as before |
| `ConfigurationStore.SetEntries` | src/async-storage.ts:8-12 | the key-by-key assignment loop yields exactly the merge of the entries over the store |
| `ConfigurationStore.MergeIdempotent` | src/async-storage.ts:8-12 | `setEntries(e)` twice gives the same store as once |
| `ConfigurationStore.LaterMergeWins` | src/async-storage.ts:10 | a later `setEntries` overwrites existing values for the keys it shares with an earlier one |
| `ConfigurationStore.LookupAsWritten` | src/async-storage.ts:4-6 | the read as written returns an own entry when one is set, and `undefined` only for keys that are neither set nor inherited from `Object.prototype` |
| `ConfigurationStore.FreshStoreLookupNotAbsent` | src/async-storage.ts:2-6 | on a fresh store, the read as written gives the inherited `toString` where the intended read gives absent |
| `ConfigurationStore.LookupAgreesOffPrototype` | src/async-storage.ts:4-6 | for keys that `Object.prototype` does not define, the read as written and the intended read agree |

## Left out

- `forEach`, `keys`, `values`, `[Symbol.iterator]` and `[Symbol.toStringTag]` of the shim: they only delegate to the memory map. `Entries` stands for all of them.
- The race in which `initCache` finishes after some `set` calls and overwrites them is not modelled. Overlapping `persistCache` writes that finish out of order are not modelled either. Both are timing effects of unawaited promises. Hydration is one atomic step, and each write's effect happens at its call.
- `HybridAssignmentCache.RestartThenInit`: assumes `initCache` has finished before `init` runs. The constructor does not await it, so nothing in the code enforces that order. `HybridAssignmentCache.InitBeforeHydrationSeesNothing` shows the other order: `init` then reports nothing.
- `HybridAssignmentCache.SetSurvivesRestart`: assumes, like `RestartThenInit`, that `initCache` finishes before `init`.
- JSON encoding: a blob is its decoded list of pairs. Which texts `JSON.parse` accepts is folded into `Unparseable`.
- `HybridAssignmentCache.PopulateFromPersistentTier`: proves the first entry is a hit only when the two entries get different slots. The real key/value hashing of `AbstractAssignmentCache` is replaced by the `Codec` assumptions, and they do not require entries with different subject, flag or allocation to get different slots.
- `HybridAssignmentCache.Init`: the source of `init` is not part of this model. It is modelled as an unconditional copy of the persistent tier into the memory tier.
- `HybridAssignmentCache.SetEntryIdempotent`: storage is stated equal only when the second write succeeds. A failed first write followed by a successful second write leaves storage different from one failed write.
- The bounded, least-recently-used memory tier and the cache factory: `src/cache/assignment-cache-factory.ts` is entirely commented out, and no shown code builds the bounded variant.
- `ConfigurationStore`: assigning under the key `__proto__` changes the object's prototype instead of adding an entry. This is not modelled. `setEntries` treats `__proto__` like any other key.
- `STORAGE_KEY`, `isInitialized` and `getKeys` of the configuration store: they appear only in expectations of `src/async-storage.spec.ts` and not in `src/async-storage.ts`.
- HTTP configuration fetching, the client singleton, flag evaluation and the example app are network I/O or code outside the cache subsystem.

## Findings

| source | as written | input that shows it | evidently intended | confidence | as-written member | corrected member |
|---|---|---|---|---|---|---|
| src/async-storage.ts:2-6 | `get` reads `this.store[key]` on a plain object literal, so a key that was never set can still find a member inherited from `Object.prototype` | `new EppoAsyncStorage().get("toString")` gives the inherited `toString` function, not `undefined` | a key that was never set reads as absent | high that the lookup reaches `Object.prototype`; not executed | `ConfigurationStore.LookupAsWritten` (counterexample `ConfigurationStore.FreshStoreLookupNotAbsent`) | `ConfigurationStore.Get`, with `ConfigurationStore.Fresh` and `ConfigurationStore.Merge` proving that unset keys read as absent |
