/**
 `SimpleAssignmentCache`: the memory tier. The dedup rule of
 `AssignmentDedup` applied to an in-memory `Map<string, string>` store, plus
 a bulk write that puts raw pairs straight into the store.
 */
module SimpleAssignmentCache {
  import opened Wrappers
  import opened OrderedMap
  import opened AssignmentDedup

  /** The constructor: a store with nothing under any key. */
  function Fresh(): (r: OMap)
    ensures forall k :: Get(r, k) == None
  {
    []
  }

  /** A freshly constructed cache reports no entry as seen. */
  lemma FreshMissesEverything(c: Codec, e: AssignmentEntry)
    ensures !Has(c, Fresh(), e)
  {
  }

  /** `has(e)`: the store holds the value of `e` in its slot, that is, the
      encoded pair of `e` is one of the entries `getEntries()` lists. */
  predicate Has(c: Codec, store: OMap, e: AssignmentEntry)
    ensures Has(c, store, e) <==> (c.slotOf(e), c.valueOf(e)) in GetEntries(store)
  {
    Hit(c, store, e)
  }

  /** `set(e)`: the slot of `e` now holds its value; no other slot changes. */
  function SetEntry(c: Codec, store: OMap, e: AssignmentEntry): (r: OMap)
    ensures Has(c, r, e)
    ensures forall k | k != c.slotOf(e) :: Get(r, k) == Get(store, k)
  {
    Record(c, store, e)
  }

  /** `set(e)` twice leaves the store as one `set(e)` does: the slot is
      overwritten, not accumulated. */
  lemma SetEntryIdempotent(c: Codec, store: OMap, e: AssignmentEntry)
    ensures SetEntry(c, SetEntry(c, store, e), e) == SetEntry(c, store, e)
  {
    SetIdempotent(store, c.slotOf(e), c.valueOf(e));
  }

  /** `setEntries(entries)`: every raw pair is set into the store in order,
      with no filtering and no re-encoding. */
  function SetEntries(store: OMap, entries: seq<Pair>): (r: OMap)
    ensures ToMap(r) == Apply(ToMap(store), entries)
    ensures forall k | !HasKey(entries, k) :: Get(r, k) == Get(store, k)
  {
    SetAllMeaning(store, entries);
    assert forall k | !HasKey(entries, k) :: Get(SetAll(store, entries), k) == Get(store, k) by {
      forall k | !HasKey(entries, k) ensures Get(SetAll(store, entries), k) == Get(store, k) {
        SetAllUntouched(store, entries, k);
      }
    }
    SetAll(store, entries)
  }

  /** In `setEntries`, the last pair given for a key decides its value, and
      an empty key or value is stored like any other. */
  lemma SetEntriesLastWins(store: OMap, entries: seq<Pair>, i: nat)
    requires i < |entries|
    requires forall j | i < j < |entries| :: entries[j].0 != entries[i].0
    ensures Get(SetEntries(store, entries), entries[i].0) == Some(entries[i].1)
  {
    ApplyLast(ToMap(store), entries, i);
    GetMeaning(SetEntries(store, entries), entries[i].0);
  }

  /** `getEntries()`: all current entries of the store. */
  function GetEntries(store: OMap): (es: seq<Pair>)
    ensures ToMap(es) == ToMap(store) && |es| == |ToMap(store)|
    ensures forall i | 0 <= i < |es| :: Get(store, es[i].0) == Some(es[i].1)
  {
    ToMapOf(store);
    SizeMeaning(store);
    store
  }
}
