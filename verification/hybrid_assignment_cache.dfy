/**
 `HybridAssignmentCache`: a memory tier (`SimpleAssignmentCache`) that
 answers every `has`, and a persistent tier (`AsyncStorageAssignmentCache`)
 that every `set` is written through to. `init` copies the persistent tier's
 entries into the memory tier.
 */
module HybridAssignmentCache {
  import opened Wrappers
  import opened OrderedMap
  import opened AssignmentDedup
  import opened AssignmentShim
  import Simple = SimpleAssignmentCache
  import Persistent = PersistentAssignmentCache

  datatype Hybrid = Hybrid(serving: OMap, persistent: Shim)

  /** The construction in the tests: a fresh memory tier and a persistent
      tier for `suffix` over the current AsyncStorage contents. */
  function NewHybrid(suffix: string, storage: Storage): (h: Hybrid)
    ensures h.persistent.storageKey == StorageKey(suffix)
    ensures forall c, e :: !Has(c, h, e)
  {
    Hybrid(Simple.Fresh(), Persistent.NewCache(suffix, storage))
  }

  /** `init()`: the persistent tier's entries are written raw into the memory
      tier; keys the persistent tier holds take its values, the others keep
      theirs. The persistent tier is only read. */
  function Init(h: Hybrid): (r: Hybrid)
    ensures r.persistent == h.persistent
    ensures forall k :: Get(r.serving, k) ==
              if HasKey(h.persistent.cache, k) then Get(h.persistent.cache, k) else Get(h.serving, k)
  {
    var r := h.(serving := Simple.SetEntries(h.serving, Persistent.GetEntries(h.persistent)));
    assert forall k :: Get(r.serving, k) ==
             if HasKey(h.persistent.cache, k) then Get(h.persistent.cache, k) else Get(h.serving, k) by {
      forall k ensures Get(r.serving, k) ==
                 if HasKey(h.persistent.cache, k) then Get(h.persistent.cache, k) else Get(h.serving, k) {
        GetAfterSetAll(h.serving, h.persistent.cache, k);
      }
    }
    r
  }

  /** `has(e)`: answered by the memory tier, whose entries list the encoded
      pair of `e`. */
  predicate Has(c: Codec, h: Hybrid, e: AssignmentEntry)
    ensures Has(c, h, e) <==> (c.slotOf(e), c.valueOf(e)) in Simple.GetEntries(h.serving)
  {
    Simple.Has(c, h.serving, e)
  }

  /** `set(e)`: the memory tier is updated and the entry is written through
      to the persistent tier, whose storage write succeeds iff `ok`. */
  function SetEntry(c: Codec, h: Hybrid, e: AssignmentEntry, ok: bool): (r: Hybrid)
    ensures Has(c, r, e) && Simple.Has(c, r.serving, e) && Persistent.Has(c, r.persistent, e)
    ensures forall k | k != c.slotOf(e) :: Get(r.serving, k) == Get(h.serving, k)
    ensures r.persistent.storageKey == h.persistent.storageKey
    ensures r.persistent.cache == Record(c, h.persistent.cache, e)
    ensures AgreeOutside(r.persistent.storage, h.persistent.storage, h.persistent.storageKey)
    ensures ok ==> r.persistent.storageKey in r.persistent.storage &&
                   r.persistent.storage[r.persistent.storageKey] == EntryList(r.persistent.cache)
    ensures !ok ==> r.persistent.storage == h.persistent.storage
  {
    var serving := Simple.SetEntry(c, h.serving, e);
    var persistent := Persistent.SetEntry(c, h.persistent, e, ok);
    Hybrid(serving, persistent)
  }

  // ---------------------------------------------------------------------
  // The observable contract of the composition

  /** `has` reads the memory tier only: the persistent tier has no say. */
  lemma HasIgnoresPersistentTier(c: Codec, h: Hybrid, p: Shim, e: AssignmentEntry)
    ensures Has(c, h, e) == Has(c, h.(persistent := p), e)
  {
  }

  /** With both tiers empty, `init` leaves every entry a miss. */
  lemma InitEmptyMisses(c: Codec, h: Hybrid, e: AssignmentEntry)
    requires h.serving == [] && h.persistent.cache == []
    ensures !Has(c, Init(h), e)
  {
    assert Get(Init(h).serving, c.slotOf(e)) == None;
  }

  /** `init` on an empty memory tier makes it an exact copy of the persistent
      tier, so the memory tier's hits are exactly the persistent tier's. */
  lemma InitCopiesPersistentTier(c: Codec, h: Hybrid, e: AssignmentEntry)
    requires h.serving == []
    ensures Init(h).serving == h.persistent.cache
    ensures Has(c, Init(h), e) <==> Persistent.Has(c, h.persistent, e)
  {
    FromPairsRoundTrip(h.persistent.cache);
  }

  /** After `init`, an entry is a hit iff the persistent tier reports it,
      or the persistent tier has nothing in its slot and the memory tier
      reported it before. */
  lemma InitHits(c: Codec, h: Hybrid, e: AssignmentEntry)
    ensures Has(c, Init(h), e) <==>
            if HasKey(h.persistent.cache, c.slotOf(e)) then Persistent.Has(c, h.persistent, e)
            else Has(c, h, e)
  {
  }

  /** `set(e)` followed by `has(e)` is true, on the hybrid and on its memory
      tier alike. */
  lemma SetThenHas(c: Codec, h: Hybrid, e: AssignmentEntry, ok: bool)
    ensures Has(c, SetEntry(c, h, e, ok), e)
    ensures Simple.Has(c, SetEntry(c, h, e, ok).serving, e)
  {
  }

  /** Overwrite law: after `set(a)` then `set(b)` for the same subject, flag
      and allocation but another variation, `a` is a miss and `b` a hit, in
      both tiers. */
  lemma OverwriteLaw(c: Codec, h: Hybrid, a: AssignmentEntry, b: AssignmentEntry, ok1: bool, ok2: bool)
    requires ValidCodec(c)
    requires SameAssignmentTarget(a, b) && a.variationKey != b.variationKey
    ensures !Has(c, SetEntry(c, SetEntry(c, h, a, ok1), b, ok2), a)
    ensures Has(c, SetEntry(c, SetEntry(c, h, a, ok1), b, ok2), b)
    ensures !Persistent.Has(c, SetEntry(c, SetEntry(c, h, a, ok1), b, ok2).persistent, a)
  {
    var h1 := SetEntry(c, h, a, ok1);
    HitAfterRecord(c, h1.serving, b, a);
    HitAfterRecord(c, h1.persistent.cache, b, a);
  }

  /** `set(e)` twice leaves both tiers' maps as one `set(e)` does. */
  lemma SetEntryIdempotent(c: Codec, h: Hybrid, e: AssignmentEntry, ok1: bool, ok2: bool)
    ensures SetEntry(c, SetEntry(c, h, e, ok1), e, ok2).serving == SetEntry(c, h, e, ok1).serving
    ensures SetEntry(c, SetEntry(c, h, e, ok1), e, ok2).persistent.cache == SetEntry(c, h, e, ok1).persistent.cache
    ensures ok2 ==> SetEntry(c, SetEntry(c, h, e, ok1), e, ok2).persistent.storage ==
                    SetEntry(c, h, e, true).persistent.storage
  {
    var once := SetEntry(c, h, e, ok1);
    var twice := SetEntry(c, once, e, ok2);
    SetIdempotent(h.serving, c.slotOf(e), c.valueOf(e));
    SetIdempotent(h.persistent.cache, c.slotOf(e), c.valueOf(e));
    assert twice.serving == once.serving;
    assert twice.persistent.cache == once.persistent.cache;
    if ok2 {
      var key := h.persistent.storageKey;
      var single := SetEntry(c, h, e, true);
      var snapshot := EntryList(once.persistent.cache);
      assert single.persistent.cache == once.persistent.cache;
      assert single.persistent.storage == h.persistent.storage[key := snapshot];
      assert twice.persistent.storage == once.persistent.storage[key := snapshot];
      StorageRewrite(h.persistent.storage, once.persistent.storage, key, snapshot);
    }
  }

  /** Writing `v` under `k` erases any difference at `k` between two storages
      that otherwise agree. */
  lemma StorageRewrite(a: Storage, b: Storage, k: string, v: Blob)
    requires AgreeOutside(a, b, k)
    ensures b[k := v] == a[k := v]
  {
    assert b[k := v].Keys == a[k := v].Keys;
  }

  /** A new process: a fresh memory tier and a persistent tier for `suffix`
      that has hydrated from the AsyncStorage left behind by `h`. */
  function Restart(h: Hybrid, suffix: string): Hybrid {
    Hybrid(Simple.Fresh(), Hydrate(Persistent.NewCache(suffix, h.persistent.storage)))
  }

  /** Dedup history survives a restart: when the last write of the
      persistent tier succeeded, `init` in the next process reports exactly
      the entries the persistent tier reported before. */
  lemma RestartThenInit(c: Codec, h: Hybrid, suffix: string, e: AssignmentEntry)
    requires h.persistent.storageKey == StorageKey(suffix)
    requires h.persistent.storageKey in h.persistent.storage
    requires h.persistent.storage[h.persistent.storageKey] == EntryList(h.persistent.cache)
    ensures Init(Restart(h, suffix)).serving == h.persistent.cache
    ensures Has(c, Init(Restart(h, suffix)), e) <==> Persistent.Has(c, h.persistent, e)
  {
    FromPairsRoundTrip(h.persistent.cache);
    InitCopiesPersistentTier(c, Restart(h, suffix), e);
  }

  /** The restart laws above let `initCache` finish before `init`. The
      constructor does not await it, and `getEntries` reads the memory map
      at once: an `init` that runs first copies an empty persistent tier
      and reports nothing, whatever storage holds. */
  lemma InitBeforeHydrationSeesNothing(c: Codec, suffix: string, storage: Storage, e: AssignmentEntry)
    ensures Init(NewHybrid(suffix, storage)).serving == []
    ensures !Has(c, Init(NewHybrid(suffix, storage)), e)
  {
    InitCopiesPersistentTier(c, NewHybrid(suffix, storage), e);
  }

  /** A `set(e)` whose write succeeded is still a hit after a restart and
      `init`, without any `set` in the new process. */
  lemma SetSurvivesRestart(c: Codec, h: Hybrid, suffix: string, e: AssignmentEntry)
    requires h.persistent.storageKey == StorageKey(suffix)
    ensures Has(c, Init(Restart(SetEntry(c, h, e, true), suffix)), e)
  {
    RestartThenInit(c, SetEntry(c, h, e, true), suffix, e);
  }

  /** The test that fills the persistent tier before `init`: entries set
      there become hits in the memory tier, and an entry differing from one
      of them only in its allocation does not. The first entry survives only
      if the encoding keeps the two entries' slots apart, a case `ValidCodec`
      leaves open. */
  lemma PopulateFromPersistentTier(c: Codec, storage: Storage, ok1: bool, ok2: bool)
    requires ValidCodec(c)
    ensures
      var key1 := AssignmentEntry("subject-1", "flag-1", "allocation-1", "control");
      var key2 := AssignmentEntry("subject-2", "flag-2", "allocation-2", "control");
      var h0 := NewHybrid("test", storage);
      var p1 := Persistent.SetEntry(c, h0.persistent, key1, ok1);
      var p2 := Persistent.SetEntry(c, p1, key2, ok2);
      var h := Init(h0.(persistent := p2));
      && !Simple.Has(c, h0.serving, key1)
      && Simple.Has(c, h.serving, key2)
      && (c.slotOf(key1) != c.slotOf(key2) ==> Simple.Has(c, h.serving, key1))
      && !Simple.Has(c, h.serving, key1.(allocationKey := "foo"))
  {
    var key1 := AssignmentEntry("subject-1", "flag-1", "allocation-1", "control");
    var key2 := AssignmentEntry("subject-2", "flag-2", "allocation-2", "control");
    var foo := key1.(allocationKey := "foo");
    assert foo != key1 && foo != key2;
    PopulateThenInit(c, "test", storage, key1, key2, ok1, ok2, key1);
    PopulateThenInit(c, "test", storage, key1, key2, ok1, ok2, key2);
    PopulateThenInit(c, "test", storage, key1, key2, ok1, ok2, foo);
  }

  /** A fresh hybrid whose persistent tier receives `set(a)` then `set(b)`:
      before `init` nothing is a hit, and after it exactly `b` and, if its
      slot differs from that of `b`, `a` are. */
  lemma PopulateThenInit(c: Codec, suffix: string, storage: Storage, a: AssignmentEntry,
                         b: AssignmentEntry, ok1: bool, ok2: bool, x: AssignmentEntry)
    requires ValidCodec(c)
    ensures
      var h0 := NewHybrid(suffix, storage);
      var p1 := Persistent.SetEntry(c, h0.persistent, a, ok1);
      var p2 := Persistent.SetEntry(c, p1, b, ok2);
      var h := Init(h0.(persistent := p2));
      && !Simple.Has(c, h0.serving, x)
      && (Simple.Has(c, h.serving, x) <==> x == b || (c.slotOf(x) != c.slotOf(b) && x == a))
  {
    var h0 := NewHybrid(suffix, storage);
    var p1 := Persistent.SetEntry(c, h0.persistent, a, ok1);
    var p2 := Persistent.SetEntry(c, p1, b, ok2);
    InitCopiesPersistentTier(c, h0.(persistent := p2), x);
    assert p2.cache == Record(c, Record(c, [], a), b);
    HitsAfterTwoSets(c, a, b, x);
  }

  /** On an empty store, `set(a)` then `set(b)` leaves exactly `b` and, if
      its slot differs from that of `b`, `a` as hits. */
  lemma HitsAfterTwoSets(c: Codec, a: AssignmentEntry, b: AssignmentEntry, x: AssignmentEntry)
    requires ValidCodec(c)
    ensures Hit(c, Record(c, Record(c, [], a), b), x) <==>
            x == b || (c.slotOf(x) != c.slotOf(b) && x == a)
  {
    HitAfterRecord(c, Record(c, [], a), b, x);
    HitAfterRecord(c, [], a, x);
  }

  /** The test of a changed variation: `control` is a hit until `treatment`
      is set for the same subject, flag and allocation. */
  lemma VariationChange(c: Codec, h: Hybrid, ok1: bool, ok2: bool)
    requires ValidCodec(c)
    ensures
      var original := AssignmentEntry("subject-1", "flag-1", "allocation-1", "control");
      var changed := AssignmentEntry("subject-1", "flag-1", "allocation-1", "treatment");
      var h1 := SetEntry(c, h, original, ok1);
      var h2 := SetEntry(c, h1, changed, ok2);
      Has(c, h1, original) && !Has(c, h2, original) && Has(c, h2, changed)
  {
    var original := AssignmentEntry("subject-1", "flag-1", "allocation-1", "control");
    var changed := AssignmentEntry("subject-1", "flag-1", "allocation-1", "treatment");
    OverwriteLaw(c, h, original, changed, ok1, ok2);
  }
}
