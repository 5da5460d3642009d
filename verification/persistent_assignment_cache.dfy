/**
 `AsyncStorageAssignmentCache`: the persistent tier. The dedup rule of
 `AssignmentDedup` applied to an `AsyncStorageAssignmentShim` delegate, plus
 bulk reads and writes of raw `[key, value]` pairs.
 */
module PersistentAssignmentCache {
  import opened Wrappers
  import opened OrderedMap
  import opened AssignmentDedup
  import opened AssignmentShim

  /** The constructor: a shim whose storage namespace is fixed by `suffix`. */
  function NewCache(suffix: string, storage: Storage): (s: Shim)
    ensures s.storageKey == StorageKey(suffix) && s.storage == storage
    ensures forall c: Codec, e :: !Has(c, s, e)
  {
    New(suffix, storage)
  }

  /** `has(e)`: the delegate's `get` of the slot of `e` is the value of `e`,
      so the encoded pair of `e` is one of the entries `getEntries()` lists. */
  predicate Has(c: Codec, s: Shim, e: AssignmentEntry)
    ensures Has(c, s, e) <==> GetKey(s, c.slotOf(e)) == Some(c.valueOf(e))
    ensures Has(c, s, e) <==> (c.slotOf(e), c.valueOf(e)) in GetEntries(s)
  {
    Hit(c, s.cache, e)
  }

  /** `set(e)`: the slot of `e` is written through the shim's `set`. */
  function SetEntry(c: Codec, s: Shim, e: AssignmentEntry, ok: bool): (r: Shim)
    ensures r.storageKey == s.storageKey && r.cache == Record(c, s.cache, e)
    ensures Has(c, r, e)
    ensures ok ==> r.storage == s.storage[s.storageKey := EntryList(r.cache)]
    ensures !ok ==> r.storage == s.storage
  {
    SetKey(s, c.slotOf(e), c.valueOf(e), ok)
  }

  /** A pair that `setEntries` writes: neither key nor value is empty. */
  predicate Accepted(p: Pair) {
    p.0 != "" && p.1 != ""
  }

  /** The accepted pairs of `ps`, in order. */
  function AcceptedPairs(ps: seq<Pair>): (r: seq<Pair>)
    ensures forall i | 0 <= i < |r| :: Accepted(r[i]) && r[i] in ps
    ensures forall i | 0 <= i < |ps| && Accepted(ps[i]) :: ps[i] in r
    decreases |ps|
  {
    if |ps| == 0 then []
    else if Accepted(ps[0]) then [ps[0]] + AcceptedPairs(ps[1..])
    else AcceptedPairs(ps[1..])
  }

  lemma AcceptedPairsSnoc(ps: seq<Pair>, p: Pair)
    ensures AcceptedPairs(ps + [p]) == AcceptedPairs(ps) + (if Accepted(p) then [p] else [])
    decreases |ps|
  {
    if |ps| == 0 {
      assert ps + [p] == [p];
      assert [p][1..] == [];
    } else {
      assert (ps + [p])[1..] == ps[1..] + [p];
      AcceptedPairsSnoc(ps[1..], p);
    }
  }

  /** True iff the write of pair `i` is the last storage write of the call:
      pair `i` is accepted and no later pair is. */
  predicate LastWrite(ps: seq<Pair>, i: nat) {
    i < |ps| && Accepted(ps[i]) && forall j | i < j < |ps| :: !Accepted(ps[j])
  }

  /** One iteration of the `forEach` in `setEntries`: an accepted pair is
      written through the shim's `set`, any other pair is skipped. */
  function WriteStep(r: Shim, p: Pair, ok: bool): Shim {
    if p.0 != "" && p.1 != "" then SetKey(r, p.0, p.1, ok) else r
  }

  /** What holds once the pairs `done` have been visited, starting from `s`. */
  ghost predicate Visited(s: Shim, done: seq<Pair>, writeOk: nat -> bool, r: Shim) {
    && r.storageKey == s.storageKey
    && r.cache == SetAll(s.cache, AcceptedPairs(done))
    && AgreeOutside(r.storage, s.storage, s.storageKey)
    && (forall j | LastWrite(done, j) && writeOk(j) ::
          s.storageKey in r.storage && r.storage[s.storageKey] == EntryList(r.cache))
    && (AcceptedPairs(done) == [] ==> r == s)
  }

  lemma VisitAccepted(s: Shim, done: seq<Pair>, p: Pair, writeOk: nat -> bool, r: Shim)
    requires Accepted(p)
    requires Visited(s, done, writeOk, r)
    ensures Visited(s, done + [p], writeOk, WriteStep(r, p, writeOk(|done|)))
  {
    var next := done + [p];
    AcceptedPairsSnoc(done, p);
    SetAllSnoc(s.cache, AcceptedPairs(done), p);
    var ok := writeOk(|done|);
    var r' := SetKey(r, p.0, p.1, ok);
    assert r' == WriteStep(r, p, ok);
    assert r'.cache == SetAll(s.cache, AcceptedPairs(next));
    assert AgreeOutside(r'.storage, s.storage, s.storageKey) by {
      assert r'.storage == r.storage || r'.storage == r.storage[s.storageKey := EntryList(r'.cache)];
    }
    forall j: nat | LastWrite(next, j) && writeOk(j)
      ensures s.storageKey in r'.storage && r'.storage[s.storageKey] == EntryList(r'.cache)
    {
      assert next[|done|] == p;
      assert j == |done|;
    }
    assert AcceptedPairs(next) != [];
  }

  lemma VisitSkipped(s: Shim, done: seq<Pair>, p: Pair, writeOk: nat -> bool, r: Shim)
    requires !Accepted(p)
    requires Visited(s, done, writeOk, r)
    ensures Visited(s, done + [p], writeOk, WriteStep(r, p, writeOk(|done|)))
  {
    var next := done + [p];
    AcceptedPairsSnoc(done, p);
    assert AcceptedPairs(next) == AcceptedPairs(done) + [] == AcceptedPairs(done);
    forall j: nat | LastWrite(next, j) ensures LastWrite(done, j) {
      assert next[|done|] == p;
      assert j < |done|;
      assert forall k | j <= k < |done| :: next[k] == done[k];
    }
  }

  lemma VisitStep(s: Shim, done: seq<Pair>, p: Pair, writeOk: nat -> bool, r: Shim)
    requires Visited(s, done, writeOk, r)
    ensures Visited(s, done + [p], writeOk, WriteStep(r, p, writeOk(|done|)))
  {
    if Accepted(p) {
      VisitAccepted(s, done, p, writeOk, r);
    } else {
      VisitSkipped(s, done, p, writeOk, r);
    }
  }

  /** `setEntries(entries)`: each pair with a non-empty key and value is
      written through the shim's `set`, in list order (so a later pair for
      the same key wins); pairs with an empty key or value are skipped. The
      write of pair `i` succeeds iff `writeOk(i)`. */
  method SetEntries(s: Shim, entries: seq<Pair>, writeOk: nat -> bool) returns (r: Shim)
    ensures r.storageKey == s.storageKey
    ensures r.cache == SetAll(s.cache, AcceptedPairs(entries))
    ensures ToMap(r.cache) == Apply(ToMap(s.cache), AcceptedPairs(entries))
    ensures forall k | !HasKey(AcceptedPairs(entries), k) :: Get(r.cache, k) == Get(s.cache, k)
    ensures AgreeOutside(r.storage, s.storage, s.storageKey)
    ensures forall i | LastWrite(entries, i) && writeOk(i) ::
              s.storageKey in r.storage && r.storage[s.storageKey] == EntryList(r.cache)
    ensures AcceptedPairs(entries) == [] ==> r == s
  {
    r := s;
    var i := 0;
    while i < |entries|
      invariant i <= |entries|
      invariant r == WriteFold(s, entries[..i], writeOk)
    {
      var p := entries[i];
      assert entries[..i + 1][..i] == entries[..i];
      r := WriteStep(r, p, writeOk(i));
      i := i + 1;
    }
    assert entries[..i] == entries;
    FoldVisits(s, entries, writeOk);
    VisitedAll(s, entries, writeOk, r);
  }

  /** The state after the `forEach` has visited the pairs `done`. */
  function WriteFold(s: Shim, done: seq<Pair>, writeOk: nat -> bool): Shim
    decreases |done|
  {
    if |done| == 0 then s
    else WriteStep(WriteFold(s, done[..|done| - 1], writeOk), done[|done| - 1], writeOk(|done| - 1))
  }

  lemma {:induction false} FoldVisits(s: Shim, done: seq<Pair>, writeOk: nat -> bool)
    ensures Visited(s, done, writeOk, WriteFold(s, done, writeOk))
    decreases |done|
  {
    if |done| > 0 {
      var n := |done| - 1;
      FoldVisits(s, done[..n], writeOk);
      VisitStep(s, done[..n], done[n], writeOk, WriteFold(s, done[..n], writeOk));
      assert done[..n] + [done[n]] == done;
    }
  }

  /** Once every pair has been visited, the result is the fold of the
      accepted pairs over the memory map, read as a dictionary. */
  lemma VisitedAll(s: Shim, entries: seq<Pair>, writeOk: nat -> bool, r: Shim)
    requires Visited(s, entries, writeOk, r)
    ensures r.storageKey == s.storageKey
    ensures r.cache == SetAll(s.cache, AcceptedPairs(entries))
    ensures ToMap(r.cache) == Apply(ToMap(s.cache), AcceptedPairs(entries))
    ensures forall k | !HasKey(AcceptedPairs(entries), k) :: Get(r.cache, k) == Get(s.cache, k)
    ensures AgreeOutside(r.storage, s.storage, s.storageKey)
    ensures forall i | LastWrite(entries, i) && writeOk(i) ::
              s.storageKey in r.storage && r.storage[s.storageKey] == EntryList(r.cache)
    ensures AcceptedPairs(entries) == [] ==> r == s
  {
    SetAllMeaning(s.cache, AcceptedPairs(entries));
    forall k | !HasKey(AcceptedPairs(entries), k) ensures Get(r.cache, k) == Get(s.cache, k) {
      SetAllUntouched(s.cache, AcceptedPairs(entries), k);
    }
  }

  /** In `setEntries`, an accepted pair that no later accepted pair shares a
      key with decides that key's value; skipped pairs never count. */
  lemma {:induction false} SetEntriesLastAcceptedWins(es: OMap, entries: seq<Pair>, i: nat)
    requires i < |entries| && Accepted(entries[i])
    requires forall j | i < j < |entries| && Accepted(entries[j]) :: entries[j].0 != entries[i].0
    ensures Get(SetAll(es, AcceptedPairs(entries)), entries[i].0) == Some(entries[i].1)
    decreases |entries|
  {
    var n := |entries| - 1;
    var init := entries[..n];
    var q := entries[n];
    assert entries == init + [q];
    AcceptedPairsSnoc(init, q);
    if Accepted(q) {
      SetAllSnoc(es, AcceptedPairs(init), q);
      GetAfterSet(SetAll(es, AcceptedPairs(init)), q.0, q.1, entries[i].0);
    } else {
      assert AcceptedPairs(entries) == AcceptedPairs(init);
    }
    if i < n {
      assert forall j | 0 <= j < n :: init[j] == entries[j];
      SetEntriesLastAcceptedWins(es, init, i);
    }
  }

  /** `getEntries()`: exactly the delegate's current entries. */
  function GetEntries(s: Shim): (es: seq<Pair>)
    ensures ToMap(es) == ToMap(s.cache) && |es| == |ToMap(s.cache)|
    ensures forall i | 0 <= i < |es| :: Get(s.cache, es[i].0) == Some(es[i].1)
  {
    Entries(s)
  }
}
