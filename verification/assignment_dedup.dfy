/**
 The single-slot deduplication rule that an assignment cache applies on top of
 a `Map<string, string>` delegate.

 An assignment entry names a subject, a flag, an allocation and a variation.
 The cache stores one value per slot: `set(e)` writes `valueOf(e)` under
 `slotOf(e)`, and `has(e)` holds iff the slot of `e` currently holds exactly
 `valueOf(e)`. The key/value encoding belongs to a library outside this model,
 so it enters as a `Codec` of two functions of which only `ValidCodec` is
 assumed.
 */
module AssignmentDedup {
  import opened Wrappers
  import opened OrderedMap

  datatype AssignmentEntry = AssignmentEntry(
    subjectKey: string,
    flagKey: string,
    allocationKey: string,
    variationKey: string)

  /** The slot key and the stored value of an entry. */
  datatype Codec = Codec(slotOf: AssignmentEntry -> string, valueOf: AssignmentEntry -> string)

  /** True iff `a` and `b` agree on subject, flag and allocation. */
  predicate SameAssignmentTarget(a: AssignmentEntry, b: AssignmentEntry) {
    a.subjectKey == b.subjectKey && a.flagKey == b.flagKey && a.allocationKey == b.allocationKey
  }

  /** All that is assumed of the encoding: entries for the same subject, flag
      and allocation share a slot, and slot and value together identify the
      entry. */
  ghost predicate ValidCodec(c: Codec) {
    && (forall a, b :: SameAssignmentTarget(a, b) ==> c.slotOf(a) == c.slotOf(b))
    && (forall a, b :: c.slotOf(a) == c.slotOf(b) && c.valueOf(a) == c.valueOf(b) ==> a == b)
  }

  /** `has(e)`: the slot of `e` holds exactly the value of `e`. */
  predicate Hit(c: Codec, store: OMap, e: AssignmentEntry)
    ensures Hit(c, store, e) <==> (c.slotOf(e), c.valueOf(e)) in store
    ensures Hit(c, store, e) <==>
              c.slotOf(e) in ToMap(store) && ToMap(store)[c.slotOf(e)] == c.valueOf(e)
  {
    PairInMap(store, c.slotOf(e), c.valueOf(e));
    GetMeaning(store, c.slotOf(e));
    Get(store, c.slotOf(e)) == Some(c.valueOf(e))
  }

  /** `set(e)`: the slot of `e` is overwritten with the value of `e`. */
  function Record(c: Codec, store: OMap, e: AssignmentEntry): (r: OMap)
    ensures Hit(c, r, e)
    ensures forall k | k != c.slotOf(e) :: Get(r, k) == Get(store, k)
  {
    var r := Set(store, c.slotOf(e), c.valueOf(e));
    GetAfterSet(store, c.slotOf(e), c.valueOf(e), c.slotOf(e));
    assert forall k | k != c.slotOf(e) :: Get(r, k) == Get(store, k) by {
      forall k | k != c.slotOf(e) ensures Get(r, k) == Get(store, k) {
        GetAfterSet(store, c.slotOf(e), c.valueOf(e), k);
      }
    }
    r
  }

  /** `set(e)` for each entry of `es` in turn. */
  function RecordAll(c: Codec, store: OMap, es: seq<AssignmentEntry>): OMap
    decreases |es|
  {
    if |es| == 0 then store else RecordAll(c, Record(c, store, es[0]), es[1..])
  }

  /** The dedup law of one `set(a)`: afterwards `b` is a hit iff it is `a`
      itself, or it lives in another slot and was a hit before. An entry that
      shares the slot of `a` but differs from it is a miss. */
  lemma HitAfterRecord(c: Codec, store: OMap, a: AssignmentEntry, b: AssignmentEntry)
    requires ValidCodec(c)
    ensures Hit(c, Record(c, store, a), b) <==>
            b == a || (c.slotOf(b) != c.slotOf(a) && Hit(c, store, b))
  {
    GetAfterSet(store, c.slotOf(a), c.valueOf(a), c.slotOf(b));
  }

  /** `e` was set at some position of `es` and no later entry of `es` wrote
      to its slot. */
  predicate SetLastInSlot(c: Codec, es: seq<AssignmentEntry>, e: AssignmentEntry) {
    exists i | 0 <= i < |es| :: es[i] == e && forall j | i < j < |es| :: c.slotOf(es[j]) != c.slotOf(e)
  }

  /** No entry of `es` writes to the slot of `e`. */
  predicate SlotUntouched(c: Codec, es: seq<AssignmentEntry>, e: AssignmentEntry) {
    forall i | 0 <= i < |es| :: c.slotOf(es[i]) != c.slotOf(e)
  }

  lemma {:induction false} RecordAllSnoc(c: Codec, store: OMap, es: seq<AssignmentEntry>, x: AssignmentEntry)
    ensures RecordAll(c, store, es + [x]) == Record(c, RecordAll(c, store, es), x)
    decreases |es|
  {
    if |es| == 0 {
      assert es + [x] == [x];
      assert [x][1..] == [];
    } else {
      assert (es + [x])[1..] == es[1..] + [x];
      RecordAllSnoc(c, Record(c, store, es[0]), es[1..], x);
    }
  }

  lemma SetLastInSlotSnoc(c: Codec, es: seq<AssignmentEntry>, x: AssignmentEntry, e: AssignmentEntry)
    ensures SetLastInSlot(c, es + [x], e) <==>
            e == x || (SetLastInSlot(c, es, e) && c.slotOf(x) != c.slotOf(e))
  {
    var es' := es + [x];
    if e == x {
      assert es'[|es|] == e;
    } else if SetLastInSlot(c, es, e) && c.slotOf(x) != c.slotOf(e) {
      var i :| 0 <= i < |es| && es[i] == e && forall j | i < j < |es| :: c.slotOf(es[j]) != c.slotOf(e);
      assert es'[i] == e;
    }
    if SetLastInSlot(c, es', e) && e != x {
      var i :| 0 <= i < |es'| && es'[i] == e && forall j | i < j < |es'| :: c.slotOf(es'[j]) != c.slotOf(e);
      assert i < |es| && es[i] == e;
      assert forall j | i < j < |es| :: es'[j] == es[j];
      assert c.slotOf(es'[|es|]) != c.slotOf(e);
    }
  }

  lemma SlotUntouchedSnoc(c: Codec, es: seq<AssignmentEntry>, x: AssignmentEntry, e: AssignmentEntry)
    ensures SlotUntouched(c, es + [x], e) <==> SlotUntouched(c, es, e) && c.slotOf(x) != c.slotOf(e)
  {
    var es' := es + [x];
    assert es'[|es|] == x;
    assert forall i | 0 <= i < |es| :: es'[i] == es[i];
  }

  /** After a run of `set` calls, `e` is a hit iff it was set and no later
      entry of the run wrote to its slot, or it was a hit already and the run
      never wrote to its slot. */
  lemma {:induction false} HitAfterRecordAll(c: Codec, store: OMap, es: seq<AssignmentEntry>, e: AssignmentEntry)
    requires ValidCodec(c)
    ensures Hit(c, RecordAll(c, store, es), e) <==>
            SetLastInSlot(c, es, e) || (Hit(c, store, e) && SlotUntouched(c, es, e))
    decreases |es|
  {
    if |es| > 0 {
      var n := |es| - 1;
      var init := es[..n];
      assert es == init + [es[n]];
      RecordAllSnoc(c, store, init, es[n]);
      HitAfterRecord(c, RecordAll(c, store, init), es[n], e);
      HitAfterRecordAll(c, store, init, e);
      SetLastInSlotSnoc(c, init, es[n], e);
      SlotUntouchedSnoc(c, init, es[n], e);
    }
  }
}
