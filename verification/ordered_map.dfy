/**
 A JavaScript `Map` is a dictionary that remembers insertion order: `set` on a
 present key replaces the value in place, `set` on a new key appends, `delete`
 removes the one entry, and `entries()` lists the pairs in that order.

 This module models such a map as its entry list (`OMap`, distinct keys) and
 gives it a dictionary meaning, `ToMap`, so that laws can be stated either on
 the ordered entries or on the plain Dafny `map`.
 */
module OrderedMap {
  import opened Wrappers

  /** One `[key, value]` entry of a `Map<string, string>`. */
  type Pair = (string, string)

  /** True iff some entry of `es` has key `k`. */
  predicate HasKey(es: seq<Pair>, k: string) {
    exists i | 0 <= i < |es| :: es[i].0 == k
  }

  /** True iff no key occurs twice in `es`. */
  predicate DistinctKeys(es: seq<Pair>) {
    forall i, j | 0 <= i < j < |es| :: es[i].0 != es[j].0
  }

  /** The entry list of a JavaScript `Map`: keys are never repeated. */
  type OMap = es: seq<Pair> | DistinctKeys(es) witness []

  /** The dictionary obtained by applying the updates `ps` to `m` from left
      to right: for a key that occurs more than once, the last pair wins. */
  function Apply(m: map<string, string>, ps: seq<Pair>): map<string, string>
    decreases |ps|
  {
    if |ps| == 0 then m else Apply(m[ps[0].0 := ps[0].1], ps[1..])
  }

  /** The dictionary meaning of a list of pairs. */
  function ToMap(ps: seq<Pair>): map<string, string> {
    Apply(map[], ps)
  }

  /** `Map.prototype.get`: the value stored under `k`, if any. */
  function Get(es: OMap, k: string): (r: Option<string>)
    ensures r.None? <==> !HasKey(es, k)
    ensures r.Some? ==> (k, r.value) in es
  {
    if |es| == 0 then None
    else if es[0].0 == k then Some(es[0].1)
    else Get(es[1..], k)
  }

  /** What `set(k, v)` does to the entry list `es`, giving `r`: a present
      key keeps its position and takes the new value; a new key is appended
      at the end. */
  predicate SetShape(es: seq<Pair>, k: string, v: string, r: seq<Pair>) {
    && (HasKey(es, k) ==>
          |r| == |es| &&
          forall i | 0 <= i < |es| :: r[i] == (if es[i].0 == k then (k, v) else es[i]))
    && (!HasKey(es, k) ==> r == es + [(k, v)])
  }

  /** `Map.prototype.set`. */
  function Set(es: OMap, k: string, v: string): (r: OMap)
    ensures SetShape(es, k, v, r)
    decreases |es|
  {
    if |es| == 0 then [(k, v)]
    else if es[0].0 == k then
      SetAtHead(es, k, v);
      [(k, v)] + es[1..]
    else
      var tail := Set(es[1..], k, v);
      SetPastHead(es, k, v, tail);
      [es[0]] + tail
  }

  lemma SetAtHead(es: OMap, k: string, v: string)
    requires |es| > 0 && es[0].0 == k
    ensures DistinctKeys([(k, v)] + es[1..]) && SetShape(es, k, v, [(k, v)] + es[1..])
  {
    assert forall i | 1 <= i < |es| :: es[i].0 != k;
  }

  lemma SetPastHead(es: OMap, k: string, v: string, tail: OMap)
    requires |es| > 0 && es[0].0 != k
    requires SetShape(es[1..], k, v, tail)
    ensures DistinctKeys([es[0]] + tail) && SetShape(es, k, v, [es[0]] + tail)
  {
    assert forall i | 0 <= i < |es| - 1 :: es[1..][i] == es[i + 1];
    assert HasKey(es, k) <==> HasKey(es[1..], k);
    SetKeepsOtherKeysOut(es[1..], k, v, tail, es[0].0);
    PrependDistinct(es[0], tail);
    if !HasKey(es, k) {
      assert [es[0]] + tail == es + [(k, v)];
    }
  }

  /** Putting a pair in front of a map whose keys avoid the pair's key keeps
      the keys distinct. */
  lemma PrependDistinct(p: Pair, t: OMap)
    requires !HasKey(t, p.0)
    ensures DistinctKeys([p] + t)
  {
    var r := [p] + t;
    forall i, j | 0 <= i < j < |r| ensures r[i].0 != r[j].0 {
      assert r[j] == t[j - 1];
      if i > 0 {
        assert r[i] == t[i - 1];
      }
    }
  }

  /** Setting `k` in `t`, giving `r`, adds no occurrence of a key `h` that
      `t` lacks and that is not `k`. */
  lemma SetKeepsOtherKeysOut(t: OMap, k: string, v: string, r: seq<Pair>, h: string)
    requires h != k && !HasKey(t, h)
    requires SetShape(t, k, v, r)
    ensures !HasKey(r, h)
  {
    if HasKey(t, k) {
      assert forall i | 0 <= i < |r| :: r[i].0 == k || r[i].0 == t[i].0;
    } else {
      assert forall i | 0 <= i < |t| :: r[i] == t[i];
    }
  }

  /** What `delete(k)` does to the entry list `es`, giving `r`: exactly the
      entries under other keys remain, in their order, the entry under `k`
      being cut out where it stood; a missing key changes nothing. */
  predicate DeleteShape(es: seq<Pair>, k: string, r: seq<Pair>) {
    && (!HasKey(es, k) ==> r == es)
    && (HasKey(es, k) ==> |r| == |es| - 1)
    && (forall i | 0 <= i < |r| :: r[i] in es && r[i].0 != k)
    && (forall i | 0 <= i < |es| && es[i].0 != k :: es[i] in r)
    && (forall i | 0 <= i < |es| && es[i].0 == k :: r == es[..i] + es[i + 1..])
  }

  /** `Map.prototype.delete`. */
  function Delete(es: OMap, k: string): (r: OMap)
    ensures DeleteShape(es, k, r)
    decreases |es|
  {
    if |es| == 0 then []
    else if es[0].0 == k then
      assert forall i | 1 <= i < |es| :: es[i].0 != k;
      assert es[..0] + es[1..] == es[1..];
      es[1..]
    else
      var tail := Delete(es[1..], k);
      DeletePastHead(es, k, tail);
      [es[0]] + tail
  }

  lemma DeletePastHead(es: OMap, k: string, tail: OMap)
    requires |es| > 0 && es[0].0 != k
    requires DeleteShape(es[1..], k, tail)
    ensures DistinctKeys([es[0]] + tail) && DeleteShape(es, k, [es[0]] + tail)
  {
    var r: seq<Pair> := [es[0]] + tail;
    assert forall i | 0 <= i < |tail| :: tail[i] in es[1..];
    assert forall i | 1 <= i < |es| :: es[i].0 != es[0].0;
    assert HasKey(es, k) <==> HasKey(es[1..], k);
    assert !HasKey(tail, es[0].0);
    PrependDistinct(es[0], tail);
    assert !HasKey(es[1..], k) ==> r == es;
    forall i | 0 <= i < |es| && es[i].0 == k ensures r == es[..i] + es[i + 1..] {
      var t := es[1..];
      assert t[i - 1] == es[i];
      assert tail == t[..i - 1] + t[i..];
      assert t[..i - 1] == es[1..i] && t[i..] == es[i + 1..];
      assert [es[0]] + es[1..i] == es[..i];
    }
  }

  /** Sets every pair of `ps` in order, as `new Map(ps)` and a `forEach` of
      `map.set` calls do. */
  function SetAll(es: OMap, ps: seq<Pair>): OMap
    decreases |ps|
  {
    if |ps| == 0 then es else SetAll(Set(es, ps[0].0, ps[0].1), ps[1..])
  }

  /** `new Map(ps)`: a map built from an arbitrary list of pairs. */
  function FromPairs(ps: seq<Pair>): (r: OMap)
    ensures ToMap(r) == ToMap(ps)
    ensures |r| == |ToMap(ps)|
  {
    SetAllMeaning([], ps);
    SizeMeaning(SetAll([], ps));
    SetAll([], ps)
  }

  // ---------------------------------------------------------------------
  // Laws of the dictionary meaning

  lemma {:induction false} ApplyKeys(m: map<string, string>, ps: seq<Pair>, k: string)
    ensures k in Apply(m, ps) <==> k in m || HasKey(ps, k)
    decreases |ps|
  {
    if |ps| > 0 {
      ApplyKeys(m[ps[0].0 := ps[0].1], ps[1..], k);
      if HasKey(ps[1..], k) {
        var i :| 0 <= i < |ps[1..]| && ps[1..][i].0 == k;
        assert ps[i + 1].0 == k;
      }
      if HasKey(ps, k) && ps[0].0 != k {
        var i :| 0 <= i < |ps| && ps[i].0 == k;
        assert ps[1..][i - 1].0 == k;
      }
    }
  }

  /** A key that `ps` never mentions keeps its value. */
  lemma {:induction false} ApplyUntouched(m: map<string, string>, ps: seq<Pair>, k: string)
    requires !HasKey(ps, k)
    requires k in m
    ensures k in Apply(m, ps) && Apply(m, ps)[k] == m[k]
    decreases |ps|
  {
    if |ps| > 0 {
      assert ps[0].0 != k;
      assert forall j | 0 <= j < |ps[1..]| :: ps[1..][j] == ps[j + 1];
      ApplyUntouched(m[ps[0].0 := ps[0].1], ps[1..], k);
    }
  }

  /** The last pair for a key decides its value. */
  lemma {:induction false} ApplyLast(m: map<string, string>, ps: seq<Pair>, i: nat)
    requires i < |ps|
    requires forall j | i < j < |ps| :: ps[j].0 != ps[i].0
    ensures ps[i].0 in Apply(m, ps) && Apply(m, ps)[ps[i].0] == ps[i].1
    decreases |ps|
  {
    var m' := m[ps[0].0 := ps[0].1];
    if i == 0 {
      assert forall j | 0 <= j < |ps[1..]| :: ps[1..][j] == ps[j + 1];
      ApplyUntouched(m', ps[1..], ps[0].0);
    } else {
      assert ps[1..][i - 1] == ps[i];
      assert forall j | i - 1 < j < |ps[1..]| :: ps[1..][j] == ps[j + 1];
      ApplyLast(m', ps[1..], i - 1);
    }
  }

  lemma {:induction false} ApplySnoc(m: map<string, string>, ps: seq<Pair>, p: Pair)
    ensures Apply(m, ps + [p]) == Apply(m, ps)[p.0 := p.1]
    decreases |ps|
  {
    if |ps| == 0 {
      assert ps + [p] == [p];
      assert [p][1..] == [];
    } else {
      assert (ps + [p])[1..] == ps[1..] + [p];
      ApplySnoc(m[ps[0].0 := ps[0].1], ps[1..], p);
    }
  }

  /** On an entry list with distinct keys the dictionary meaning is exact:
      the keys are the listed keys and each maps to its listed value. */
  lemma ToMapOf(es: OMap)
    ensures forall k :: k in ToMap(es) <==> HasKey(es, k)
    ensures forall i | 0 <= i < |es| :: es[i].0 in ToMap(es) && ToMap(es)[es[i].0] == es[i].1
  {
    forall k ensures k in ToMap(es) <==> HasKey(es, k) {
      ApplyKeys(map[], es, k);
    }
    forall i | 0 <= i < |es| ensures es[i].0 in ToMap(es) && ToMap(es)[es[i].0] == es[i].1 {
      ApplyLast(map[], es, i);
    }
  }

  /** `get` answers from the dictionary meaning. */
  lemma GetMeaning(es: OMap, k: string)
    ensures Get(es, k) == (if k in ToMap(es) then Some(ToMap(es)[k]) else None)
  {
    ToMapOf(es);
    var r := Get(es, k);
    if r.Some? {
      var i :| 0 <= i < |es| && es[i] == (k, r.value);
    }
  }

  /** A pair is an entry of the map exactly when `get` of its key gives its
      value: keys are distinct, so a key has one entry at most. */
  lemma PairInMap(es: OMap, k: string, v: string)
    ensures (k, v) in es <==> Get(es, k) == Some(v)
  {
    if (k, v) in es {
      var i :| 0 <= i < |es| && es[i] == (k, v);
      var r := Get(es, k);
      var j :| 0 <= j < |es| && es[j] == (k, r.value);
      assert i == j;
    }
  }

  /** After `set(k, v)`, `get(k)` is `v` and every other key reads as before. */
  lemma {:induction false} GetAfterSet(es: OMap, k: string, v: string, x: string)
    ensures Get(Set(es, k, v), x) == if x == k then Some(v) else Get(es, x)
    decreases |es|
  {
    if |es| > 0 && es[0].0 != k {
      GetAfterSet(es[1..], k, v, x);
    }
  }

  /** The dictionary meaning of `set`. */
  lemma SetMeaning(es: OMap, k: string, v: string)
    ensures ToMap(Set(es, k, v)) == ToMap(es)[k := v]
  {
    var r := Set(es, k, v);
    forall x ensures (x in ToMap(r) <==> x in ToMap(es)[k := v])
                  && (x in ToMap(r) ==> ToMap(r)[x] == ToMap(es)[k := v][x]) {
      GetAfterSet(es, k, v, x);
      GetMeaning(r, x);
      GetMeaning(es, x);
    }
    assert ToMap(r).Keys == ToMap(es)[k := v].Keys;
  }

  /** After `delete(k)`, `k` is absent and every other key reads as before. */
  lemma {:induction false} GetAfterDelete(es: OMap, k: string, x: string)
    ensures Get(Delete(es, k), x) == if x == k then None else Get(es, x)
    decreases |es|
  {
    if |es| > 0 && es[0].0 != k {
      GetAfterDelete(es[1..], k, x);
    }
  }

  /** The dictionary meaning of `delete`. */
  lemma DeleteMeaning(es: OMap, k: string)
    ensures ToMap(Delete(es, k)) == ToMap(es) - {k}
  {
    var r := ToMap(Delete(es, k));
    var m := ToMap(es) - {k};
    forall x ensures (x in r <==> x in m) && (x in r ==> r[x] == m[x]) {
      DeleteMeaningAt(es, k, x);
    }
    assert r.Keys == m.Keys;
  }

  lemma DeleteMeaningAt(es: OMap, k: string, x: string)
    ensures x in ToMap(Delete(es, k)) <==> x in ToMap(es) && x != k
    ensures x in ToMap(Delete(es, k)) ==> ToMap(Delete(es, k))[x] == ToMap(es)[x]
  {
    GetAfterDelete(es, k, x);
    GetMeaning(Delete(es, k), x);
    GetMeaning(es, x);
  }


  /** Setting the same pair twice is setting it once. */
  lemma {:induction false} SetIdempotent(es: OMap, k: string, v: string)
    ensures Set(Set(es, k, v), k, v) == Set(es, k, v)
    decreases |es|
  {
    var r := Set(es, k, v);
    if |es| == 0 {
      assert r == [(k, v)];
    } else if es[0].0 == k {
      assert r == [(k, v)] + es[1..];
      assert r[1..] == es[1..];
    } else {
      var tail := Set(es[1..], k, v);
      assert r == [es[0]] + tail;
      assert r[1..] == tail;
      SetIdempotent(es[1..], k, v);
    }
  }

  /** A sequence of `set` calls means the same as the updates they perform. */
  lemma {:induction false} SetAllMeaning(es: OMap, ps: seq<Pair>)
    ensures ToMap(SetAll(es, ps)) == Apply(ToMap(es), ps)
    decreases |ps|
  {
    if |ps| > 0 {
      var es' := Set(es, ps[0].0, ps[0].1);
      SetMeaning(es, ps[0].0, ps[0].1);
      SetAllMeaning(es', ps[1..]);
    }
  }

  /** Keys that `ps` never mentions read the same after `SetAll`. */
  lemma SetAllUntouched(es: OMap, ps: seq<Pair>, k: string)
    requires !HasKey(ps, k)
    ensures Get(SetAll(es, ps), k) == Get(es, k)
  {
    SetAllMeaning(es, ps);
    GetMeaning(SetAll(es, ps), k);
    GetMeaning(es, k);
    ApplyKeys(ToMap(es), ps, k);
    if k in ToMap(es) {
      ApplyUntouched(ToMap(es), ps, k);
    }
  }

  /** Setting all entries of a map `ps` into `es`: keys of `ps` read as in
      `ps`, the others as in `es`. */
  lemma GetAfterSetAll(es: OMap, ps: OMap, k: string)
    ensures Get(SetAll(es, ps), k) == if HasKey(ps, k) then Get(ps, k) else Get(es, k)
  {
    if HasKey(ps, k) {
      var i :| 0 <= i < |ps| && ps[i].0 == k;
      SetAllMeaning(es, ps);
      ApplyLast(ToMap(es), ps, i);
      GetMeaning(SetAll(es, ps), k);
      GetMeaning(ps, k);
      ToMapOf(ps);
    } else {
      SetAllUntouched(es, ps, k);
    }
  }

  lemma {:induction false} SetAllSnoc(es: OMap, ps: seq<Pair>, p: Pair)
    ensures SetAll(es, ps + [p]) == Set(SetAll(es, ps), p.0, p.1)
    decreases |ps|
  {
    if |ps| == 0 {
      assert ps + [p] == [p];
      assert [p][1..] == [];
    } else {
      assert (ps + [p])[1..] == ps[1..] + [p];
      SetAllSnoc(Set(es, ps[0].0, ps[0].1), ps[1..], p);
    }
  }

  /** Appending pairs whose keys are all new reproduces them in order. */
  lemma {:induction false} SetAllFresh(es: OMap, ps: seq<Pair>)
    requires DistinctKeys(es + ps)
    ensures SetAll(es, ps) == es + ps
    decreases |ps|
  {
    if |ps| > 0 {
      var p := ps[0];
      assert forall i | 0 <= i < |es| :: es[i].0 != p.0 by {
        forall i | 0 <= i < |es| ensures es[i].0 != p.0 {
          assert (es + ps)[i] == es[i] && (es + ps)[|es|] == p;
        }
      }
      var es': OMap := es + [p];
      assert es + ps == es' + ps[1..];
      SetAllFresh(es', ps[1..]);
    }
  }

  /** Round trip: building a map from the entries of a map gives that map
      back, order included. */
  lemma FromPairsRoundTrip(es: OMap)
    ensures FromPairs(es) == es
  {
    assert [] + es == es;
    SetAllFresh([], es);
  }

  /** `size` counts the keys of the dictionary meaning. */
  lemma {:induction false} SizeMeaning(es: OMap)
    ensures |ToMap(es)| == |es|
    decreases |es|
  {
    if |es| > 0 {
      var n := |es| - 1;
      var init: OMap := es[..n];
      assert es == init + [es[n]];
      ApplySnoc(map[], init, es[n]);
      ToMapOf(init);
      assert forall i | 0 <= i < |init| :: init[i].0 != es[n].0;
      SizeMeaning(init);
    }
  }
}
