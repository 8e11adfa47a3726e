/** A JavaScript `Map` from meal id to meal, as the pantry view builds one per
    ingredient: keys iterate in first-insertion order, and `set` on a key
    already present replaces its value without moving it. */
module IdIndex {
  import opened Catalog
  import opened Seqs

  datatype IdMap = IdMap(keys: seq<string>, vals: map<string, Meal>)

  /** Some meal of `list` carries `id`. */
  ghost predicate ListHasId(list: seq<Meal>, id: string) {
    exists i :: 0 <= i < |list| && list[i].id == id
  }

  /** The position of the first meal of `list` at or after `i` carrying `id`, or `|list|`. */
  function FirstFrom(list: seq<Meal>, id: string, i: nat): (r: nat)
    requires i <= |list|
    requires forall j :: 0 <= j < i ==> list[j].id != id
    ensures i <= r <= |list|
    ensures r < |list| ==> list[r].id == id
    ensures forall j :: 0 <= j < r ==> list[j].id != id
    decreases |list| - i
  {
    if i == |list| || list[i].id == id then i else FirstFrom(list, id, i + 1)
  }

  /** The position of the first meal of `list` carrying `id`; `|list|` when none does. */
  function FirstIndex(list: seq<Meal>, id: string): (r: nat)
    ensures r <= |list|
    ensures r < |list| ==> list[r].id == id
    ensures forall j :: 0 <= j < r ==> list[j].id != id
    ensures r < |list| <==> ListHasId(list, id)
  {
    FirstFrom(list, id, 0)
  }

  /** The position of the last meal of `list` before `i` carrying `id`, or -1. */
  function LastBefore(list: seq<Meal>, id: string, i: nat): (r: int)
    requires i <= |list|
    requires forall j :: i <= j < |list| ==> list[j].id != id
    ensures -1 <= r < i
    ensures r >= 0 ==> list[r].id == id
    ensures forall j :: r < j < |list| ==> list[j].id != id
    decreases i
  {
    if i == 0 then -1 else if list[i - 1].id == id then i - 1 else LastBefore(list, id, i - 1)
  }

  /** The position of the last meal of `list` carrying `id`; -1 when none does. */
  function LastIndex(list: seq<Meal>, id: string): (r: int)
    ensures -1 <= r < |list|
    ensures r >= 0 ==> list[r].id == id
    ensures forall j :: r < j < |list| ==> list[j].id != id
    ensures r >= 0 <==> ListHasId(list, id)
  {
    LastBefore(list, id, |list|)
  }

  /** `ids` lists ids in the order in which they first occur in `list`. */
  ghost predicate FirstOccurrenceOrder(ids: seq<string>, list: seq<Meal>) {
    forall a, b :: 0 <= a < b < |ids| ==> FirstIndex(list, ids[a]) < FirstIndex(list, ids[b])
  }

  /** The ids after the first are still in first-occurrence order. */
  lemma OrderTail(ids: seq<string>, list: seq<Meal>)
    requires |ids| > 0 && FirstOccurrenceOrder(ids, list)
    ensures FirstOccurrenceOrder(ids[1..], list)
    ensures forall x :: x in ids[1..] ==> FirstIndex(list, ids[0]) < FirstIndex(list, x)
  {
    var t := ids[1..];
    forall a, b | 0 <= a < b < |t| ensures FirstIndex(list, t[a]) < FirstIndex(list, t[b]) {
      assert t[a] == ids[a + 1] && t[b] == ids[b + 1];
    }
    forall x | x in t ensures FirstIndex(list, ids[0]) < FirstIndex(list, x) {
      var q :| 0 <= q < |t| && t[q] == x;
      assert ids[q + 1] == x;
    }
  }

  /** An id occurring before all ids of an ordered list can be put in front. */
  lemma OrderCons(h: string, rest: seq<string>, list: seq<Meal>)
    requires FirstOccurrenceOrder(rest, list)
    requires forall x :: x in rest ==> FirstIndex(list, h) < FirstIndex(list, x)
    ensures FirstOccurrenceOrder([h] + rest, list)
  {
    var r := [h] + rest;
    forall a, b | 0 <= a < b < |r| ensures FirstIndex(list, r[a]) < FirstIndex(list, r[b]) {
      assert r[b] == rest[b - 1];
      if a > 0 {
        assert r[a] == rest[a - 1];
      }
    }
  }

  /** `m.set(k, v)`. */
  function Set(m: IdMap, k: string, v: Meal): (r: IdMap)
    ensures k in r.vals && r.vals[k] == v
    ensures k in m.vals ==> r.keys == m.keys
    ensures k !in m.vals ==> r.keys == m.keys + [k]
    ensures forall j :: j != k ==> (j in r.vals <==> j in m.vals) && (j in m.vals ==> r.vals[j] == m.vals[j])
  {
    IdMap(if k in m.vals then m.keys else m.keys + [k], m.vals[k := v])
  }

  /** The facts `Build` promises of `m` for the meals of `list`. */
  ghost predicate Indexes(m: IdMap, list: seq<Meal>) {
    && Distinct(m.keys)
    && (forall k :: k in m.vals <==> k in m.keys)
    && (forall k :: k in m.keys <==> ListHasId(list, k))
    && (forall k :: k in m.vals ==> m.vals[k] == list[LastIndex(list, k)])
    && FirstOccurrenceOrder(m.keys, list)
  }

  /** `list.forEach(meal => m.set(meal.idMeal, meal))` on a new `Map`: one key
      per distinct id, in first-occurrence order, each mapped to the LAST meal
      with that id. */
  function Build(list: seq<Meal>): (r: IdMap)
    ensures Distinct(r.keys)
    ensures forall k :: k in r.vals <==> k in r.keys
    ensures forall k :: k in r.keys <==> ListHasId(list, k)
    ensures forall k :: k in r.vals ==> r.vals[k] == list[LastIndex(list, k)]
    ensures FirstOccurrenceOrder(r.keys, list)
    decreases |list|
  {
    if |list| == 0 then IdMap([], map[])
    else
      var n := |list| - 1;
      var m := Build(list[..n]);
      var r := Set(m, list[n].id, list[n]);
      BuildStep(list, list[..n], m, r);
      r
  }

  /** Positions in a prefix are positions in the whole list. */
  lemma PrefixIndexes(list: seq<Meal>, prefix: seq<Meal>, k: string)
    requires |list| > 0 && prefix == list[..|list| - 1]
    ensures ListHasId(list, k) <==> ListHasId(prefix, k) || list[|list| - 1].id == k
    ensures ListHasId(prefix, k) ==> FirstIndex(list, k) == FirstIndex(prefix, k)
    ensures !ListHasId(prefix, k) && list[|list| - 1].id == k ==> FirstIndex(list, k) == |list| - 1
    ensures list[|list| - 1].id != k ==> LastIndex(list, k) == LastIndex(prefix, k)
  {
    var n := |list| - 1;
    assert forall j :: 0 <= j < n ==> prefix[j] == list[j];
    if ListHasId(list, k) && list[n].id != k {
      var i :| 0 <= i < |list| && list[i].id == k;
      assert prefix[i].id == k;
    }
    if ListHasId(prefix, k) {
      var i :| 0 <= i < n && prefix[i].id == k;
      assert list[i].id == k;
    }
  }

  /** One `set` at the end of `list` extends the facts known of its prefix. */
  lemma BuildStep(list: seq<Meal>, prefix: seq<Meal>, m: IdMap, r: IdMap)
    requires |list| > 0 && prefix == list[..|list| - 1] && Indexes(m, prefix)
    requires r == Set(m, list[|list| - 1].id, list[|list| - 1])
    ensures Indexes(r, list)
  {
    BuildStepKeys(list, prefix, m, r);
    BuildStepVals(list, prefix, m, r);
    BuildStepOrder(list, prefix, m, r);
  }

  /** `set` adds the id as a key exactly when it is new. */
  lemma BuildStepKeys(list: seq<Meal>, prefix: seq<Meal>, m: IdMap, r: IdMap)
    requires |list| > 0 && prefix == list[..|list| - 1] && Indexes(m, prefix)
    requires r == Set(m, list[|list| - 1].id, list[|list| - 1])
    ensures Distinct(r.keys)
    ensures forall k :: k in r.vals <==> k in r.keys
    ensures forall k :: k in r.keys <==> ListHasId(list, k)
  {
    forall k ensures k in r.keys <==> ListHasId(list, k) {
      PrefixIndexes(list, prefix, k);
    }
  }

  /** Every key maps to its last record: the new one for the id just set,
      the prefix's last record for the others. */
  lemma BuildStepVals(list: seq<Meal>, prefix: seq<Meal>, m: IdMap, r: IdMap)
    requires |list| > 0 && prefix == list[..|list| - 1] && Indexes(m, prefix)
    requires r == Set(m, list[|list| - 1].id, list[|list| - 1])
    ensures forall k :: k in r.vals ==> r.vals[k] == list[LastIndex(list, k)]
  {
    forall k | k in r.vals ensures r.vals[k] == list[LastIndex(list, k)] {
      PrefixIndexes(list, prefix, k);
    }
  }

  /** A key `set` adds goes last, after every key of the prefix. */
  lemma BuildStepOrder(list: seq<Meal>, prefix: seq<Meal>, m: IdMap, r: IdMap)
    requires |list| > 0 && prefix == list[..|list| - 1] && Indexes(m, prefix)
    requires r == Set(m, list[|list| - 1].id, list[|list| - 1])
    ensures FirstOccurrenceOrder(r.keys, list)
  {
    var n := |list| - 1;
    var id := list[n].id;
    PrefixFirst(list, m.keys);
    if id !in m.vals {
      PrefixNew(list, id);
      assert r.keys == m.keys + [id];
      forall a, b | 0 <= a < b < |r.keys| ensures FirstIndex(list, r.keys[a]) < FirstIndex(list, r.keys[b]) {
        assert r.keys[a] == m.keys[a];
        if b < |m.keys| {
          assert r.keys[b] == m.keys[b];
        }
      }
    }
  }

  /** Ids of a prefix first occur in the whole list where they first occur
      in the prefix. */
  lemma PrefixFirst(list: seq<Meal>, keys: seq<string>)
    requires |list| > 0
    requires forall k :: k in keys ==> ListHasId(list[..|list| - 1], k)
    requires FirstOccurrenceOrder(keys, list[..|list| - 1])
    ensures FirstOccurrenceOrder(keys, list)
    ensures forall k :: k in keys ==> FirstIndex(list, k) < |list| - 1
  {
    var prefix := list[..|list| - 1];
    forall k | k in keys ensures FirstIndex(list, k) == FirstIndex(prefix, k) < |list| - 1 {
      PrefixIndexes(list, prefix, k);
    }
    forall a, b | 0 <= a < b < |keys| ensures FirstIndex(list, keys[a]) < FirstIndex(list, keys[b]) {
      assert keys[a] in keys && keys[b] in keys;
    }
  }

  /** An id the prefix lacks first occurs in the last position. */
  lemma PrefixNew(list: seq<Meal>, id: string)
    requires |list| > 0 && list[|list| - 1].id == id && !ListHasId(list[..|list| - 1], id)
    ensures FirstIndex(list, id) == |list| - 1
  {
    PrefixIndexes(list, list[..|list| - 1], id);
  }
}
