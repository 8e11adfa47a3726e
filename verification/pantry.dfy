/** The pantry view's search: one catalog list per selected ingredient, and
    the meals that appear in every list. */
module Pantry {
  import opened Optional
  import opened Catalog
  import opened Seqs
  import opened IdIndex

  /** The settled catalog response for one ingredient: the request or its
      JSON decoding failed, or the decoded `meals` field arrived (null when
      the catalog has no meal with that ingredient). */
  datatype Response = Failed | Received(meals: Option<seq<Meal>>)

  /** `data.meals || []` in `fetchMealsForIngredient`. */
  function MealsOf(meals: Option<seq<Meal>>): (r: seq<Meal>)
    ensures meals.None? ==> r == []
    ensures meals.Some? ==> r == meals.value
  {
    ValueOr(meals, [])
  }

  /** The ids of a meal list, position by position. */
  function IdsOf(list: seq<Meal>): (r: seq<string>)
    ensures |r| == |list| && forall i :: 0 <= i < |list| ==> r[i] == list[i].id
  {
    seq(|list|, i requires 0 <= i < |list| => list[i].id)
  }

  /** `a` has no duplicate ids, only ids of `l`, each with the last record
      of `l` carrying it, ordered by first occurrence in `l`. */
  ghost predicate LastRecordsInOrder(a: seq<Meal>, l: seq<Meal>) {
    UniqueIds(a) && LastRecords(a, l) && FirstOccurrenceOrder(IdsOf(a), l)
  }

  /** No two meals of `a` share an id. */
  ghost predicate UniqueIds(a: seq<Meal>) {
    Distinct(IdsOf(a))
  }

  /** Each meal of `a` is the last record of `l` carrying its id. */
  ghost predicate LastRecords(a: seq<Meal>, l: seq<Meal>) {
    forall i :: 0 <= i < |a| ==> ListHasId(l, a[i].id) && a[i] == l[LastIndex(l, a[i].id)]
  }

  /** `r` is `l` deduplicated by id: one record per id of `l`, in the order the
      ids first occur, each being the last record of `l` with that id. */
  ghost predicate DedupOf(r: seq<Meal>, l: seq<Meal>) {
    LastRecordsInOrder(r, l) && forall id :: ListHasId(l, id) ==> ListHasId(r, id)
  }

  /** `m.has(id)` as a filter predicate. */
  function InMap(m: IdMap): string -> bool {
    (id: string) => id in m.vals
  }

  /** Every one of `maps` has `id`. */
  ghost predicate InAll(id: string, maps: seq<IdMap>) {
    forall k :: 0 <= k < |maps| ==> id in maps[k].vals
  }

  lemma InAllCons(id: string, maps: seq<IdMap>)
    requires |maps| > 0
    ensures InAll(id, maps) <==> id in maps[0].vals && InAll(id, maps[1..])
  {
    if id in maps[0].vals && InAll(id, maps[1..]) {
      forall k | 0 <= k < |maps| ensures id in maps[k].vals {
        if k > 0 { assert maps[k] == maps[1..][k - 1]; }
      }
    }
  }

  /** The loop over the remaining maps: `ids` keeps, in order, only the ids
      every one of `maps` has. Each round's `new Set(...)` is applied to a list
      that is already free of duplicates, so it changes nothing. */
  function KeepCommon(ids: seq<string>, maps: seq<IdMap>): (r: seq<string>)
    ensures IsSubsequence(r, ids)
    ensures forall id :: id in r <==> id in ids && InAll(id, maps)
    ensures Distinct(ids) ==> Distinct(r)
    decreases |maps|
  {
    if |maps| == 0 then
      SubsequenceReflexive(ids);
      ids
    else
      var kept := Filter(ids, InMap(maps[0]));
      var r := KeepCommon(kept, maps[1..]);
      SubsequenceTransitive(r, kept, ids);
      assert forall id :: InAll(id, maps) <==> id in maps[0].vals && InAll(id, maps[1..]) by {
        forall id { InAllCons(id, maps); }
      }
      r
  }

  /** Dropping ids keeps the survivors in first-occurrence order. */
  lemma {:induction false} FilterKeepsOrder(ids: seq<string>, keep: string -> bool, l: seq<Meal>)
    requires FirstOccurrenceOrder(ids, l)
    ensures FirstOccurrenceOrder(Filter(ids, keep), l)
    decreases |ids|
  {
    if |ids| > 0 {
      var tail := ids[1..];
      OrderTail(ids, l);
      FilterKeepsOrder(tail, keep, l);
      var rest := Filter(tail, keep);
      if keep(ids[0]) {
        assert Filter(ids, keep) == [ids[0]] + rest;
        OrderCons(ids[0], rest, l);
      } else {
        assert Filter(ids, keep) == rest;
      }
    }
  }

  /** `KeepCommon` keeps the survivors in first-occurrence order. */
  lemma {:induction false} KeepCommonKeepsOrder(ids: seq<string>, maps: seq<IdMap>, l: seq<Meal>)
    requires FirstOccurrenceOrder(ids, l)
    ensures FirstOccurrenceOrder(KeepCommon(ids, maps), l)
    decreases |maps|
  {
    if |maps| > 0 {
      FilterKeepsOrder(ids, InMap(maps[0]), l);
      KeepCommonKeepsOrder(Filter(ids, InMap(maps[0])), maps[1..], l);
    }
  }

  /** `[...ids].map(id => first.get(id))`. */
  function Records(ids: seq<string>, m: IdMap): (r: seq<Meal>)
    requires forall id :: id in ids ==> id in m.vals
    ensures |r| == |ids| && forall i :: 0 <= i < |ids| ==> r[i] == m.vals[ids[i]]
  {
    seq(|ids|, i requires 0 <= i < |ids| => m.vals[ids[i]])
  }

  /** One `Map` per ingredient list. */
  function BuildAll(lists: seq<seq<Meal>>): (maps: seq<IdMap>)
    ensures |maps| == |lists| && forall k :: 0 <= k < |lists| ==> maps[k] == Build(lists[k])
  {
    seq(|lists|, k requires 0 <= k < |lists| => Build(lists[k]))
  }

  /** The intersection the selection effect computes (its lines from the
      per-list maps to `result`): the meals whose id occurs in every list, one
      per id, in the order the ids first occur in the first list, each record
      being the last one with its id in the first list. The effect only runs
      it on a non-empty selection. */
  function Intersect(lists: seq<seq<Meal>>): (r: seq<Meal>)
    requires |lists| > 0
    ensures forall i, j :: 0 <= i < j < |r| ==> r[i].id != r[j].id
    ensures forall id :: ListHasId(r, id) <==> forall k :: 0 <= k < |lists| ==> ListHasId(lists[k], id)
    ensures forall i :: 0 <= i < |r| ==> ListHasId(lists[0], r[i].id) && r[i] == lists[0][LastIndex(lists[0], r[i].id)]
    ensures FirstOccurrenceOrder(IdsOf(r), lists[0])
  {
    var maps := BuildAll(lists);
    var first := maps[0];
    var ids := KeepCommon(first.keys, maps[1..]);
    var r := Records(ids, first);
    IntersectFacts(lists, maps, ids, r);
    r
  }

  lemma IntersectFacts(lists: seq<seq<Meal>>, maps: seq<IdMap>, ids: seq<string>, r: seq<Meal>)
    requires |lists| > 0 && maps == BuildAll(lists)
    requires ids == KeepCommon(maps[0].keys, maps[1..])
    requires forall id :: id in ids ==> id in maps[0].vals
    requires r == Records(ids, maps[0])
    ensures forall i, j :: 0 <= i < j < |r| ==> r[i].id != r[j].id
    ensures forall id :: ListHasId(r, id) <==> forall k :: 0 <= k < |lists| ==> ListHasId(lists[k], id)
    ensures forall i :: 0 <= i < |r| ==> ListHasId(lists[0], r[i].id) && r[i] == lists[0][LastIndex(lists[0], r[i].id)]
    ensures FirstOccurrenceOrder(IdsOf(r), lists[0])
  {
    RecordsCarryIds(lists[0], maps[0], ids, r);
    forall id ensures ListHasId(r, id) <==> id in ids {
      if ListHasId(r, id) {
        var i :| 0 <= i < |r| && r[i].id == id;
        assert ids[i] == id;
      }
      if id in ids {
        var i :| 0 <= i < |ids| && ids[i] == id;
        assert r[i].id == id;
      }
    }
    CommonIds(lists, maps, ids);
    KeepCommonKeepsOrder(maps[0].keys, maps[1..], lists[0]);
  }

  /** Each looked-up record carries the id it was looked up by, and is the
      last record of the first list with that id. */
  lemma RecordsCarryIds(l: seq<Meal>, first: IdMap, ids: seq<string>, r: seq<Meal>)
    requires first == Build(l)
    requires forall id :: id in ids ==> id in first.vals
    requires r == Records(ids, first)
    ensures IdsOf(r) == ids
    ensures forall i :: 0 <= i < |r| ==> ListHasId(l, r[i].id) && r[i] == l[LastIndex(l, r[i].id)]
  {
  }

  /** The surviving ids are exactly those every list has. */
  lemma CommonIds(lists: seq<seq<Meal>>, maps: seq<IdMap>, ids: seq<string>)
    requires |lists| > 0 && maps == BuildAll(lists)
    requires ids == KeepCommon(maps[0].keys, maps[1..])
    ensures forall id :: id in ids <==> forall k :: 0 <= k < |lists| ==> ListHasId(lists[k], id)
  {
    forall id ensures id in ids <==> forall k :: 0 <= k < |lists| ==> ListHasId(lists[k], id) {
      InAllCons(id, maps);
      InAllHasAll(lists, maps, id);
    }
  }

  /** An id is in every map exactly when every list has it. */
  lemma InAllHasAll(lists: seq<seq<Meal>>, maps: seq<IdMap>, id: string)
    requires maps == BuildAll(lists)
    ensures InAll(id, maps) <==> forall k :: 0 <= k < |lists| ==> ListHasId(lists[k], id)
  {
    forall k | 0 <= k < |lists| ensures id in maps[k].vals <==> ListHasId(lists[k], id) {
      var m := Build(lists[k]);
      assert maps[k] == m;
    }
  }

  /** Two such lists with the same ids start with the same record. */
  lemma HeadsAgree(a: seq<Meal>, b: seq<Meal>, l: seq<Meal>)
    requires LastRecordsInOrder(a, l) && LastRecordsInOrder(b, l)
    requires forall id :: ListHasId(a, id) <==> ListHasId(b, id)
    requires |a| > 0
    ensures |b| > 0 && a[0] == b[0]
  {
    var x := a[0].id;
    assert ListHasId(a, x);
    var q :| 0 <= q < |b| && b[q].id == x;
    var y := b[0].id;
    assert ListHasId(b, y);
    var p :| 0 <= p < |a| && a[p].id == y;
    var ia, ib := IdsOf(a), IdsOf(b);
    assert ia[0] == x && ia[p] == y && ib[0] == y && ib[q] == x;
    assert FirstIndex(l, x) <= FirstIndex(l, y);
    assert FirstIndex(l, y) <= FirstIndex(l, x);
    assert ListHasId(l, x) && ListHasId(l, y);
  }

  /** Dropping the first record keeps the shape and drops exactly its id. */
  lemma TailInOrder(a: seq<Meal>, l: seq<Meal>)
    requires LastRecordsInOrder(a, l) && |a| > 0
    ensures LastRecordsInOrder(a[1..], l)
    ensures forall id :: ListHasId(a[1..], id) <==> ListHasId(a, id) && id != a[0].id
  {
    TailUnique(a);
    TailRecords(a, l);
    assert IdsOf(a[1..]) == IdsOf(a)[1..];
    OrderTail(IdsOf(a), l);
  }

  /** The meals after the first still have distinct ids, and the first one's
      id is not among them. */
  lemma TailUnique(a: seq<Meal>)
    requires UniqueIds(a) && |a| > 0
    ensures UniqueIds(a[1..])
    ensures forall id :: ListHasId(a[1..], id) <==> ListHasId(a, id) && id != a[0].id
  {
    var t := a[1..];
    assert forall i :: 0 <= i < |t| ==> t[i] == a[i + 1];
    forall id ensures ListHasId(t, id) <==> ListHasId(a, id) && id != a[0].id {
      if ListHasId(a, id) && id != a[0].id {
        var i :| 0 <= i < |a| && a[i].id == id;
        assert t[i - 1].id == id;
      }
    }
  }

  lemma TailRecords(a: seq<Meal>, l: seq<Meal>)
    requires LastRecords(a, l) && |a| > 0
    ensures LastRecords(a[1..], l)
  {
    assert forall i :: 0 <= i < |a| - 1 ==> a[1..][i] == a[i + 1];
  }

  /** Two lists with the same ids, each free of duplicate ids, each holding
      the last record of `l` for every id and ordered by first occurrence in
      `l`, are the same list. */
  lemma {:induction false} OrderedByFirstUnique(a: seq<Meal>, b: seq<Meal>, l: seq<Meal>)
    requires LastRecordsInOrder(a, l) && LastRecordsInOrder(b, l)
    requires forall id :: ListHasId(a, id) <==> ListHasId(b, id)
    ensures a == b
    decreases |a|
  {
    if |a| == 0 {
      assert |b| > 0 ==> ListHasId(b, b[0].id);
    } else {
      HeadsAgree(a, b, l);
      TailInOrder(a, l);
      TailInOrder(b, l);
      OrderedByFirstUnique(a[1..], b[1..], l);
      assert a == [a[0]] + a[1..] && b == [b[0]] + b[1..];
    }
  }

  /** With one selected ingredient the result is that ingredient's list
      deduplicated by id. */
  lemma SingleIsDedup(l: seq<Meal>)
    ensures DedupOf(Intersect([l]), l)
  {
    var lists := [l];
    var r := Intersect(lists);
    assert lists[0] == l && |lists| == 1;
    forall id ensures ListHasId(r, id) <==> ListHasId(l, id) {
      assert (forall k :: 0 <= k < |lists| ==> ListHasId(lists[k], id)) <==> ListHasId(lists[0], id);
    }
  }

  /** With one selected ingredient the result is that ingredient's list
      deduplicated by id, and no other list is. */
  lemma SingleIngredient(l: seq<Meal>, d: seq<Meal>)
    requires DedupOf(d, l)
    ensures Intersect([l]) == d
  {
    SingleIsDedup(l);
    OrderedByFirstUnique(Intersect([l]), d, l);
  }

  /** A selected ingredient the catalog returns no meals for (a null `meals`
      field) empties the intersection. */
  lemma NoMealsEmptiesResult(responses: seq<Response>, k: nat)
    requires forall j :: 0 <= j < |responses| ==> responses[j].Received?
    requires k < |responses| && responses[k].meals.None?
    ensures Intersect(seq(|responses|, j requires 0 <= j < |responses| => MealsOf(responses[j].meals))) == []
  {
    var lists := seq(|responses|, j requires 0 <= j < |responses| => MealsOf(responses[j].meals));
    var r := Intersect(lists);
    assert lists[k] == [];
    assert forall id :: !ListHasId(lists[k], id);
    assert |r| > 0 ==> ListHasId(r, r[0].id);
  }
}
