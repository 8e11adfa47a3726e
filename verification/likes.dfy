/** The liked-meals store: an ordered list of reduced meal records kept under
    one storage key, with set semantics by meal id. */
module Likes {
  import opened Storage
  import opened Catalog
  import opened Seqs

  /** The three fields the store keeps of a meal. */
  datatype LikedMeal = LikedMeal(id: string, name: string, thumb: string)

  /** What `toggleLike` hands back (the new liked state) and what it writes. */
  datatype Toggled = Toggled(liked: bool, saved: seq<LikedMeal>)

  /** The ids of a liked-meals list, position by position. */
  ghost function Ids(list: seq<LikedMeal>): seq<string> {
    seq(|list|, i requires 0 <= i < |list| => list[i].id)
  }

  /** `Ids` position by position. */
  lemma IdsAt(list: seq<LikedMeal>)
    ensures |Ids(list)| == |list| && forall i :: 0 <= i < |list| ==> Ids(list)[i] == list[i].id
  {
  }

  /** At most one record per meal id. */
  ghost predicate DistinctIds(list: seq<LikedMeal>) {
    Distinct(Ids(list))
  }

  /** `getLikedMeals`: the stored list, or the empty list when the key is
      missing or its text does not parse. */
  function GetLikedMeals(stored: Stored<seq<LikedMeal>>): (r: seq<LikedMeal>)
    ensures stored.Parsed? ==> r == stored.value
    ensures !stored.Parsed? ==> r == []
  {
    Load(stored, [])
  }

  /** `list.some(m => m.idMeal === id)`. */
  function HasId(list: seq<LikedMeal>, id: string): (r: bool)
    ensures r <==> exists i :: 0 <= i < |list| && list[i].id == id
  {
    if |list| == 0 then false
    else if list[0].id == id then true
    else
      assert forall i :: 1 <= i < |list| ==> list[i] == list[1..][i - 1];
      HasId(list[1..], id)
  }

  /** `isLiked`: some stored record carries the id. */
  function IsLiked(stored: Stored<seq<LikedMeal>>, id: string): (r: bool)
    ensures r <==> exists m :: m in GetLikedMeals(stored) && m.id == id
  {
    HasId(GetLikedMeals(stored), id)
  }

  /** The record the store keeps for a meal: its id, name and thumbnail. */
  function Project(meal: Meal): LikedMeal {
    LikedMeal(meal.id, meal.name, meal.thumb)
  }

  /** The filter predicate of an unlike: keep records of other meals. */
  function OtherId(id: string): LikedMeal -> bool {
    (m: LikedMeal) => m.id != id
  }

  /** `toggleLike`: unlike a liked meal (dropping every record with its id)
      or like an unliked one (appending its projection); the whole new list is
      written back and the new liked state returned. */
  function ToggleLike(stored: Stored<seq<LikedMeal>>, meal: Meal): (r: Toggled)
    ensures var current := GetLikedMeals(stored);
      && (r.liked <==> !exists i :: 0 <= i < |current| && current[i].id == meal.id)
      && (r.liked ==> r.saved == current + [Project(meal)])
      && (!r.liked ==> IsSubsequence(r.saved, current))
      && (!r.liked ==> forall m :: m in r.saved <==> m in current && m.id != meal.id)
      && (!r.liked ==> forall m :: multiset(r.saved)[m] == if m.id == meal.id then 0 else multiset(current)[m])
      && (DistinctIds(current) ==> DistinctIds(r.saved))
    ensures IsLiked(Parsed(r.saved), meal.id) == r.liked
  {
    var current := GetLikedMeals(stored);
    if HasId(current, meal.id) then
      var next := Filter(current, OtherId(meal.id));
      assert DistinctIds(current) ==> DistinctIds(next) by {
        if DistinctIds(current) { FilterKeepsDistinctIds(current, OtherId(meal.id)); }
      }
      Toggled(false, next)
    else
      var next := current + [Project(meal)];
      assert next[|current|].id == meal.id;
      IdsAt(current);
      IdsAt(next);
      Toggled(true, next)
  }

  /** Dropping records never makes two of the remaining ones share an id. */
  lemma {:induction false} FilterKeepsDistinctIds(list: seq<LikedMeal>, keep: LikedMeal -> bool)
    requires DistinctIds(list)
    ensures DistinctIds(Filter(list, keep))
    decreases |list|
  {
    if |list| > 0 {
      var t := list[1..];
      TailDistinctIds(list);
      FilterKeepsDistinctIds(t, keep);
      var rest := Filter(t, keep);
      if keep(list[0]) {
        assert Filter(list, keep) == [list[0]] + rest;
        ConsDistinctIds(list[0], rest);
      } else {
        assert Filter(list, keep) == rest;
      }
    }
  }

  /** The records after the first have distinct ids, none of them the first's. */
  lemma TailDistinctIds(list: seq<LikedMeal>)
    requires |list| > 0 && DistinctIds(list)
    ensures DistinctIds(list[1..])
    ensures forall m :: m in list[1..] ==> m.id != list[0].id
  {
    var t := list[1..];
    var ids, tids := Ids(list), Ids(t);
    IdsAt(list);
    IdsAt(t);
    assert forall i :: 0 <= i < |t| ==> tids[i] == ids[i + 1];
    forall m | m in t ensures m.id != list[0].id {
      var q :| 0 <= q < |t| && t[q] == m;
      assert ids[q + 1] == m.id;
    }
  }

  /** A record whose id no other record has can be put in front. */
  lemma ConsDistinctIds(x: LikedMeal, rest: seq<LikedMeal>)
    requires DistinctIds(rest) && forall m :: m in rest ==> m.id != x.id
    ensures DistinctIds([x] + rest)
  {
    var r := [x] + rest;
    var rids, ids := Ids(r), Ids(rest);
    IdsAt(r);
    IdsAt(rest);
    forall i, j | 0 <= i < j < |r| ensures rids[i] != rids[j] {
      assert r[j] == rest[j - 1];
      if i > 0 {
        assert r[i] == rest[i - 1];
      }
    }
  }

  /** Liking a meal and then toggling it again restores the list exactly. */
  lemma ToggleTwiceRestores(stored: Stored<seq<LikedMeal>>, meal: Meal)
    requires !IsLiked(stored, meal.id)
    ensures var first := ToggleLike(stored, meal);
      && first.liked
      && ToggleLike(Parsed(first.saved), meal) == Toggled(false, GetLikedMeals(stored))
  {
    var current := GetLikedMeals(stored);
    var keep := OtherId(meal.id);
    FilterAppend(current, [Project(meal)], keep);
    FilterKeepsAll(current, keep);
    FilterDropsSingleton(Project(meal), keep);
  }
}
