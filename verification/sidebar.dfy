/** The pantry sidebar: the ingredient selection (a list used as a set of
    names) and the search box that narrows the ingredient list. */
module PantrySidebar {
  import opened Optional
  import opened Seqs
  import opened Text

  /** A catalog ingredient listing entry: `strIngredient`, which may be
      missing, and the other fields, passed through. */
  datatype Ingredient = Ingredient(name: Option<string>, details: map<string, string>)

  /** The filter predicate of an unselect: keep the other names. */
  function Other(ing: string): string -> bool {
    (s: string) => s != ing
  }

  /** `toggle`: select an unselected name by appending it, or unselect a
      selected name by dropping every occurrence of it. */
  function Toggle(selected: seq<string>, ing: string): (r: seq<string>)
    ensures ing !in selected ==> r == selected + [ing]
    ensures ing in selected ==> IsSubsequence(r, selected)
    ensures ing in selected ==> forall s :: multiset(r)[s] == if s == ing then 0 else multiset(selected)[s]
    ensures ing in r <==> ing !in selected
    ensures forall s :: s != ing ==> (s in r <==> s in selected)
    ensures Distinct(selected) ==> Distinct(r)
  {
    if ing in selected then Filter(selected, Other(ing)) else selected + [ing]
  }

  /** Selecting a name and toggling it again restores the selection exactly. */
  lemma ToggleTwiceRestores(selected: seq<string>, ing: string)
    requires ing !in selected
    ensures Toggle(Toggle(selected, ing), ing) == selected
  {
    FilterAppend(selected, [ing], Other(ing));
    FilterKeepsAll(selected, Other(ing));
    FilterDropsSingleton(ing, Other(ing));
  }

  /** `clearAll`: whatever was selected, nothing is selected afterwards. */
  function ClearAll(selected: seq<string>): (r: seq<string>)
    ensures forall s :: s !in r
  {
    []
  }

  /** The search predicate: the ingredient has a name and its lower-cased name
      contains the query. */
  function MatchesQuery(q: string): Ingredient -> bool {
    (i: Ingredient) => i.name.Some? && Includes(Lower(i.name.value), q)
  }

  /** The `filtered` memo: the whole list for a blank query, otherwise the
      ingredients, in list order, whose lower-cased name contains the trimmed,
      lower-cased query. */
  function Filtered(ingredients: seq<Ingredient>, query: string): (r: seq<Ingredient>)
    ensures Trim(query) == [] ==> r == ingredients
    ensures IsSubsequence(r, ingredients)
    ensures Trim(query) != [] ==> forall i :: i in r <==>
      i in ingredients && i.name.Some? &&
      exists k :: OccursAt(Lower(i.name.value), Lower(Trim(query)), k)
    ensures Trim(query) != [] ==>
      forall i :: multiset(r)[i] ==
        (if i.name.Some? && exists k :: OccursAt(Lower(i.name.value), Lower(Trim(query)), k)
         then multiset(ingredients)[i] else 0)
  {
    var q := Lower(Trim(query));
    if q == [] then
      SubsequenceReflexive(ingredients);
      ingredients
    else Filter(ingredients, MatchesQuery(q))
  }
}
