/** The pantry view's selection effect as a sequential state machine. Each
    change of the selection cleans up the previous run (its `ignore` flag is
    set) and starts a new one; a run's settled results are written only while
    its flag is clear. A generation counter stands for the flags: the run of
    generation `g` is ignored exactly when `g` is not the current generation. */
module PantryEffect {
  import opened Catalog
  import opened IdIndex
  import opened Pantry
  import opened Seqs

  const MealsError := "Failed to load meals for selected ingredients"

  /** The view state the effect writes: `meals`, `error`, `loadingMeals`. */
  datatype View = View(meals: seq<Meal>, error: string, loading: bool)

  /** The view state; the generation of the one run whose `ignore` flag is
      clear; and whether that generation dispatched a run that has not yet
      settled (an empty selection dispatches none, and a run settles once). */
  datatype State = State(view: View, current: nat, running: bool)

  /** What a selection change produced: the new state and the ingredient
      names whose catalog lists the new run requests. */
  datatype Dispatch = Dispatch(state: State, fetches: seq<string>)

  /** The component's initial state: nothing shown, nothing loading. */
  const Initial := State(View([], "", false), 0, false)

  /** The selection effect as written. The previous run is cleaned up; an
      empty selection then only empties the meal list, while a non-empty one
      clears the error, turns loading on and requests one list per selected
      ingredient, in selection order. */
  function Select(s: State, selected: seq<string>): (d: Dispatch)
    ensures d.state.current == s.current + 1
    ensures d.state.running <==> |selected| > 0
    ensures |selected| == 0 ==> d.fetches == [] && d.state.view == s.view.(meals := [])
    ensures |selected| > 0 ==> d.fetches == selected
    ensures |selected| > 0 ==> d.state.view.loading && d.state.view.error == "" && d.state.view.meals == s.view.meals
  {
    var next := s.current + 1;
    if |selected| == 0 then Dispatch(State(s.view.(meals := []), next, false), [])
    else Dispatch(State(s.view.(error := "", loading := true), next, true), selected)
  }

  /** The selection effect with the empty case corrected: clearing the
      selection also clears the error and the loading indicator, so no state
      of a superseded run outlives it. */
  function SelectClearing(s: State, selected: seq<string>): (d: Dispatch)
    ensures d.state.current == s.current + 1
    ensures d.state.running <==> |selected| > 0
    ensures |selected| == 0 ==> d.fetches == [] && d.state.view == View([], "", false)
    ensures |selected| > 0 ==> d == Select(s, selected)
  {
    if |selected| == 0 then Dispatch(State(View([], "", false), s.current + 1, false), [])
    else Select(s, selected)
  }

  /** Some request of the run failed (`Promise.all` rejects). */
  predicate AnyFailed(responses: seq<Response>) {
    exists i :: 0 <= i < |responses| && responses[i].Failed?
  }

  /** The lists the run intersects once every request succeeded. */
  function Lists(responses: seq<Response>): (lists: seq<seq<Meal>>)
    requires !AnyFailed(responses)
    ensures |lists| == |responses|
    ensures forall i :: 0 <= i < |responses| ==> lists[i] == MealsOf(responses[i].meals)
  {
    seq(|responses|, i requires 0 <= i < |responses| => MealsOf(responses[i].meals))
  }

  /** The run of generation `run` settles with `responses`, one per requested
      ingredient. If the run is ignored (or is not the one in flight) nothing
      is written. Otherwise a failed request (or a run over no lists, which
      fails taking the first map) sets the error and keeps the meals; success
      replaces the meals with the intersection. Either way loading ends. */
  function Settle(s: State, run: nat, responses: seq<Response>): (t: State)
    ensures t.current == s.current
    ensures run != s.current || !s.running ==> t == s
    ensures run == s.current && s.running ==> !t.running
    ensures run == s.current && s.running && (AnyFailed(responses) || |responses| == 0) ==>
      t.view == View(s.view.meals, MealsError, false)
    ensures run == s.current && s.running && !AnyFailed(responses) && |responses| > 0 ==>
      && t.view.error == s.view.error && !t.view.loading
      && t.view.meals == Intersect(Lists(responses))
      && forall id :: ListHasId(t.view.meals, id) <==>
           forall k :: 0 <= k < |responses| ==> ListHasId(MealsOf(responses[k].meals), id)
  {
    if run != s.current || !s.running then s
    else if AnyFailed(responses) || |responses| == 0 then
      State(View(s.view.meals, MealsError, false), s.current, false)
    else
      var lists := Lists(responses);
      State(s.view.(meals := Intersect(lists), loading := false), s.current, false)
  }

  /** The events that drive the effect. */
  datatype Event =
    | Change(selected: seq<string>)                   // the selection changed
    | Settled(run: nat, responses: seq<Response>)     // a run's requests all settled
    | Unmount                                         // the view went away: last cleanup

  /** Which empty-selection behaviour the machine follows. */
  datatype Policy = AsWritten | Clearing

  function Step(p: Policy, s: State, e: Event): (t: State)
    ensures t.current >= s.current
    ensures e.Change? ==> t.current > s.current
    ensures e.Unmount? ==> t == State(s.view, s.current + 1, false)
  {
    match e
    case Change(selected) =>
      if p == AsWritten then Select(s, selected).state else SelectClearing(s, selected).state
    case Settled(run, responses) => Settle(s, run, responses)
    case Unmount => State(s.view, s.current + 1, false)
  }

  /** The state after a sequence of events, in order. */
  function Replay(p: Policy, s: State, events: seq<Event>): (t: State)
    ensures t.current >= s.current
    decreases |events|
  {
    if |events| == 0 then s else Replay(p, Step(p, s, events[0]), events[1..])
  }

  /** The filter predicate that drops the settling of run `g`. */
  function NotRun(g: nat): Event -> bool {
    (e: Event) => !(e.Settled? && e.run == g)
  }

  /** The events other than the settling of run `g`, in their original order. */
  function WithoutRun(events: seq<Event>, g: nat): (r: seq<Event>)
    ensures IsSubsequence(r, events)
    ensures forall e :: multiset(r)[e] == if e.Settled? && e.run == g then 0 else multiset(events)[e]
  {
    Filter(events, NotRun(g))
  }

  /** Once run `g` has been cleaned up, whatever happens later, its results
      never reach the view: replaying the events with its settling removed
      gives the same state. */
  lemma {:induction false} StaleRunHasNoEffect(p: Policy, s: State, events: seq<Event>, g: nat)
    requires g < s.current
    ensures Replay(p, s, events) == Replay(p, s, WithoutRun(events, g))
    decreases |events|
  {
    if |events| > 0 {
      var t := Step(p, s, events[0]);
      StaleRunHasNoEffect(p, t, events[1..], g);
      if events[0].Settled? && events[0].run == g {
        assert t == s;
      } else {
        var w := WithoutRun(events, g);
        assert w == [events[0]] + Filter(events[1..], NotRun(g));
        assert w[1..] == WithoutRun(events[1..], g);
      }
    }
  }

  /** Whichever of two overlapping runs settles first, the view ends up with
      the later selection's result only. */
  lemma LastSelectionWins(p: Policy, s: State, first: seq<string>, second: seq<string>,
                          r1: seq<Response>, r2: seq<Response>)
    ensures var g1 := s.current + 1;
      var g2 := s.current + 2;
      var expected := Replay(p, s, [Change(first), Change(second), Settled(g2, r2)]);
      && Replay(p, s, [Change(first), Change(second), Settled(g1, r1), Settled(g2, r2)]) == expected
      && Replay(p, s, [Change(first), Change(second), Settled(g2, r2), Settled(g1, r1)]) == expected
  {
    var s1 := Step(p, s, Change(first));
    var s2 := Step(p, s1, Change(second));
    var done := Settle(s2, s.current + 2, r2);
    assert s1.current == s.current + 1 && s2.current == s.current + 2;
    ReplayThree(p, s, Change(first), Change(second), Settled(s.current + 2, r2));
    ReplayFour(p, s, Change(first), Change(second), Settled(s.current + 1, r1), Settled(s.current + 2, r2));
    ReplayFour(p, s, Change(first), Change(second), Settled(s.current + 2, r2), Settled(s.current + 1, r1));
  }

  /** A non-empty selection's own run, settling before anything else
      happens, reaches the view: loading ends, and the view shows either the
      intersection of the received lists or the error message. */
  lemma CurrentRunSettles(p: Policy, s: State, selected: seq<string>, rs: seq<Response>)
    requires |selected| > 0
    ensures var t := Replay(p, s, [Change(selected), Settled(s.current + 1, rs)]);
      && !t.view.loading && !t.running
      && (AnyFailed(rs) || |rs| == 0 ==> t.view.error == MealsError && t.view.meals == s.view.meals)
      && (!AnyFailed(rs) && |rs| > 0 ==> t.view.error == "" && t.view.meals == Intersect(Lists(rs)))
  {
    var s1 := Step(p, s, Change(selected));
    assert s1 == Select(s, selected).state;
    ReplayTwo(p, s, Change(selected), Settled(s.current + 1, rs));
  }

  /** Unmounting cleans up the run in flight: whatever follows, its settling
      has no effect. */
  lemma UnmountSilencesRun(p: Policy, s: State, events: seq<Event>)
    ensures Replay(p, s, [Unmount] + events) == Replay(p, s, [Unmount] + WithoutRun(events, s.current))
  {
    var t := Step(p, s, Unmount);
    assert ([Unmount] + events)[1..] == events;
    assert ([Unmount] + WithoutRun(events, s.current))[1..] == WithoutRun(events, s.current);
    StaleRunHasNoEffect(p, t, events, s.current);
  }

  lemma ReplayTwo(p: Policy, s: State, a: Event, b: Event)
    ensures Replay(p, s, [a, b]) == Step(p, Step(p, s, a), b)
  {
    assert [a, b][1..] == [b] && [b][1..] == [];
    var s1 := Step(p, s, a);
    assert Replay(p, s1, [b]) == Replay(p, Step(p, s1, b), []);
  }

  lemma ReplayThree(p: Policy, s: State, a: Event, b: Event, c: Event)
    ensures Replay(p, s, [a, b, c]) == Step(p, Step(p, Step(p, s, a), b), c)
  {
    assert [a, b, c][1..] == [b, c] && [b, c][1..] == [c] && [c][1..] == [];
    var s1 := Step(p, s, a);
    var s2 := Step(p, s1, b);
    assert Replay(p, s2, [c]) == Replay(p, Step(p, s2, c), []);
    assert Replay(p, s1, [b, c]) == Replay(p, s2, [c]);
  }

  lemma ReplayFour(p: Policy, s: State, a: Event, b: Event, c: Event, d: Event)
    ensures Replay(p, s, [a, b, c, d]) == Step(p, Step(p, Step(p, Step(p, s, a), b), c), d)
  {
    assert [a, b, c, d][1..] == [b, c, d];
    ReplayThree(p, Step(p, s, a), b, c, d);
  }

  /** As written, clearing the selection while a run is loading leaves the
      loading indicator on after that run settles: the run is ignored, so its
      `finally` does not turn loading off, and the empty-selection branch does
      not either. Only the settling of a later non-empty selection's run
      turns it off. */
  lemma LoadingOutlivesClearedSelection(responses: seq<Response>)
    ensures Replay(AsWritten, Initial, [Change(["Chicken"]), Change([]), Settled(1, responses)]).view
      == View([], "", true)
  {
    var s1 := Select(Initial, ["Chicken"]).state;
    var s2 := Select(s1, []).state;
    assert s2 == State(View([], "", true), 2, false);
    assert Settle(s2, 1, responses) == s2;
    ReplayThree(AsWritten, Initial, Change(["Chicken"]), Change([]), Settled(1, responses));
  }

  /** An idle view with no run in flight stays idle until the selection changes. */
  lemma {:induction false} IdleStaysIdle(p: Policy, s: State, events: seq<Event>)
    requires s.view == View([], "", false) && !s.running
    requires forall i :: 0 <= i < |events| ==> !events[i].Change?
    ensures Replay(p, s, events).view == View([], "", false)
    decreases |events|
  {
    if |events| > 0 {
      IdleStaysIdle(p, Step(p, s, events[0]), events[1..]);
    }
  }

  /** With the corrected empty case, after the selection is cleared the view
      shows no meals, no error and no loading indicator until the selection
      changes again, whatever superseded runs settle meanwhile. */
  lemma ClearedSelectionStaysIdle(s: State, events: seq<Event>)
    requires forall i :: 0 <= i < |events| ==> !events[i].Change?
    ensures Replay(Clearing, s, [Change([])] + events).view == View([], "", false)
  {
    var evs := [Change([])] + events;
    assert evs[1..] == events;
    IdleStaysIdle(Clearing, SelectClearing(s, []).state, events);
  }
}
