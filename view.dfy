/** The displayed list (`filteredTodos`): the selected date's tasks that
    pass the status filter and whose text contains the search term, ignoring
    case, in their stored order. */
module View {
  import opened Tasks
  import opened Text
  import opened TaskStore

  /** The three status filters the filter buttons set. */
  datatype FilterMode = All | Active | Completed

  /** `matchesFilter`. */
  predicate MatchesFilter(mode: FilterMode, t: Task) {
    match mode
    case All => true
    case Active => !t.completed
    case Completed => t.completed
  }

  /** `matchesSearch`: the lower-cased text includes the lower-cased term. */
  predicate MatchesSearch(t: Task, term: string) {
    Contains(ToLower(t.text), ToLower(term))
  }

  /** `todos.filter(...)`: keeps, in their order, exactly the tasks that
      match both the status filter and the search term, each as many times
      as the list holds it. */
  function Filtered(ts: seq<Task>, mode: FilterMode, term: string): (r: seq<Task>)
    ensures IsSubsequence(r, ts)
    ensures forall t :: t in r <==> t in ts && MatchesFilter(mode, t) && MatchesSearch(t, term)
    ensures forall t ::
      multiset(r)[t] == if MatchesFilter(mode, t) && MatchesSearch(t, term) then multiset(ts)[t] else 0
  {
    if ts == [] then []
    else
      assert ts == [ts[0]] + ts[1..];
      if MatchesFilter(mode, ts[0]) && MatchesSearch(ts[0], term) then
        [ts[0]] + Filtered(ts[1..], mode, term)
      else
        Filtered(ts[1..], mode, term)
  }

  /** The list shown for the selected date (`allTodos[selectedDate] || []`,
      filtered): a date with no list shows nothing, and otherwise the shown
      tasks are drawn, in order, from that date's list alone. */
  function Displayed(s: Store, date: string, mode: FilterMode, term: string): (r: seq<Task>)
    ensures date !in s ==> r == []
    ensures date in s ==> IsSubsequence(r, s[date])
  {
    Filtered(TodosFor(s, date), mode, term)
  }

  /** A task matches the search exactly when the lower-cased term occurs
      somewhere in the lower-cased text. */
  lemma SearchMatchesIffOccurs(t: Task, term: string)
    ensures MatchesSearch(t, term) ==> exists i :: OccursAt(ToLower(t.text), ToLower(term), i)
    ensures (exists i :: OccursAt(ToLower(t.text), ToLower(term), i)) ==> MatchesSearch(t, term)
  {
    ContainsIffOccurs(ToLower(t.text), ToLower(term));
  }

  /** With the `all` filter and an empty search term, the whole list is
      shown, in its order. */
  lemma {:induction false} AllWithEmptySearchShowsEverything(ts: seq<Task>)
    ensures Filtered(ts, All, "") == ts
  {
    if ts != [] {
      ContainsEmpty(ToLower(ts[0].text));
      AllWithEmptySearchShowsEverything(ts[1..]);
      assert ts == [ts[0]] + ts[1..];
    }
  }

  /** Under one search term, `active` and `completed` split the tasks that
      `all` shows: no task is in both, and together they hold each of them
      as often as `all` does. */
  lemma {:induction false} ActiveCompletedPartition(ts: seq<Task>, term: string)
    ensures multiset(Filtered(ts, Active, term)) + multiset(Filtered(ts, Completed, term))
         == multiset(Filtered(ts, All, term))
    ensures forall t :: !(t in Filtered(ts, Active, term) && t in Filtered(ts, Completed, term))
  {
    if ts != [] {
      ActiveCompletedPartition(ts[1..], term);
    }
  }

  /** The search ignores the case of the term: searching for a term and for
      its lower-cased form shows the same list. */
  lemma {:induction false} SearchIgnoresTermCase(ts: seq<Task>, mode: FilterMode, term: string)
    ensures Filtered(ts, mode, term) == Filtered(ts, mode, ToLower(term))
  {
    ToLowerIdempotent(term);
    if ts != [] {
      SearchIgnoresTermCase(ts[1..], mode, term);
    }
  }

  /** Searching "Buy" finds the task "buy milk". */
  lemma BuyMatchesBuyMilk(id: int, time: string)
    ensures MatchesSearch(Task(id, "buy milk", time, false, false, false), "Buy")
  {
    assert ToLower("Buy") == "buy";
    assert ToLower("buy milk")[..3] == "buy";
  }
}
