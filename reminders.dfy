/** One tick of the reminder interval: walk today's list, and for every task
    scheduled for the current minute that has not been notified yet, show a
    reminder with its text and mark it notified in place. Today's date-key,
    the current "HH:MM" minute and whether notifications are permitted are
    parameters. */
module Reminders {
  import opened Tasks
  import opened TaskStore

  /** A task the scan fires for at minute `now`. */
  predicate Due(t: Task, now: string) {
    t.time == now && !t.notified
  }

  /** Today's list after one scan: a task gets `notified` set exactly when
      it is due; nothing else about any task changes. */
  function Marked(ts: seq<Task>, now: string): (r: seq<Task>)
    ensures |r| == |ts|
    ensures forall i :: 0 <= i < |ts| ==>
      r[i] == ts[i].(notified := ts[i].notified || ts[i].time == now)
  {
    if ts == [] then []
    else [if Due(ts[0], now) then ts[0].(notified := true) else ts[0]] + Marked(ts[1..], now)
  }

  /** The texts the scan passes to `showReminder`, one per due task, in list
      order. */
  function DueTexts(ts: seq<Task>, now: string): (r: seq<string>)
  {
    if ts == [] then []
    else (if Due(ts[0], now) then [ts[0].text] else []) + DueTexts(ts[1..], now)
  }

  /** The store after one scan: `setAllTodos` runs only when some task fired,
      and then rebinds today's date to the marked list. */
  function ScanStore(s: Store, today: string, now: string): (r: Store)
    ensures DueTexts(TodosFor(s, today), now) == [] ==> r == s
    ensures DueTexts(TodosFor(s, today), now) != [] ==>
      Replaces(s, r, today, Marked(TodosFor(s, today), now))
  {
    var ts := TodosFor(s, today);
    if DueTexts(ts, now) == [] then s else s[today := Marked(ts, now)]
  }

  /** The scan shows no reminder exactly when no task of the list is due. */
  lemma {:induction false} NoReminderIffNoneDue(ts: seq<Task>, now: string)
    ensures DueTexts(ts, now) == [] <==> forall i :: 0 <= i < |ts| ==> !Due(ts[i], now)
  {
    if ts != [] {
      NoReminderIffNoneDue(ts[1..], now);
      assert forall i :: 1 <= i < |ts| ==> ts[i] == ts[1..][i - 1];
    }
  }

  /** The tasks the scan fires for, in list order, each as many times as
      the list holds it. */
  function DueTasks(ts: seq<Task>, now: string): (r: seq<Task>)
    ensures IsSubsequence(r, ts)
    ensures forall t :: multiset(r)[t] == if Due(t, now) then multiset(ts)[t] else 0
  {
    if ts == [] then []
    else
      assert ts == [ts[0]] + ts[1..];
      if Due(ts[0], now) then [ts[0]] + DueTasks(ts[1..], now)
      else DueTasks(ts[1..], now)
  }

  /** The k-th reminder is the text of the k-th due task. */
  lemma {:induction false} DueTextsInOrder(ts: seq<Task>, now: string)
    ensures |DueTexts(ts, now)| == |DueTasks(ts, now)| <= |ts|
    ensures forall k :: 0 <= k < |DueTexts(ts, now)| ==>
      DueTexts(ts, now)[k] == DueTasks(ts, now)[k].text
  {
    if ts != [] {
      var tail := ts[1..];
      DueTextsInOrder(tail, now);
      var texts, tasks := DueTexts(tail, now), DueTasks(tail, now);
      if Due(ts[0], now) {
        assert DueTexts(ts, now) == [ts[0].text] + texts;
        assert DueTasks(ts, now) == [ts[0]] + tasks;
      }
    }
  }

  /** Every due task's text is shown, and every shown text is a due task's. */
  lemma {:induction false} DueTextsMembership(ts: seq<Task>, now: string)
    ensures forall i :: 0 <= i < |ts| && Due(ts[i], now) ==> ts[i].text in DueTexts(ts, now)
    ensures forall x :: x in DueTexts(ts, now) ==>
      exists i :: 0 <= i < |ts| && Due(ts[i], now) && ts[i].text == x
  {
    if ts != [] {
      var tail := ts[1..];
      DueTextsMembership(tail, now);
      var head := if Due(ts[0], now) then [ts[0].text] else [];
      assert DueTexts(ts, now) == head + DueTexts(tail, now);
      forall i | 1 <= i < |ts| && Due(ts[i], now) ensures ts[i].text in DueTexts(ts, now) {
        assert tail[i - 1] == ts[i];
      }
      forall x | x in DueTexts(ts, now)
        ensures exists i :: 0 <= i < |ts| && Due(ts[i], now) && ts[i].text == x
      {
        if x !in head {
          var k :| 0 <= k < |tail| && Due(tail[k], now) && tail[k].text == x;
          assert ts[k + 1] == tail[k];
        }
      }
    }
  }

  /** The scan shows exactly one reminder per due task, in list order: there
      are as many reminders as due tasks, the k-th reminder is the text of
      the k-th due task, every due task's text is shown, and every shown
      text is a due task's. */
  lemma DueTextsAreDueTasks(ts: seq<Task>, now: string)
    ensures |DueTexts(ts, now)| == |DueTasks(ts, now)| <= |ts|
    ensures forall k :: 0 <= k < |DueTexts(ts, now)| ==>
      DueTexts(ts, now)[k] == DueTasks(ts, now)[k].text
    ensures forall i :: 0 <= i < |ts| && Due(ts[i], now) ==> ts[i].text in DueTexts(ts, now)
    ensures forall x :: x in DueTexts(ts, now) ==>
      exists i :: 0 <= i < |ts| && Due(ts[i], now) && ts[i].text == x
  {
    DueTextsInOrder(ts, now);
    DueTextsMembership(ts, now);
  }

  lemma {:induction false} DueTextsAppend(ts: seq<Task>, t: Task, now: string)
    ensures DueTexts(ts + [t], now) == DueTexts(ts, now) + DueTexts([t], now)
  {
    if ts == [] {
      assert ts + [t] == [t];
    } else {
      assert (ts + [t])[1..] == ts[1..] + [t];
      DueTextsAppend(ts[1..], t, now);
    }
  }

  /** The `forEach` loop: marks the due tasks of `a` in place and collects
      the reminders it shows; `fired` tells whether any task fired, that is
      whether `setAllTodos` was called. */
  method MarkDue(a: array<Task>, now: string, granted: bool)
    returns (fired: bool, shown: seq<string>)
    modifies a
    ensures a[..] == Marked(old(a[..]), now)
    ensures fired <==> DueTexts(old(a[..]), now) != []
    ensures shown == if granted then DueTexts(old(a[..]), now) else []
  {
    ghost var todos := a[..];
    ghost var marked := Marked(todos, now);
    fired := false;
    shown := [];
    for i := 0 to a.Length
      invariant forall k :: 0 <= k < i ==> a[k] == marked[k]
      invariant forall k :: i <= k < a.Length ==> a[k] == todos[k]
      invariant fired <==> DueTexts(todos[..i], now) != []
      invariant shown == if granted then DueTexts(todos[..i], now) else []
    {
      assert todos[..i + 1] == todos[..i] + [todos[i]];
      DueTextsAppend(todos[..i], todos[i], now);
      if a[i].time == now && !a[i].notified {
        if granted {
          shown := shown + [a[i].text];
        }
        a[i] := a[i].(notified := true);
        fired := true;
      }
    }
    assert todos[..a.Length] == todos;
    assert a[..] == marked;
  }

  /** The interval callback's body: today's tasks are copied into an array,
      marked in place, and written back only when some task fired. */
  method Tick(s: Store, today: string, now: string, granted: bool)
    returns (next: Store, shown: seq<string>)
    ensures next == ScanStore(s, today, now)
    ensures shown == if granted then DueTexts(TodosFor(s, today), now) else []
  {
    var todos := TodosFor(s, today);
    var a := new Task[|todos|](i requires 0 <= i < |todos| => todos[i]);
    assert a[..] == todos;
    var fired;
    fired, shown := MarkDue(a, now, granted);
    if fired {
      next := s[today := a[..]];
    } else {
      next := s;
    }
  }

  /** A second scan in the same minute fires nothing and changes nothing. */
  lemma ScanIdempotent(s: Store, today: string, now: string)
    ensures DueTexts(TodosFor(ScanStore(s, today, now), today), now) == []
    ensures ScanStore(ScanStore(s, today, now), today, now) == ScanStore(s, today, now)
  {
    var ts := TodosFor(s, today);
    var m := Marked(ts, now);
    assert forall i :: 0 <= i < |m| ==> !Due(m[i], now);
    NoReminderIffNoneDue(m, now);
  }

  /** A task that fired at minute `now` is notified afterwards, so no later
      scan, at any minute, fires it again. */
  lemma FiredTaskStaysQuiet(ts: seq<Task>, now: string, later: string, i: int)
    requires 0 <= i < |ts| && Due(ts[i], now)
    ensures Marked(ts, now)[i].notified
    ensures !Due(Marked(ts, now)[i], later)
  {
  }
}
