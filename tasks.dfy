/** A task record and the per-list updates that the to-do list's handlers
    apply to the selected date's list (`todos.map(...)`, `todos.filter(...)`).
    Each update builds a new list; none changes a record in place. */
module Tasks {

  /** One to-do entry. `id` is the creation timestamp, `time` an "HH:MM"
      string or empty. */
  datatype Task = Task(
    id: int,
    text: string,
    time: string,
    completed: bool,
    editing: bool,
    notified: bool)

  /** The record `handleAdd` builds: every flag starts out false. */
  function NewTask(id: int, text: string, time: string): Task {
    Task(id, text, time, false, false, false)
  }

  /** No two tasks of a list share an id. The source takes ids from the
      clock and never checks this; it is an assumption about the clock. */
  predicate UniqueIds(ts: seq<Task>) {
    forall i, j :: 0 <= i < j < |ts| ==> ts[i].id != ts[j].id
  }

  /** Some task of the list carries `id`. */
  predicate HasId(ts: seq<Task>, id: int) {
    exists i :: 0 <= i < |ts| && ts[i].id == id
  }

  /** Number of tasks of the list that carry `id`. */
  function CountId(ts: seq<Task>, id: int): nat {
    if ts == [] then 0 else (if ts[0].id == id then 1 else 0) + CountId(ts[1..], id)
  }

  /** `a` is `b` with some elements dropped and the rest in their order. */
  ghost predicate IsSubsequence<T>(a: seq<T>, b: seq<T>)
    decreases |b|
  {
    || a == []
    || (b != [] && ((a[0] == b[0] && IsSubsequence(a[1..], b[1..])) || IsSubsequence(a, b[1..])))
  }

  /** `handleToggle` (map step): flips `completed` on the tasks with the
      given id; every other field, and every other task, is kept. */
  function ToggleCompleted(ts: seq<Task>, id: int): (r: seq<Task>)
    ensures |r| == |ts|
    ensures forall i :: 0 <= i < |ts| ==>
      r[i] == ts[i].(completed := ts[i].completed != (ts[i].id == id))
  {
    if ts == [] then []
    else
      var t := ts[0];
      [if t.id == id then t.(completed := !t.completed) else t] + ToggleCompleted(ts[1..], id)
  }

  /** `handleDelete` (filter step): keeps, in their order, exactly the tasks
      whose id differs from `id`. */
  function RemoveById(ts: seq<Task>, id: int): (r: seq<Task>)
    ensures IsSubsequence(r, ts)
    ensures forall t :: t in r <==> t in ts && t.id != id
    ensures |r| == |ts| - CountId(ts, id)
  {
    if ts == [] then []
    else if ts[0].id == id then RemoveById(ts[1..], id)
    else [ts[0]] + RemoveById(ts[1..], id)
  }

  /** `handleEdit` (map step): replaces `text` on the tasks with the given id,
      with no check that the new text is non-empty. */
  function EditText(ts: seq<Task>, id: int, value: string): (r: seq<Task>)
    ensures |r| == |ts|
    ensures forall i :: 0 <= i < |ts| ==>
      r[i] == ts[i].(text := if ts[i].id == id then value else ts[i].text)
  {
    if ts == [] then []
    else
      var t := ts[0];
      [if t.id == id then t.(text := value) else t] + EditText(ts[1..], id, value)
  }

  /** `handleEditMode` (map step): the tasks with the given id get
      `editing == mode`, every other task gets `editing == false`. */
  function SetEditing(ts: seq<Task>, id: int, mode: bool): (r: seq<Task>)
    ensures |r| == |ts|
    ensures forall i :: 0 <= i < |ts| ==>
      r[i] == ts[i].(editing := ts[i].id == id && mode)
  {
    if ts == [] then []
    else
      var t := ts[0];
      (if t.id == id then [t.(editing := mode)] else [t.(editing := false)])
        + SetEditing(ts[1..], id, mode)
  }

  /** Toggling the same id twice gives back the original list. */
  lemma ToggleTwice(ts: seq<Task>, id: int)
    ensures ToggleCompleted(ToggleCompleted(ts, id), id) == ts
  {
    var r := ToggleCompleted(ToggleCompleted(ts, id), id);
    assert forall i :: 0 <= i < |ts| ==> r[i] == ts[i];
  }

  /** Toggling an id that no task carries changes nothing. */
  lemma ToggleMissing(ts: seq<Task>, id: int)
    requires !HasId(ts, id)
    ensures ToggleCompleted(ts, id) == ts
  {
    var r := ToggleCompleted(ts, id);
    assert forall i :: 0 <= i < |ts| ==> r[i] == ts[i];
  }

  /** Deleting an id that no task carries changes nothing. */
  lemma {:induction false} RemoveMissing(ts: seq<Task>, id: int)
    requires !HasId(ts, id)
    ensures RemoveById(ts, id) == ts
  {
    if ts != [] {
      assert !HasId(ts[1..], id) by {
        forall i | 0 <= i < |ts[1..]| ensures ts[1..][i].id != id {
          assert ts[1..][i] == ts[i + 1];
        }
      }
      RemoveMissing(ts[1..], id);
      assert ts[0].id != id;
      assert ts == [ts[0]] + ts[1..];
    }
  }

  /** With unique ids, an id that is present is carried by exactly one task. */
  lemma {:induction false} CountUnique(ts: seq<Task>, id: int)
    requires UniqueIds(ts)
    ensures CountId(ts, id) == if HasId(ts, id) then 1 else 0
  {
    if ts != [] {
      var tail := ts[1..];
      assert UniqueIds(tail) by {
        forall i, j | 0 <= i < j < |tail| ensures tail[i].id != tail[j].id {
          assert tail[i] == ts[i + 1] && tail[j] == ts[j + 1];
        }
      }
      CountUnique(tail, id);
      assert HasId(tail, id) ==> ts[0].id != id by {
        if HasId(tail, id) {
          var k :| 0 <= k < |tail| && tail[k].id == id;
          assert ts[k + 1].id == id;
        }
      }
      assert HasId(ts, id) <==> ts[0].id == id || HasId(tail, id) by {
        if HasId(ts, id) && ts[0].id != id {
          var k :| 0 <= k < |ts| && ts[k].id == id;
          assert tail[k - 1].id == id;
        }
        if HasId(tail, id) {
          var k :| 0 <= k < |tail| && tail[k].id == id;
          assert ts[k + 1].id == id;
        }
      }
    }
  }

  /** With unique ids, deleting a present id removes exactly one task. */
  lemma RemoveUniqueDropsOne(ts: seq<Task>, id: int)
    requires UniqueIds(ts) && HasId(ts, id)
    ensures |RemoveById(ts, id)| == |ts| - 1
  {
    CountUnique(ts, id);
  }

  /** A subsequence of a list with unique ids has unique ids. */
  lemma {:induction false} SubsequenceKeepsUniqueIds(a: seq<Task>, b: seq<Task>)
    requires IsSubsequence(a, b) && UniqueIds(b)
    ensures UniqueIds(a)
    decreases |b|
  {
    if a != [] {
      var tb := b[1..];
      assert UniqueIds(tb) by {
        forall i, j | 0 <= i < j < |tb| ensures tb[i].id != tb[j].id {
          assert tb[i] == b[i + 1] && tb[j] == b[j + 1];
        }
      }
      if a[0] == b[0] && IsSubsequence(a[1..], tb) {
        SubsequenceKeepsUniqueIds(a[1..], tb);
        SubsequenceElements(a[1..], tb);
        forall i, j | 0 <= i < j < |a| ensures a[i].id != a[j].id {
          if i == 0 {
            assert a[j] == a[1..][j - 1] && a[j] in a[1..];
            var k :| 0 <= k < |tb| && tb[k] == a[j];
            assert b[k + 1] == a[j];
          } else {
            assert a[i] == a[1..][i - 1] && a[j] == a[1..][j - 1];
          }
        }
      } else {
        SubsequenceKeepsUniqueIds(a, tb);
      }
    }
  }

  /** Every element of a subsequence is an element of the whole. */
  lemma {:induction false} SubsequenceElements<T>(a: seq<T>, b: seq<T>)
    requires IsSubsequence(a, b)
    ensures forall x :: x in a ==> x in b
    decreases |b|
  {
    if a != [] {
      if a[0] == b[0] && IsSubsequence(a[1..], b[1..]) {
        SubsequenceElements(a[1..], b[1..]);
        assert a == [a[0]] + a[1..];
      } else {
        SubsequenceElements(a, b[1..]);
      }
      assert b == [b[0]] + b[1..];
    }
  }

  /** Toggling, editing and entering edit mode keep the ids, so they keep
      ids unique; so does deleting. */
  lemma UpdatesKeepUniqueIds(ts: seq<Task>, id: int, value: string, mode: bool)
    requires UniqueIds(ts)
    ensures UniqueIds(ToggleCompleted(ts, id))
    ensures UniqueIds(EditText(ts, id, value))
    ensures UniqueIds(SetEditing(ts, id, mode))
    ensures UniqueIds(RemoveById(ts, id))
  {
    SubsequenceKeepsUniqueIds(RemoveById(ts, id), ts);
  }

  /** Appending a task whose id is new keeps ids unique. */
  lemma AppendKeepsUniqueIds(ts: seq<Task>, t: Task)
    requires UniqueIds(ts) && !HasId(ts, t.id)
    ensures UniqueIds(ts + [t])
  {
  }

  /** With unique ids, at most one task is in edit mode after
      `handleEditMode`, and if one is, it carries `id`. */
  lemma AtMostOneEditing(ts: seq<Task>, id: int, mode: bool)
    requires UniqueIds(ts)
    ensures var r := SetEditing(ts, id, mode);
      forall i, j :: 0 <= i < |r| && 0 <= j < |r| && r[i].editing && r[j].editing ==> i == j
    ensures var r := SetEditing(ts, id, mode);
      forall i :: 0 <= i < |r| && r[i].editing ==> ts[i].id == id
  {
  }

  /** Entering edit mode on task `a` and then on task `b` leaves only the
      tasks carrying `b` in edit mode. */
  lemma EditModeLastWins(ts: seq<Task>, a: int, b: int)
    ensures forall i :: 0 <= i < |ts| ==>
      SetEditing(SetEditing(ts, a, true), b, true)[i].editing == (ts[i].id == b)
  {
  }
}
