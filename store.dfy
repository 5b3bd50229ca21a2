/** The date-keyed task store (`allTodos`) and the five handlers that change
    it. Each handler reads the selected date's list (an absent date reads as
    the empty list), builds a new list, and writes back
    `{...allTodos, [selectedDate]: updatedTodos}`: the selected date is
    (re)bound, even when it was absent, and every other date is kept. */
module TaskStore {
  import opened Tasks
  import opened Text

  /** Date-key ("YYYY-MM-DD") to the tasks of that date, in insertion order. */
  type Store = map<string, seq<Task>>

  /** `allTodos[selectedDate] || []`. */
  function TodosFor(s: Store, date: string): seq<Task> {
    if date in s then s[date] else []
  }

  /** `r` is `s` with `date` bound to `ts`: the date's key exists afterwards,
      no other key appears or disappears, and every other date keeps its list. */
  ghost predicate Replaces(s: Store, r: Store, date: string, ts: seq<Task>) {
    && r.Keys == s.Keys + {date}
    && r[date] == ts
    && forall d :: d in s && d != date ==> r[d] == s[d]
  }

  /** The toast `handleAdd` raises. */
  datatype Notice = TaskAdded | PleaseEnterTask

  datatype AddResult = AddResult(store: Store, notice: Notice)

  /** `handleAdd`: a text that is not blank is appended, untrimmed, as a
      fresh task with every flag false, at the end of the date's list;
      a blank text leaves the store as it was and raises the error notice. */
  function Add(s: Store, date: string, id: int, text: string, time: string): (r: AddResult)
    ensures r.notice == TaskAdded <==> !IsBlank(text)
    ensures r.notice == PleaseEnterTask ==> r.store == s
    ensures r.notice == TaskAdded ==>
      Replaces(s, r.store, date, TodosFor(s, date) + [NewTask(id, text, time)])
  {
    if Trim(text) != [] then
      AddResult(s[date := TodosFor(s, date) + [NewTask(id, text, time)]], TaskAdded)
    else
      AddResult(s, PleaseEnterTask)
  }

  /** `handleToggle`: the date's list with `completed` flipped on the tasks
      carrying `id`. */
  function Toggle(s: Store, date: string, id: int): (r: Store)
    ensures Replaces(s, r, date, ToggleCompleted(TodosFor(s, date), id))
  {
    s[date := ToggleCompleted(TodosFor(s, date), id)]
  }

  /** `handleDelete`: the date's list without the tasks carrying `id`. */
  function Delete(s: Store, date: string, id: int): (r: Store)
    ensures Replaces(s, r, date, RemoveById(TodosFor(s, date), id))
  {
    s[date := RemoveById(TodosFor(s, date), id)]
  }

  /** `handleEdit`: the date's list with `text` replaced on the tasks
      carrying `id`. */
  function Edit(s: Store, date: string, id: int, value: string): (r: Store)
    ensures Replaces(s, r, date, EditText(TodosFor(s, date), id, value))
  {
    s[date := EditText(TodosFor(s, date), id, value)]
  }

  /** `handleEditMode`: the date's list with `editing` set to `mode` on the
      tasks carrying `id` and cleared on all others. */
  function EditMode(s: Store, date: string, id: int, mode: bool): (r: Store)
    ensures Replaces(s, r, date, SetEditing(TodosFor(s, date), id, mode))
  {
    s[date := SetEditing(TodosFor(s, date), id, mode)]
  }

  /** Every date's list has unique ids. */
  predicate UniqueIdsPerDate(s: Store) {
    forall d :: d in s ==> UniqueIds(s[d])
  }

  /** Toggling the same task twice on a date that exists restores the store;
      on an absent date it only adds the date with an empty list. */
  lemma ToggleTwiceRestores(s: Store, date: string, id: int)
    ensures Toggle(Toggle(s, date, id), date, id) == s[date := TodosFor(s, date)]
    ensures date in s ==> Toggle(Toggle(s, date, id), date, id) == s
  {
    ToggleTwice(TodosFor(s, date), id);
  }

  /** Deleting an id that the date's list does not carry leaves that list as
      it was. */
  lemma DeleteMissingRestores(s: Store, date: string, id: int)
    requires !HasId(TodosFor(s, date), id)
    ensures Delete(s, date, id) == s[date := TodosFor(s, date)]
  {
    RemoveMissing(TodosFor(s, date), id);
  }

  /** Every handler keeps ids unique on every date, whatever id toggle,
      delete, edit and edit mode target, provided the id `newId` that
      `handleAdd` takes from the clock is new on the selected date. */
  lemma HandlersKeepUniqueIds(s: Store, date: string, newId: int, text: string, time: string,
                              id: int, value: string, mode: bool)
    requires UniqueIdsPerDate(s)
    requires !HasId(TodosFor(s, date), newId)
    ensures UniqueIdsPerDate(Add(s, date, newId, text, time).store)
    ensures UniqueIdsPerDate(Toggle(s, date, id))
    ensures UniqueIdsPerDate(Delete(s, date, id))
    ensures UniqueIdsPerDate(Edit(s, date, id, value))
    ensures UniqueIdsPerDate(EditMode(s, date, id, mode))
  {
    var ts := TodosFor(s, date);
    UpdatesKeepUniqueIds(ts, id, value, mode);
    AppendKeepsUniqueIds(ts, NewTask(newId, text, time));
  }

  /** A blank text is refused by `handleAdd` but accepted by `handleEdit`:
      editing can leave a task with an empty or whitespace-only text. */
  lemma BlankTextRefusedByAddAcceptedByEdit(s: Store, date: string, id: int, time: string,
                                            value: string)
    requires IsBlank(value)
    ensures Add(s, date, id, value, time) == AddResult(s, PleaseEnterTask)
    ensures var ts := TodosFor(s, date);
      forall i :: 0 <= i < |ts| && ts[i].id == id ==> Edit(s, date, id, value)[date][i].text == value
  {
  }

  /** Adding with a well-formed text, from an empty store: the store then
      holds exactly the one new task under that date. */
  lemma AddToEmptyStore(date: string, id: int, text: string, time: string)
    requires !IsBlank(text)
    ensures Add(map[], date, id, text, time).store == map[date := [NewTask(id, text, time)]]
  {
    var r := Add(map[], date, id, text, time);
    assert r.notice == TaskAdded;
    assert TodosFor(map[], date) + [NewTask(id, text, time)] == [NewTask(id, text, time)];
    assert r.store.Keys == {date};
  }
}
