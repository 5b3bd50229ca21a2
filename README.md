# Daily to-do list: a Dafny model of its task store

The application is a single-page daily to-do list. It keeps one store,
`allTodos`, that maps a date-key ("YYYY-MM-DD") to the ordered list of that
day's tasks. Each task has an `id`, a `text`, an optional "HH:MM" `time` and
three flags: `completed`, `editing` and `notified`. The user's handlers add,
toggle, delete, edit and put tasks into edit mode on the selected date. The
displayed list is a filter of that date's tasks by status and by a
case-insensitive search. A one-minute interval fires a reminder for every
task of today that is scheduled for the current minute and not yet notified,
and marks it notified. A "past records" view lists the dates that have tasks
and shows them newest date first.

The model has six modules, one per concern of `src/App.jsx`:

- `Text` (text.dfy) holds the JavaScript string operations the logic depends
  on. These are `trim` with the exact ECMAScript whitespace set,
  `toLowerCase` restricted to ASCII letters, and `includes`.
- `Tasks` (tasks.dfy) holds the task record and the per-list steps of the
  handlers (`todos.map(...)`, `todos.filter(...)`) as recursive functions,
  with their laws: involution, "missing id changes nothing", unique ids kept,
  and at most one task in edit mode.
- `TaskStore` (store.dfy) holds the store as `map<string, seq<Task>>` and the
  five handlers as functions. Every handler call that changes the store
  rebinds the selected date (creating it when absent) and leaves every other
  date untouched. An add with blank text is refused and leaves the store
  exactly as it was, without creating the date.
- `View` (view.dfy) holds the `filteredTodos` derivation. Its lemmas cover
  order-preserving selection, the identity case, the active/completed
  partition and case-insensitivity.
- `Reminders` (reminders.dfy) holds the interval callback. It is an
  imperative method that copies today's list into an array and marks the due
  tasks in place, as `todo.notified = true` does. It is proved against the
  specification functions `Marked`, `DueTexts` and `ScanStore`, and a lemma
  shows that a second scan in the same minute does nothing.
- `PastRecords` (past_records.dfy) holds the calendar overview and the
  newest-first "all past todos" view (an insertion sort). A lemma shows that
  string order on "YYYY-MM-DD" keys is (year, month, day) order.

The clock, today's date-key, the current minute, the id taken from
`Date.now()`, the notification permission and the key order that
`Object.entries` yields are all parameters. Neither the code nor the model
guarantees that ids are unique. The lemmas about unique ids take uniqueness
as a hypothesis.

## Model

| member | source | states |
|---|---|---|
| `Text.Trim` | src/App.jsx:62 | `trim()` returns the input with a whitespace-only prefix and a whitespace-only suffix removed (`StripsAt`), leaving a string that neither starts nor ends with whitespace; it is empty exactly when the input is whitespace only |
| `Text.ToLower` | src/App.jsx:115 | lower-casing keeps the length, maps each character through ASCII lower-casing and leaves no upper-case letter |
| `Text.ContainsIffOccurs` | src/App.jsx:115 | `Contains`, the model of `includes(sub)`, holds exactly when `sub` occurs at some index of the string |
| `Tasks.ToggleCompleted` | src/App.jsx:82-84 | same length; each task has `completed` flipped iff its id matches, and no other field or task changes |
| `Tasks.RemoveById` | src/App.jsx:89 | the result is an order-preserving subsequence holding exactly the tasks whose id differs, and its length drops by the number of matching tasks |
| `Tasks.EditText` | src/App.jsx:95-97 | same length; `text` is replaced (by any value, the empty string included) exactly on matching tasks, and nothing else changes |
| `Tasks.SetEditing` | src/App.jsx:103-105 | same length; each task gets `editing == (id matches && mode)`, and nothing else changes |
| `Tasks.ToggleTwice` | src/App.jsx:81-86 | toggling the same id twice restores the list |
| `Tasks.ToggleMissing` | src/App.jsx:82-84 | toggling an id that no task carries leaves the list unchanged |
| `Tasks.RemoveMissing` | src/App.jsx:89 | deleting an id that no task carries leaves the list unchanged |
| `Tasks.CountUnique` | src/App.jsx:64 | with unique ids, a present id is carried by exactly one task |
| `Tasks.RemoveUniqueDropsOne` | src/App.jsx:88-92 | with unique ids, deleting a present id removes exactly one task |
| `Tasks.SubsequenceKeepsUniqueIds` | src/App.jsx:89 | filtering a list with unique ids keeps them unique |
| `Tasks.UpdatesKeepUniqueIds` | src/App.jsx:81-107 | toggle, edit, edit-mode and delete all keep the ids of a list unique |
| `Tasks.AppendKeepsUniqueIds` | src/App.jsx:63-71 | appending a task with a new id keeps ids unique |
| `Tasks.AtMostOneEditing` | src/App.jsx:102-107 | with unique ids, after edit mode is set at most one task is editing, and it carries the given id |
| `Tasks.EditModeLastWins` | src/App.jsx:102-107 | entering edit mode on task A and then on task B leaves only B's tasks editing |
| `TaskStore.Add` | src/App.jsx:61-79 | non-blank text: the store equals the old one with the new task (`NewTask`: untrimmed text, all flags false) appended to the date's list (`TodosFor`: an absent date reads as empty, line 59, and is created); the success notice is raised; other dates are unchanged. Blank text: the store is unchanged and the error notice is raised |
| `TaskStore.Toggle` | src/App.jsx:81-86 | the date is rebound to the toggled list, and every other date keeps its list |
| `TaskStore.Delete` | src/App.jsx:88-92 | the date is rebound to the list without the id's tasks, and every other date keeps its list |
| `TaskStore.Edit` | src/App.jsx:94-100 | the date is rebound to the list with the new text on the id's tasks, and every other date keeps its list |
| `TaskStore.EditMode` | src/App.jsx:102-107 | the date is rebound to the list with edit mode set on the id's tasks and cleared elsewhere, and every other date keeps its list |
| `TaskStore.ToggleTwiceRestores` | src/App.jsx:81-86 | toggling twice restores the store when the date exists; otherwise it only adds the date with an empty list |
| `TaskStore.DeleteMissingRestores` | src/App.jsx:88-92 | deleting an absent id leaves the date's list unchanged |
| `TaskStore.HandlersKeepUniqueIds` | src/App.jsx:59-107 | every handler keeps ids unique on every date: toggle, delete, edit and edit mode for any target id, present or not, and `handleAdd` for a clock id that is new on the date |
| `TaskStore.BlankTextRefusedByAddAcceptedByEdit` | src/App.jsx:61-100 | a blank text is refused by `handleAdd` (store unchanged, error notice) but written by `handleEdit` onto the matching tasks |
| `TaskStore.AddToEmptyStore` | src/App.jsx:61-72 | adding to the empty store yields exactly one date bound to the one new task |
| `View.Filtered` | src/App.jsx:109-118 | the displayed list is an order-preserving subsequence of the date's list that holds each task matching both the status filter (`MatchesFilter`) and the search (`MatchesSearch`) exactly as many times as the list does, and no other task |
| `View.Displayed` | src/App.jsx:59 | the shown list is taken from the selected date's list, an absent date reading as empty: a date with no list shows nothing, and otherwise the shown tasks are drawn, in order, from that date's list alone |
| `View.SearchMatchesIffOccurs` | src/App.jsx:115 | a task matches the search iff the lower-cased term occurs in its lower-cased text |
| `View.AllWithEmptySearchShowsEverything` | src/App.jsx:109-118 | the `all` filter with an empty search shows the whole list, in order |
| `View.ActiveCompletedPartition` | src/App.jsx:110-113 | under one search term, `active` and `completed` are disjoint, and together (as multisets) they make up what `all` shows |
| `View.SearchIgnoresTermCase` | src/App.jsx:115 | searching for a term and for its lower-cased form shows the same list |
| `View.BuyMatchesBuyMilk` | src/App.jsx:115 | searching "Buy" matches the task text "buy milk" |
| `Reminders.Marked` | src/App.jsx:36-39 | after a scan, each task's `notified` is set iff it was due (time equals the current minute and not yet notified) or already set, and nothing else changes |
| `Reminders.DueTasks` | src/App.jsx:36-37 | the tasks the scan fires for (time equals the current minute, not yet notified) are an order-preserving subsequence of today's list holding each due task exactly as often as the list does, and no other task |
| `Reminders.DueTextsAreDueTasks` | src/App.jsx:36-38 | the texts passed to `showReminder` (`DueTexts`) are exactly one per due task, in list order: as many as there are due tasks, the k-th being the k-th due task's text; every due task's text is among them and each of them is a due task's |
| `Reminders.NoReminderIffNoneDue` | src/App.jsx:36-38 | the scan shows no reminder exactly when no task is due |
| `Reminders.ScanStore` | src/App.jsx:35-45 | if no task is due, the store is unchanged; otherwise today's date is rebound to the marked list and every other date keeps its list |
| `Reminders.MarkDue` | src/App.jsx:36-45 | the array is marked in place to `Marked` of its old contents; the flag says whether any task fired; the shown reminders are the due tasks' texts, in order, when permitted, and none otherwise |
| `Reminders.Tick` | src/App.jsx:31-46 | one tick yields `ScanStore`'s store and shows the due texts when permission is granted |
| `Reminders.ScanIdempotent` | src/App.jsx:35-45 | a second scan in the same minute shows nothing and changes nothing |
| `Reminders.FiredTaskStaysQuiet` | src/App.jsx:37-39 | a task that fired is notified afterwards, so it is never due again at any minute |
| `PastRecords.Overview` | src/App.jsx:212-226 | the overview lists, in enumeration order, exactly the dates with a non-empty list, each with its task count |
| `PastRecords.OverviewCoversNonEmptyDates` | src/App.jsx:212-226 | given an enumeration of the store, every date with a non-empty list appears, and no other |
| `PastRecords.Entries` | src/App.jsx:232 | `Object.entries` gives one (date, list) pair per enumerated date, in enumeration order, and no other pair |
| `PastRecords.NonEmpty` | src/App.jsx:235 | keeps, in order, each entry with a non-empty list as many times as it occurs, and no other entry |
| `PastRecords.Insert` | src/App.jsx:233 | inserting adds exactly the one entry (as a multiset) |
| `PastRecords.InsertNewestFirst` | src/App.jsx:233 | inserting into a newest-first list keeps it newest-first |
| `PastRecords.SortNewestFirst` | src/App.jsx:232-233 | the sort is a permutation of the entries with no date before a later one |
| `PastRecords.PastTodos` | src/App.jsx:232-252 | the view holds exactly the dates with a non-empty list, each once and with its full list, newest first |
| `PastRecords.NotBeforeTransitive` | src/App.jsx:233 | the comparison used by the sort is a total preorder (transitive) |
| `PastRecords.DigitsOrder` | src/App.jsx:233 | on equal-length digit strings, string order is numeric order |
| `PastRecords.DateKeyOrderIsCalendarOrder` | src/App.jsx:233 | on "YYYY-MM-DD" keys, string order is (year, month, day) order; on keys naming real calendar days that is the order of the `new Date(key)` values |

## Left out

- Persistence: `localStorage` and the JSON round trip (src/App.jsx:10-13, 21-23) are calls into the host. The store is a value here.
- React machinery: `useState`, `useEffect`, re-rendering, and the interval's capture of `allTodos` when the effect registers (src/App.jsx:29-49). The model scans the store it is given. In the source, the updater passed to `setAllTodos` takes the other dates from the latest state and today's list from the captured one.
- The source marks the shared task records in place and calls `setAllTodos` once per fired task. Every call writes the same fully marked list. The model writes that list back once.
- The clock: `new Date()`, `toISOString()` and `toTimeString().slice(0, 5)` (src/App.jsx:18, 32-34) are parameters. The source takes today's key in UTC and the minute in local time. That mismatch is outside the model.
- `Date.now()` ids (src/App.jsx:64) are a parameter. Uniqueness is a hypothesis of the lemmas that need it.
- The notification permission request and display (src/App.jsx:30, 51-57): permission is a boolean parameter, and a shown reminder is its text.
- Toasts other than `handleAdd`'s success/error notice. This covers the delete and edit toasts (src/App.jsx:91, 99), which are always raised.
- `handleAdd` clears the form's input and time fields (src/App.jsx:73-74). Form state is not modelled.
- Rendering, dark mode, the date picker and the show-calendar toggle (src/App.jsx:120-257), and vite.config.js, which is build configuration.
- Text.ToLower: `toLowerCase` is modelled for ASCII letters only. Full Unicode case mapping is not modelled.
- PastRecords.SortNewestFirst: the source compares `new Date(key)` values. The model compares key strings. On "YYYY-MM-DD" keys string order is (year, month, day) order (`DateKeyOrderIsCalendarOrder`), which is the `Date` order for keys naming real calendar days. The model does not define which days are real (month and day ranges, leap years). A key that is not a real day, such as "2024-13-45" or the empty string, gives an invalid `Date`, the comparator yields NaN and the source's order is implementation-defined. That case is not modelled.
- View.Filtered: the filter mode is one of the three values its buttons set. The source stores it as a string, and any other string would show nothing.
