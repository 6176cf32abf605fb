# Todos: the to-do record and its list, in Dafny

This project models the core of a single-page to-do application built on
Backbone: the to-do record (`Todo`) with its defaults, and the collection
(`TodoList`) that keeps the records sorted by their `order` and derives the
`done()` and `remaining()` views from them. It also models the list
operations that the two views trigger, with the DOM stripped off:
creating a record from the input box, toggling, editing and clearing one
record, clearing every completed record, marking every record complete, and
the statistics shown in the footer.

Layout:

- `wrappers.dfy` (`Wrappers`): an `Option` type for attributes that may be absent.
- `todo.dfy` (`TodoModel`): the record as a datatype. It covers the default
  content `"empty todo..."`, the coercion of missing or empty content at
  construction, and the field updates done by `toggle`, by the edit on
  `close` and by marking everything complete.
- `todo_list.dfy` (`TodoCollection`): the collection's rules as functions on
  the sequence of records. These are `Done`, `Remaining` (underscore's
  `without` applied to `done()`), `NextOrder`, the footer statistics, and the
  two searches the collection runs. `SortedIndex` is the binary search of
  underscore's `sortedIndex` that places a new record by the comparator.
  `IndexOf` finds the position of a record being removed.
- `todo_app.dfy` (`TodoApp`): a class `TodoList` with one field, `todos: seq<Todo>`.
  Its invariant `Valid()` says that orders strictly increase along the list.
  Its methods are the state changes the application makes.

Orders strictly increase, so no two members are equal. Because of that,
value equality of records gives the same results as Backbone's object
identity in `indexOf` and `without`.

The code and the comments disagree on one point. The comment above
`nextOrder` (js/todos.js:58) says it is the number of records plus 1. The
code (js/todos.js:59-62) returns the last record's order plus 1. The model
follows the code. After deleting any record other than the last, the two
can differ, and only the code's version is sure to stay above every
existing order.

The empty list counts as "all checked", because `!remaining` is true when
`remaining` is 0 (js/todos.js:175). `ListStats` states this with a vacuous
"every record is done".

## Model

| member | source | states |
|---|---|---|
| `TodoModel.Initialize` | js/todos.js:17-26 | the content is never empty; present non-empty content is kept; missing or empty content becomes "empty todo..."; `done` is false unless given true; the order is the one given |
| `TodoModel.InitializeRoundTrip` | js/todos.js:17-26 | constructing from a record's own attributes gives that record back exactly when its content is non-empty |
| `TodoModel.Toggled` | js/todos.js:28-30 | `done` is negated; content and order are unchanged |
| `TodoModel.ToggleTwice` | js/todos.js:28-30 | toggling twice restores the record, and one toggle always changes it |
| `TodoModel.WithContent` | js/todos.js:116-117 | the new text is stored as given, the empty string included; `done` and order are unchanged |
| `TodoModel.WithDone` | js/todos.js:230 | `done` becomes the flag; content and order are unchanged |
| `TodoModel.EmptyContentAsymmetry` | js/todos.js:22-26 | construction turns empty or missing content into the default, but an edit to the empty string keeps the empty string |
| `TodoCollection.Done` | js/todos.js:49-51 | a record is in `done()` exactly when it is a member whose `done` is true; it is never longer than the list |
| `TodoCollection.DoneAppend` | js/todos.js:49-51 | `done()` keeps collection order: the view of a concatenation is the concatenation of the views |
| `TodoCollection.Without` | js/todos.js:55 | a record is in the result exactly when it is in the list and in none of the excluded records |
| `TodoCollection.Remaining` | js/todos.js:54-56 | a record is in `remaining()` exactly when it is a member whose `done` is false |
| `TodoCollection.RemainingIsNotDone` | js/todos.js:54-56 | `remaining()`, written as the list without `done()`, equals the plain in-order filter on `!done` |
| `TodoCollection.RemainingAppend` | js/todos.js:54-56 | `remaining()` keeps collection order: it distributes over concatenation |
| `TodoCollection.DoneRemainingPartition` | js/todos.js:49-56 | `done()` and `remaining()` partition the list: their sizes add up to the total, their multisets add up to the list's, and every member is in exactly one |
| `TodoCollection.SingletonViews` | js/todos.js:49-56 | on a one-record list, the view matching its flag holds the record and the other view is empty |
| `TodoCollection.ToggleShiftsCounts` | js/todos.js:28-30 | toggling one member moves it between the views: the done count changes by one and the remaining count by one the other way |
| `TodoCollection.NextOrder` | js/todos.js:59-62 | 1 on an empty list; on a list sorted by the comparator, above the order of every member |
| `TodoCollection.NextOrderExceedsAll` | js/todos.js:59-62 | `nextOrder()` is 1 on an empty list; on a sorted list it is above every existing order and is one more than the order of some member, so it is the largest order plus 1 |
| `TodoCollection.ListStats` | js/todos.js:165-176 | total equals the list length and equals done plus remaining; the box is checked exactly when every record is done, that is when done equals total |
| `TodoCollection.SameFlagsSameCounts` | js/todos.js:165-176 | the statistics depend only on the `done` flags, position by position |
| `TodoCollection.EditKeepsStats` | js/todos.js:116-117 | editing one record's content changes no statistic |
| `TodoCollection.SetAllDone` | js/todos.js:228-231 | the result has the same length, and each position is the original record with `done` set to the flag |
| `TodoCollection.SetAllDoneViews` | js/todos.js:228-231 | after marking all complete, `remaining()` is empty and `done()` is the whole list; after marking all incomplete, the reverse |
| `TodoCollection.SetAllDoneStats` | js/todos.js:228-231 | after marking all with the flag, the box is checked exactly when the flag is true or the list is empty, and the done count is all or nothing |
| `TodoCollection.RemainingIsClear` | js/todos.js:208-211 | what survives clearing has nothing done, and clearing again is a no-op |
| `TodoCollection.WithoutKeepsStrictlySorted` | js/todos.js:33-35 | removing records keeps the orders strictly increasing |
| `TodoCollection.WithoutSnoc` | js/todos.js:209 | removing a set of records and then one more is the same as removing all of them in one step |
| `TodoCollection.WithoutUnique` | js/todos.js:33-35 | a record that appears only once is removed by cutting out its one position |
| `TodoCollection.WithoutAbsent` | js/todos.js:33-35 | removing a record that is not a member changes nothing |
| `TodoCollection.SortedIndex` | js/todos.js:65-67 | the returned position is the unique one where every earlier member has a smaller order and every later member an order at least the key |
| `TodoCollection.IndexOf` | js/todos.js:33-35 | -1 exactly when the record is not a member; otherwise the first position holding it |
| `TodoCollection.Example` | js/todos.js:49-62 | on the list [buy milk (1, to do), clean (2, done)], `done()` is [clean], `remaining()` is [buy milk], `nextOrder()` is 3, and the statistics are 2/1/1 with the box unchecked |
| `TodoApp.NewAttributes` | js/todos.js:190-196 | the typed text, `done` false, and the order `nextOrder()`, which on a sorted list is above every member's order |
| `TodoApp.Scenario` | js/todos.js:190-211 | creating "buy milk" and an empty entry on an empty list, marking the first done and clearing completed leaves exactly the defaulted record, not done, with order 2 |
| `TodoApp.TodoList.constructor` | js/todos.js:70 | the list starts empty and valid |
| `TodoApp.TodoList.Create` | js/todos.js:190-205 | the new record is appended last and every earlier record is unchanged; its content is the input or the default when the input is empty; it is not done; its order is `nextOrder()`, above every earlier order; the list stays strictly sorted |
| `TodoApp.TodoList.Toggle` | js/todos.js:28-30 | only the record at that position changes, and only its flag, which is negated; the list stays sorted |
| `TodoApp.TodoList.EditContent` | js/todos.js:116-119 | only the record at that position changes, and only its content, which becomes the given text; the list stays sorted |
| `TodoApp.TodoList.Clear` | js/todos.js:33-35 | the list becomes itself without that record: one shorter if it was a member, unchanged otherwise; still sorted |
| `TodoApp.TodoList.ClearCompleted` | js/todos.js:208-211 | clearing each record of the `done()` taken at the start leaves exactly that moment's `remaining()`, in order, with nothing done |
| `TodoApp.TodoList.ToggleAllComplete` | js/todos.js:228-231 | every record gets `done` equal to the flag and nothing else changes; afterwards `remaining()` is empty for true and `done()` is empty for false |

## Left out

- DOM rendering, templates, the editing CSS class and all jQuery element handling in both views (js/todos.js:75-128, js/todos.js:165-187): these are user interface. `render` is reduced to the figures it computes (`ListStats`).
- Backbone event binding (`change`, `destroy`, `add`, `reset`, `all`) and `_.bindAll`: these are observer plumbing. The model applies their effects directly. For example, a record's `destroy` removes it from the collection inside `Clear`.
- localStorage persistence, `save`, `fetch` and id assignment: a save is an in-memory field update, and a destroy is a removal. Loading the stored records at start-up (`Todos.fetch()`, js/todos.js:160) is not modelled: it fills the list from storage that is not part of this model. Records loaded that way need not meet `Valid()`.
- The tooltip debounce and its fade animations (js/todos.js:216-224): these are timers and visual effects.
- The Enter key checks in `createOnEnter` and `updateOnEnter` (js/todos.js:122, js/todos.js:202) and the clearing of the input box: these are input plumbing. `Create` and `EditContent` model what happens once Enter is pressed or the field loses focus.
- The flag passed to `ToggleAllComplete` is the checkbox state the browser has already flipped when the click handler runs. It is taken as a parameter.
- Record identity: records are values held in the list, so a view's reference to its record is not modelled. `Toggle` and `EditContent` name the record by its position in the list. `Clear` names it by value, which picks out a single member because orders are unique.
- Orders are unbounded integers. JavaScript numbers are doubles, which stop counting exactly above 2^53; that range is not modelled.
- A record constructed outside the list with no `order` is not modelled: every record the application creates gets one from `newAttributes`.
