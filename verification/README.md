# Todo list: a Dafny model of the state manager

This project models the logic of a small React todo page. The `TodoList` component keeps an
ordered list of todos and the chosen filter. It offers four operations: add, toggle,
delete and update. It also computes the view for the filter it is showing. The `AddTodo`
form trims its input. It ignores a submit that leaves nothing, and otherwise passes the
trimmed text on and clears the input.

Every operation is a pure function from the current list to the next one, which is how
the component uses `setTodos`. The modules follow the program:

- `Wrappers`: an `Option` type for optional properties and for keys a partial record may omit.
- `Seqs`: order-preserving `filter` and its laws. It is the longest subsequence that
  satisfies the predicate, it distributes over concatenation, and a predicate and its
  complement split a list.
- `StringTrim`: JavaScript's `String.prototype.trim` with the exact ECMAScript white-space
  and line-terminator set. `TrimsAt` describes a trim without saying how it is computed,
  and a lemma proves `Trim` is the only result that fits it.
- `TodoList`: the `Todo` record, `addTodo`, `toggleTodo`, `deleteTodo`, `updateTodo` (the
  object spread `{...todo, ...updates}` is `Merge`) and `filteredTodos`.
- `AddTodoForm`: `handleSubmit`.
- `TodoPage`: the whole page as a state machine over the events the page delivers. An
  invariant holds in every state reached by admissible events: ids are unique and texts
  are non-empty and trimmed. Admissible means that each submit gets a fresh clock id, and
  that no update renames a todo onto a taken id or sets an untrimmed text. Without that
  assumption the invariant fails: two submits in the same millisecond get the same id,
  which `SameClockIdBreaksInvariant` exhibits.

The id that `Date.now().toString()` produces is a parameter of add. The due date is an opaque
`Date` that records only a millisecond time value.

Three behaviours of the code are worth noting:

- A partial update may carry an `id`, so `updateTodo` can rename a todo.
- Toggle, delete and update act on every todo with a matching id, not just one.
- An update may set any text, including an empty one.

The lemmas that need unique ids state them as a precondition, since the code does not
enforce them.

## Model

| member | source | states |
|---|---|---|
| TodoList.AddTodo | app/components/TodoList.tsx:19-27 | the list grows by one; the old todos are an unchanged prefix; the new last todo has the given id and text, is not completed, has medium priority and no due date |
| TodoList.DeleteUndoesAdd | app/components/TodoList.tsx:19-27 | deleting the id just added with a fresh id gives back the original list |
| TodoList.AddKeepsIdsUnique | app/components/TodoList.tsx:19-27 | adding with an id not yet present keeps ids unique |
| TodoList.MapMatching | app/components/TodoList.tsx:31-33 | the mapped list has the same length; todos whose id differs are unchanged and todos whose id matches are transformed |
| TodoList.ToggleTodo | app/components/TodoList.tsx:29-35 | same length and order; `completed` is flipped exactly on todos whose id matches; id, text, priority and due date are untouched everywhere |
| TodoList.ToggleInvolution | app/components/TodoList.tsx:29-35 | toggling the same id twice returns the original list |
| TodoList.ToggleAbsentIsNoop | app/components/TodoList.tsx:29-35 | toggling an id no todo has changes nothing |
| TodoList.ToggleKeepsIdsUnique | app/components/TodoList.tsx:29-35 | toggling keeps ids unique |
| TodoList.DeleteTodo | app/components/TodoList.tsx:37-39 | no todo with the id remains; a todo is kept exactly when its id differs; the result is an order-preserving subsequence |
| TodoList.DeleteTodoIsLongest | app/components/TodoList.tsx:37-39 | any subsequence avoiding the id that is at least as long as the result equals it, so every other todo is kept in order |
| TodoList.DeleteAbsentIsNoop | app/components/TodoList.tsx:37-39 | deleting an absent id changes nothing |
| TodoList.DeleteRemovesOne | app/components/TodoList.tsx:37-39 | with unique ids, deleting a present id shortens the list by exactly one |
| TodoList.DeleteKeepsIdsUnique | app/components/TodoList.tsx:37-39 | deleting keeps ids unique |
| TodoList.Merge | app/components/TodoList.tsx:43 | each field the patch supplies overrides the todo's, each field it omits keeps the todo's value |
| TodoList.MergeEmpty | app/components/TodoList.tsx:43 | an empty patch leaves a todo unchanged |
| TodoList.MergeCombine | app/components/TodoList.tsx:43 | spreading two patches in turn equals spreading their combination |
| TodoList.MergeIdempotent | app/components/TodoList.tsx:43 | spreading the same patch twice equals spreading it once |
| TodoList.UpdateTodo | app/components/TodoList.tsx:41-45 | same length and order; todos whose id differs are unchanged; matching todos become the merge of the todo and the patch |
| TodoList.UpdateAbsentIsNoop | app/components/TodoList.tsx:41-45 | updating an absent id changes nothing |
| TodoList.UpdateKeepsIdsUnique | app/components/TodoList.tsx:41-45 | ids stay unique unless the patch renames a todo to an id another todo holds |
| TodoList.SetPriorityChangesOnlyPriority | app/components/TodoItem.tsx:42-46 | the priority selector's patch changes only the priority, and only of the matching todo |
| TodoList.SetDueDateChangesOnlyDueDate | app/components/TodoItem.tsx:60-64 | the date input's patch sets or clears only the due date, and only of the matching todo |
| TodoList.FilteredTodos | app/components/TodoList.tsx:47-51 | a todo is in the view exactly when it is in the list and the filter accepts it; the view is an order-preserving subsequence |
| TodoList.FilteredTodosIsLongest | app/components/TodoList.tsx:47-51 | any subsequence of accepted todos at least as long as the view is the view, so nothing accepted is dropped |
| TodoList.AllShowsEverything | app/components/TodoList.tsx:47-51 | the "all" view is the whole list |
| TodoList.ActiveCompletedPartition | app/components/TodoList.tsx:47-51 | the active and completed views are disjoint, their lengths add up to the list's, and together they hold each todo as often as the list does |
| Seqs.Filter | app/components/TodoList.tsx:38 | the result keeps exactly the elements satisfying the predicate, as a subsequence of the input |
| Seqs.FilterIsLongestSubsequence | app/components/TodoList.tsx:47-51 | the filter result is the one longest subsequence whose elements all satisfy the predicate |
| Seqs.FilterComplement | app/components/TodoList.tsx:47-51 | filtering by a predicate and by its negation splits the list with multiplicities |
| StringTrim.Trim | app/components/AddTodo.tsx:13 | the result is a slice of the input with only white space outside it and none at its ends; it is empty exactly when the input is all white space |
| StringTrim.TrimCharacterization | app/components/AddTodo.tsx:13 | a string is the trim of the input if and only if it is such a slice |
| StringTrim.TrimIdempotent | app/components/AddTodo.tsx:13-14 | trimming twice equals trimming once |
| AddTodoForm.HandleSubmit | app/components/AddTodo.tsx:11-17 | onAdd is called at most once, and exactly when the input has a non-white-space character; it receives a non-empty slice of the input with no white space at either end; an accepted submit clears the input and a rejected one leaves it |
| AddTodoForm.SubmitPassesTrim | app/components/AddTodo.tsx:13-14 | the text onAdd receives is the input's trim |
| TodoPage.Step | app/components/TodoList.tsx:56-65 | only choosing a filter changes the filter; only typing and submitting change the input; typing and choosing a filter leave the list alone |
| TodoPage.StepSize | app/components/TodoList.tsx:19-45 | only an accepted submit (+1) and a delete (never more; -1 with unique ids and a present id) change the list's length |
| TodoPage.BlankSubmitIsNoop | app/components/AddTodo.tsx:13-16 | submitting an empty or white-space-only input changes nothing |
| TodoPage.AcceptedSubmit | app/components/AddTodo.tsx:13-15 | any other submit appends a todo with the trimmed text and clears the input |
| TodoPage.InitialInvariant | app/components/TodoList.tsx:16-17 | the initial page has unique ids and only non-empty trimmed texts |
| TodoPage.StepKeepsInvariant | app/components/TodoList.tsx:19-45 | each event preserves that invariant when the clock's id is fresh and an update neither renames onto a taken id nor sets an untrimmed text |
| TodoPage.RunKeepsInvariant | app/components/TodoList.tsx:19-45 | any sequence of such events preserves it |
| TodoPage.BuyMilkScenario | app/components/TodoList.tsx:19-51 | typing "Buy milk" and submitting leaves one todo "Buy milk", not completed, medium priority; toggling it then leaves one completed todo, the completed view shows it and the active view is empty |
| TodoPage.SameClockIdBreaksInvariant | app/components/TodoList.tsx:21 | two submits that receive the same clock id leave two todos with one id, so the invariant needs fresh ids |

## Left out

- JSX, Tailwind classes and labels are presentation only. So are the filter buttons in
  `app/components/TodoFilter.tsx` and the rendering in `app/components/TodoItem.tsx`. Only
  the two update patches TodoItem sends are modelled.
- `Date.now()`: a clock read, replaced by the `Submit` event's id parameter. The source does
  not make ids unique (two adds in the same millisecond collide). Lemmas that need
  uniqueness require it, and the invariant lemmas assume the id is fresh.
- Dates: a JavaScript `Date` is an opaque millisecond value. The `toISOString`/`Date`-string
  conversions in TodoItem depend on time zones and are not modelled.
- `e.preventDefault()` and React event objects: no state effect.
- React scheduling: each event is applied to the latest state. This matches the source
  for two reasons. Each handler reads the `todos` captured at render time, and React
  re-renders between discrete user events. Each handler also calls `setTodos` at most
  once, so no update is lost inside one handler.
- A `Partial<Todo>` carrying `text`, `completed`, `priority` or `id` with the value
  `undefined`: this leaves the `Todo` type and no caller sends it. Only the due date
  distinguishes "key absent" from "key set to undefined".
- Strings are sequences of Unicode scalar values, whereas JavaScript uses UTF-16 code
  units. They differ only for lone surrogates, which are never white space.
- The filtered view leaves the list unchanged by construction: `FilteredTodos` is a pure
  function, so no lemma states it.
- A remote, HTTP-synchronised variant of the store is not part of these source files. It
  is not part of this model.
