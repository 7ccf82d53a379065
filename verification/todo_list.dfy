/** The todo collection held by the TodoList component: the Todo record, the four
    operations that produce the next list, and the filtered view. Each operation takes the
    current list and returns the list the component stores next. */
module TodoList {
  import opened Wrappers
  import Seqs

  datatype Priority = Low | Medium | High

  /** A JavaScript Date, kept opaque: only its millisecond time value is recorded. */
  datatype Date = Date(epochMillis: int)

  datatype Todo = Todo(id: string, text: string, completed: bool, priority: Priority, dueDate: Option<Date>)

  datatype Filter = All | Active | Completed

  /** A `Partial<Todo>`: each key may be left out (None). The due date is optional twice
      over, because a patch may carry the key with value `undefined`, which clears it. */
  datatype TodoPatch = TodoPatch(
    id: Option<string>,
    text: Option<string>,
    completed: Option<bool>,
    priority: Option<Priority>,
    dueDate: Option<Option<Date>>)

  const EmptyPatch := TodoPatch(None, None, None, None, None)

  /** No two todos share an id. The component relies on this (ids are list keys) but
      does not enforce it. */
  ghost predicate UniqueIds(todos: seq<Todo>) {
    forall i, j :: 0 <= i < j < |todos| ==> todos[i].id != todos[j].id
  }

  predicate HasId(todos: seq<Todo>, id: string) {
    exists i :: 0 <= i < |todos| && todos[i].id == id
  }

  /** `addTodo(text)` with `id` standing for `Date.now().toString()`. */
  function AddTodo(todos: seq<Todo>, text: string, id: string): (r: seq<Todo>)
    ensures |r| == |todos| + 1
    ensures r[..|todos|] == todos
    ensures r[|todos|].id == id && r[|todos|].text == text
    ensures !r[|todos|].completed && r[|todos|].priority == Medium && r[|todos|].dueDate == None
  {
    todos + [Todo(id, text, false, Medium, None)]
  }

  /** `todos.map(todo => todo.id === id ? f(todo) : todo)` */
  function MapMatching(todos: seq<Todo>, id: string, f: Todo -> Todo): (r: seq<Todo>)
    ensures |r| == |todos|
    ensures forall i :: 0 <= i < |todos| && todos[i].id != id ==> r[i] == todos[i]
    ensures forall i :: 0 <= i < |todos| && todos[i].id == id ==> r[i] == f(todos[i])
  {
    if |todos| == 0 then []
    else [if todos[0].id == id then f(todos[0]) else todos[0]] + MapMatching(todos[1..], id, f)
  }

  function Flip(t: Todo): Todo {
    t.(completed := !t.completed)
  }

  /** `toggleTodo(id)` */
  function ToggleTodo(todos: seq<Todo>, id: string): (r: seq<Todo>)
    ensures |r| == |todos|
    ensures forall i :: 0 <= i < |r| ==>
      && r[i].completed == (todos[i].completed != (todos[i].id == id))
      && r[i].id == todos[i].id
      && r[i].text == todos[i].text
      && r[i].priority == todos[i].priority
      && r[i].dueDate == todos[i].dueDate
  {
    MapMatching(todos, id, Flip)
  }

  /** `{...todo, ...updates}`: every key the patch carries overrides the todo's. */
  function Merge(t: Todo, u: TodoPatch): (r: Todo)
    ensures r.id == (if u.id.Some? then u.id.value else t.id)
    ensures r.text == (if u.text.Some? then u.text.value else t.text)
    ensures r.completed == (if u.completed.Some? then u.completed.value else t.completed)
    ensures r.priority == (if u.priority.Some? then u.priority.value else t.priority)
    ensures r.dueDate == (if u.dueDate.Some? then u.dueDate.value else t.dueDate)
  {
    Todo(
      u.id.GetOr(t.id),
      u.text.GetOr(t.text),
      u.completed.GetOr(t.completed),
      u.priority.GetOr(t.priority),
      u.dueDate.GetOr(t.dueDate))
  }

  function Patcher(u: TodoPatch): Todo -> Todo {
    (t: Todo) => Merge(t, u)
  }

  /** `updateTodo(id, updates)` */
  function UpdateTodo(todos: seq<Todo>, id: string, u: TodoPatch): (r: seq<Todo>)
    ensures |r| == |todos|
    ensures forall i :: 0 <= i < |todos| && todos[i].id != id ==> r[i] == todos[i]
    ensures forall i :: 0 <= i < |todos| && todos[i].id == id ==> r[i] == Merge(todos[i], u)
  {
    MapMatching(todos, id, Patcher(u))
  }

  function KeepsOtherThan(id: string): Todo -> bool {
    (t: Todo) => t.id != id
  }

  /** `deleteTodo(id)` */
  function DeleteTodo(todos: seq<Todo>, id: string): (r: seq<Todo>)
    ensures !HasId(r, id)
    ensures forall t :: t in r <==> t in todos && t.id != id
    ensures Seqs.IsSubsequence(r, todos)
  {
    var r := Seqs.Filter(todos, KeepsOtherThan(id));
    assert forall i :: 0 <= i < |r| ==> r[i] in r;
    r
  }

  /** The body of the `filteredTodos` callback. */
  predicate Shows(f: Filter, t: Todo) {
    if f == Active then !t.completed
    else if f == Completed then t.completed
    else true
  }

  function Showing(f: Filter): Todo -> bool {
    (t: Todo) => Shows(f, t)
  }

  /** `filteredTodos` for the current filter. */
  function FilteredTodos(todos: seq<Todo>, f: Filter): (r: seq<Todo>)
    ensures forall t :: t in r <==> t in todos && Shows(f, t)
    ensures Seqs.IsSubsequence(r, todos)
  {
    Seqs.Filter(todos, Showing(f))
  }

  // ----- add -----

  /** Deleting the todo just added restores the list, provided its id was fresh. */
  lemma DeleteUndoesAdd(todos: seq<Todo>, text: string, id: string)
    requires !HasId(todos, id)
    ensures DeleteTodo(AddTodo(todos, text, id), id) == todos
  {
    var p := KeepsOtherThan(id);
    Seqs.FilterAppend(todos, [Todo(id, text, false, Medium, None)], p);
    Seqs.FilterKeepsAll(todos, p);
  }

  /** Adding with a fresh id keeps ids unique. */
  lemma AddKeepsIdsUnique(todos: seq<Todo>, text: string, id: string)
    requires UniqueIds(todos) && !HasId(todos, id)
    ensures UniqueIds(AddTodo(todos, text, id))
  {
  }

  // ----- toggle -----

  /** Toggling the same id twice gives back the original list. */
  lemma ToggleInvolution(todos: seq<Todo>, id: string)
    ensures ToggleTodo(ToggleTodo(todos, id), id) == todos
  {
  }

  /** Toggling an id nobody has changes nothing. */
  lemma ToggleAbsentIsNoop(todos: seq<Todo>, id: string)
    requires !HasId(todos, id)
    ensures ToggleTodo(todos, id) == todos
  {
  }

  // ----- delete -----

  /** Deleting an absent id changes nothing. */
  lemma DeleteAbsentIsNoop(todos: seq<Todo>, id: string)
    requires !HasId(todos, id)
    ensures DeleteTodo(todos, id) == todos
  {
    Seqs.FilterKeepsAll(todos, KeepsOtherThan(id));
  }

  /** With unique ids, deleting a present id removes exactly one todo. */
  lemma {:induction false} DeleteRemovesOne(todos: seq<Todo>, id: string)
    requires UniqueIds(todos) && HasId(todos, id)
    ensures |DeleteTodo(todos, id)| == |todos| - 1
  {
    var p := KeepsOtherThan(id);
    if todos[0].id == id {
      assert !HasId(todos[1..], id);
      Seqs.FilterKeepsAll(todos[1..], p);
    } else {
      assert HasId(todos[1..], id);
      DeleteRemovesOne(todos[1..], id);
    }
  }

  /** Delete keeps everything else in order: any subsequence of the list that avoids `id`
      and is at least as long as the result is the result itself. */
  lemma DeleteTodoIsLongest(todos: seq<Todo>, id: string, v: seq<Todo>)
    requires Seqs.IsSubsequence(v, todos)
    requires forall k :: 0 <= k < |v| ==> v[k].id != id
    requires |v| >= |DeleteTodo(todos, id)|
    ensures v == DeleteTodo(todos, id)
  {
    Seqs.FilterLength(todos, KeepsOtherThan(id));
    Seqs.FilterIsLongestSubsequence(v, todos, KeepsOtherThan(id));
  }

  /** Deleting keeps ids unique. */
  lemma DeleteKeepsIdsUnique(todos: seq<Todo>, id: string)
    requires UniqueIds(todos)
    ensures UniqueIds(DeleteTodo(todos, id))
  {
    SubsequenceKeepsIdsUnique(DeleteTodo(todos, id), todos);
  }

  /** Dropping todos cannot create a duplicate id. */
  lemma {:induction false} SubsequenceKeepsIdsUnique(a: seq<Todo>, b: seq<Todo>)
    requires Seqs.IsSubsequence(a, b) && UniqueIds(b)
    ensures UniqueIds(a)
    decreases |b|
  {
    if |a| > 0 {
      if a[0] == b[0] && Seqs.IsSubsequence(a[1..], b[1..]) {
        SubsequenceKeepsIdsUnique(a[1..], b[1..]);
        Seqs.SubsequenceMembers(a[1..], b[1..]);
        forall i, j | 0 <= i < j < |a|
          ensures a[i].id != a[j].id
        {
          if i == 0 {
            assert a[j] == a[1..][j - 1];
            assert a[j] in a[1..];
            assert a[j] in b[1..];
            var k :| 0 <= k < |b[1..]| && b[1..][k] == a[j];
            assert b[k + 1] == a[j];
          } else {
            assert a[i] == a[1..][i - 1] && a[j] == a[1..][j - 1];
          }
        }
      } else {
        SubsequenceKeepsIdsUnique(a, b[1..]);
      }
    }
  }

  // ----- update -----

  /** An empty patch leaves the todo as it was. */
  lemma MergeEmpty(t: Todo)
    ensures Merge(t, EmptyPatch) == t
  {
  }

  /** Spreading one patch then another equals spreading their combination. */
  function Combine(u: TodoPatch, v: TodoPatch): TodoPatch {
    TodoPatch(
      if v.id.Some? then v.id else u.id,
      if v.text.Some? then v.text else u.text,
      if v.completed.Some? then v.completed else u.completed,
      if v.priority.Some? then v.priority else u.priority,
      if v.dueDate.Some? then v.dueDate else u.dueDate)
  }

  lemma MergeCombine(t: Todo, u: TodoPatch, v: TodoPatch)
    ensures Merge(Merge(t, u), v) == Merge(t, Combine(u, v))
  {
  }

  /** Applying the same patch twice is the same as applying it once. */
  lemma MergeIdempotent(t: Todo, u: TodoPatch)
    ensures Merge(Merge(t, u), u) == Merge(t, u)
  {
  }

  /** Applying an update to an id nobody has changes nothing. */
  lemma UpdateAbsentIsNoop(todos: seq<Todo>, id: string, u: TodoPatch)
    requires !HasId(todos, id)
    ensures UpdateTodo(todos, id, u) == todos
  {
  }

  /** Ids stay unique across an update unless the patch moves a todo onto an id another
      todo already holds. */
  lemma UpdateKeepsIdsUnique(todos: seq<Todo>, id: string, u: TodoPatch)
    requires UniqueIds(todos)
    requires u.id.None? || u.id.value == id || !HasId(todos, u.id.value)
    ensures UniqueIds(UpdateTodo(todos, id, u))
  {
  }

  /** The priority selector's patch `{priority}`: only the priority of the matching todo
      changes. */
  lemma SetPriorityChangesOnlyPriority(todos: seq<Todo>, id: string, p: Priority)
    ensures var r := UpdateTodo(todos, id, EmptyPatch.(priority := Some(p)));
      && |r| == |todos|
      && forall i :: 0 <= i < |r| ==>
        && r[i].priority == (if todos[i].id == id then p else todos[i].priority)
        && r[i].id == todos[i].id && r[i].text == todos[i].text
        && r[i].completed == todos[i].completed && r[i].dueDate == todos[i].dueDate
  {
  }

  /** The date input's patch `{dueDate}`: `Some(None)` is the key present with value
      `undefined`, which clears the due date. Only the due date of the matching todo
      changes. */
  lemma SetDueDateChangesOnlyDueDate(todos: seq<Todo>, id: string, d: Option<Date>)
    ensures var r := UpdateTodo(todos, id, EmptyPatch.(dueDate := Some(d)));
      && |r| == |todos|
      && forall i :: 0 <= i < |r| ==>
        && r[i].dueDate == (if todos[i].id == id then d else todos[i].dueDate)
        && r[i].id == todos[i].id && r[i].text == todos[i].text
        && r[i].completed == todos[i].completed && r[i].priority == todos[i].priority
  {
  }

  /** Toggling keeps ids unique (it never touches an id). */
  lemma ToggleKeepsIdsUnique(todos: seq<Todo>, id: string)
    requires UniqueIds(todos)
    ensures UniqueIds(ToggleTodo(todos, id))
  {
  }

  // ----- filtered view -----

  /** The "all" filter shows the whole list. */
  lemma AllShowsEverything(todos: seq<Todo>)
    ensures FilteredTodos(todos, All) == todos
  {
    Seqs.FilterKeepsAll(todos, Showing(All));
  }

  /** The active and completed views split the list: no todo is in both, and together
      they hold every todo exactly as often as the list does. */
  lemma ActiveCompletedPartition(todos: seq<Todo>)
    ensures multiset(FilteredTodos(todos, Active)) + multiset(FilteredTodos(todos, Completed)) == multiset(todos)
    ensures |FilteredTodos(todos, Active)| + |FilteredTodos(todos, Completed)| == |todos|
    ensures forall t :: !(t in FilteredTodos(todos, Active) && t in FilteredTodos(todos, Completed))
  {
    Seqs.FilterComplement(todos, Showing(Active), Showing(Completed));
  }

  /** Each view is the longest order-preserving selection of todos its filter accepts: any
      other subsequence of accepted todos that is at least as long is the view itself. */
  lemma FilteredTodosIsLongest(todos: seq<Todo>, f: Filter, v: seq<Todo>)
    requires Seqs.IsSubsequence(v, todos)
    requires forall k :: 0 <= k < |v| ==> Shows(f, v[k])
    requires |v| >= |FilteredTodos(todos, f)|
    ensures v == FilteredTodos(todos, f)
  {
    Seqs.FilterLength(todos, Showing(f));
    Seqs.FilterIsLongestSubsequence(v, todos, Showing(f));
  }
}
