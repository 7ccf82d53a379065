/** The whole page as one state machine: TodoList's `todos` and `filter` state together with
    AddTodo's input text, and the events the rendered page can deliver. Each event yields
    the next state, as React would after the corresponding `setState` calls. */
module TodoPage {
  import opened Wrappers
  import opened TodoList
  import AddTodoForm
  import StringTrim

  datatype Page = Page(todos: seq<Todo>, filter: Filter, input: string)

  /** `Submit` carries the id `Date.now().toString()` would produce at that moment. */
  datatype Event =
    | Type(value: string)
    | Submit(freshId: string)
    | Toggle(id: string)
    | Delete(id: string)
    | Update(id: string, patch: TodoPatch)
    | ChooseFilter(choice: Filter)

  /** The initial `useState` values: no todos, the "all" filter, an empty input. */
  const Initial := Page([], All, "")

  /** The todos the page renders. */
  function Visible(p: Page): seq<Todo> {
    FilteredTodos(p.todos, p.filter)
  }

  function Step(p: Page, e: Event): (q: Page)
    ensures !e.ChooseFilter? ==> q.filter == p.filter
    ensures !e.Type? && !e.Submit? ==> q.input == p.input
    ensures e.Type? || e.ChooseFilter? ==> q.todos == p.todos
  {
    match e
    case Type(value) => p.(input := value)
    case Submit(id) =>
      var s := AddTodoForm.HandleSubmit(p.input);
      Page(if |s.added| == 0 then p.todos else AddTodo(p.todos, s.added[0], id), p.filter, s.text)
    case Toggle(id) => p.(todos := ToggleTodo(p.todos, id))
    case Delete(id) => p.(todos := DeleteTodo(p.todos, id))
    case Update(id, u) => p.(todos := UpdateTodo(p.todos, id, u))
    case ChooseFilter(f) => p.(filter := f)
  }

  function Run(p: Page, es: seq<Event>): Page
    decreases |es|
  {
    if |es| == 0 then p else Run(Step(p, es[0]), es[1..])
  }

  /** The size of the list changes only by a successful submit (one more) or a delete
      (never more; exactly one fewer when ids are unique and the id is present). */
  lemma StepSize(p: Page, e: Event)
    ensures e.Submit? ==>
      |Step(p, e).todos| == |p.todos| + (if StringTrim.AllWhitespace(p.input) then 0 else 1)
    ensures e.Delete? ==> |Step(p, e).todos| <= |p.todos|
    ensures e.Delete? && UniqueIds(p.todos) && HasId(p.todos, e.id) ==>
      |Step(p, e).todos| == |p.todos| - 1
    ensures !e.Submit? && !e.Delete? ==> |Step(p, e).todos| == |p.todos|
  {
    if e.Delete? {
      if UniqueIds(p.todos) && HasId(p.todos, e.id) {
        DeleteRemovesOne(p.todos, e.id);
      }
    }
  }

  /** Submitting an empty or white-space-only input changes nothing at all. */
  lemma BlankSubmitIsNoop(p: Page, id: string)
    requires StringTrim.AllWhitespace(p.input)
    ensures Step(p, Submit(id)) == p
  {
  }

  /** Submitting anything else appends one todo carrying the trimmed input, and clears the
      input. */
  lemma AcceptedSubmit(p: Page, id: string)
    requires !StringTrim.AllWhitespace(p.input)
    ensures Step(p, Submit(id)) == Page(AddTodo(p.todos, StringTrim.Trim(p.input), id), p.filter, "")
  {
    AddTodoForm.SubmitPassesTrim(p.input);
  }

  /** What the page keeps true: ids are unique and every text is non-empty with no
      white space at either end. */
  ghost predicate Invariant(p: Page) {
    && UniqueIds(p.todos)
    && forall k :: 0 <= k < |p.todos| ==> p.todos[k].text != [] && StringTrim.IsTrimmed(p.todos[k].text)
  }

  /** The assumptions the source makes of an event without checking them: the clock gives a
      fresh id, and an update neither moves a todo onto another todo's id nor sets a text
      the form would have rejected. */
  ghost predicate Admissible(p: Page, e: Event) {
    match e
    case Submit(id) => !HasId(p.todos, id)
    case Update(id, u) =>
      && (u.id.None? || u.id.value == id || !HasId(p.todos, u.id.value))
      && (u.text.None? || (u.text.value != [] && StringTrim.IsTrimmed(u.text.value)))
    case _ => true
  }

  ghost predicate AdmissibleRun(p: Page, es: seq<Event>)
    decreases |es|
  {
    |es| == 0 || (Admissible(p, es[0]) && AdmissibleRun(Step(p, es[0]), es[1..]))
  }

  lemma InitialInvariant()
    ensures Invariant(Initial)
  {
  }

  lemma StepKeepsInvariant(p: Page, e: Event)
    requires Invariant(p) && Admissible(p, e)
    ensures Invariant(Step(p, e))
  {
    var q := Step(p, e);
    match e
    case Submit(id) =>
      var s := AddTodoForm.HandleSubmit(p.input);
      if |s.added| == 1 {
        assert s.added[0] in s.added;
        AddKeepsIdsUnique(p.todos, s.added[0], id);
      }
    case Toggle(id) =>
      ToggleKeepsIdsUnique(p.todos, id);
    case Delete(id) =>
      DeleteKeepsIdsUnique(p.todos, id);
      forall k | 0 <= k < |q.todos|
        ensures q.todos[k].text != [] && StringTrim.IsTrimmed(q.todos[k].text)
      {
        assert q.todos[k] in q.todos;
        var m :| 0 <= m < |p.todos| && p.todos[m] == q.todos[k];
      }
    case Update(id, u) =>
      UpdateKeepsIdsUnique(p.todos, id, u);
    case Type(_) =>
    case ChooseFilter(_) =>
  }

  /** Every page reached from the initial one by admissible events keeps the invariant. */
  lemma {:induction false} RunKeepsInvariant(p: Page, es: seq<Event>)
    requires Invariant(p) && AdmissibleRun(p, es)
    ensures Invariant(Run(p, es))
    decreases |es|
  {
    if |es| > 0 {
      StepKeepsInvariant(p, es[0]);
      RunKeepsInvariant(Step(p, es[0]), es[1..]);
    }
  }

  /** Type "Buy milk" and submit: one fresh todo with default fields. Then toggle it: it is
      the one completed todo and the active view is empty. */
  lemma BuyMilkScenario()
    ensures Run(Initial, [Type("Buy milk"), Submit("1")]).todos
      == [Todo("1", "Buy milk", false, Medium, None)]
    ensures var p := Run(Initial, [Type("Buy milk"), Submit("1"), Toggle("1")]);
      && p.todos == [Todo("1", "Buy milk", true, Medium, None)]
      && Visible(p.(filter := Completed)) == p.todos
      && Visible(p.(filter := Active)) == []
      && p.input == ""
  {
    var p1 := Step(Initial, Type("Buy milk"));
    assert StringTrim.TrimsAt("Buy milk", 0, 8);
    StringTrim.TrimCharacterization("Buy milk", "Buy milk");
    var p2 := Step(p1, Submit("1"));
    assert p2.todos == [Todo("1", "Buy milk", false, Medium, None)];
    var p3 := Step(p2, Toggle("1"));
    assert p3.todos == [Todo("1", "Buy milk", true, Medium, None)];
    assert Run(Initial, [Type("Buy milk"), Submit("1")]) == Run(p2, []);
    assert Run(Initial, [Type("Buy milk"), Submit("1"), Toggle("1")]) == Run(p3, []);
  }

  /** Ids come from the clock and nothing checks them: two submits in the same millisecond
      put two todos with one id on the page, so the invariant needs admissible events. */
  lemma SameClockIdBreaksInvariant()
    ensures !Invariant(Run(Initial, [Type("a"), Submit("1"), Type("b"), Submit("1")]))
  {
    var p1 := Step(Initial, Type("a"));
    assert StringTrim.TrimsAt("a", 0, 1);
    StringTrim.TrimCharacterization("a", "a");
    var p2 := Step(p1, Submit("1"));
    assert p2.todos == [Todo("1", "a", false, Medium, None)];
    var p3 := Step(p2, Type("b"));
    assert StringTrim.TrimsAt("b", 0, 1);
    StringTrim.TrimCharacterization("b", "b");
    var p4 := Step(p3, Submit("1"));
    assert p4.todos == [Todo("1", "a", false, Medium, None), Todo("1", "b", false, Medium, None)];
    assert Run(Initial, [Type("a"), Submit("1"), Type("b"), Submit("1")]) == Run(p4, []);
    assert p4.todos[0].id == p4.todos[1].id;
  }
}
