/**
 * The todo half of PomodoroApp as values: the record the program stores, the list operations
 * (`addTodo`, `toggleTodo`, `deleteTodo`, `clearCompletedTodos`), the filtered view
 * (`getFilteredTodos`) and the figures `updateStats` shows.
 */
module TodoModel {
  import opened Wrappers
  import opened JsText

  /** The value `new Date()` gives a record; the model never looks inside it. */
  datatype Instant = Instant(millis: int)

  /** One stored task. The id is the `Date.now()` reading taken when it was added. */
  datatype Todo = Todo(id: int, text: string, completed: bool, createdAt: Instant)

  // ---------------------------------------------------------------------------
  // Array.prototype.filter
  // ---------------------------------------------------------------------------

  /** The elements of `s` that satisfy `p`, in their order. */
  function Filter<T>(s: seq<T>, p: T -> bool): seq<T>
    decreases |s|
  {
    if s == [] then [] else (if p(s[0]) then [s[0]] else []) + Filter(s[1..], p)
  }

  /** `r` is obtained from `s` by deleting elements, the rest keeping their order. */
  predicate IsSubsequence<T(==)>(r: seq<T>, s: seq<T>)
    decreases |s|
  {
    r == [] || (s != [] && ((r[0] == s[0] && IsSubsequence(r[1..], s[1..])) || IsSubsequence(r, s[1..])))
  }

  lemma {:induction false} FilterIsSubsequence<T>(s: seq<T>, p: T -> bool)
    ensures IsSubsequence(Filter(s, p), s)
    decreases |s|
  {
    if s != [] {
      FilterIsSubsequence(s[1..], p);
      if p(s[0]) {
        assert Filter(s, p) == [s[0]] + Filter(s[1..], p);
        assert Filter(s, p)[1..] == Filter(s[1..], p);
      } else {
        assert Filter(s, p) == Filter(s[1..], p);
      }
    }
  }

  /** Every element that satisfies `p` keeps all its occurrences and every other element disappears. */
  lemma {:induction false} FilterMultiplicity<T>(s: seq<T>, p: T -> bool, x: T)
    ensures multiset(Filter(s, p))[x] == if p(x) then multiset(s)[x] else 0
    decreases |s|
  {
    if s != [] {
      FilterMultiplicity(s[1..], p, x);
      assert s == [s[0]] + s[1..];
      assert multiset(s) == multiset([s[0]]) + multiset(s[1..]);
    }
  }

  /** The filter keeps `x` exactly when `x` is in the input and satisfies `p`. */
  lemma FilterMembership<T>(s: seq<T>, p: T -> bool, x: T)
    ensures x in Filter(s, p) <==> x in s && p(x)
  {
  }

  /** A filter that every element passes returns its input unchanged. */
  lemma {:induction false} FilterKeepsAll<T>(s: seq<T>, p: T -> bool)
    requires forall k :: 0 <= k < |s| ==> p(s[k])
    ensures Filter(s, p) == s
    decreases |s|
  {
    if s != [] {
      FilterKeepsAll(s[1..], p);
      assert [s[0]] + s[1..] == s;
    }
  }

  /** Filtering by a predicate and by its negation splits the input: the lengths add up to it. */
  lemma {:induction false} FilterSplits<T>(s: seq<T>, p: T -> bool, q: T -> bool)
    requires forall x :: q(x) == !p(x)
    ensures |Filter(s, p)| + |Filter(s, q)| == |s|
    decreases |s|
  {
    if s != [] {
      FilterSplits(s[1..], p, q);
    }
  }

  /** Every element of a filtered list satisfies the filter and came from the input. */
  lemma FilterElements<T>(s: seq<T>, p: T -> bool)
    ensures forall k :: 0 <= k < |Filter(s, p)| ==> p(Filter(s, p)[k]) && Filter(s, p)[k] in s
  {
  }

  // ---------------------------------------------------------------------------
  // addTodo
  // ---------------------------------------------------------------------------

  /** The list after `addTodo` with the input box holding `input`, the clock reading `id` and the
      date `createdAt`. */
  function Added(todos: seq<Todo>, input: string, id: int, createdAt: Instant): seq<Todo>
  {
    var text := Trim(input);
    if text != "" then todos + [Todo(id, text, false, createdAt)] else todos
  }

  /** Whitespace-only input changes nothing; any other input appends exactly one open record holding
      the trimmed text, leaving the earlier records as they were. */
  lemma AddedAppendsOne(todos: seq<Todo>, input: string, id: int, createdAt: Instant)
    ensures var r := Added(todos, input, id, createdAt);
      (AllWhitespace(input) ==> r == todos) &&
      (!AllWhitespace(input) ==>
        |r| == |todos| + 1 && r[..|todos|] == todos &&
        r[|todos|] == Todo(id, Trim(input), false, createdAt))
  {
    TrimEmptyIff(input);
    var r := Added(todos, input, id, createdAt);
    if !AllWhitespace(input) {
      assert r[..|todos|] == todos;
    }
  }

  // ---------------------------------------------------------------------------
  // toggleTodo
  // ---------------------------------------------------------------------------

  function Flipped(t: Todo): Todo
  {
    t.(completed := !t.completed)
  }

  /** The list after `toggleTodo(id)`: `find` picks the first record with the id, whose flag flips. */
  function Toggled(todos: seq<Todo>, id: int): seq<Todo>
    decreases |todos|
  {
    if todos == [] then []
    else if todos[0].id == id then [Flipped(todos[0])] + todos[1..]
    else [todos[0]] + Toggled(todos[1..], id)
  }

  /** `Array.prototype.find` on the id: the index of the first record with it, if any. */
  method FindTodo(todos: seq<Todo>, id: int) returns (index: Option<nat>)
    ensures index.None? <==> forall k :: 0 <= k < |todos| ==> todos[k].id != id
    ensures index.Some? ==>
      index.value < |todos| && todos[index.value].id == id &&
      forall k :: 0 <= k < index.value ==> todos[k].id != id
  {
    var i := 0;
    while i < |todos|
      invariant 0 <= i <= |todos|
      invariant forall k :: 0 <= k < i ==> todos[k].id != id
    {
      if todos[i].id == id {
        return Some(i);
      }
      i := i + 1;
    }
    return None;
  }

  /** Toggling flips the first record carrying the id and leaves every other record as it was. */
  lemma {:induction false} ToggledFlipsFirstMatch(todos: seq<Todo>, id: int, i: nat)
    requires i < |todos| && todos[i].id == id
    requires forall k :: 0 <= k < i ==> todos[k].id != id
    ensures Toggled(todos, id) == todos[i := Flipped(todos[i])]
    decreases |todos|
  {
    if i > 0 {
      ToggledFlipsFirstMatch(todos[1..], id, i - 1);
    }
  }

  /** Toggling an id no record carries leaves the list identical. */
  lemma {:induction false} ToggledNoMatch(todos: seq<Todo>, id: int)
    requires forall k :: 0 <= k < |todos| ==> todos[k].id != id
    ensures Toggled(todos, id) == todos
    decreases |todos|
  {
    if todos != [] {
      ToggledNoMatch(todos[1..], id);
    }
  }

  /** Toggling the same id twice restores the list. */
  lemma {:induction false} ToggledTwice(todos: seq<Todo>, id: int)
    ensures Toggled(Toggled(todos, id), id) == todos
    decreases |todos|
  {
    if todos != [] && todos[0].id != id {
      ToggledTwice(todos[1..], id);
    }
  }

  /** Toggling changes no id, text or date, and no record's place in the list. */
  lemma {:induction false} ToggledKeepsRecords(todos: seq<Todo>, id: int)
    ensures |Toggled(todos, id)| == |todos|
    ensures forall k :: 0 <= k < |todos| ==>
      Toggled(todos, id)[k] == todos[k].(completed := Toggled(todos, id)[k].completed)
    decreases |todos|
  {
    if todos != [] && todos[0].id != id {
      ToggledKeepsRecords(todos[1..], id);
    }
  }

  // ---------------------------------------------------------------------------
  // deleteTodo and clearCompletedTodos
  // ---------------------------------------------------------------------------

  /** The list after `deleteTodo(id)`: the records whose id differs. */
  function Deleted(todos: seq<Todo>, id: int): seq<Todo>
  {
    Filter(todos, (t: Todo) => t.id != id)
  }

  /** The list after `clearCompletedTodos`: the records not completed. */
  function ClearedCompleted(todos: seq<Todo>): seq<Todo>
  {
    Filter(todos, (t: Todo) => !t.completed)
  }

  /** Deleting keeps, in their order, exactly the records with another id, every one that carries
      the id goes (all of them, should two share it), and a missing id leaves the list as it was. */
  lemma DeletedKeepsOthers(todos: seq<Todo>, id: int)
    ensures var r := Deleted(todos, id);
      IsSubsequence(r, todos) &&
      (forall x: Todo :: multiset(r)[x] == if x.id != id then multiset(todos)[x] else 0) &&
      (forall k :: 0 <= k < |r| ==> r[k].id != id) &&
      ((forall k :: 0 <= k < |todos| ==> todos[k].id != id) ==> r == todos)
  {
    var p := (t: Todo) => t.id != id;
    FilterIsSubsequence(todos, p);
    forall x: Todo ensures multiset(Deleted(todos, id))[x] == if x.id != id then multiset(todos)[x] else 0 {
      FilterMultiplicity(todos, p, x);
    }
    FilterElements(todos, p);
    if forall k :: 0 <= k < |todos| ==> todos[k].id != id {
      FilterKeepsAll(todos, p);
    }
  }

  /** Deleting the same id twice is deleting it once. */
  lemma DeletedIdempotent(todos: seq<Todo>, id: int)
    ensures Deleted(Deleted(todos, id), id) == Deleted(todos, id)
  {
    DeletedKeepsOthers(todos, id);
    FilterKeepsAll(Deleted(todos, id), (t: Todo) => t.id != id);
  }

  /** Clearing keeps, in their order, exactly the records not completed; afterwards none is
      completed, the number of open records is the same, and clearing again changes nothing. */
  lemma ClearedCompletedKeepsOpen(todos: seq<Todo>)
    ensures var r := ClearedCompleted(todos);
      IsSubsequence(r, todos) &&
      (forall x: Todo :: multiset(r)[x] == if !x.completed then multiset(todos)[x] else 0) &&
      CompletedCount(r) == 0 && ActiveCount(r) == ActiveCount(todos) &&
      ClearedCompleted(r) == r
  {
    var p := (t: Todo) => !t.completed;
    var r := ClearedCompleted(todos);
    FilterIsSubsequence(todos, p);
    forall x: Todo ensures multiset(r)[x] == if !x.completed then multiset(todos)[x] else 0 {
      FilterMultiplicity(todos, p, x);
    }
    FilterElements(todos, p);
    FilterKeepsAll(r, p);
    assert ActiveTodos(r) == r;
    FilterSplits(r, (t: Todo) => !t.completed, (t: Todo) => t.completed);
  }

  // ---------------------------------------------------------------------------
  // getFilteredTodos
  // ---------------------------------------------------------------------------

  function ActiveTodos(todos: seq<Todo>): seq<Todo>
  {
    Filter(todos, (t: Todo) => !t.completed)
  }

  function CompletedTodos(todos: seq<Todo>): seq<Todo>
  {
    Filter(todos, (t: Todo) => t.completed)
  }

  /** The list the view shows under the filter named `filter`; a name other than "active" and
      "completed" shows everything. */
  function FilteredTodos(todos: seq<Todo>, filter: string): seq<Todo>
  {
    match filter
    case "active" => ActiveTodos(todos)
    case "completed" => CompletedTodos(todos)
    case _ => todos
  }

  /** "active" shows exactly the open records and "completed" exactly the completed ones, each in
      list order and with every occurrence; any other filter name shows the list unchanged. */
  lemma FilteredTodosView(todos: seq<Todo>, filter: string)
    ensures var r := FilteredTodos(todos, filter);
      IsSubsequence(r, todos) &&
      (filter == "active" ==> forall x: Todo :: multiset(r)[x] == if !x.completed then multiset(todos)[x] else 0) &&
      (filter == "completed" ==> forall x: Todo :: multiset(r)[x] == if x.completed then multiset(todos)[x] else 0) &&
      (filter != "active" && filter != "completed" ==> r == todos)
  {
    var r := FilteredTodos(todos, filter);
    if filter == "active" {
      var p := (t: Todo) => !t.completed;
      FilterIsSubsequence(todos, p);
      forall x: Todo ensures multiset(r)[x] == if !x.completed then multiset(todos)[x] else 0 {
        FilterMultiplicity(todos, p, x);
      }
    } else if filter == "completed" {
      var p := (t: Todo) => t.completed;
      FilterIsSubsequence(todos, p);
      forall x: Todo ensures multiset(r)[x] == if x.completed then multiset(todos)[x] else 0 {
        FilterMultiplicity(todos, p, x);
      }
    } else {
      FilterKeepsAll(todos, (t: Todo) => true);
      FilterIsSubsequence(todos, (t: Todo) => true);
    }
  }

  // ---------------------------------------------------------------------------
  // updateStats
  // ---------------------------------------------------------------------------

  function ActiveCount(todos: seq<Todo>): nat
  {
    |ActiveTodos(todos)|
  }

  function CompletedCount(todos: seq<Todo>): nat
  {
    |CompletedTodos(todos)|
  }

  /** The counter text for `active` open records. */
  function StatsText(active: nat): string
  {
    NumberToString(active) + " task" + (if active != 1 then "s" else "") + " remaining"
  }

  /** Whether the clear-completed control is displayed. */
  predicate ClearCompletedShown(todos: seq<Todo>)
  {
    CompletedCount(todos) > 0
  }

  /** Every record is either open or completed. */
  lemma CountsAddUp(todos: seq<Todo>)
    ensures ActiveCount(todos) + CompletedCount(todos) == |todos|
  {
    FilterSplits(todos, (t: Todo) => !t.completed, (t: Todo) => t.completed);
  }

  /** The counter text begins with the count in decimal, which reads back as the count, and goes on
      with the singular noun for exactly one task and the plural otherwise. */
  lemma StatsTextReadsBack(active: nat)
    ensures var t, d := StatsText(active), NatToString(active);
      |d| <= |t| && t[..|d|] == d && AllDigits(d) && ParseDigits(d) == active &&
      t[|d|..] == (if active == 1 then " task remaining" else " tasks remaining")
  {
    NatToStringReadsBack(active);
    var d := NatToString(active);
    var rest := " task" + (if active != 1 then "s" else "") + " remaining";
    assert StatsText(active) == d + rest;
    assert rest == (if active == 1 then " task remaining" else " tasks remaining");
  }

  lemma StatsTextExamples()
    ensures StatsText(0) == "0 tasks remaining"
    ensures StatsText(1) == "1 task remaining"
    ensures StatsText(2) == "2 tasks remaining"
  {
  }

  /** The clear-completed control is displayed exactly when some record is completed. */
  lemma ClearCompletedShownIff(todos: seq<Todo>)
    ensures ClearCompletedShown(todos) <==> exists k :: 0 <= k < |todos| && todos[k].completed
  {
    var p := (t: Todo) => t.completed;
    var c := CompletedTodos(todos);
    if c != [] {
      FilterMembership(todos, p, c[0]);
      var k :| 0 <= k < |todos| && todos[k] == c[0];
      assert todos[k].completed;
    }
    if k :| 0 <= k < |todos| && todos[k].completed {
      FilterMembership(todos, p, todos[k]);
    }
  }

  /** The texts of the records, in list order. */
  function Texts(todos: seq<Todo>): (r: seq<string>)
    ensures |r| == |todos| && forall k :: 0 <= k < |todos| ==> r[k] == todos[k].text
  {
    seq(|todos|, k requires 0 <= k < |todos| => todos[k].text)
  }

  // ---------------------------------------------------------------------------
  // the stored texts
  // ---------------------------------------------------------------------------

  /** Every stored text is non-empty and already trimmed, as `addTodo` makes it. */
  predicate TextsTrimmed(todos: seq<Todo>)
  {
    forall k :: 0 <= k < |todos| ==> todos[k].text != "" && Trim(todos[k].text) == todos[k].text
  }

  /** Every list operation keeps the stored texts non-empty and trimmed. */
  lemma TextsStayTrimmed(todos: seq<Todo>, input: string, id: int, createdAt: Instant)
    requires TextsTrimmed(todos)
    ensures TextsTrimmed(Added(todos, input, id, createdAt))
    ensures TextsTrimmed(Toggled(todos, id))
    ensures TextsTrimmed(Deleted(todos, id))
    ensures TextsTrimmed(ClearedCompleted(todos))
  {
    TrimIdempotent(input);
    ToggledKeepsRecords(todos, id);
    FilterElements(todos, (t: Todo) => t.id != id);
    FilterElements(todos, (t: Todo) => !t.completed);
  }

  /** Adding "A" and "B" to an empty list, toggling "A" and clearing the completed records leaves
      only "B", open, with one task remaining. */
  lemma AddToggleClearExample()
    ensures var s1 := Added([], "A", 1, Instant(1));
      var s2 := Added(s1, "B", 2, Instant(2));
      var s3 := Toggled(s2, 1);
      var s4 := ClearedCompleted(s3);
      s4 == [Todo(2, "B", false, Instant(2))] &&
      StatsText(ActiveCount(s4)) == "1 task remaining" && !ClearCompletedShown(s4)
  {
    assert Trim("A") == "A" && Trim("B") == "B";
    var b := Todo(2, "B", false, Instant(2));
    var s3 := [Todo(1, "A", true, Instant(1)), b];
    assert Toggled([Todo(1, "A", false, Instant(1)), b], 1) == s3;
    assert s3[1..] == [b] && [b][1..] == [];
    assert ClearedCompleted([b]) == [b] by {
      FilterKeepsAll([b], (t: Todo) => !t.completed);
    }
    assert ClearedCompleted(s3) == [b];
    assert ActiveTodos([b]) == [b];
    assert CompletedTodos([b]) == [] + CompletedTodos([]);
    StatsTextExamples();
  }
}
