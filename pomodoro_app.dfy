/**
 * The application object: the fields PomodoroApp keeps, its constructor defaults, and one method
 * per handler that changes them. Each method is specified by the transition function of
 * TimerModel or TodoModel it carries out on the old state, and says which fields it leaves alone.
 * Reading members (the display text, the filtered list, the counter text) are functions.
 */
module Pomodoro {
  import opened Wrappers
  import opened JsText
  import TimerModel
  import opened TimerDisplay
  import opened TodoModel

  class PomodoroApp {
    var workTime: int
    var breakTime: int
    var currentTime: int
    var isWorking: bool
    var isRunning: bool
    var sessionCount: nat
    var todos: seq<Todo>
    var currentFilter: string

    /** The timer fields as one value. */
    function Timer(): TimerModel.TimerState
      reads this
    {
      TimerModel.TimerState(workTime, breakTime, currentTime, isWorking, isRunning, sessionCount)
    }

    /** `saved` is the list the browser's storage held, or the empty list when there was none. */
    constructor (saved: seq<Todo>)
      ensures Timer() == TimerModel.Initial()
      ensures todos == saved && currentFilter == "all"
    {
      workTime := 25;
      breakTime := 5;
      currentTime := 25 * 60;
      isWorking := true;
      isRunning := false;
      sessionCount := 0;
      todos := saved;
      currentFilter := "all";
    }

    // -------------------------------------------------------------------------
    // the timer
    // -------------------------------------------------------------------------

    method Start()
      modifies this
      ensures Timer() == TimerModel.Start(old(Timer()))
      ensures todos == old(todos) && currentFilter == old(currentFilter)
    {
      if !isRunning {
        isRunning := true;
      }
    }

    method Pause()
      modifies this
      ensures Timer() == TimerModel.Pause(old(Timer()))
      ensures todos == old(todos) && currentFilter == old(currentFilter)
    {
      if isRunning {
        isRunning := false;
      }
    }

    method Reset()
      modifies this
      ensures Timer() == TimerModel.Reset(old(Timer()))
      ensures todos == old(todos) && currentFilter == old(currentFilter)
    {
      Pause();
      currentTime := if isWorking then workTime * 60 else breakTime * 60;
    }

    method SwitchSession()
      modifies this
      ensures Timer() == TimerModel.SwitchSession(old(Timer()))
      ensures todos == old(todos) && currentFilter == old(currentFilter)
    {
      if isWorking {
        sessionCount := sessionCount + 1;
        isWorking := false;
        currentTime := breakTime * 60;
      } else {
        isWorking := true;
        currentTime := workTime * 60;
      }
    }

    /** One interval callback. When the session ends, `notice` is the notification the program
        asks the browser to show (whether it appears depends on the user's permission). */
    method Tick() returns (notice: Option<TimerModel.Notification>)
      modifies this
      ensures Timer() == TimerModel.Tick(old(Timer()))
      ensures notice == if old(currentTime) <= 1 then Some(TimerModel.NotificationFor(isWorking)) else None
      ensures todos == old(todos) && currentFilter == old(currentFilter)
    {
      currentTime := currentTime - 1;
      notice := None;
      if currentTime <= 0 {
        Pause();
        SwitchSession();
        notice := Some(TimerModel.NotificationFor(isWorking));
      }
    }

    /** The work slider's input handler; `minutes` is the parsed slider value. */
    method SetWorkTime(minutes: int)
      modifies this
      ensures Timer() == TimerModel.SetWorkTime(old(Timer()), minutes)
      ensures todos == old(todos) && currentFilter == old(currentFilter)
    {
      workTime := minutes;
      if isWorking && !isRunning {
        currentTime := workTime * 60;
      }
    }

    /** The break slider's input handler; `minutes` is the parsed slider value. */
    method SetBreakTime(minutes: int)
      modifies this
      ensures Timer() == TimerModel.SetBreakTime(old(Timer()), minutes)
      ensures todos == old(todos) && currentFilter == old(currentFilter)
    {
      breakTime := minutes;
      if !isWorking && !isRunning {
        currentTime := breakTime * 60;
      }
    }

    /** The text `updateDisplay` puts in the countdown; a non-negative countdown reads back from it. */
    function TimeText(): (r: string)
      reads this
      ensures currentTime >= 0 ==> ReadClock(r) == Some(currentTime as nat)
    {
      if currentTime >= 0 then ReadClockFormatTime(currentTime as nat); FormatTime(currentTime)
      else FormatTime(currentTime)
    }

    // -------------------------------------------------------------------------
    // the todo list
    // -------------------------------------------------------------------------

    /** The add button or Enter key with the input box holding `input`; `id` is the `Date.now()`
        reading and `createdAt` the `new Date()` value. `added` tells whether the box is cleared. */
    method AddTodo(input: string, id: int, createdAt: Instant) returns (added: bool)
      modifies this
      ensures todos == Added(old(todos), input, id, createdAt)
      ensures added <==> !AllWhitespace(input)
      ensures Timer() == old(Timer()) && currentFilter == old(currentFilter)
    {
      var text := Trim(input);
      TrimEmptyIff(input);
      added := text != "";
      if added {
        todos := todos + [Todo(id, text, false, createdAt)];
      }
    }

    method ToggleTodo(id: int)
      modifies this
      ensures todos == Toggled(old(todos), id)
      ensures Timer() == old(Timer()) && currentFilter == old(currentFilter)
    {
      var found := FindTodo(todos, id);
      if found.Some? {
        var i := found.value;
        ToggledFlipsFirstMatch(todos, id, i);
        todos := todos[i := todos[i].(completed := !todos[i].completed)];
      } else {
        ToggledNoMatch(todos, id);
      }
    }

    method DeleteTodo(id: int)
      modifies this
      ensures todos == Deleted(old(todos), id)
      ensures Timer() == old(Timer()) && currentFilter == old(currentFilter)
    {
      todos := Filter(todos, (t: Todo) => t.id != id);
    }

    method ClearCompletedTodos()
      modifies this
      ensures todos == ClearedCompleted(old(todos))
      ensures Timer() == old(Timer()) && currentFilter == old(currentFilter)
    {
      todos := Filter(todos, (t: Todo) => !t.completed);
    }

    /** A filter button's click handler; the list itself is not touched. */
    method SetFilter(filter: string)
      modifies this
      ensures currentFilter == filter
      ensures Timer() == old(Timer()) && todos == old(todos)
    {
      currentFilter := filter;
    }

    /** The records the list shows: an order-preserving selection of the stored ones. */
    function GetFilteredTodos(): (r: seq<Todo>)
      reads this
      ensures IsSubsequence(r, todos)
      ensures currentFilter != "active" && currentFilter != "completed" ==> r == todos
    {
      FilteredTodosView(todos, currentFilter);
      FilteredTodos(todos, currentFilter)
    }

    /** The counter text `updateStats` shows: the number of open records in decimal, then the
        noun in the singular for exactly one and in the plural otherwise. */
    function RemainingText(): (r: string)
      reads this
      ensures var n, d := ActiveCount(todos), NatToString(ActiveCount(todos));
        |d| <= |r| && r[..|d|] == d && AllDigits(d) && ParseDigits(d) == n &&
        r[|d|..] == (if n == 1 then " task remaining" else " tasks remaining")
    {
      StatsTextReadsBack(ActiveCount(todos));
      StatsText(ActiveCount(todos))
    }

    /** Whether `updateStats` displays the clear-completed control: exactly when some record is
        completed. */
    function ClearCompletedVisible(): (r: bool)
      reads this
      ensures r <==> exists k :: 0 <= k < |todos| && todos[k].completed
    {
      ClearCompletedShownIff(todos);
      ClearCompletedShown(todos)
    }
  }

  /** A client of the timer: start twice, pause twice, then reset, from the constructor's state. */
  method StartPauseResetClient() returns (running: bool, display: string)
    ensures !running && display == "25:00"
  {
    var app := new PomodoroApp([]);
    app.Start();
    app.Start();
    app.Pause();
    app.Pause();
    app.Reset();
    running := app.isRunning;
    display := app.TimeText();
    TimerModel.InitialInRange();
  }

  /** A client of the list: from an empty list, add "A" and "B", toggle "A" and clear the
      completed records. */
  method AddToggleClearClient() returns (texts: seq<string>, remaining: string, clearShown: bool)
    ensures texts == ["B"] && remaining == "1 task remaining" && !clearShown
  {
    var app := new PomodoroApp([]);
    var _ := app.AddTodo("A", 1, Instant(1));
    var _ := app.AddTodo("B", 2, Instant(2));
    app.ToggleTodo(1);
    app.ClearCompletedTodos();
    AddToggleClearExample();
    texts := Texts(app.todos);
    remaining := app.RemainingText();
    clearShown := app.ClearCompletedVisible();
  }
}
