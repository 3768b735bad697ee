/**
 * codenotes/console/todo.py: turning the command-line words into todos and saving them,
 * after a confirmation when previewing. Today's date is a parameter.
 */
module Todo {
  import opened Maybe
  import opened Builtins
  import opened Entry
  import opened Prompt
  import opened Store

  /**
   * `format_todo_text(text)`: the same splitting as `format_task_text`, written out a
   * second time in the source.
   */
  method FormatTodoText(text: seq<string>) returns (r: EntryText)
    ensures r == Format(text)
  {
    var todoText := Join(text, ' ');
    if ';' in todoText {
      var pieces := Split(todoText, ';');
      var todoTasksList: seq<string> := [];
      for i := 0 to |pieces|
        invariant todoTasksList == KeepStripped(pieces[..i])
      {
        var todoTask := pieces[i];
        if todoTask != "" && !IsSpace(todoTask) {
          todoTasksList := todoTasksList + [Strip(todoTask)];
        }
        KeepStrippedStep(pieces, i);
      }
      assert pieces[..|pieces|] == pieces;
      r := Many(todoTasksList);
    } else {
      r := Single(todoText);
    }
  }

  /** Whether `AddTodo.__init__` reaches `save_todo()`. */
  predicate SavesTodos(text: seq<string>, preview: bool, answers: seq<string>) {
    |text| > 0 && (!preview || Accepts(answers))
  }

  class AddTodo {
    /** `self.todo_task`, set only when words were given. */
    var todoTask: Option<EntryText>
    const creationDate: int
    const todos: TodoTable

    /**
     * `AddTodo.__init__(args)`: without words nothing happens; otherwise the todos are
     * saved, after a "y" to the confirmation when previewing.
     */
    constructor (text: seq<string>, preview: bool, answers: seq<string>, today: int, todos: TodoTable)
      modifies todos
      ensures this.todos == todos && creationDate == today
      ensures todoTask == if |text| > 0 then Some(Format(text)) else None
      ensures todos.rows == old(todos.rows) +
        if SavesTodos(text, preview, answers) then TodoRows(Items(Format(text)), today) else []
    {
      this.todos := todos;
      creationDate := today;
      todoTask := None;
      new;
      if |text| > 0 {
        var formatted := FormatTodoText(text);
        todoTask := Some(formatted);
        if preview {
          var confirmed := AskConfirmation(answers);
          if confirmed.Answered? && confirmed.value {
            SaveTodo(today);
          }
        } else {
          SaveTodo(today);
        }
      }
    }

    /**
     * `save_todo()`: one row per todo, in order, all stamped with the date `today` read
     * when saving; the rows already there stay as they were.
     */
    method SaveTodo(today: int)
      requires todoTask.Some?
      modifies todos
      ensures todos.rows == old(todos.rows) + TodoRows(Items(todoTask.value), today)
    {
      match todoTask.value
      case Many(items) =>
        var values: seq<TodoRow> := [];
        for i := 0 to |items|
          invariant values == TodoRows(items[..i], today)
        {
          values := values + [TodoRow(items[i], today)];
          assert items[..i + 1][..i] == items[..i];
        }
        assert items[..|items|] == items;
        todos.AppendAll(values);
      case Single(text) =>
        todos.AppendAll([TodoRow(text, today)]);
        assert TodoRows([text], today) == [TodoRow(text, today)];
    }
  }

  /** Previewing, an empty first answer declines, so nothing is saved. */
  lemma EmptyAnswerSavesNothing(text: seq<string>, answers: seq<string>)
    requires |answers| > 0 && answers[0] == ""
    ensures !SavesTodos(text, true, answers)
  {
    EmptyAnswerDeclines(answers);
  }

  /** Text without a `;` is saved as exactly one row holding the whole joined text. */
  lemma SingleTextOneRow(text: seq<string>, today: int)
    requires ';' !in Join(text, ' ')
    ensures TodoRows(Items(Format(text)), today) == [TodoRow(Join(text, ' '), today)]
  {
    assert TodoRows([Join(text, ' ')], today)[0] == TodoRow(Join(text, ' '), today);
  }
}
