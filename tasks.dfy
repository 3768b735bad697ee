/**
 * codenotes/cli/tasks.py: turning the command-line words into tasks, the optional new
 * category a task is filed under, saving the tasks, and the filters a task search uses.
 * The database is the in-memory tables of `Store`, the console is a finite sequence of
 * typed answers, and today's date is a parameter.
 */
module Tasks {
  import opened Maybe
  import opened Builtins
  import opened Calendar
  import opened Entry
  import opened Prompt
  import opened Store
  import opened Cli

  /**
   * `format_task_text(text)`: joins the words with spaces; with a `;`, collects the
   * non-blank pieces, stripped, in a list, and otherwise returns the joined text as is.
   */
  method FormatTaskText(text: seq<string>) returns (r: EntryText)
    ensures r == Format(text)
  {
    var taskText := Join(text, ' ');
    if ';' in taskText {
      var pieces := Split(taskText, ';');
      var tasksList: seq<string> := [];
      var i := 0;
      while i < |pieces|
        invariant 0 <= i <= |pieces|
        invariant tasksList == KeepStripped(pieces[..i])
      {
        var task := pieces[i];
        if task != "" && !IsSpace(task) {
          tasksList := tasksList + [Strip(task)];
        }
        KeepStrippedStep(pieces, i);
        i := i + 1;
      }
      assert pieces[..|pieces|] == pieces;
      r := Many(tasksList);
    } else {
      r := Single(taskText);
    }
  }

  /** `add_task_args_empty(args)`: neither task words nor a new category name were given. */
  function AddTaskArgsEmpty(text: seq<string>, newCategory: seq<string>): (r: bool)
    ensures r <==> |text| == 0 && |newCategory| == 0
  {
    var needed := [|text| > 0, |newCategory| > 0];
    assert needed[0] == (|text| > 0) && needed[1] == (|newCategory| > 0);
    !Any(needed)
  }

  /** The longest category name `save_category` stores without asking for another. */
  const MaxCategoryLength := 30

  /** An answer that ends the "write another name" loop: 1 to 30 characters. */
  predicate FitsCategory(answer: string) {
    0 < |answer| <= MaxCategoryLength
  }

  /**
   * The name `_ask_category()` ends up passing to `save_category`: the first answer of 1
   * to 30 characters, after `used` answers were read.
   */
  function PromptedCategory(answers: seq<string>): (r: Reply<string>)
    ensures r.Answered? ==> 1 <= r.used <= |answers| && FitsCategory(answers[r.used - 1])
    ensures r.Answered? ==> r.value == answers[r.used - 1] && |r.value| <= MaxCategoryLength
    ensures r.Answered? ==> forall j :: 0 <= j < r.used - 1 ==> !FitsCategory(answers[j])
    ensures r.Exhausted? <==> forall j :: 0 <= j < |answers| ==> !FitsCategory(answers[j])
  {
    match FirstWhere(answers, FitsCategory)
    case None => Exhausted
    case Some(k) => Answered(answers[k], k + 1)
  }

  /** The first answer that fits decides the name, however many follow it. */
  lemma PromptedAt(answers: seq<string>, i: nat)
    requires i < |answers| && FitsCategory(answers[i])
    requires forall j :: 0 <= j < i ==> !FitsCategory(answers[j])
    ensures PromptedCategory(answers) == Answered(answers[i], i + 1)
  {
  }

  /** Without an answer that fits, the prompt is still waiting. */
  lemma PromptedNone(answers: seq<string>)
    requires forall j :: 0 <= j < |answers| ==> !FitsCategory(answers[j])
    ensures PromptedCategory(answers) == Exhausted
  {
  }

  /**
   * The name `save_category(category)` ends up inserting, before stripping: the name
   * itself when it has at most 30 characters (whitespace included), without reading an
   * answer; otherwise the one `_ask_category()` gets.
   */
  function CategoryChoice(category: string, answers: seq<string>): (r: Reply<string>)
    ensures |category| <= MaxCategoryLength ==> r == Answered(category, 0)
    ensures |category| > MaxCategoryLength ==> r == PromptedCategory(answers) && (r.Answered? ==> r.used >= 1)
    ensures r.Answered? ==> |r.value| <= MaxCategoryLength && r.used <= |answers|
  {
    if |category| <= MaxCategoryLength then Answered(category, 0) else PromptedCategory(answers)
  }

  /** Answers that do not fit only delay the prompt: the stored name is the same. */
  lemma {:induction false} UnfitAnswersSkipped(noise: seq<string>, answers: seq<string>)
    requires forall j :: 0 <= j < |noise| ==> !FitsCategory(noise[j])
    ensures PromptedCategory(noise + answers) ==
      match PromptedCategory(answers)
      case Exhausted => Exhausted
      case Answered(v, k) => Answered(v, k + |noise|)
  {
    var all := noise + answers;
    match PromptedCategory(answers)
    case Exhausted =>
      forall j | 0 <= j < |all| ensures !FitsCategory(all[j]) {
        if j >= |noise| { assert all[j] == answers[j - |noise|]; }
      }
      PromptedNone(all);
    case Answered(v, k) =>
      var m := k - 1 + |noise|;
      assert all[m] == answers[k - 1];
      forall j | 0 <= j < m ensures !FitsCategory(all[j]) {
        if j >= |noise| { assert all[j] == answers[j - |noise|]; }
      }
      PromptedAt(all, m);
      assert v == all[m] && m + 1 == k + |noise|;
  }

  /**
   * The length limit counts the raw name: 30 characters are taken at once, while 31 make
   * the program ask for another name even when the stripped name would fit.
   */
  lemma CategoryLimitIsRawLength(name: string, answers: seq<string>)
    requires |name| == MaxCategoryLength + 1 && IsWhitespace(name[0])
    ensures CategoryChoice(name[1..], answers) == Answered(name[1..], 0)
    ensures CategoryChoice(name, answers) == PromptedCategory(answers)
    ensures |Strip(name)| <= MaxCategoryLength
  {
    assert LeadingBlank(name) > 0;
  }

  /** The options of `codenotes add task` that `AddTask.__init__` reads. */
  datatype AddTaskArgs = AddTaskArgs(text: seq<string>, newCategory: seq<string>, preview: bool)

  /** What the new-category step of `AddTask.__init__` ends with; `None` when it does not run. */
  function CategoryStep(args: AddTaskArgs, answers: seq<string>): Option<Reply<string>> {
    if AddTaskArgsEmpty(args.text, args.newCategory) || |args.newCategory| == 0 then None
    else Some(CategoryChoice(Join(args.newCategory, ' '), answers))
  }

  /** The answers left for the confirmation prompt; `None` while the category prompt still waits. */
  function AnswersLeft(args: AddTaskArgs, answers: seq<string>): Option<seq<string>> {
    match CategoryStep(args, answers)
    case None => Some(answers)
    case Some(Exhausted) => None
    case Some(Answered(_, used)) => Some(answers[used..])
  }

  /** Whether `AddTask.__init__` reaches `save_task()`. */
  predicate SavesTasks(args: AddTaskArgs, answers: seq<string>) {
    && !AddTaskArgsEmpty(args.text, args.newCategory)
    && |args.text| > 0
    && AnswersLeft(args, answers).Some?
    && (!args.preview || Accepts(AnswersLeft(args, answers).value))
  }

  /** The category row `AddTask.__init__` inserts, if any, given the id the table hands out next. */
  function NewCategoryRows(args: AddTaskArgs, answers: seq<string>, id: int): seq<(int, string)> {
    match CategoryStep(args, answers)
    case Some(Answered(name, _)) => [(id, Strip(name))]
    case _ => []
  }

  class AddTask {
    /** `AddTask.category_id`: 1, the default category, until a category is created. */
    var categoryId: int
    /** `self.task`, set only when task words were given. */
    var task: Option<EntryText>
    /** Whether the constructor handed over to the interactive screen instead. */
    var interactive: bool
    const creationDate: int
    const categories: CategoryTable
    const tasks: TaskTable

    /**
     * `AddTask.__init__(args)`: with no task words and no new category, opens the
     * interactive screen; otherwise stores the new category (if one was named) and then
     * the tasks (if any were written), after a confirmation when previewing.
     */
    constructor (args: AddTaskArgs, answers: seq<string>, today: int, categories: CategoryTable, tasks: TaskTable)
      requires categories.Valid()
      modifies categories, tasks
      ensures this.categories == categories && this.tasks == tasks && creationDate == today
      ensures categories.Valid()
      ensures interactive <==> AddTaskArgsEmpty(args.text, args.newCategory)
      ensures categories.rows == old(categories.rows) + NewCategoryRows(args, answers, old(categories.nextId))
      ensures categoryId == if |NewCategoryRows(args, answers, 0)| == 1 then old(categories.nextId) else 1
      ensures task == if !interactive && |args.text| > 0 && AnswersLeft(args, answers).Some? then Some(Format(args.text)) else None
      ensures tasks.rows == old(tasks.rows) +
        if SavesTasks(args, answers) then TaskRows(Items(Format(args.text)), today, categoryId) else []
    {
      this.categories := categories;
      this.tasks := tasks;
      creationDate := today;
      categoryId := 1;
      task := None;
      interactive := false;
      new;
      if AddTaskArgsEmpty(args.text, args.newCategory) {
        interactive := true;
      } else {
        var left := NewCategory(args, answers);
        ghost var saved := categories.rows;
        if left.Some? && |args.text| > 0 {
          WriteTasks(args.text, args.preview, left.value);
        }
        assert categories.rows == saved;
      }
    }

    /**
     * The `if args.new_category:` block of `AddTask.__init__`: the joined name is saved
     * with `save_category`; `left` holds the answers the confirmation prompt still gets,
     * `None` when the category prompt ran out of answers.
     */
    method NewCategory(args: AddTaskArgs, answers: seq<string>) returns (left: Option<seq<string>>)
      requires !AddTaskArgsEmpty(args.text, args.newCategory) && categories.Valid()
      modifies this, categories
      ensures categories.Valid()
      ensures left == AnswersLeft(args, answers)
      ensures categories.rows == old(categories.rows) + NewCategoryRows(args, answers, old(categories.nextId))
      ensures categoryId == if |NewCategoryRows(args, answers, 0)| == 1 then old(categories.nextId) else old(categoryId)
      ensures task == old(task) && interactive == old(interactive)
    {
      left := Some(answers);
      if |args.newCategory| > 0 {
        var chosen := SaveCategory(Join(args.newCategory, ' '), answers);
        if chosen.Exhausted? {
          left := None;
        } else {
          left := Some(answers[chosen.used..]);
        }
      }
    }

    /**
     * The `if args.text:` block of `AddTask.__init__`: the task words are formatted and
     * the tasks saved, at once or, when previewing, only after a "y".
     */
    method WriteTasks(text: seq<string>, preview: bool, answers: seq<string>)
      modifies this, tasks
      ensures task == Some(Format(text))
      ensures categoryId == old(categoryId) && interactive == old(interactive)
      ensures tasks.rows == old(tasks.rows) +
        if !preview || Accepts(answers) then TaskRows(Items(Format(text)), creationDate, categoryId) else []
    {
      var formatted := FormatTaskText(text);
      task := Some(formatted);
      if preview {
        ShowPreview(answers);
      } else {
        SaveTask();
      }
    }

    /**
     * `show_preview()`: after the tasks are shown, they are saved only when the
     * confirmation loop ends on a "y".
     */
    method ShowPreview(answers: seq<string>)
      requires task.Some?
      modifies tasks
      ensures tasks.rows == old(tasks.rows) +
        if Accepts(answers) then TaskRows(Items(task.value), creationDate, categoryId) else []
    {
      var confirmed := AskConfirmation(answers);
      if confirmed.Answered? && confirmed.value {
        SaveTask();
      }
    }

    /**
     * `save_category(category)`: a name of at most 30 characters is inserted stripped and
     * its row id becomes `category_id`; a longer one inserts nothing and asks for another.
     */
    method SaveCategory(category: string, answers: seq<string>) returns (r: Reply<string>)
      requires categories.Valid()
      modifies this, categories
      ensures categories.Valid()
      ensures r == CategoryChoice(category, answers)
      ensures r.Answered? ==> && categoryId == old(categories.nextId)
                              && categories.rows == old(categories.rows) + [(categoryId, Strip(r.value))]
      ensures r.Exhausted? ==> categoryId == old(categoryId) && categories.rows == old(categories.rows)
      ensures task == old(task) && interactive == old(interactive)
      // `save_category` and `_ask_category` call each other (tasks.py:120, 179); the
      // chain stops because `_ask_category` passes on only a name that fits.
      decreases if |category| <= MaxCategoryLength then 0 else 2
    {
      if |category| <= MaxCategoryLength {
        StoreCategory(Strip(category));
        r := Answered(category, 0);
      } else {
        r := AskCategory(answers);
      }
    }

    /** The insert of `save_category`: the new row's id becomes `category_id`. */
    method StoreCategory(name: string)
      requires categories.Valid()
      modifies this, categories
      ensures categories.Valid()
      ensures categoryId == old(categories.nextId) && categories.rows == old(categories.rows) + [(categoryId, name)]
      ensures task == old(task) && interactive == old(interactive)
    {
      var id := categories.Insert(name);
      categoryId := id;
    }

    /**
     * `_ask_category()`: reads names until one has 1 to 30 characters, then saves it with
     * `save_category`.
     */
    method AskCategory(answers: seq<string>) returns (r: Reply<string>)
      requires categories.Valid()
      modifies this, categories
      ensures categories.Valid()
      ensures r == PromptedCategory(answers)
      ensures r.Answered? ==> && categoryId == old(categories.nextId)
                              && categories.rows == old(categories.rows) + [(categoryId, Strip(r.value))]
      ensures r.Exhausted? ==> categoryId == old(categoryId) && categories.rows == old(categories.rows)
      ensures task == old(task) && interactive == old(interactive)
      // Between the two ranks of `SaveCategory`: this call comes from a name that did not
      // fit, and the name it passes back fits.
      decreases 1
    {
      if |answers| == 0 {
        return Exhausted;
      }
      var i := 0;
      var category := answers[0];
      while |category| == 0 || |category| > MaxCategoryLength
        invariant 0 <= i < |answers| && category == answers[i]
        invariant forall j :: 0 <= j < i ==> !FitsCategory(answers[j])
        decreases |answers| - i
      {
        if i + 1 == |answers| {
          return Exhausted;
        }
        i := i + 1;
        category := answers[i];
      }
      PromptedAt(answers, i);
      var saved := SaveCategory(category, answers[i + 1..]);
      r := Answered(saved.value, i + 1);
    }

    /**
     * `save_task()`: one row per task, in order, each with the creation date and the
     * current category id; the rows already there stay as they were.
     */
    method SaveTask()
      requires task.Some?
      modifies tasks
      ensures tasks.rows == old(tasks.rows) + TaskRows(Items(task.value), creationDate, categoryId)
    {
      match task.value
      case Many(items) =>
        var i := 0;
        while i < |items|
          invariant 0 <= i <= |items|
          invariant tasks.rows == old(tasks.rows) + TaskRows(items[..i], creationDate, categoryId)
        {
          tasks.Append(TaskRow(items[i], creationDate, categoryId));
          assert items[..i + 1][..i] == items[..i];
          i := i + 1;
        }
        assert items[..|items|] == items;
      case Single(text) =>
        tasks.Append(TaskRow(text, creationDate, categoryId));
        assert TaskRows([text], creationDate, categoryId) == [TaskRow(text, creationDate, categoryId)];
    }
  }

  /** The conditions `sql_query` adds to the joined select of tasks and their categories. */
  datatype Filter =
    | CreatedOn(day: int)                  // creation date equal to one day
    | CreatedBetween(first: int, last: int) // creation date in an inclusive range
    | ContentLike(text: string)             // content holding the text, ASCII case folded

  /**
   * The filter-selecting part of `sql_query()`: a day filter for a single date, a range
   * filter for a pair, none for no date; a content filter exactly when the search text
   * is not empty.
   */
  function SqlFilters(searchDate: SearchDate, searchText: string): (r: seq<Filter>)
    ensures |r| == (if searchDate.NoDate? then 0 else 1) + (if searchText == "" then 0 else 1)
    ensures searchDate.Day? ==> CreatedOn(searchDate.day) in r
    ensures searchDate.Range? ==> CreatedBetween(searchDate.first, searchDate.last) in r
    ensures forall f :: f in r && f.CreatedOn? ==> searchDate == Day(f.day)
    ensures forall f :: f in r && f.CreatedBetween? ==> searchDate == Range(f.first, f.last)
    ensures searchText != "" <==> ContentLike(searchText) in r
    ensures forall f :: f in r && f.ContentLike? ==> f.text == searchText
  {
    var dateFilters :=
      match searchDate
      case Day(d) => [CreatedOn(d)]
      case Range(first, last) => [CreatedBetween(first, last)]
      case NoDate => [];
    dateFilters + (if searchText != "" then [ContentLike(searchText)] else [])
  }

  /** How `SearchTask.__init__` goes on from its options. */
  datatype SearchStart =
    | DateOverflow            // `dates_to_search` raised before anything else happened
    | Interactive             // no option given: the interactive search screen opens
    | Query(filters: seq<Filter>)

  /**
   * `SearchTask.__init__(args)`: the date is resolved first (and may overflow), then the
   * interactive screen opens when no option was given, otherwise the search runs with the
   * filters for that date and for the space-joined search words.
   */
  function StartSearch(args: SearchArgs, now: int): (r: SearchStart)
    requires 1 <= now <= MaxOrdinal
    ensures r == DateOverflow <==> DatesToSearch(args, now) == OutOfRange
    ensures r == Interactive <==> DateArgsEmpty(args)
    ensures r.Query? ==> r.filters == SqlFilters(DatesToSearch(args, now).date, Join(args.text, ' '))
  {
    match DatesToSearch(args, now)
    case OutOfRange => DateOverflow
    case Resolved(date) =>
      if DateArgsEmpty(args) then Interactive
      else
        Query(SqlFilters(date, Join(args.text, ' ')))
  }

  /** ASCII case folding, the only folding SQLite's `LIKE` does by default. */
  function FoldCase(c: char): char {
    if 'A' <= c <= 'Z' then (c as int + 32) as char else c
  }

  /** `text` occurs in `content` at position `i`, letters compared without ASCII case. */
  predicate FoldedAt(content: string, text: string, i: int) {
    0 <= i <= |content| - |text| && forall k :: 0 <= k < |text| ==> FoldCase(content[i + k]) == FoldCase(text[k])
  }

  /** `content LIKE '%text%'` for a text without wildcards. */
  predicate ContainsFolded(content: string, text: string) {
    exists i :: 0 <= i <= |content| - |text| && FoldedAt(content, text, i)
  }

  /** Every letter `FoldCase` gives is already folded. */
  lemma FoldTwice(c: char)
    ensures FoldCase(FoldCase(c)) == FoldCase(c)
  {
  }

  /** `text` with every ASCII capital letter lowered. */
  function LowerAscii(text: string): (r: string)
    ensures |r| == |text| && forall k :: 0 <= k < |text| ==> r[k] == FoldCase(text[k])
  {
    if |text| == 0 then "" else [FoldCase(text[0])] + LowerAscii(text[1..])
  }

  /** An exact occurrence of `text` inside `content` is a match. */
  lemma OccurrenceMatches(content: string, text: string, i: nat)
    requires i + |text| <= |content| && content[i..i + |text|] == text
    ensures ContainsFolded(content, text)
  {
    forall k | 0 <= k < |text|
      ensures FoldCase(content[i + k]) == FoldCase(text[k])
    {
      assert content[i..i + |text|][k] == content[i + k];
    }
    assert FoldedAt(content, text, i);
  }

  /** The empty search text matches every content; a longer text never matches a shorter content. */
  lemma ContainsFoldedBounds(content: string, text: string)
    ensures ContainsFolded(content, "")
    ensures |text| > |content| ==> !ContainsFolded(content, text)
  {
    assert FoldedAt(content, "", 0);
  }

  /** Letter case in the search text does not matter, as for SQLite's default `LIKE`. */
  lemma ContainsFoldedCaseless(content: string, text: string)
    ensures ContainsFolded(content, text) <==> ContainsFolded(content, LowerAscii(text))
  {
    var lower := LowerAscii(text);
    forall i | 0 <= i <= |content| - |text|
      ensures FoldedAt(content, text, i) <==> FoldedAt(content, lower, i)
    {
      forall k | 0 <= k < |text|
        ensures FoldCase(lower[k]) == FoldCase(text[k])
      {
        FoldTwice(text[k]);
      }
    }
  }

  /** A task row meets a filter. */
  predicate Satisfies(row: TaskRow, f: Filter) {
    match f
    case CreatedOn(day) => row.created == day
    case CreatedBetween(first, last) => first <= row.created <= last
    case ContentLike(text) => ContainsFolded(row.content, text)
  }

  predicate SatisfiesAll(row: TaskRow, filters: seq<Filter>) {
    forall f :: f in filters ==> Satisfies(row, f)
  }

  /** A row of the search result: the task's content, creation date and category name. */
  datatype Found = Found(content: string, created: int, category: string)

  /**
   * The rows the search selects: the tasks joined with their category (a task whose
   * category id has no row drops out of the inner join), kept when every filter holds,
   * in table order.
   */
  function Search(rows: seq<TaskRow>, categoryRows: seq<(int, string)>, filters: seq<Filter>): (r: seq<Found>)
    ensures |r| <= |rows|
  {
    if |rows| == 0 then []
    else
      var row := rows[|rows| - 1];
      var earlier := Search(rows[..|rows| - 1], categoryRows, filters);
      match NameOfId(categoryRows, row.categoryId)
      case Some(name) => if SatisfiesAll(row, filters) then earlier + [Found(row.content, row.created, name)] else earlier
      case None => earlier
  }

  /** Every row found comes from a task meeting all the filters, with its category's name. */
  lemma {:induction false} SearchSound(rows: seq<TaskRow>, categoryRows: seq<(int, string)>, filters: seq<Filter>, k: nat)
    requires k < |Search(rows, categoryRows, filters)|
    ensures exists i :: 0 <= i < |rows| && SatisfiesAll(rows[i], filters) &&
              NameOfId(categoryRows, rows[i].categoryId) == Some(Search(rows, categoryRows, filters)[k].category) &&
              Search(rows, categoryRows, filters)[k].content == rows[i].content &&
              Search(rows, categoryRows, filters)[k].created == rows[i].created
  {
    var n := |rows| - 1;
    var earlier := Search(rows[..n], categoryRows, filters);
    if k < |earlier| {
      SearchSound(rows[..n], categoryRows, filters, k);
      var i :| 0 <= i < n && SatisfiesAll(rows[..n][i], filters) &&
               NameOfId(categoryRows, rows[..n][i].categoryId) == Some(earlier[k].category) &&
               earlier[k].content == rows[..n][i].content && earlier[k].created == rows[..n][i].created;
      assert rows[..n][i] == rows[i];
    } else {
      assert rows[n] == rows[|rows| - 1];
    }
  }

  /** Every task meeting all the filters whose category exists is found, with its category's name. */
  lemma {:induction false} SearchComplete(rows: seq<TaskRow>, categoryRows: seq<(int, string)>, filters: seq<Filter>, i: nat)
    requires i < |rows| && SatisfiesAll(rows[i], filters) && NameOfId(categoryRows, rows[i].categoryId).Some?
    ensures Found(rows[i].content, rows[i].created, NameOfId(categoryRows, rows[i].categoryId).value)
              in Search(rows, categoryRows, filters)
  {
    var n := |rows| - 1;
    if i < n {
      assert rows[..n][i] == rows[i];
      SearchComplete(rows[..n], categoryRows, filters, i);
    }
  }

  /**
   * A search by a date range finds a task whose category exists exactly when the task
   * was created within the range.
   */
  lemma RangeSearchFinds(rows: seq<TaskRow>, categoryRows: seq<(int, string)>, first: int, last: int, i: nat)
    requires i < |rows| && NameOfId(categoryRows, rows[i].categoryId).Some?
    ensures Found(rows[i].content, rows[i].created, NameOfId(categoryRows, rows[i].categoryId).value)
              in Search(rows, categoryRows, [CreatedBetween(first, last)])
            <==> first <= rows[i].created <= last
  {
    var filters := [CreatedBetween(first, last)];
    var found := Search(rows, categoryRows, filters);
    var target := Found(rows[i].content, rows[i].created, NameOfId(categoryRows, rows[i].categoryId).value);
    if target in found {
      var k :| 0 <= k < |found| && found[k] == target;
      SearchSound(rows, categoryRows, filters, k);
      var j :| 0 <= j < |rows| && SatisfiesAll(rows[j], filters) && found[k].created == rows[j].created;
      assert Satisfies(rows[j], filters[0]);
    }
    if first <= rows[i].created <= last {
      assert forall f :: f in filters ==> f == CreatedBetween(first, last);
      SearchComplete(rows, categoryRows, filters, i);
    }
  }

  /** With no filter, every task whose category exists is found, one result per task. */
  lemma {:induction false} SearchWithoutFilters(rows: seq<TaskRow>, categoryRows: seq<(int, string)>)
    requires forall i :: 0 <= i < |rows| ==> NameOfId(categoryRows, rows[i].categoryId).Some?
    ensures |Search(rows, categoryRows, [])| == |rows|
  {
    if |rows| > 0 {
      var n := |rows| - 1;
      assert forall i :: 0 <= i < n ==> rows[..n][i] == rows[i];
      SearchWithoutFilters(rows[..n], categoryRows);
    }
  }

  /** A task just saved is found by a search for its creation day. */
  lemma SavedTaskFound(rows: seq<TaskRow>, categoryRows: seq<(int, string)>, row: TaskRow, name: string)
    requires NameOfId(categoryRows, row.categoryId) == Some(name)
    ensures var found := Search(rows + [row], categoryRows, [CreatedOn(row.created)]);
            |found| > 0 && found[|found| - 1] == Found(row.content, row.created, name)
  {
    assert (rows + [row])[..|rows|] == rows;
  }
}
