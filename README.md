# code-notes core in Dafny

A model of the command-line core of code-notes, a small note, task and todo keeper.

**Entries.** `add task` and `add todo` join their argument words with single spaces. Text with a `;` becomes a list of its non-blank pieces, each stripped. Text without one is kept as one untrimmed string (`Entry.Format`, `Tasks.FormatTaskText`, `Todo.FormatTodoText`).

**Saving.** The entries are saved one row each, in order, with today's date. Tasks also carry the current category id. Task saving can create a category first: a name of at most 30 characters is inserted stripped, and its row id becomes the tasks' category. A longer name makes the program ask for another one (`Tasks.AddTask`). With `--preview`, rows are saved only after a "y" to the confirmation prompt (`Prompt`).

**Categories.** `create category` inserts each name of a batch into the notes or the tasks category table, unless the table already has it (`Category.CreateCategory`). The messages this loop prints call `PrintFormatted` methods that codenotes/cli/__init__.py does not define. The model treats them as plain prints (see "Left out").

**Searching.** The search options are resolved into one date, a Monday-to-Sunday week, a whole month or no date (`Cli`, and its copy in `Args`). From that date and the search words, a task search picks its filters (`Tasks.SqlFilters`) and selects the matching rows (`Tasks.Search`).

How the model stands in for the program's surroundings:

- **Dates** are Python date ordinals (0001-01-01 is 1), converted to and from year, month and day by the Gregorian rules (`Calendar`). Today's date is a parameter rather than a clock read.
- **Console input** is the finite sequence of lines the user would type. A prompt whose answers run out is still waiting (`Reply.Exhausted`), and nothing after it happens.
- **The database** is a set of in-memory tables (`Store`). A category table hands out row ids one after the other, as SQLite does for an integer key when nothing is deleted.
- **Python built-ins** used by the core are written out in `Builtins`: `str.isspace`, `str.strip`, `' '.join` and `str.split(';')`.

Behaviour of the code worth knowing:

- Text without a `;` is not trimmed.
- An empty answer to the confirmation prompt declines at once; it does not re-prompt.
- A search with no option opens the interactive screen rather than listing every task.
- `AddTask` files tasks under category id 1 unless a category was just created, without checking that row 1 exists.
- `AddTask.save_category` checks the length of the raw name (whitespace included), not of the stripped name. It inserts without checking for an existing row of the same name.
- `CreateCategory.save_category` does not check the length at all.

## Model

| member | source | states |
|---|---|---|
| Builtins.WhitespaceIsPython | codenotes/cli/tasks.py:44 | the whitespace test accepts exactly the 29 characters for which Python's `str.isspace` is true |
| Builtins.IsSpaceStrips | codenotes/cli/tasks.py:44 | `isspace()` holds exactly for a non-empty text that strips to nothing |
| Builtins.Any | codenotes/cli/tasks.py:59 | `any(...)` scans from the front and is true exactly when some element is true |
| Builtins.JoinCount | codenotes/cli/tasks.py:38 | joining n separator-free words puts exactly n - 1 separators into the text |
| Builtins.Split | codenotes/cli/tasks.py:43 | `split(';')` gives one more piece than there are separators, and no piece holds a separator |
| Builtins.JoinSplit | codenotes/cli/tasks.py:38-43 | joining the split pieces with the separator gives back the text |
| Builtins.SplitJoin | codenotes/cli/tasks.py:38-43 | splitting a join of separator-free pieces gives back the pieces |
| Builtins.Strip | codenotes/cli/tasks.py:46 | `strip()` is no longer than its input, starts and ends with non-whitespace, and is empty exactly when the input is blank |
| Builtins.StripFrames | codenotes/util/args.py:69 | `strip()` returns a slice of its input with only whitespace cut from either end |
| Builtins.StripUnique | codenotes/util/args.py:69 | any blank-framed slice with non-whitespace ends is exactly what `strip()` returns |
| Builtins.StripIdempotent | codenotes/util/args.py:69 | stripping a stripped text changes nothing |
| Builtins.StripKeepsOut | codenotes/cli/tasks.py:46 | stripping adds no character, so a piece without `;` stays without one |
| Calendar.DaysInMonth | codenotes/cli/__init__.py:60 | `calendar.monthrange(...)[1]`: 28 to 31 days, and February has 29 exactly in a leap year |
| Calendar.MonthLength | codenotes/cli/__init__.py:60 | each month length is the step of the cumulative days-before-month table, and the lengths add up to the year |
| Calendar.Weekday | codenotes/cli/__init__.py:52 | `date.weekday()` is always 0 to 6 |
| Calendar.WeekdayCycle | codenotes/cli/__init__.py:52 | weekdays repeat every 7 days, and the next day has the next weekday |
| Calendar.FirstDayMonday | codenotes/cli/__init__.py:52 | 0001-01-01 has weekday 0 (Monday), as in Python |
| Calendar.NewYear2021Friday | codenotes/cli/__init__.py:52 | 2021-01-01 has weekday 4 (Friday) |
| Calendar.LastDayFriday | codenotes/cli/__init__.py:52 | 9999-12-31 has weekday 4 (Friday) |
| Calendar.ToOrdinal | codenotes/cli/__init__.py:62-63 | a valid date has an ordinal from 1 to 9999-12-31's, within its year's span |
| Calendar.FromOrdinal | codenotes/cli/__init__.py:60-63 | every ordinal in range is a valid date whose ordinal it is |
| Calendar.FromToOrdinal | codenotes/cli/__init__.py:60-64 | date to ordinal to date is the identity |
| Calendar.ToOrdinalInjective | codenotes/cli/__init__.py:60-64 | two valid dates with the same ordinal are equal |
| Calendar.OrdinalsOfMonth | codenotes/cli/__init__.py:59-64 | the ordinals from the first to the last day of a month are exactly the days of that month |
| Cli.DatesToSearch | codenotes/cli/__init__.py:37-66 | flags tried in the order today, yesterday, week, month: today, the day before (overflow on 0001-01-01), the Monday-to-Sunday week holding today (overflow past 9999-12-31), the whole month holding today; no date when none is set |
| Cli.WeekRange | codenotes/cli/__init__.py:51-57 | a Monday-to-Sunday range holding today; overflow exactly when that Sunday is past 9999-12-31 |
| Cli.MonthRange | codenotes/cli/__init__.py:59-66 | the first and the last day of today's month |
| Cli.DateArgsEmpty | codenotes/cli/__init__.py:9-26 | true exactly when month, text, today, week and yesterday are all unset; then no date is searched |
| Cli.WeekIsUnique | codenotes/cli/__init__.py:51-57 | the week range is the only Monday-started seven-day range holding today |
| Cli.MonthRangeIsMonth | codenotes/cli/__init__.py:59-66 | a day lies in the month range exactly when it has today's year and month |
| Cli.MonthRangeLength | codenotes/cli/__init__.py:59-66 | the month range spans 28 to 31 days, 29 for February of a leap year |
| Args.FormatArgumentText | codenotes/util/args.py:65-69 | `""` for no words; never starts or ends with whitespace; empty exactly when the joined words are blank |
| Args.FormatArgumentTextTrims | codenotes/util/args.py:67-69 | the result is the space-joined words with only whitespace cut from either end |
| Args.FormatArgumentTextIdempotent | codenotes/util/args.py:67-69 | applying it to the one-word list of its result gives the result back |
| Args.DateArgsEmpty | codenotes/util/args.py:5-22 | answers as `Cli.DateArgsEmpty` on every input |
| Args.DatesToSearch | codenotes/util/args.py:33-62 | answers as `Cli.DatesToSearch` on every input: the same day, week and month, and no date without a flag |
| Entry.KeepStripped | codenotes/cli/tasks.py:43-46 | keeps at most one entry per piece; from `;`-free pieces every kept entry is non-empty, has no whitespace at either end and no `;` |
| Entry.Format | codenotes/cli/tasks.py:38-50 | without `;` the untrimmed joined text; with `;` a list of at most (number of `;`) + 1 well-formed entries |
| Entry.KeepStrippedAppend | codenotes/cli/tasks.py:43-46 | the kept list is built piece by piece, so it keeps the order of the pieces |
| Entry.KeepStrippedStep | codenotes/cli/tasks.py:43-46 | one more piece adds its stripped form exactly when it is non-empty and not all whitespace |
| Entry.KeepStrippedOne | codenotes/cli/tasks.py:44-46 | a single piece is kept, stripped, exactly when it is not blank |
| Entry.WellFormedKept | codenotes/cli/tasks.py:44-46 | a well-formed entry passes the keep test and is its own strip |
| Entry.KeepStrippedWellFormed | codenotes/cli/tasks.py:43-46 | well-formed pieces are kept unchanged, all of them |
| Entry.FormatOfJoined | codenotes/cli/tasks.py:38-48 | two or more well-formed entries joined by `;` come back as exactly that list |
| Entry.FormatOneTodo | tests/console/test_todo.py:10-14 | `'New todo task #1'` gives that same string |
| Entry.FormatTwoTodos | tests/console/test_todo.py:16-20 | `'New todo task #2;New todo task #3'` gives the two todos in order |
| Entry.FormatLoneSemicolon | tests/console/test_todo.py:22-26 | `';'` gives the empty list |
| Prompt.Confirmation | codenotes/console/todo.py:86-100 | the first answer that is empty, "y" or "n" (either case) decides; the result is true exactly when it is "y" or "Y"; undecided while no answer decides |
| Prompt.AskConfirmation | codenotes/cli/tasks.py:153-168 | the re-prompting loop returns what `Confirmation` specifies (the same loop serves `AddTodo`) |
| Prompt.EmptyAnswerDeclines | codenotes/cli/tasks.py:163-168 | an empty first answer returns false at once |
| Prompt.UndecidedAnswersSkipped | codenotes/cli/tasks.py:163-164 | answers other than empty, y or n only delay the same decision |
| Store.NameOfId | codenotes/cli/tasks.py:241-243 | the joined category name belongs to a row with that id; none exactly when no row has it |
| Store.CategoryTable.Insert | codenotes/cli/tasks.py:113-116 | appends one row with the next id and returns that id; ids stay increasing; earlier rows unchanged |
| Store.TaskRows | codenotes/cli/tasks.py:129-131 | one task row per entry, in order, each with the same date and category id |
| Store.TaskTable.Append | codenotes/cli/tasks.py:131-132 | appends exactly the one row |
| Store.TodoRows | codenotes/console/todo.py:73-76 | one todo row per entry, in order, each with the same date |
| Store.TodoTable.AppendAll | codenotes/console/todo.py:78 | appends exactly the given rows, in order |
| Tasks.FormatTaskText | codenotes/cli/tasks.py:25-50 | the loop's result is `Entry.Format` of the words |
| Tasks.AddTaskArgsEmpty | codenotes/cli/tasks.py:53-61 | true exactly when no task words and no new-category words were given |
| Tasks.PromptedCategory | codenotes/cli/tasks.py:170-179 | the name read is the first answer of 1 to 30 characters, taken as typed, and the answers read end with it; it waits exactly when no answer fits |
| Tasks.CategoryChoice | codenotes/cli/tasks.py:111-120 | a name of at most 30 characters is taken as given, without a prompt; a longer one is replaced by a prompted one; the name taken never exceeds 30 characters |
| Tasks.UnfitAnswersSkipped | codenotes/cli/tasks.py:176-177 | empty or over-long answers only delay the same stored name |
| Tasks.CategoryLimitIsRawLength | codenotes/cli/tasks.py:112-114 | a 31-character name starting with whitespace goes to the prompt although its strip fits in 30; its 30-character tail is taken at once |
| Tasks.AddTask.constructor | codenotes/cli/tasks.py:68-98 | no words and no category: interactive screen, nothing stored; else the category row (if any), `category_id` (new id or 1), and the task rows when saving is reached and confirmed |
| Tasks.AddTask.SaveCategory | codenotes/cli/tasks.py:111-120 | the name taken is `CategoryChoice`'s; its strip is inserted with the next id, which becomes `category_id`; nothing changes while the prompt waits |
| Tasks.AddTask.StoreCategory | codenotes/cli/tasks.py:113-116 | appends one row with the next id and makes that id `category_id`; the table stays valid |
| Tasks.AddTask.NewCategory | codenotes/cli/tasks.py:88-90 | the category row and `category_id` as `save_category` leaves them; the answers left for the confirmation, none while the category prompt waits |
| Tasks.AddTask.WriteTasks | codenotes/cli/tasks.py:92-98 | `self.task` is the formatted words; the task rows are appended at once, or when previewing only after a "y" |
| Tasks.AddTask.ShowPreview | codenotes/cli/tasks.py:181-200 | the tasks are appended exactly when the confirmation ends on "y" |
| Tasks.AddTask.AskCategory | codenotes/cli/tasks.py:170-179 | reads until a name of 1 to 30 characters, then inserts it as `save_category` does |
| Tasks.AddTask.SaveTask | codenotes/cli/tasks.py:122-151 | appends one row per entry in order, with the creation date and current category id; a single text adds one row; earlier rows unchanged |
| Tasks.SqlFilters | codenotes/cli/tasks.py:245-254 | a day filter exactly for a single date, a range filter exactly for a pair, none for no date; a content filter exactly when the search text is non-empty |
| Tasks.StartSearch | codenotes/cli/tasks.py:205-224 | overflow exactly when the date overflows; interactive exactly when no option was given; otherwise the filters for the date and the space-joined words |
| Tasks.Search | codenotes/cli/tasks.py:237-258 | at most one result per task row |
| Tasks.SearchSound | codenotes/cli/tasks.py:239-256 | every result comes from a task meeting every filter, with the name of its category |
| Tasks.SearchComplete | codenotes/cli/tasks.py:239-256 | every task meeting all the filters whose category exists is found, with its category's name |
| Tasks.OccurrenceMatches | codenotes/cli/tasks.py:254 | `content LIKE "%text%"` holds when the text occurs exactly in the content |
| Tasks.ContainsFoldedBounds | codenotes/cli/tasks.py:254 | the empty text matches every content; a text longer than the content never matches |
| Tasks.ContainsFoldedCaseless | codenotes/cli/tasks.py:254 | ASCII letter case in the search text does not change the match |
| Tasks.RangeSearchFinds | codenotes/cli/tasks.py:249-252 | a search by a date range finds a task whose category exists exactly when it was created within the range |
| Tasks.SearchWithoutFilters | codenotes/cli/tasks.py:239-243 | with no filter every task whose category exists is found |
| Tasks.SavedTaskFound | codenotes/cli/tasks.py:245-247 | a task just saved is found by a search for its creation day |
| Category.CreateArgsEmpty | codenotes/cli/category.py:19-38 | true exactly when neither note nor task is set |
| Category.SearchArgsEmpty | codenotes/cli/category.py:41-50 | true exactly when note, task and all are all unset |
| Category.Fresh | codenotes/cli/category.py:110-119 | the inserted names, one per round of the loop at most: never more than the batch |
| Category.FreshSound | codenotes/cli/category.py:110-119 | afterwards the table holds exactly its old names and the batch names; no inserted name was there before; none is inserted twice |
| Category.SaveStep | codenotes/cli/category.py:112-119 | one round of the loop: the name is found exactly when the table held it or an earlier batch name put it there, and it is inserted otherwise |
| Category.InsertedMeans | codenotes/cli/category.py:112-119 | name `j` of the batch is inserted exactly when neither the table nor an earlier name of the batch holds it |
| Category.FreshAppend | codenotes/cli/category.py:112-119 | a skipped name does not stop the batch: the rest is inserted against the grown table, in batch order |
| Category.FreshDistinct | codenotes/cli/category.py:112-119 | a batch of new, distinct names is inserted whole and in order |
| Category.FreshNone | codenotes/cli/category.py:112-119 | names all present already insert nothing |
| Category.FreshIdempotent | codenotes/cli/category.py:106-128 | saving the same batch again inserts nothing |
| Category.CreateCategory.constructor | codenotes/cli/category.py:63-84 | nothing changes without note or task; else only the chosen table grows: its existing rows and their ids stay as a prefix, and its names grow by the fresh names, when not previewing or when confirmed |
| Category.CreateCategory.GetCategoryTable | codenotes/cli/category.py:141-150 | note selects the notes table even with task set; task alone selects the task table |
| Category.CreateCategory.CategoryExists | codenotes/cli/category.py:90-104 | true exactly when some row of the chosen table has exactly this name |
| Category.CreateCategory.SaveCategory | codenotes/cli/category.py:106-139 | the table stays valid; the old rows stay a prefix of the rows; the names grow by exactly `Fresh`; `created` is the per-name outcome `Inserted` |
| Todo.FormatTodoText | codenotes/console/todo.py:20-42 | the loop's result is `Entry.Format` of the words, so it agrees with `format_task_text` |
| Todo.AddTodo.constructor | codenotes/console/todo.py:47-61 | no words: nothing stored; else the todo rows, when not previewing or when the confirmation is "y" |
| Todo.AddTodo.SaveTodo | codenotes/console/todo.py:67-84 | appends one row per entry in order, all with the same date; earlier rows unchanged |
| Todo.EmptyAnswerSavesNothing | codenotes/console/todo.py:95-100 | previewing, an empty first answer saves nothing |
| Todo.SingleTextOneRow | codenotes/console/todo.py:81-84 | text without `;` is saved as exactly one row holding the joined text |

## Left out

- The interactive screens (codenotes/tui/__init__.py): a branch that opens one is modelled as a flag or an `Interactive` outcome.
- Presentation is not modelled: `PrintFormatted`, rich tables, the table drawn by `show_preview`/`_show_preview`, yaspin spinners, status messages and `strftime`.
- SQLite itself is replaced by in-memory rows and abstract filters. This covers connections, commits and closes, and the SQL text with its string interpolation of user text (category.py:98, tasks.py:247-254).
- Tasks.Search: SQLite `LIKE` wildcards (`%`, `_`) typed inside the search words are matched literally. Dates are compared as ordinals rather than as `YYYY-MM-DD` text, which orders the same way.
- The task status column and `status_text` are not modelled.
- `add_conditions_sql`, `format_list_text` and `parse_args` are not part of this model. `CreateCategory` takes its names already split, as an `EntryText`.
- `PrintFormatted.ask_confirmation` (used by `CreateCategory._show_preview`) is not part of this model; its answer is the `confirmed` parameter.
- Tasks.AddTask.constructor: codenotes/cli/tasks.py:13 imports `AddTaskTUI` and `SearchTaskTUI` from codenotes/tui/__init__.py, which defines only `ImpPyCUI`, `AddTodoTUI` and `SearchTodoTUI`. As written, importing the module raises `ImportError`, so neither `format_task_text`, `AddTask` nor `SearchTask` can be reached. The model follows the module body as written, as if the import succeeded.
- Category.CreateCategory.SaveCategory: the loop at codenotes/cli/category.py:112-119 (and the single-name branch at 121-128) calls `PrintFormatted.print_category_creation` and `PrintFormatted.custom_print`. `CreateCategory._show_preview` (category.py:165) calls `PrintFormatted.ask_confirmation`. The `PrintFormatted` class at codenotes/cli/__init__.py:69-110 defines none of the three, and `CreateCategory.__init__` catches only `KeyboardInterrupt` and `MissingArgsException` (category.py:80-84). As written, the code raises `AttributeError` at the first name of a non-empty batch, before `self.db.commit()`. With `--preview`, it raises before anything is saved. The model treats the three calls as plain prints and the prompt as answered by `confirmed`. It models the batch behaviour the loop is written for, not the crash.
- `SearchCategory`, `SearchTodo` and `DeleteCategory` do nothing and are not modelled.
- The `KeyboardInterrupt` and missing-argument handlers of `CreateCategory.__init__` only print.
- Store.CategoryTable: the default task category (row id 1) is not created. Whether the real schema makes names unique is unknown.
- Todo.AddTodo.constructor: `save_todo` reads the clock a second time; both reads are taken as the same day.
