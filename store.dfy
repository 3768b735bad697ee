/**
 * The tables the core writes to, held in memory in place of the SQLite database: each
 * table is an object whose rows the core appends to in order. A category table also
 * hands out row ids the way SQLite does for an integer primary key when no row is ever
 * deleted: one more than the last id given.
 */
module Store {
  import opened Maybe

  /** The names of category rows, in row order. */
  function NamesOf(rows: seq<(int, string)>): (names: seq<string>)
    ensures |names| == |rows|
    ensures forall i :: 0 <= i < |rows| ==> names[i] == rows[i].1
  {
    if |rows| == 0 then [] else NamesOf(rows[..|rows| - 1]) + [rows[|rows| - 1].1]
  }

  /** The name of the category row with id `id`, the target of a join on the category id. */
  function NameOfId(rows: seq<(int, string)>, id: int): (r: Option<string>)
    ensures r.Some? ==> exists i :: 0 <= i < |rows| && rows[i] == (id, r.value)
    ensures r.None? <==> forall i :: 0 <= i < |rows| ==> rows[i].0 != id
  {
    if |rows| == 0 then None
    else if rows[0].0 == id then Some(rows[0].1)
    else
      var r := NameOfId(rows[1..], id);
      assert forall i :: 1 <= i < |rows| ==> rows[i] == rows[1..][i - 1];
      r
  }

  /** The id SQLite's rowid allocation gives the next row: one past the last, 1 when empty. */
  function NextIdAfter(rows: seq<(int, string)>): int
  {
    if |rows| == 0 then 1 else rows[|rows| - 1].0 + 1
  }

  /** Ids are positive and increase along the rows; the next id is one past the last (1 when empty). */
  ghost predicate IdsValid(rows: seq<(int, string)>, nextId: int)
  {
    && 1 <= nextId
    && (forall i :: 0 <= i < |rows| ==> 1 <= rows[i].0 < nextId)
    && (forall i, j :: 0 <= i < j < |rows| ==> rows[i].0 < rows[j].0)
    && nextId == NextIdAfter(rows)
  }

  /** A category table (task categories or note categories): rows of (id, name). */
  class CategoryTable {
    var rows: seq<(int, string)>
    var nextId: int

    ghost predicate Valid()
      reads this
    {
      IdsValid(rows, nextId)
    }

    constructor ()
      ensures Valid() && rows == [] && nextId == 1
    {
      rows := [];
      nextId := 1;
    }

    function Names(): seq<string>
      reads this
    {
      NamesOf(rows)
    }

    /** `INSERT INTO <table> (<name column>) VALUES (?)`, answering `cursor.lastrowid`. */
    method Insert(name: string) returns (id: int)
      requires Valid()
      modifies this
      ensures Valid()
      ensures id == old(nextId) && nextId == id + 1
      ensures rows == old(rows) + [(id, name)]
      ensures Names() == old(Names()) + [name]
    {
      id := nextId;
      rows := rows + [(id, name)];
      nextId := nextId + 1;
      assert rows[..|rows| - 1] == old(rows);
      assert nextId == NextIdAfter(rows);
    }
  }

  /** A row of the tasks table: content, creation date (an ordinal) and category id. */
  datatype TaskRow = TaskRow(content: string, created: int, categoryId: int)

  /** The task rows for `items`, in order, all with the same creation date and category id. */
  function TaskRows(items: seq<string>, created: int, categoryId: int): (r: seq<TaskRow>)
    ensures |r| == |items|
    ensures forall i :: 0 <= i < |items| ==> r[i] == TaskRow(items[i], created, categoryId)
  {
    if |items| == 0 then []
    else TaskRows(items[..|items| - 1], created, categoryId) + [TaskRow(items[|items| - 1], created, categoryId)]
  }

  class TaskTable {
    var rows: seq<TaskRow>

    constructor ()
      ensures rows == []
    {
      rows := [];
    }

    /** `INSERT INTO <tasks> (content, creation, category) VALUES (?,?,?)`. */
    method Append(row: TaskRow)
      modifies this
      ensures rows == old(rows) + [row]
    {
      rows := rows + [row];
    }
  }

  /** A row of the todos table: content and creation date (an ordinal). */
  datatype TodoRow = TodoRow(content: string, created: int)

  /** The todo rows for `items`, in order, all stamped with the same date. */
  function TodoRows(items: seq<string>, created: int): (r: seq<TodoRow>)
    ensures |r| == |items|
    ensures forall i :: 0 <= i < |items| ==> r[i] == TodoRow(items[i], created)
  {
    if |items| == 0 then [] else TodoRows(items[..|items| - 1], created) + [TodoRow(items[|items| - 1], created)]
  }

  class TodoTable {
    var rows: seq<TodoRow>

    constructor ()
      ensures rows == []
    {
      rows := [];
    }

    /** `cursor.executemany(INSERT ..., values)` for one or more rows, or `cursor.execute` for one. */
    method AppendAll(values: seq<TodoRow>)
      modifies this
      ensures rows == old(rows) + values
    {
      rows := rows + values;
    }
  }
}
