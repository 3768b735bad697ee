/**
 * codenotes/cli/category.py: creating note or task categories from a batch of names. A
 * name is inserted only when no row of the chosen table already has it, so repeats are
 * skipped, and a repeat does not stop the names after it.
 */
module Category {
  import opened Maybe
  import Builtins
  import opened Entry
  import opened Store

  /** `create_args_empty(args)`: neither `--note` nor `--task` was given. */
  function CreateArgsEmpty(note: bool, task: bool): (r: bool)
    ensures r <==> !note && !task
  {
    var needed := [note, task];
    assert needed[0] == note && needed[1] == task;
    !Builtins.Any(needed)
  }

  /** `search_args_empty(args)`: none of `--note`, `--task` and `--all` was given. */
  function SearchArgsEmpty(note: bool, task: bool, all: bool): (r: bool)
    ensures r <==> !note && !task && !all
  {
    var needed := [note, task, all];
    assert needed[0] == note && needed[1] == task && needed[2] == all;
    !Builtins.Any(needed)
  }

  /**
   * The names of `batch` that `save_category` inserts into a table already holding
   * `existing`: each one not yet present in the table when the loop reaches it.
   */
  function Fresh(existing: seq<string>, batch: seq<string>): (r: seq<string>)
    ensures |r| <= |batch|
  {
    if |batch| == 0 then []
    else
      var prev := Fresh(existing, batch[..|batch| - 1]);
      if batch[|batch| - 1] in existing + prev then prev else prev + [batch[|batch| - 1]]
  }

  /**
   * After the batch the table holds exactly the names it held plus those of the batch,
   * and each inserted name was new to the table and is inserted once.
   */
  lemma {:induction false} FreshSound(existing: seq<string>, batch: seq<string>)
    ensures forall x :: x in existing + Fresh(existing, batch) <==> x in existing + batch
    ensures forall i :: 0 <= i < |Fresh(existing, batch)| ==> Fresh(existing, batch)[i] !in existing
    ensures forall i, j :: 0 <= i < j < |Fresh(existing, batch)| ==> Fresh(existing, batch)[i] != Fresh(existing, batch)[j]
  {
    if |batch| > 0 {
      var earlier := batch[..|batch| - 1];
      var name := batch[|batch| - 1];
      var prev := Fresh(existing, earlier);
      FreshSound(existing, earlier);
      assert batch == earlier + [name];
      assert forall x :: x in existing + batch <==> x in existing + earlier || x == name;
      if name !in existing + prev {
        assert forall x :: x in existing + (prev + [name]) <==> x in existing + prev || x == name;
      }
    }
  }

  /**
   * One more round of the `save_category` loop, when the table holds `names`: the name
   * is present exactly when the table held it before or an earlier name of the batch put
   * it there, and both the inserted names and the flags grow by that round's outcome.
   */
  lemma SaveStep(existing: seq<string>, batch: seq<string>, i: nat, names: seq<string>)
    requires i < |batch| && names == existing + Fresh(existing, batch[..i])
    ensures (batch[i] in names) == (batch[i] in existing + batch[..i])
    ensures Fresh(existing, batch[..i + 1]) == Fresh(existing, batch[..i]) + if batch[i] in names then [] else [batch[i]]
    ensures Inserted(existing, batch[..i + 1]) == Inserted(existing, batch[..i]) + [batch[i] !in names]
  {
    assert batch[..i + 1][..i] == batch[..i];
    FreshSound(existing, batch[..i]);
  }

  /**
   * For each name of `batch`, whether `save_category` inserts it: when neither the table
   * nor an earlier name of the batch holds it.
   */
  function Inserted(existing: seq<string>, batch: seq<string>): (r: seq<bool>)
    ensures |r| == |batch|
  {
    if |batch| == 0 then []
    else Inserted(existing, batch[..|batch| - 1]) + [batch[|batch| - 1] !in existing + batch[..|batch| - 1]]
  }

  /** Name `j` of the batch is inserted exactly when neither the table nor an earlier name holds it. */
  lemma {:induction false} InsertedMeans(existing: seq<string>, batch: seq<string>)
    ensures forall j :: 0 <= j < |batch| ==> (Inserted(existing, batch)[j] <==> batch[j] !in existing + batch[..j])
  {
    if |batch| > 0 {
      var n := |batch| - 1;
      var earlier := batch[..n];
      var flags := Inserted(existing, batch);
      assert flags == Inserted(existing, earlier) + [batch[n] !in existing + earlier];
      InsertedMeans(existing, earlier);
      forall j | 0 <= j < |batch|
        ensures flags[j] <==> batch[j] !in existing + batch[..j]
      {
        if j < n {
          assert earlier[j] == batch[j] && earlier[..j] == batch[..j];
        }
      }
    }
  }

  /** Inserting after `a` continues where `a` left off: a repeat does not stop the batch. */
  lemma {:induction false} FreshAppend(existing: seq<string>, a: seq<string>, b: seq<string>)
    ensures Fresh(existing, a + b) == Fresh(existing, a) + Fresh(existing + Fresh(existing, a), b)
    decreases |b|
  {
    var prefix := Fresh(existing, a);
    if |b| == 0 {
      assert a + b == a;
    } else {
      var b' := b[..|b| - 1];
      var name := b[|b| - 1];
      assert (a + b)[..|a + b| - 1] == a + b';
      assert (a + b)[|a + b| - 1] == name;
      FreshAppend(existing, a, b');
      var rest := Fresh(existing + prefix, b');
      assert existing + Fresh(existing, a + b') == (existing + prefix) + rest;
    }
  }

  /** A batch of distinct names, none of them in the table yet, is inserted whole and in order. */
  lemma {:induction false} FreshDistinct(existing: seq<string>, batch: seq<string>)
    requires forall i :: 0 <= i < |batch| ==> batch[i] !in existing
    requires forall i, j :: 0 <= i < j < |batch| ==> batch[i] != batch[j]
    ensures Fresh(existing, batch) == batch
  {
    if |batch| > 0 {
      var earlier := batch[..|batch| - 1];
      FreshDistinct(existing, earlier);
      assert batch[|batch| - 1] !in existing + earlier;
      assert earlier + [batch[|batch| - 1]] == batch;
    }
  }

  /** Saving the same batch a second time inserts nothing. */
  lemma {:induction false} FreshIdempotent(existing: seq<string>, batch: seq<string>)
    ensures Fresh(existing + Fresh(existing, batch), batch) == []
  {
    var table := existing + Fresh(existing, batch);
    FreshSound(existing, batch);
    assert forall i :: 0 <= i < |batch| ==> batch[i] in existing + batch;
    FreshNone(table, batch);
  }

  /** Names that are all present already insert nothing. */
  lemma {:induction false} FreshNone(existing: seq<string>, batch: seq<string>)
    requires forall i :: 0 <= i < |batch| ==> batch[i] in existing
    ensures Fresh(existing, batch) == []
  {
    if |batch| > 0 {
      FreshNone(existing, batch[..|batch| - 1]);
      assert existing + [] == existing;
    }
  }

  /** Which category table `__get_category_table` selects. */
  datatype TableKind = NotesTable | TasksTable

  class CreateCategory {
    /** `self.category`: the names to create (`format_list_text(args.text)`). */
    const category: EntryText
    /** The table chosen by `__get_category_table`; `None` until it runs. */
    var kind: Option<TableKind>
    const notes: CategoryTable
    const tasks: CategoryTable

    /**
     * `CreateCategory.__init__(args)`: without `--note` and `--task` nothing happens
     * (the missing-arguments error is only printed); otherwise the table is chosen and the
     * names are saved, after a confirmation when previewing.
     */
    constructor (note: bool, task: bool, preview: bool, confirmed: bool, category: EntryText,
                 notes: CategoryTable, tasks: CategoryTable)
      requires notes != tasks && notes.Valid() && tasks.Valid()
      modifies notes, tasks
      ensures this.category == category && this.notes == notes && this.tasks == tasks
      ensures notes.Valid() && tasks.Valid()
      ensures CreateArgsEmpty(note, task) ==> kind.None? && unchanged(notes) && unchanged(tasks)
      ensures note ==> && kind == Some(NotesTable) && unchanged(tasks)
                       && old(notes.rows) <= notes.rows
                       && notes.Names() == old(notes.Names()) +
                            if !preview || confirmed then Fresh(old(notes.Names()), Items(category)) else []
      ensures !note && task ==> && kind == Some(TasksTable) && unchanged(notes)
                                && old(tasks.rows) <= tasks.rows
                                && tasks.Names() == old(tasks.Names()) +
                                     if !preview || confirmed then Fresh(old(tasks.Names()), Items(category)) else []
    {
      this.category := category;
      this.notes := notes;
      this.tasks := tasks;
      kind := None;
      new;
      if !CreateArgsEmpty(note, task) {
        GetCategoryTable(note, task);
        if !preview || confirmed {
          var _ := SaveCategory();
        }
      }
    }

    /** The table the names go to. */
    function Table(): CategoryTable
      reads this
      requires kind.Some?
    {
      if kind.value == NotesTable then notes else tasks
    }

    /**
     * `__get_category_table(args)`: `--note` selects the notes table even when `--task`
     * is given too; `--task` alone selects the task table.
     */
    method GetCategoryTable(note: bool, task: bool)
      modifies this
      ensures kind == if note then Some(NotesTable) else if task then Some(TasksTable) else old(kind)
    {
      if note {
        kind := Some(NotesTable);
      } else if task {
        kind := Some(TasksTable);
      }
    }

    /** `category_exists(name)`: some row of the chosen table has exactly this name. */
    function CategoryExists(name: string): (r: bool)
      reads this, notes, tasks
      requires kind.Some?
      ensures r <==> exists i :: 0 <= i < |Table().rows| && Table().rows[i].1 == name
    {
      name in Table().Names()
    }

    /**
     * `save_category()`: each name is inserted unless the table already has it, counting
     * the names inserted earlier in the same batch; `created[i]` tells whether name `i`
     * was inserted. The rows already there are kept as they were.
     */
    method SaveCategory() returns (created: seq<bool>)
      requires kind.Some? && notes != tasks && Table().Valid()
      modifies Table()
      ensures Table().Valid()
      ensures old(Table().rows) <= Table().rows
      ensures Table().Names() == old(Table().Names()) + Fresh(old(Table().Names()), Items(category))
      ensures created == Inserted(old(Table().Names()), Items(category))
    {
      var table := Table();
      var batch := Items(category);
      ghost var existing := table.Names();
      ghost var inserted: seq<string> := [];
      ghost var added: seq<(int, string)> := [];
      created := [];
      var i := 0;
      while i < |batch|
        invariant 0 <= i <= |batch|
        invariant table.Valid()
        invariant table.rows == old(table.rows) + added
        invariant inserted == Fresh(existing, batch[..i]) && table.Names() == existing + inserted
        invariant created == Inserted(existing, batch[..i])
      {
        var name := batch[i];
        SaveStep(existing, batch, i, table.Names());
        var found := CategoryExists(name);
        if !found {
          var id := table.Insert(name);
          AppendAssoc(old(table.rows), added, (id, name));
          added := added + [(id, name)];
          AppendAssoc(existing, inserted, name);
          inserted := inserted + [name];
        }
        created := created + [!found];
        i := i + 1;
      }
      assert batch[..|batch|] == batch;
      PrefixOfAppend(old(table.rows), added);
    }
  }

  /** Appending one more element to `a + b`, regrouped. */
  lemma AppendAssoc<T>(a: seq<T>, b: seq<T>, x: T)
    ensures a + (b + [x]) == (a + b) + [x]
  {
  }

  /** A sequence is a prefix of itself extended. */
  lemma PrefixOfAppend<T>(a: seq<T>, b: seq<T>)
    ensures a <= a + b
  {
  }
}
