/**
 * The text of a new task or todo, as `format_task_text` (cli/tasks.py) and
 * `format_todo_text` (console/todo.py) build it from the command-line words: the words
 * are joined with single spaces; text with a `;` becomes a list of its non-blank pieces,
 * each stripped, and text without one is kept as one untrimmed string.
 */
module Entry {
  import opened Builtins

  /** The source returns either a string or a list of strings. */
  datatype EntryText = Single(text: string) | Many(items: seq<string>)

  /** The entries an `EntryText` stands for, one row each when saved. */
  function Items(e: EntryText): seq<string> {
    match e
    case Single(s) => [s]
    case Many(xs) => xs
  }

  /** `piece and not piece.isspace()`: the test a piece must pass to be kept. */
  predicate Keeps(piece: string) {
    piece != "" && !IsSpace(piece)
  }

  /** A list entry: non-empty, no whitespace at either end, no `;`. */
  predicate WellFormed(item: string) {
    item != "" && !IsWhitespace(item[0]) && !IsWhitespace(item[|item| - 1]) && ';' !in item
  }

  /** The kept pieces, each stripped, in their original order. */
  function KeepStripped(pieces: seq<string>): (r: seq<string>)
    ensures |r| <= |pieces|
    ensures (forall i :: 0 <= i < |pieces| ==> ';' !in pieces[i]) ==>
              forall i :: 0 <= i < |r| ==> WellFormed(r[i])
  {
    if |pieces| == 0 then []
    else
      var last := pieces[|pieces| - 1];
      StripKeepsOut(last, ';');
      KeepStripped(pieces[..|pieces| - 1]) + (if Keeps(last) then [Strip(last)] else [])
  }

  /** The splitting of the joined words, as both format functions do it. */
  function Format(tokens: seq<string>): (r: EntryText)
    ensures ';' !in Join(tokens, ' ') ==> r == Single(Join(tokens, ' '))
    ensures ';' in Join(tokens, ' ') ==> r.Many?
    ensures r.Many? ==> |r.items| <= Count(Join(tokens, ' '), ';') + 1
    ensures r.Many? ==> forall i :: 0 <= i < |r.items| ==> WellFormed(r.items[i])
  {
    var text := Join(tokens, ' ');
    if ';' in text then Many(KeepStripped(Split(text, ';'))) else Single(text)
  }

  /** Keeping pieces works piece by piece, so the list keeps the order of the pieces. */
  lemma {:induction false} KeepStrippedAppend(a: seq<string>, b: seq<string>)
    ensures KeepStripped(a + b) == KeepStripped(a) + KeepStripped(b)
    decreases |b|
  {
    if |b| == 0 {
      assert a + b == a;
    } else {
      var b' := b[..|b| - 1];
      var last := b[|b| - 1];
      var extra := if Keeps(last) then [Strip(last)] else [];
      assert (a + b)[..|a + b| - 1] == a + b';
      assert (a + b)[|a + b| - 1] == last;
      assert KeepStripped(a + b) == KeepStripped(a + b') + extra;
      assert KeepStripped(b) == KeepStripped(b') + extra;
      KeepStrippedAppend(a, b');
    }
  }

  /** Extending the pieces by one extends the kept list by that piece, if it is kept. */
  lemma KeepStrippedStep(pieces: seq<string>, i: nat)
    requires i < |pieces|
    ensures KeepStripped(pieces[..i + 1]) ==
            KeepStripped(pieces[..i]) + if Keeps(pieces[i]) then [Strip(pieces[i])] else []
  {
    assert pieces[..i + 1][..i] == pieces[..i];
  }

  /** The last piece is kept, stripped, after the kept pieces before it. */
  lemma KeepStrippedLast(pieces: seq<string>)
    requires |pieces| > 0
    ensures KeepStripped(pieces) == KeepStripped(pieces[..|pieces| - 1]) +
              if Keeps(pieces[|pieces| - 1]) then [Strip(pieces[|pieces| - 1])] else []
  {
  }

  /** A single piece is kept, stripped, exactly when it is not blank. */
  lemma KeepStrippedOne(piece: string)
    ensures KeepStripped([piece]) == if IsBlank(piece) then [] else [Strip(piece)]
  {
    assert [piece][..0] == [];
  }

  /** A well-formed entry passes the keep test and is its own strip. */
  lemma WellFormedKept(item: string)
    requires WellFormed(item)
    ensures Keeps(item) && Strip(item) == item
  {
    WholeSlices(item);
    StripUnique(item, 0, |item|);
  }

  /** Pieces that are already well-formed entries are kept unchanged. */
  lemma {:induction false} KeepStrippedWellFormed(items: seq<string>)
    requires forall i :: 0 <= i < |items| ==> WellFormed(items[i])
    ensures KeepStripped(items) == items
  {
    if |items| > 0 {
      var prefix := items[..|items| - 1];
      var last := items[|items| - 1];
      assert WellFormed(last);
      WellFormedKept(last);
      KeepStrippedWellFormed(prefix);
      KeepStrippedLast(items);
      InitAndLast(items);
    }
  }

  /**
   * Inverse direction: two or more well-formed entries joined with `;` into one word
   * come back as exactly that list.
   */
  lemma FormatOfJoined(items: seq<string>)
    requires |items| >= 2
    requires forall i :: 0 <= i < |items| ==> WellFormed(items[i])
    ensures Format([Join(items, ';')]) == Many(items)
  {
    var text := Join(items, ';');
    assert Join([text], ' ') == text;
    assert text[|items[0]|] == ';' by {
      assert text == items[0] + [';'] + Join(items[1..], ';');
    }
    SplitJoin(items, ';');
    KeepStrippedWellFormed(items);
  }

  /** Test input `'New todo task #1'`: one todo, the text itself. */
  lemma FormatOneTodo()
    ensures Format(["New todo task #1"]) == Single("New todo task #1")
  {
    var one := "New todo task #1";
    assert Join([one], ' ') == one;
    assert forall k :: 0 <= k < |one| ==> one[k] != ';';
  }

  /** Test input `'New todo task #2;New todo task #3'`: two todos, in order. */
  lemma FormatTwoTodos()
    ensures Format(["New todo task #2;New todo task #3"]) == Many(["New todo task #2", "New todo task #3"])
  {
    var two, three := "New todo task #2", "New todo task #3";
    assert forall k :: 0 <= k < |two| ==> two[k] != ';';
    assert forall k :: 0 <= k < |three| ==> three[k] != ';';
    assert WellFormed(two) && WellFormed(three);
    assert Join([two, three], ';') == "New todo task #2;New todo task #3";
    FormatOfJoined([two, three]);
  }

  /** Test input `';'`: an empty list. */
  lemma FormatLoneSemicolon()
    ensures Format([";"]) == Many([])
  {
    assert Join([";"], ' ') == ";" == Join(["", ""], ';');
    SplitJoin(["", ""], ';');
    assert KeepStripped(["", ""]) == [] by {
      assert ["", ""][..1] == [""];
      assert [""][..0] == [];
    }
  }
}
