/** The earlier tkinter `AnnotationApp`: a name-to-text store without a
    duplicate check, a display showing at most one text, and a (row, column)
    cursor where the next button goes. */
module OldAnnot {
  import opened Text
  import opened Grid
  import opened Persist
  import AnnotApp

  /** How a user action ends. */
  datatype Outcome =
    | Done
    | Cancelled       // the file dialog or the confirmation was declined
    | MissingColumns  // the ValueError for a sheet without `Name` or `Annotation`, shown as an error
    | KeyError        // a KeyError escapes the handler; the state is as at the raise

  /** Python truthiness of the name passed around: None and "" are false. */
  predicate Truthy(name: Option<string>)
  {
    name.Some? && name.value != ""
  }

  /** `save_annotation`'s rule for the store: any non-empty name with non-empty text is stored, replacing an old text. */
  function OldSave(store: map<string, string>, name: string, text: string): (r: map<string, string>)
    ensures name != "" && text != "" ==> name in r && r[name] == text && r.Keys == store.Keys + {name}
    ensures name != "" && text != "" ==> forall k :: k in store && k != name ==> r[k] == store[k]
    ensures name == "" || text == "" ==> r == store
  {
    if name != "" && text != "" then store[name := text] else store
  }

  /** One pass of the import loop: a row whose name is stored and whose answer
      is no is skipped, any other goes through `save_annotation`. Returns the
      new store and the row's name if the save was accepted -- then it got a
      button and moved the cursor. */
  function ImportStep(store: map<string, string>, row: Row, answer: bool): (r: (map<string, string>, seq<string>))
    ensures row.0 in store && !answer ==> r == (store, [])
    ensures (row.0 == "" || row.1 == "") ==> r == (store, [])
    ensures !(row.0 in store && !answer) && row.0 != "" && row.1 != "" ==>
      && r.0.Keys == store.Keys + {row.0} && r.0[row.0] == row.1
      && (forall k :: k in store && k != row.0 ==> r.0[k] == store[k])
      && r.1 == [row.0]
  {
    if row.0 in store && !answer then (store, [])
    else (OldSave(store, row.0, row.1), if row.0 != "" && row.1 != "" then [row.0] else [])
  }

  /** The import loop over `rows`: the final store and, in order, the names of the accepted saves. */
  function ImportFold(store: map<string, string>, rows: seq<Row>, answers: seq<bool>): (map<string, string>, seq<string>)
    requires |answers| == |rows|
    decreases |rows|
  {
    if rows == [] then (store, [])
    else
      var step := ImportStep(store, rows[0], answers[0]);
      var rest := ImportFold(step.0, rows[1..], answers[1..]);
      (rest.0, step.1 + rest.1)
  }

  /** The loop after one more row: one more step on what the earlier rows left. */
  lemma {:induction false} ImportFoldSnoc(store: map<string, string>, rows: seq<Row>, answers: seq<bool>, row: Row, answer: bool)
    requires |answers| == |rows|
    ensures var before := ImportFold(store, rows, answers);
      var step := ImportStep(before.0, row, answer);
      && ImportFold(store, rows + [row], answers + [answer]).0 == step.0
      && ImportFold(store, rows + [row], answers + [answer]).1 == before.1 + step.1
    decreases |rows|
  {
    if rows == [] {
      assert ([] + [row])[1..] == [] && ([] + [answer])[1..] == [];
    } else {
      var next := ImportStep(store, rows[0], answers[0]).0;
      assert (rows + [row])[1..] == rows[1..] + [row];
      assert (answers + [answer])[1..] == answers[1..] + [answer];
      ImportFoldSnoc(next, rows[1..], answers[1..], row, answer);
      var before := ImportFold(store, rows, answers);
      var step := ImportStep(before.0, row, answer);
      var s0 := ImportStep(store, rows[0], answers[0]).1;
      var r1 := ImportFold(next, rows[1..], answers[1..]).1;
      assert s0 + (r1 + step.1) == (s0 + r1) + step.1;
    }
  }

  /** The loop from row `i` on is row `i`'s step followed by the loop from row `i + 1`,
      with `saved` the names accepted before row `i`. */
  lemma ImportFoldAt(store: map<string, string>, rows: seq<Row>, answers: seq<bool>, i: nat, saved: seq<string>)
    requires |answers| == |rows| && i < |rows|
    ensures var step := ImportStep(store, rows[i], answers[i]);
      var rest := ImportFold(step.0, rows[i + 1..], answers[i + 1..]);
      && ImportFold(store, rows[i..], answers[i..]).0 == rest.0
      && saved + ImportFold(store, rows[i..], answers[i..]).1 == (saved + step.1) + rest.1
  {
    assert rows[i..][0] == rows[i] && rows[i..][1..] == rows[i + 1..];
    assert answers[i..][0] == answers[i] && answers[i..][1..] == answers[i + 1..];
    var step := ImportStep(store, rows[i], answers[i]);
    Regroup(saved, step.1, ImportFold(step.0, rows[i + 1..], answers[i + 1..]).1);
  }

  /** The answers of a run in which every overwrite question is answered yes. */
  function AllYes(n: nat): (r: seq<bool>)
    ensures |r| == n && forall i :: 0 <= i < n ==> r[i]
  {
    if n == 0 then [] else [true] + AllYes(n - 1)
  }

  /** `load_annotations` asks nothing: the file's rows are saved as if every overwrite were accepted. */
  function LoadFold(store: map<string, string>, rows: seq<Row>): (map<string, string>, seq<string>)
  {
    ImportFold(store, rows, AllYes(|rows|))
  }

  lemma AllYesTail(n: nat)
    requires n > 0
    ensures AllYes(n)[1..] == AllYes(n - 1)
  {
  }

  /** A row with non-empty name and text whose answer is yes is always saved:
      with every answer yes and no empty cell, each row moves the cursor once,
      also when it overwrites. */
  lemma {:induction false} ImportSavesEveryRow(store: map<string, string>, rows: seq<Row>, answers: seq<bool>)
    requires |answers| == |rows|
    requires forall i :: 0 <= i < |rows| ==> answers[i] && rows[i].0 != "" && rows[i].1 != ""
    ensures ImportFold(store, rows, answers).1 == NameColumn(rows)
    decreases |rows|
  {
    if rows != [] {
      ImportSavesEveryRow(ImportStep(store, rows[0], answers[0]).0, rows[1..], answers[1..]);
    }
  }

  function NameColumn(rows: seq<Row>): (r: seq<string>)
    ensures |r| == |rows| && forall i :: 0 <= i < |rows| ==> r[i] == rows[i].0
    decreases |rows|
  {
    if rows == [] then [] else [rows[0].0] + NameColumn(rows[1..])
  }

  /** A stored name whose every row is declined keeps its text. */
  lemma {:induction false} ImportDeclinedKeeps(store: map<string, string>, rows: seq<Row>, answers: seq<bool>, k: string)
    requires |answers| == |rows|
    requires k in store
    requires forall i :: 0 <= i < |rows| && rows[i].0 == k ==> !answers[i]
    ensures k in ImportFold(store, rows, answers).0 && ImportFold(store, rows, answers).0[k] == store[k]
    decreases |rows|
  {
    if rows != [] {
      var next := ImportStep(store, rows[0], answers[0]).0;
      forall i | 0 <= i < |rows[1..]| && rows[1..][i].0 == k ensures !answers[1..][i] {
        assert rows[i + 1].0 == k;
      }
      ImportDeclinedKeeps(next, rows[1..], answers[1..], k);
    }
  }

  /** On rows whose cells are all non-empty the two versions import alike. */
  lemma {:induction false} ImportAgreesWithQt(store: map<string, string>, rows: seq<Row>, answers: seq<bool>)
    requires |answers| == |rows|
    requires forall i :: 0 <= i < |rows| ==> rows[i].0 != "" && rows[i].1 != ""
    ensures ImportFold(store, rows, answers).0 == AnnotApp.ImportAll(store, rows, answers)
    decreases |rows|
  {
    if rows != [] {
      var next := ImportStep(store, rows[0], answers[0]).0;
      ImportAgreesWithQt(next, rows[1..], answers[1..]);
    }
  }

  /** On a file without repeated names, loading here gives what the Qt version's load gives. */
  lemma {:induction false} LoadAgreesWithQt(acc: map<string, string>, rows: seq<Row>, m: map<string, string>)
    requires IsRowsOf(rows, m) && acc.Keys !! m.Keys
    ensures LoadFold(acc, rows).0 == AnnotApp.LoadAll(acc, rows)
    decreases |rows|
  {
    if rows != [] {
      var (name, text) := rows[0];
      RowsOfTail(rows, m);
      AllYesTail(|rows|);
      LoadAgreesWithQt(OldSave(acc, name, text), rows[1..], m - {name});
    }
  }

  /** Writing the store to `annotations.xlsx` and starting again restores
      every entry whose name and text are non-empty. */
  lemma ReloadRoundTrip(rows: seq<Row>, m: map<string, string>)
    requires IsRowsOf(rows, m)
    ensures LoadFold(map[], rows).0 == NonEmptyEntries(m)
  {
    LoadAgreesWithQt(map[], rows, m);
    AnnotApp.ReloadRoundTrip(rows, m);
  }

  /** The buttons created for the accepted saves `names`, the first at cell `CursorAfter(from)`. */
  function PlacedCells(names: seq<string>, from: nat): seq<Cell>
  {
    seq(|names|, k requires 0 <= k < |names| => Cell(names[k], CursorAfter(from + k)))
  }

  /** The buttons of `names` show those names, in that order, at the cells the
      Qt layout would give indices `from`, `from + 1`, ...; they are in
      placement order and all before the cursor that follows them. */
  lemma PlacedCellsPlacement(names: seq<string>, from: nat)
    ensures var r := PlacedCells(names, from);
      && |r| == |names|
      && (forall k :: 0 <= k < |names| ==> r[k].name == names[k] && r[k].pos == Position(from + k))
      && PlacedBefore(r, CursorAfter(from + |names|))
  {
    var r := PlacedCells(names, from);
    forall k | 0 <= k < |names| ensures r[k].pos == Position(from + k) {
      CursorAfterIsPosition(from + k);
    }
    forall i, j | 0 <= i < j < |r| ensures Before(r[i].pos, r[j].pos) {
      CursorOrder(from + i, from + j);
    }
    forall i | 0 <= i < |r| ensures Before(r[i].pos, CursorAfter(from + |names|)) {
      CursorOrder(from + i, from + |names|);
    }
  }

  lemma PlacedCellsSnoc(names: seq<string>, from: nat, name: string)
    ensures PlacedCells(names + [name], from) == PlacedCells(names, from) + [Cell(name, CursorAfter(from + |names|))]
    ensures PlacedCells(names + [], from) == PlacedCells(names, from)
  {
    assert names + [] == names;
  }

  class AnnotationApp {
    var annotations: map<string, string>
    var buttonRow: nat
    var buttonColumn: nat
    var currentAnnotation: Option<string>
    var display: string
    /** The buttons in the button frame, oldest first, with their grid cells. */
    var buttons: seq<Cell>
    /** Contents of `annotations.xlsx`; None while it does not exist. */
    var file: Option<seq<Row>>
    /** Accepted saves since start-up or the last remove-all. */
    ghost var placed: nat

    function Cursor(): Pos
      reads this`buttonRow, this`buttonColumn
    {
      (buttonRow, buttonColumn)
    }

    /** The cursor stands where button number `placed` goes, past every
        button, every stored name has a button, and the file is in step. */
    ghost predicate Valid()
      reads this
    {
      Placed() && FileSynced()
    }

    /** The cursor after `placed` saves stands past every button, and every stored name has a button. */
    ghost predicate Placed()
      reads this`buttonRow, this`buttonColumn, this`placed, this`buttons, this`annotations
    {
      && Cursor() == CursorAfter(placed)
      && PlacedBefore(buttons, Cursor())
      && |buttons| <= placed
      && annotations.Keys <= NamesOf(buttons)
    }

    /** Whenever the store is non-empty, the file holds exactly its entries. */
    ghost predicate FileSynced()
      reads this`annotations, this`file
    {
      annotations != map[] ==> file.Some? && IsRowsOf(file.value, annotations)
    }

    /** `__init__`: empty store and display, cursor at (0, 0), then `load_annotations`. */
    constructor (saved: Option<seq<Row>>)
      ensures Valid()
      ensures saved.None? ==> annotations == map[] && buttons == [] && Cursor() == (0, 0)
      ensures saved.Some? ==>
        && annotations == LoadFold(map[], saved.value).0
        && buttons == PlacedCells(LoadFold(map[], saved.value).1, 0)
        && Cursor() == CursorAfter(|LoadFold(map[], saved.value).1|)
      ensures currentAnnotation == None && display == ""
      ensures annotations == map[] ==> file == saved
    {
      annotations := map[];
      buttonRow, buttonColumn := 0, 0;
      currentAnnotation := None;
      display := "";
      buttons := [];
      file := saved;
      placed := 0;
      new;
      if saved.Some? {
        ghost var loaded := LoadFold(map[], saved.value);
        LoadAnnotations(saved.value);
        EmptyConcat(PlacedCells(loaded.1, 0));
      }
    }

    /** `save_annotation`: a non-empty name with non-empty text is stored,
        replacing any old text, gets a new button at the cursor, the cursor
        moves one cell (wrapping after column 3) and the file is rewritten.
        Anything else changes nothing. */
    method SaveAnnotation(name: string, text: string)
      requires Valid()
      modifies this
      ensures Valid()
      ensures name == "" || text == "" ==> unchanged(this)
      ensures name != "" && text != "" ==>
        && annotations == old(annotations)[name := text]
        && buttons == old(buttons) + [Cell(name, old(Cursor()))]
        && Cursor() == Advance(old(Cursor()))
        && placed == old(placed) + 1
        && file.Some? && IsRowsOf(file.value, annotations)
      ensures currentAnnotation == old(currentAnnotation) && display == old(display)
    {
      if name != "" && text != "" {
        PlaceButton(name, text);
        assert name in annotations;
        SaveAnnotationsToFile();
      }
    }

    /** The store and grid half of `save_annotation`: the entry is stored, its
        button gridded at the cursor, and the cursor stepped. */
    method PlaceButton(name: string, text: string)
      requires Placed()
      modifies this`buttons, this`annotations, this`buttonRow, this`buttonColumn, this`placed
      ensures Placed()
      ensures annotations == old(annotations)[name := text]
      ensures buttons == old(buttons) + [Cell(name, old(Cursor()))]
      ensures Cursor() == Advance(old(Cursor())) && placed == old(placed) + 1
    {
      var cursor := Cursor();
      PlaceAtCursor(buttons, cursor, name);
      NamesOfAppend(buttons, Cell(name, cursor));
      buttons := buttons + [Cell(name, cursor)];
      annotations := annotations[name := text];
      var next := Advance(cursor);
      buttonRow, buttonColumn := next.0, next.1;
      placed := placed + 1;
    }

    /** The "Create Annotation" dialog's Save: the text is stripped, the name is not. */
    method AddFromDialog(nameEntry: string, textEntry: string)
      requires Valid()
      modifies this
      ensures Valid()
      ensures annotations == OldSave(old(annotations), nameEntry, Strip(textEntry))
      ensures nameEntry == "" || AllSpace(textEntry) ==> unchanged(this)
      ensures nameEntry != "" && !AllSpace(textEntry) ==>
        && buttons == old(buttons) + [Cell(nameEntry, old(Cursor()))]
        && Cursor() == Advance(old(Cursor())) && placed == old(placed) + 1
        && file.Some? && IsRowsOf(file.value, annotations)
      ensures currentAnnotation == old(currentAnnotation) && display == old(display)
    {
      SaveAnnotation(nameEntry, Strip(textEntry));
    }

    /** `show_annotation`: the current annotation becomes `name` and the
        display is emptied; a truthy name then shows its text, and raises
        KeyError, leaving the display empty, when it is not stored. */
    method ShowAnnotation(name: Option<string>) returns (outcome: Outcome)
      modifies this`currentAnnotation, this`display
      ensures currentAnnotation == name
      ensures !Truthy(name) ==> outcome == Done && display == ""
      ensures Truthy(name) && name.value in annotations ==> outcome == Done && display == annotations[name.value]
      ensures Truthy(name) && name.value !in annotations ==> outcome == KeyError && display == ""
    {
      currentAnnotation := name;
      display := "";
      if Truthy(name) {
        if name.value !in annotations {
          return KeyError;
        }
        display := annotations[name.value];
      }
      outcome := Done;
    }

    /** `delete_annotation`: without a current annotation nothing happens.
        Otherwise its entry and the first button showing it go, the display
        is emptied and the file is rewritten -- unless the store is now empty,
        so the file keeps the last deleted entry. The cursor is not moved back. */
    method DeleteAnnotation() returns (outcome: Outcome)
      requires Valid()
      modifies this
      ensures Valid()
      ensures !Truthy(old(currentAnnotation)) ==> outcome == Done && unchanged(this)
      ensures Truthy(old(currentAnnotation)) && old(currentAnnotation).value !in old(annotations) ==>
        outcome == KeyError && unchanged(this)
      ensures Truthy(old(currentAnnotation)) && old(currentAnnotation).value in old(annotations) ==>
        var name := old(currentAnnotation).value;
        && outcome == Done
        && annotations == old(annotations) - {name}
        && buttons == RemoveFirstNamed(old(buttons), name)
        && |buttons| == |old(buttons)| - 1
        && currentAnnotation == None && display == ""
        && Cursor() == old(Cursor()) && placed == old(placed)
        && (annotations == map[] ==> file == old(file))
    {
      if !Truthy(currentAnnotation) || currentAnnotation.value !in annotations {
        return if Truthy(currentAnnotation) then KeyError else Done;
      }
      var name := currentAnnotation.value;
      ghost var cursor := Cursor();
      RemovePreservesPlacement(buttons, name, cursor);
      RemoveKeepsOtherNames(buttons, name);
      annotations := annotations - {name};
      buttons := RemoveFirstNamed(buttons, name);
      assert PlacedBefore(buttons, cursor) && |buttons| <= placed;
      outcome := ShowAnnotation(None);
      SaveAnnotationsToFile();
      assert Cursor() == cursor;
    }

    /** `remove_all_annotations`: on yes the store and the buttons are
        cleared, the cursor returns to (0, 0), the display is emptied and
        `annotations.xlsx` is removed. On no nothing changes. */
    method RemoveAllAnnotations(confirm: bool)
      requires Valid()
      modifies this
      ensures Valid()
      ensures !confirm ==> unchanged(this)
      ensures confirm ==>
        && annotations == map[] && buttons == [] && Cursor() == (0, 0) && placed == 0
        && currentAnnotation == None && display == "" && file == None
    {
      if confirm {
        annotations := map[];
        buttons := [];
        buttonColumn := 0;
        buttonRow := 0;
        placed := 0;
        var _ := ShowAnnotation(None);
        file := None;
      }
    }

    /** `import_annotations`: a sheet without both columns raises before
        anything changes; otherwise the rows go through the import loop and
        the file is rewritten. */
    method ImportAnnotations(sheet: Option<Sheet>, answers: seq<bool>) returns (outcome: Outcome)
      requires Valid()
      requires sheet.Some? ==> |answers| == |sheet.value.rows|
      modifies this
      ensures Valid()
      ensures sheet.None? ==> outcome == Cancelled && unchanged(this)
      ensures sheet.Some? && !HasRequiredColumns(sheet.value) ==> outcome == MissingColumns && unchanged(this)
      ensures sheet.Some? && HasRequiredColumns(sheet.value) ==>
        var (store, saved) := ImportFold(old(annotations), sheet.value.rows, answers);
        && outcome == Done
        && annotations == store
        && buttons == old(buttons) + PlacedCells(saved, old(placed))
        && Cursor() == CursorAfter(old(placed) + |saved|)
        && (annotations == map[] ==> file == old(file))
      ensures currentAnnotation == old(currentAnnotation) && display == old(display)
    {
      if sheet.None? || !HasRequiredColumns(sheet.value) {
        return if sheet.None? then Cancelled else MissingColumns;
      }
      ImportRows(sheet.value.rows, answers);
      SaveAnnotationsToFile();
      outcome := Done;
    }

    /** `load_annotations`: every row of the file through `save_annotation`, no questions asked. */
    method LoadAnnotations(rows: seq<Row>)
      requires Valid()
      modifies this
      ensures Valid()
      ensures var (store, saved) := LoadFold(old(annotations), rows);
        && annotations == store
        && buttons == old(buttons) + PlacedCells(saved, old(placed))
        && Cursor() == CursorAfter(old(placed) + |saved|)
      ensures annotations == map[] ==> file == old(file)
      ensures currentAnnotation == old(currentAnnotation) && display == old(display)
    {
      ImportRows(rows, AllYes(|rows|));
    }

    /** The row loop shared by import and load: a stored name answered no is
        skipped, every other row is passed to `save_annotation`. */
    method ImportRows(rows: seq<Row>, answers: seq<bool>)
      requires Valid()
      requires |answers| == |rows|
      modifies this
      ensures Valid()
      ensures var (store, saved) := ImportFold(old(annotations), rows, answers);
        && annotations == store
        && buttons == old(buttons) + PlacedCells(saved, old(placed))
        && Cursor() == CursorAfter(old(placed) + |saved|)
      ensures annotations == map[] ==> file == old(file)
      ensures currentAnnotation == old(currentAnnotation) && display == old(display)
    {
      ghost var total := ImportFold(annotations, rows, answers);
      ghost var saved: seq<string> := [];
      for i := 0 to |rows|
        invariant Valid()
        invariant placed == old(placed) + |saved|
        invariant buttons == old(buttons) + PlacedCells(saved, old(placed))
        invariant ImportFold(annotations, rows[i..], answers[i..]).0 == total.0
        invariant saved + ImportFold(annotations, rows[i..], answers[i..]).1 == total.1
        invariant annotations == map[] ==> file == old(file)
        invariant currentAnnotation == old(currentAnnotation) && display == old(display)
      {
        ghost var step := ImportStep(annotations, rows[i], answers[i]);
        ImportFoldAt(annotations, rows, answers, i, saved);
        ImportRow(rows[i], answers[i], old(buttons), old(placed), saved);
        saved := saved + step.1;
      }
      assert rows[|rows|..] == [] && answers[|rows|..] == [];
      assert saved + [] == saved;
      assert saved == total.1 && placed == old(placed) + |total.1|;
    }

    /** One pass of the import loop: the row is skipped when its name is
        stored and the answer is no, and otherwise handed to `save_annotation`.
        `first`, `from` and `saved` are the buttons, the cursor count and the
        accepted names before the loop: the buttons stay those of `saved`
        and of this row if it is accepted. */
    method ImportRow(row: Row, answer: bool, ghost first: seq<Cell>, ghost from: nat, ghost saved: seq<string>)
      requires Valid()
      requires placed == from + |saved| && buttons == first + PlacedCells(saved, from)
      modifies this
      ensures Valid()
      ensures var step := ImportStep(old(annotations), row, answer);
        && annotations == step.0
        && placed == from + |saved + step.1|
        && buttons == first + PlacedCells(saved + step.1, from)
      ensures currentAnnotation == old(currentAnnotation) && display == old(display)
      ensures annotations == map[] ==> file == old(file)
    {
      PlacedCellsSnoc(saved, from, row.0);
      var (name, annotation) := row;
      if name in annotations && !answer {
        return;
      }
      SaveAnnotation(name, annotation);
    }

    /** `export_annotations`: the rows written to the chosen file, every entry
        once, also when the store is empty; None when the dialog is cancelled. */
    method ExportAnnotations(chosen: bool) returns (written: Option<seq<Row>>)
      ensures written.Some? <==> chosen
      ensures written.Some? ==> IsRowsOf(written.value, annotations) && |written.value| == |annotations|
    {
      if chosen {
        var rows := Rows(annotations);
        written := Some(rows);
      } else {
        written := None;
      }
    }

    /** `save_annotations_to_file`: `annotations.xlsx` is rewritten only when the store is non-empty. */
    method SaveAnnotationsToFile()
      modifies this`file
      ensures annotations == map[] ==> file == old(file)
      ensures annotations != map[] ==> file.Some? && IsRowsOf(file.value, annotations)
    {
      if annotations != map[] {
        var rows := Rows(annotations);
        file := Some(rows);
      }
    }
  }

  /** A file written for a single annotation loads it back. Deleting that
      annotation empties the store, and `DeleteAnnotation` then leaves the
      file as it was, so the next start-up brings the annotation back. */
  lemma DeleteLastKeepsFile(name: string, text: string, rows: seq<Row>)
    requires name != "" && text != ""
    requires IsRowsOf(rows, map[name := text])
    ensures LoadFold(map[], rows).0 == map[name := text]
  {
    ReloadRoundTrip(rows, map[name := text]);
    assert NonEmptyEntries(map[name := text]) == map[name := text];
  }
}
