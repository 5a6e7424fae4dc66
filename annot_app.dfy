/** The Qt version's main window `AnnotApp`, reduced to its state: the
    name-to-text store, the display text and the names composed into it, the
    current annotation, the display mode, the button grid, the display font
    size and the contents of `annotations.xlsx`. Dialog answers are inputs. */
module AnnotApp {
  import opened Text
  import opened Grid
  import opened Persist
  import opened Widgets

  /** How a user action ends. */
  datatype Outcome =
    | Done
    | Cancelled       // a confirmation, file or edit dialog was declined
    | NoSelection     // "No Selection": delete without a current annotation
    | NoAnnotations   // "No Annotations": edit-all on an empty store
    | DuplicateName   // "Duplicate Name": save under a name already stored
    | InvalidInput    // empty name or text (a warning only when it came from the dialog)
    | MissingColumns  // the ValueError for a sheet without `Name` or `Annotation`
    | KeyError        // a KeyError escapes the slot; the state is as at the raise

  const InitialFontSize: int := 12

  /** `save_annotation`'s rule for the store. */
  function Save(store: map<string, string>, name: string, text: string): (r: map<string, string>)
    ensures forall k :: k in store ==> k in r && r[k] == store[k]
    ensures r.Keys == if name != "" && text != "" then store.Keys + {name} else store.Keys
    ensures name !in store && name in r ==> r[name] == text
  {
    if name != "" && text != "" && name !in store then store[name := text] else store
  }

  /** `load_annotations`: every row of the file through `save_annotation`, in order. */
  function LoadAll(store: map<string, string>, rows: seq<Row>): map<string, string>
    decreases |rows|
  {
    if rows == [] then store else LoadAll(Save(store, rows[0].0, rows[0].1), rows[1..])
  }

  /** Loading never replaces a stored text: a name repeated in the file keeps its first text. */
  lemma {:induction false} LoadNeverOverwrites(store: map<string, string>, rows: seq<Row>)
    ensures forall k :: k in store ==> k in LoadAll(store, rows) && LoadAll(store, rows)[k] == store[k]
    decreases |rows|
  {
    if rows != [] {
      LoadNeverOverwrites(Save(store, rows[0].0, rows[0].1), rows[1..]);
    }
  }

  lemma {:induction false} LoadDistinct(acc: map<string, string>, rows: seq<Row>, m: map<string, string>)
    requires IsRowsOf(rows, m) && acc.Keys !! m.Keys
    ensures LoadAll(acc, rows) == acc + NonEmptyEntries(m)
    decreases |rows|
  {
    if rows == [] {
      assert m.Keys == {};
      assert NonEmptyEntries(m) == map[];
    } else {
      var (name, text) := rows[0];
      var m' := m - {name};
      RowsOfTail(rows, m);
      LoadDistinct(Save(acc, name, text), rows[1..], m');
      SaveThenRest(acc, m, name);
    }
  }

  /** One step of LoadDistinct: saving one entry of `m` to `acc` and adding the rest. */
  lemma SaveThenRest(acc: map<string, string>, m: map<string, string>, name: string)
    requires name in m && name !in acc && acc.Keys !! m.Keys
    ensures Save(acc, name, m[name]) + NonEmptyEntries(m - {name}) == acc + NonEmptyEntries(m)
  {
  }

  /** Saving the store to `annotations.xlsx` and starting again restores
      every entry whose name and text are non-empty and drops the rest. */
  lemma ReloadRoundTrip(rows: seq<Row>, m: map<string, string>)
    requires IsRowsOf(rows, m)
    ensures LoadAll(map[], rows) == NonEmptyEntries(m)
    ensures (forall k :: k in m ==> k != "" && m[k] != "") ==> LoadAll(map[], rows) == m
  {
    LoadDistinct(map[], rows, m);
    assert map[] + NonEmptyEntries(m) == NonEmptyEntries(m);
  }

  /** The import loop's effect on the store: a name already stored is
      overwritten only when the row's answer is yes; a new name is always inserted. */
  function ImportAll(store: map<string, string>, rows: seq<Row>, answers: seq<bool>): map<string, string>
    requires |answers| == |rows|
    decreases |rows|
  {
    if rows == [] then store
    else
      var next := if rows[0].0 in store && !answers[0] then store else store[rows[0].0 := rows[0].1];
      ImportAll(next, rows[1..], answers[1..])
  }

  /** After an import the names are the old names plus every row's name. */
  lemma {:induction false} ImportKeys(store: map<string, string>, rows: seq<Row>, answers: seq<bool>)
    requires |answers| == |rows|
    ensures ImportAll(store, rows, answers).Keys == store.Keys + RowNames(rows)
    decreases |rows|
  {
    if rows != [] {
      var next := if rows[0].0 in store && !answers[0] then store else store[rows[0].0 := rows[0].1];
      ImportKeys(next, rows[1..], answers[1..]);
      RowNamesCons(rows);
    }
  }

  /** A stored name whose every row is declined keeps its text. */
  lemma {:induction false} ImportDeclinedKeeps(store: map<string, string>, rows: seq<Row>, answers: seq<bool>, k: string)
    requires |answers| == |rows|
    requires k in store
    requires forall i :: 0 <= i < |rows| && rows[i].0 == k ==> !answers[i]
    ensures k in ImportAll(store, rows, answers) && ImportAll(store, rows, answers)[k] == store[k]
    decreases |rows|
  {
    if rows != [] {
      var next := if rows[0].0 in store && !answers[0] then store else store[rows[0].0 := rows[0].1];
      forall i | 0 <= i < |rows[1..]| && rows[1..][i].0 == k ensures !answers[1..][i] {
        assert rows[i + 1].0 == k;
      }
      ImportDeclinedKeeps(next, rows[1..], answers[1..], k);
    }
  }

  /** The last row for a name decides that name's text when its answer is yes,
      and also when it is the name's only row and the name was not stored
      before, since no question is asked then. */
  lemma {:induction false} ImportLastAccepted(store: map<string, string>, rows: seq<Row>, answers: seq<bool>, j: nat)
    requires |answers| == |rows|
    requires j < |rows|
    requires answers[j] || (rows[j].0 !in store && forall i :: 0 <= i < j ==> rows[i].0 != rows[j].0)
    requires forall i :: j < i < |rows| ==> rows[i].0 != rows[j].0
    ensures rows[j].0 in ImportAll(store, rows, answers)
    ensures ImportAll(store, rows, answers)[rows[j].0] == rows[j].1
    decreases |rows|
  {
    var next := if rows[0].0 in store && !answers[0] then store else store[rows[0].0 := rows[0].1];
    if j == 0 {
      ImportUntouched(next, rows[1..], answers[1..], rows[0].0);
    } else {
      ImportLastAccepted(next, rows[1..], answers[1..], j - 1);
    }
  }

  /** Names no row mentions keep their text. */
  lemma {:induction false} ImportUntouched(store: map<string, string>, rows: seq<Row>, answers: seq<bool>, k: string)
    requires |answers| == |rows|
    requires k in store
    requires forall i :: 0 <= i < |rows| ==> rows[i].0 != k
    ensures k in ImportAll(store, rows, answers) && ImportAll(store, rows, answers)[k] == store[k]
    decreases |rows|
  {
    if rows != [] {
      var next := if rows[0].0 in store && !answers[0] then store else store[rows[0].0 := rows[0].1];
      ImportUntouched(next, rows[1..], answers[1..], k);
    }
  }

  /** The store `{"A": "x"}` importing `[("A", "y"), ("C", "z")]`, answering yes and answering no. */
  lemma ImportScenario()
    ensures ImportAll(map["A" := "x"], [("A", "y"), ("C", "z")], [true, true]) == map["A" := "y", "C" := "z"]
    ensures ImportAll(map["A" := "x"], [("A", "y"), ("C", "z")], [false, false]) == map["A" := "x", "C" := "z"]
  {
  }

  /** What Qt's `toPlainText()` gives back for a character set with
      `setPlainText`: a no-break space reads back as a space, a line or
      paragraph separator as a newline, anything else as itself. */
  function PlainChar(c: char): char
  {
    if c == '\U{a0}' then ' ' else if c == '\U{2028}' || c == '\U{2029}' then '\n' else c
  }

  /** The display's text as `toPlainText()` reads it back after `setPlainText(s)`. */
  function PlainText(s: string): string
  {
    seq(|s|, i requires 0 <= i < |s| => PlainChar(s[i]))
  }

  /** Reading back is idempotent, so a text that has been shown once is its own read-back. */
  lemma PlainTextIdempotent(s: string)
    ensures |PlainText(s)| == |s| && PlainText(PlainText(s)) == PlainText(s)
  {
  }

  /** The read-back works character by character: it commutes with slicing and concatenation. */
  lemma PlainTextSlice(s: string, i: nat, j: nat)
    requires i <= j <= |s|
    ensures PlainText(s)[i..j] == PlainText(s[i..j])
  {
  }

  lemma PlainTextConcat(a: string, b: string)
    ensures PlainText(a + b) == PlainText(a) + PlainText(b)
  {
  }

  /** The read-back never turns white space into text or text into white
      space, and it leaves every non-space character as it is. */
  lemma PlainCharSpace(c: char)
    ensures IsSpace(PlainChar(c)) == IsSpace(c)
    ensures !IsSpace(c) ==> PlainChar(c) == c
  {
  }

  /** The string accumulate mode hands to `setPlainText` when showing `text`:
      the old display, a newline when it was non-empty, then the text. */
  function Accumulated(current: string, text: string): (r: string)
    ensures |r| == |current| + |text| + (if current == "" then 0 else 1)
    ensures r[..|current|] == current
    ensures r[|r| - |text|..] == text
    ensures current != "" ==> r[|current|] == '\n'
  {
    if current != "" then current + "\n" + text else text
  }

  /** After a shown text is read back, the display contains it, when the
      text is its own read-back; `NoBreakSpaceStays` shows a text that is not. */
  lemma AccumulatedContains(current: string, text: string)
    requires PlainText(text) == text
    ensures Contains(PlainText(Accumulated(current, text)), text)
  {
    var r := Accumulated(current, text);
    PlainTextSlice(r, |r| - |text|, |r|);
    ContainsAt(PlainText(r), text, |r| - |text|);
  }

  /** A text with a no-break space is displayed with a plain space, so the
      removal test `annotation_text in current_text` fails and the display
      keeps the text after its annotation is removed. */
  lemma NoBreakSpaceStays()
    ensures var text := "x\U{a0}y";
      var shown := PlainText(Accumulated("", text));
      shown == "x y" && !Contains(shown, text) && DisplayWithout(shown, text) == shown
  {
    var text := "x\U{a0}y";
    var shown := PlainText(text);
    assert |shown| == 3 && shown[0] == 'x' && shown[1] == ' ' && shown[2] == 'y';
    assert shown == "x y";
    NotOccursAt(shown, text);
  }

  lemma NotOccursAt(shown: string, text: string)
    requires |shown| == |text| && shown != text
    ensures !Contains(shown, text)
  {
  }

  /** Showing the same annotation twice puts its text into the display twice. */
  lemma AccumulateTwice(current: string, text: string)
    requires text != ""
    ensures var once := PlainText(Accumulated(current, text));
      var twice := PlainText(Accumulated(once, text));
      OccursAt(twice, PlainText(text), |once| - |text|) && OccursAt(twice, PlainText(text), |twice| - |text|) &&
      |once| - |text| != |twice| - |text|
  {
    var raw := Accumulated(current, text);
    var once := PlainText(raw);
    assert |once| == |raw| && once[|once| - |text|..] == PlainText(text) by {
      PlainTextSlice(raw, |raw| - |text|, |raw|);
    }
    assert PlainText(once) == once by { PlainTextIdempotent(raw); }
    ShownAgain(once, text);
    OccursTwice(once, PlainText(text));
  }

  /** Appending to a display that is its own read-back reads back as the old display, a newline and the text's read-back. */
  lemma ShownAgain(once: string, text: string)
    requires once != "" && PlainText(once) == once
    ensures PlainText(Accumulated(once, text)) == once + "\n" + PlainText(text)
  {
    PlainTextConcat(once + "\n", text);
    PlainTextConcat(once, "\n");
    assert PlainText("\n") == "\n";
  }

  lemma OccursTwice(once: string, shown: string)
    requires |shown| <= |once| && once[|once| - |shown|..] == shown
    ensures var twice := once + "\n" + shown;
      OccursAt(twice, shown, |once| - |shown|) && OccursAt(twice, shown, |twice| - |shown|)
  {
    var twice := once + "\n" + shown;
    assert twice[..|once|] == once;
    assert twice[|once| - |shown|..|once|] == shown;
    assert twice[|twice| - |shown|..] == shown;
  }

  /** Show `a`, then `b`, in accumulate mode on an empty display, then remove
      `a`: the display is `b` again, provided both texts are their own
      read-back and `b` is its own `strip()`. */
  lemma AccumulateThenRemoveFirst(a: string, b: string)
    requires a != "" && b != "" && !IsSpace(b[0]) && !IsSpace(b[|b| - 1])
    requires PlainText(a) == a && PlainText(b) == b
    ensures DisplayWithout(PlainText(Accumulated(PlainText(Accumulated("", a)), b)), a) == b
  {
    var shown := Accumulated(Accumulated("", a), b);
    assert shown == a + "\n" + b;
    PlainTextConcat(a + "\n", b);
    PlainTextConcat(a, "\n");
    assert PlainText("\n") == "\n";
    assert PlainText(shown) == shown;
    ContainsAt(shown, a, 0) by { assert shown[..|a|] == a; }
    RemoveFirstLine(a, b);
    StripSpaceBefore('\n', b);
    StripTrimmed(b);
  }

  lemma RemoveFirstLine(a: string, b: string)
    requires a != ""
    ensures RemoveFirst(a + "\n" + b, a) == ['\n'] + b
  {
    var shown := a + "\n" + b;
    assert shown[..|a|] == a;
    RemoveFirstAtStart(shown, a);
    assert shown[|a|..] == ['\n'] + b;
  }

  /** The accumulate-mode display after removing an annotation with this
      text: its first occurrence cut out, the rest stripped and set again; a
      display that does not contain the text stays as it is. */
  function DisplayWithout(display: string, text: string): (r: string)
    ensures !Contains(display, text) ==> r == display
    ensures Contains(display, text) ==> |r| <= |display| - |text| && PlainText(r) == r
    ensures Contains(display, text) ==> r == [] || (!IsSpace(r[0]) && !IsSpace(r[|r| - 1]))
  {
    if Contains(display, text) then
      var cut := Strip(RemoveFirst(display, text));
      PlainTextIdempotent(cut);
      PlainText(cut)
    else display
  }

  /** Every button drawn without the active style. */
  function Unstyled(n: nat): seq<bool>
  {
    seq(n, _ => false)
  }

  class AnnotApp {
    var annotations: map<string, string>
    var activeAnnotations: set<string>
    var display: string
    var currentAnnotation: Option<string>
    var accumulativeMode: bool
    /** The grid buttons and, per button, whether it is highlighted. */
    var buttons: seq<Cell>
    var highlighted: seq<bool>
    /** Point size of the display font. */
    var fontSize: int
    /** Contents of `annotations.xlsx`; None while it does not exist. */
    var file: Option<seq<Row>>
    const toggleSwitch: ToggleSwitch

    /** Everything but the switch: the grid shows the store's names, and the
        display holds text as Qt reads it back. */
    ghost predicate WindowValid()
      reads this
    {
      && IsLayoutOf(buttons, annotations.Keys)
      && PlainText(display) == display
      && |highlighted| == |buttons|
      && MinFontSize <= fontSize <= MaxFontSize
    }

    /** The switch shows the mode and passes its clicks on. */
    ghost predicate SwitchSynced()
      reads this, toggleSwitch
    {
      toggleSwitch.enabled == accumulativeMode && !toggleSwitch.signalsBlocked
    }

    ghost predicate Valid()
      reads this, toggleSwitch
    {
      WindowValid() && SwitchSynced()
    }

    /** `__init__`: empty store and display, replace mode, font size 12, then `load_annotations`. */
    constructor (saved: Option<seq<Row>>)
      ensures Valid() && fresh(toggleSwitch)
      ensures annotations == if saved.Some? then LoadAll(map[], saved.value) else map[]
      ensures activeAnnotations == {} && display == "" && currentAnnotation == None
      ensures !accumulativeMode && fontSize == InitialFontSize && file == saved
      ensures highlighted == Unstyled(|buttons|)
    {
      annotations := map[];
      activeAnnotations := {};
      display := "";
      currentAnnotation := None;
      accumulativeMode := false;
      buttons := [];
      highlighted := [];
      fontSize := InitialFontSize;
      file := saved;
      toggleSwitch := new ToggleSwitch();
      new;
      if saved.Some? {
        LoadAnnotations(saved.value);
      }
    }

    /** `update_buttons`: the sorted names laid out four to a row, none highlighted. */
    method UpdateButtons()
      modifies this`buttons, this`highlighted
      ensures IsLayoutOf(buttons, annotations.Keys)
      ensures highlighted == Unstyled(|buttons|)
    {
      var remaining := annotations.Keys;
      var names: seq<string> := [];
      while remaining != {}
        invariant remaining <= annotations.Keys
        invariant Sorted(names)
        invariant forall x :: x in names <==> x in annotations.Keys && x !in remaining
        decreases remaining
      {
        var name :| name in remaining;
        names := Insert(name, names);
        remaining := remaining - {name};
      }
      var cells: seq<Cell> := [];
      for index := 0 to |names|
        invariant |cells| == index
        invariant forall j :: 0 <= j < index ==> cells[j] == Cell(names[j], Position(j))
      {
        cells := cells + [Cell(names[index], Position(index))];
      }
      assert NamesOf(cells) == annotations.Keys by {
        forall x | x in annotations.Keys ensures x in NamesOf(cells) {
          var j :| 0 <= j < |names| && names[j] == x;
          assert cells[j].name == x;
        }
      }
      buttons := cells;
      highlighted := Unstyled(|cells|);
    }

    /** `update_button_states`: a button is highlighted exactly when its name is active. */
    method UpdateButtonStates()
      requires |highlighted| == |buttons|
      modifies this`highlighted
      ensures |highlighted| == |buttons|
      ensures forall i :: 0 <= i < |buttons| ==> highlighted[i] == (buttons[i].name in activeAnnotations)
    {
      for i := 0 to |buttons|
        invariant |highlighted| == |buttons|
        invariant forall j :: 0 <= j < i ==> highlighted[j] == (buttons[j].name in activeAnnotations)
      {
        highlighted := highlighted[i := buttons[i].name in activeAnnotations];
      }
    }

    /** `save_annotation` with the name and text given: only a new non-empty
        name with non-empty text is stored, and then the grid is rebuilt. */
    method SaveAnnotation(name: string, text: string) returns (outcome: Outcome)
      requires Valid()
      modifies this
      ensures Valid()
      ensures outcome == if name == "" || text == "" then InvalidInput
                         else if name in old(annotations) then DuplicateName else Done
      ensures annotations == Save(old(annotations), name, text)
      ensures outcome == Done ==> annotations == old(annotations)[name := text] && highlighted == Unstyled(|buttons|)
      ensures outcome != Done ==> buttons == old(buttons) && highlighted == old(highlighted)
      ensures display == old(display) && activeAnnotations == old(activeAnnotations)
      ensures currentAnnotation == old(currentAnnotation) && accumulativeMode == old(accumulativeMode)
      ensures fontSize == old(fontSize) && file == old(file)
    {
      if name != "" && text != "" {
        if name in annotations {
          return DuplicateName;
        }
        annotations := annotations[name := text];
        UpdateButtons();
        outcome := Done;
      } else {
        outcome := InvalidInput;
      }
    }

    /** The "Create Annotation" dialog's Save: both entries are stripped first. */
    method AddFromDialog(nameEntry: string, textEntry: string) returns (outcome: Outcome)
      requires Valid()
      modifies this
      ensures Valid()
      ensures annotations == Save(old(annotations), Strip(nameEntry), Strip(textEntry))
      ensures outcome == if AllSpace(nameEntry) || AllSpace(textEntry) then InvalidInput
                         else if Strip(nameEntry) in old(annotations) then DuplicateName else Done
      ensures outcome == Done ==> highlighted == Unstyled(|buttons|)
      ensures outcome != Done ==> buttons == old(buttons) && highlighted == old(highlighted)
      ensures display == old(display) && activeAnnotations == old(activeAnnotations)
      ensures currentAnnotation == old(currentAnnotation) && accumulativeMode == old(accumulativeMode)
      ensures fontSize == old(fontSize) && file == old(file)
    {
      outcome := SaveAnnotation(Strip(nameEntry), Strip(textEntry));
    }

    /** `load_annotations`: the file's rows through `save_annotation`, in order. */
    method LoadAnnotations(rows: seq<Row>)
      requires Valid()
      modifies this
      ensures Valid()
      ensures annotations == LoadAll(old(annotations), rows)
      ensures annotations == old(annotations) ==> buttons == old(buttons) && highlighted == old(highlighted)
      ensures annotations != old(annotations) ==> highlighted == Unstyled(|buttons|)
      ensures display == old(display) && activeAnnotations == old(activeAnnotations)
      ensures currentAnnotation == old(currentAnnotation) && accumulativeMode == old(accumulativeMode)
      ensures fontSize == old(fontSize) && file == old(file)
    {
      for i := 0 to |rows|
        invariant Valid()
        invariant LoadAll(annotations, rows[i..]) == LoadAll(old(annotations), rows)
        invariant old(annotations).Keys <= annotations.Keys
        invariant annotations == old(annotations) ==> buttons == old(buttons) && highlighted == old(highlighted)
        invariant annotations != old(annotations) ==> highlighted == Unstyled(|buttons|)
        invariant display == old(display) && activeAnnotations == old(activeAnnotations)
        invariant currentAnnotation == old(currentAnnotation) && accumulativeMode == old(accumulativeMode)
        invariant fontSize == old(fontSize) && file == old(file)
      {
        assert rows[i..][0] == rows[i] && rows[i..][1..] == rows[i + 1..];
        var _ := SaveAnnotation(rows[i].0, rows[i].1);
      }
    }

    /** `show_annotation`: replace mode shows only this text; accumulate mode
        appends it, without checking whether it is already shown. Either way
        the display then holds the text as Qt reads it back. A name that is
        not stored (None included) raises KeyError before anything changes. */
    method ShowAnnotation(name: Option<string>) returns (outcome: Outcome)
      requires Valid()
      modifies this
      ensures Valid()
      ensures name.None? || name.value !in old(annotations) ==> outcome == KeyError && unchanged(this)
      ensures name.Some? && name.value in old(annotations) ==>
        && outcome == Done
        && currentAnnotation == name
        && display == PlainText(if accumulativeMode then Accumulated(old(display), old(annotations)[name.value])
                                else old(annotations)[name.value])
        && activeAnnotations == (if accumulativeMode then old(activeAnnotations) + {name.value}
                                 else {name.value})
        && forall i :: 0 <= i < |buttons| ==> highlighted[i] == (buttons[i].name in activeAnnotations)
      ensures annotations == old(annotations) && accumulativeMode == old(accumulativeMode)
      ensures buttons == old(buttons) && fontSize == old(fontSize) && file == old(file)
    {
      if name.None? || name.value !in annotations {
        return KeyError;
      }
      var text := annotations[name.value];
      var shown := if accumulativeMode then Accumulated(display, text) else text;
      PlainTextIdempotent(shown);
      display := PlainText(shown);
      if accumulativeMode {
        activeAnnotations := activeAnnotations + {name.value};
      } else {
        activeAnnotations := {name.value};
      }
      UpdateButtonStates();
      currentAnnotation := name;
      outcome := Done;
    }

    /** `remove_annotation` (the button's context menu): deletes the entry and
        deactivates the name; in accumulate mode the first occurrence of its
        text, if any, is cut from the display and the rest stripped. */
    method RemoveAnnotation(name: string)
      requires Valid()
      modifies this
      ensures Valid()
      ensures name !in old(annotations) ==> unchanged(this)
      ensures name in old(annotations) ==>
        var text := old(annotations)[name];
        && annotations == old(annotations) - {name}
        && activeAnnotations == old(activeAnnotations) - {name}
        && display == (if accumulativeMode then DisplayWithout(old(display), text) else old(display))
        && forall i :: 0 <= i < |buttons| ==> highlighted[i] == (buttons[i].name in activeAnnotations)
      ensures currentAnnotation == old(currentAnnotation) && accumulativeMode == old(accumulativeMode)
      ensures fontSize == old(fontSize) && file == old(file)
    {
      if name in annotations {
        var text := annotations[name];
        annotations := annotations - {name};
        if accumulativeMode {
          display := DisplayWithout(display, text);
        }
        activeAnnotations := activeAnnotations - {name};
        UpdateButtons();
        UpdateButtonStates();
      }
    }

    /** `clear_display` (Clear button, Ctrl+L): empty display, nothing active, no current annotation. */
    method ClearDisplay()
      requires Valid()
      modifies this
      ensures Valid()
      ensures display == "" && activeAnnotations == {} && currentAnnotation == None
      ensures highlighted == Unstyled(|buttons|)
      ensures annotations == old(annotations) && accumulativeMode == old(accumulativeMode)
      ensures buttons == old(buttons) && fontSize == old(fontSize) && file == old(file)
    {
      display := "";
      activeAnnotations := {};
      UpdateButtonStates();
      currentAnnotation := None;
    }

    /** `toggle_mode`: flip the mode (Ctrl+M, `state` None) or set it, and move
        the switch to match with its signals blocked. Nothing else changes:
        the display and the active names stay as they are. */
    method ToggleMode(state: Option<bool>)
      requires WindowValid() && !toggleSwitch.signalsBlocked
      modifies this, toggleSwitch
      ensures Valid()
      ensures accumulativeMode == if state.None? then !old(accumulativeMode) else state.value
      ensures display == old(display) && activeAnnotations == old(activeAnnotations)
      ensures currentAnnotation == old(currentAnnotation) && annotations == old(annotations)
      ensures buttons == old(buttons) && highlighted == old(highlighted)
      ensures fontSize == old(fontSize) && file == old(file)
    {
      accumulativeMode := if state.None? then !accumulativeMode else state.value;
      toggleSwitch.BlockSignals(true);
      var signal := toggleSwitch.SetEnabled(accumulativeMode);
      assert signal == None;
      toggleSwitch.BlockSignals(false);
    }

    /** A click on the switch: it flips and its `stateChanged` signal calls `toggle_mode(state)`. */
    method ClickToggleSwitch()
      requires Valid()
      modifies this, toggleSwitch
      ensures Valid()
      ensures accumulativeMode == !old(accumulativeMode)
      ensures display == old(display) && activeAnnotations == old(activeAnnotations)
      ensures currentAnnotation == old(currentAnnotation) && annotations == old(annotations)
      ensures buttons == old(buttons) && highlighted == old(highlighted)
      ensures fontSize == old(fontSize) && file == old(file)
    {
      var signal := toggleSwitch.MousePress();
      if signal.Some? {
        ToggleMode(signal);
      }
    }

    /** `delete_annotation` (Settings, Delete): asks to delete the current
        annotation. The `del` raises KeyError when that name is no longer
        stored; otherwise the entry goes, the grid is rebuilt, and the following
        `show_annotation(None)` raises KeyError, so the display, the active names
        and the current annotation are left as they were. */
    method DeleteAnnotation(confirm: bool) returns (outcome: Outcome)
      requires Valid()
      modifies this
      ensures Valid()
      ensures currentAnnotation.None? || currentAnnotation.value == "" ==> outcome == NoSelection && unchanged(this)
      ensures currentAnnotation.Some? && currentAnnotation.value != "" ==>
        var name := currentAnnotation.value;
        && (!confirm ==> outcome == Cancelled && unchanged(this))
        && (confirm && name !in old(annotations) ==> outcome == KeyError && unchanged(this))
        && (confirm && name in old(annotations) ==>
              outcome == KeyError && annotations == old(annotations) - {name} &&
              highlighted == Unstyled(|buttons|))
      ensures display == old(display) && activeAnnotations == old(activeAnnotations)
      ensures currentAnnotation == old(currentAnnotation) && accumulativeMode == old(accumulativeMode)
      ensures fontSize == old(fontSize) && file == old(file)
    {
      if currentAnnotation.Some? && currentAnnotation.value != "" {
        if confirm {
          var name := currentAnnotation.value;
          if name !in annotations {
            return KeyError;
          }
          annotations := annotations - {name};
          UpdateButtons();
          outcome := ShowAnnotation(None);
        } else {
          outcome := Cancelled;
        }
      } else {
        outcome := NoSelection;
      }
    }

    /** `remove_all_annotations`: on yes the store is emptied and the grid
        rebuilt, then `show_annotation(None)` raises KeyError, so the display
        is not cleared. */
    method RemoveAllAnnotations(confirm: bool) returns (outcome: Outcome)
      requires Valid()
      modifies this
      ensures Valid()
      ensures !confirm ==> outcome == Cancelled && unchanged(this)
      ensures confirm ==> outcome == KeyError && annotations == map[] && buttons == [] && highlighted == []
      ensures display == old(display) && activeAnnotations == old(activeAnnotations)
      ensures currentAnnotation == old(currentAnnotation) && accumulativeMode == old(accumulativeMode)
      ensures fontSize == old(fontSize) && file == old(file)
    {
      if !confirm {
        return Cancelled;
      }
      annotations := map[];
      UpdateButtons();
      assert buttons != [] ==> buttons[0].name in NamesOf(buttons);
      outcome := ShowAnnotation(None);
    }

    /** The apply step of `edit_all_annotations`: `edits` holds the dialog's
        text for every stored name; on Save each value is replaced and the
        key set stays the same. */
    method EditAllAnnotations(accepted: bool, edits: map<string, string>) returns (outcome: Outcome)
      requires Valid()
      requires edits.Keys == annotations.Keys
      modifies this
      ensures Valid()
      ensures old(annotations) == map[] ==> outcome == NoAnnotations && unchanged(this)
      ensures old(annotations) != map[] && !accepted ==> outcome == Cancelled && unchanged(this)
      ensures old(annotations) != map[] && accepted ==>
        && outcome == Done
        && annotations == edits
        && buttons == old(buttons) && highlighted == Unstyled(|buttons|)
      ensures display == old(display) && activeAnnotations == old(activeAnnotations)
      ensures currentAnnotation == old(currentAnnotation) && accumulativeMode == old(accumulativeMode)
      ensures fontSize == old(fontSize) && file == old(file)
    {
      if annotations == map[] {
        return NoAnnotations;
      }
      if !accepted {
        return Cancelled;
      }
      ApplyEdits(edits);
      ghost var before := buttons;
      UpdateButtons();
      LayoutUnique(buttons, before, edits.Keys);
      outcome := Done;
    }

    /** The dialog's save loop: every text that changed is written back. */
    method ApplyEdits(edits: map<string, string>)
      requires edits.Keys == annotations.Keys
      modifies this`annotations
      ensures annotations == edits
    {
      var pending := edits.Keys;
      while pending != {}
        invariant pending <= edits.Keys
        invariant annotations.Keys == old(annotations).Keys
        invariant forall k :: k in annotations ==> annotations[k] == if k in pending then old(annotations)[k] else edits[k]
        decreases pending
      {
        var name :| name in pending;
        var newContent := edits[name];
        if newContent != annotations[name] {
          annotations := annotations[name := newContent];
        }
        pending := pending - {name};
      }
    }

    /** `import_annotations`: a sheet without both columns raises before the
        store is touched; otherwise each row is stored, except that a name
        already present is overwritten only when that row's answer is yes. */
    method ImportAnnotations(sheet: Option<Sheet>, answers: seq<bool>) returns (outcome: Outcome)
      requires Valid()
      requires sheet.Some? ==> |answers| == |sheet.value.rows|
      modifies this
      ensures Valid()
      ensures sheet.None? ==> outcome == Cancelled && unchanged(this)
      ensures sheet.Some? && !HasRequiredColumns(sheet.value) ==> outcome == MissingColumns && unchanged(this)
      ensures sheet.Some? && HasRequiredColumns(sheet.value) ==>
        && outcome == Done
        && annotations == ImportAll(old(annotations), sheet.value.rows, answers)
        && highlighted == Unstyled(|buttons|)
      ensures display == old(display) && activeAnnotations == old(activeAnnotations)
      ensures currentAnnotation == old(currentAnnotation) && accumulativeMode == old(accumulativeMode)
      ensures fontSize == old(fontSize) && file == old(file)
    {
      if sheet.None? {
        return Cancelled;
      }
      if !HasRequiredColumns(sheet.value) {
        return MissingColumns;
      }
      var rows := sheet.value.rows;
      for i := 0 to |rows|
        invariant ImportAll(annotations, rows[i..], answers[i..]) == ImportAll(old(annotations), rows, answers)
        invariant buttons == old(buttons) && highlighted == old(highlighted)
        invariant display == old(display) && activeAnnotations == old(activeAnnotations)
        invariant currentAnnotation == old(currentAnnotation) && accumulativeMode == old(accumulativeMode)
        invariant fontSize == old(fontSize) && file == old(file)
      {
        assert rows[i..][0] == rows[i] && rows[i..][1..] == rows[i + 1..];
        assert answers[i..][0] == answers[i] && answers[i..][1..] == answers[i + 1..];
        var (name, annotation) := rows[i];
        if name in annotations && !answers[i] {
          continue;
        }
        annotations := annotations[name := annotation];
      }
      UpdateButtons();
      outcome := Done;
    }

    /** `export_annotations`: the rows written to the chosen file, every entry
        once, also when the store is empty; None when the dialog is cancelled. */
    method ExportAnnotations(chosen: bool) returns (written: Option<seq<Row>>)
      ensures written.Some? <==> chosen
      ensures written.Some? ==> IsRowsOf(written.value, annotations) && |written.value| == |annotations|
    {
      if chosen {
        var rows := Rows(annotations);
        written := Some(rows);
      } else {
        written := None;
      }
    }

    /** `save_annotations_to_file` (run by `closeEvent`): `annotations.xlsx` is
        rewritten only when the store is non-empty. */
    method SaveAnnotationsToFile()
      modifies this`file
      ensures annotations == map[] ==> file == old(file)
      ensures annotations != map[] ==> file.Some? && IsRowsOf(file.value, annotations)
    {
      if annotations != map[] {
        var rows := Rows(annotations);
        file := Some(rows);
      }
    }

    /** `change_font_size`: one step of the display font size. */
    method ChangeFontSize(increase: bool)
      requires Valid()
      modifies this`fontSize
      ensures Valid()
      ensures fontSize == FontStep(old(fontSize), increase)
    {
      fontSize := FontStep(fontSize, increase);
    }

    /** The display's wheel filter: a wheel turn with exactly Ctrl held is
        consumed and steps the font, up for a positive delta, down otherwise. */
    method WheelEvent(ctrlOnly: bool, delta: int) returns (consumed: bool)
      requires Valid()
      modifies this`fontSize
      ensures Valid()
      ensures consumed == ctrlOnly
      ensures fontSize == if ctrlOnly then FontStep(old(fontSize), delta > 0) else old(fontSize)
    {
      if ctrlOnly {
        ChangeFontSize(delta > 0);
        return true;
      }
      return false;
    }
  }
}
