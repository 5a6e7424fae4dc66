# Annotation store and display, modelled in Dafny

Annot APP is a desktop utility that keeps short reusable texts
("annotations") under names. One button per name recalls its text into a
display. The display works in one of two modes:

- replace mode shows one text at a time;
- accumulate mode appends texts one below the other.

The store is persisted to `annotations.xlsx`. It can also be imported
from, and exported to, other spreadsheets. The repository holds two
versions of the program: the current Qt one (`AnnotAPP.py`) and an earlier
tkinter one (`old/annot.py`). This project models the state and the
operations of both main windows, plus the pure helpers they rely on. It
proves what each operation does to that state.

Files and modules:

- `text.dfy` (`Text`): the string operations the program uses.
  - Python's `str.strip` over its whitespace set.
  - `sub in s` and `s.replace(sub, '', 1)` through a first-occurrence search.
  - Code-point string order, with insertion into a sorted sequence.
- `grid.dfy` (`Grid`): the button grid.
  - The Qt layout puts sorted index `i` at cell `(i // 4, i % 4)`.
  - The tkinter version keeps a `(row, column)` cursor that wraps after column 3.
  - Destroying the first button with a given name.
- `persist.dfy` (`Persist`): a spreadsheet as data.
  - Its column headers and its (Name, Annotation) rows.
  - The rows written for a store, each entry exactly once.
- `widgets.dfy` (`Widgets`): the Qt widgets that carry state.
  - The `ToggleSwitch` class: flip, set, signal blocking.
  - The double-click expansion of a selection over compound-word characters, as a method with two loops.
  - The Ctrl+wheel font step, clamped to 6..72.
- `annot_app.dfy` (`AnnotApp`): the Qt main window as the class `AnnotApp`.
  - Its state: the store, the active names, the display text, the current annotation, the mode, the buttons and their highlighting, the display font size, the switch and the file contents.
  - The load and import folds, as functions the methods are proved against.
- `old_annot.dfy` (`OldAnnot`): the tkinter main window as the class `AnnotationApp`.
  - Its state: the store, the placement cursor, the buttons in creation order, the current annotation, the display and the file contents.
  - The import fold, which also yields the names of the accepted saves, since each of those makes a button and moves the cursor.

User answers and inputs are parameters of the methods:

- confirmation questions;
- overwrite questions, one answer per row;
- file dialogs, as `Option`;
- entry fields;
- the edit dialog's texts;
- the initial word selection.

A `KeyError` that escapes a handler is the outcome `KeyError`, and the model
keeps the state as it was when the exception was raised. A sheet without the
`Name` or `Annotation` column makes the import raise a ValueError. The handler
catches it and shows it in an error box (`AnnotAPP.py:590-591`,
`old/annot.py:181-182`); this handled error is the outcome `MissingColumns`.

The invariant of the Qt window (`AnnotApp.AnnotApp.Valid`) states four things:

- the buttons are exactly the laid-out sorted names;
- the display is its own `PlainText` read-back, so it has no no-break space and no line or paragraph separator;
- the font size is within range;
- the switch shows the mode and is not blocked.

The invariant of the tkinter window (`OldAnnot.AnnotationApp.Valid`) states four things:

- the cursor stands where the next button goes, past every button;
- every stored name has a button;
- the number of buttons is at most the number of accepted saves;
- whenever the store is non-empty, the file holds exactly its entries.

Points where the code behaves otherwise than a natural reading of the design:

- **Accumulate mode does not deduplicate.** Showing the same name twice puts its text in the display twice (`AnnotApp.AccumulateTwice`).
- **Toggling the mode does not clear anything.** The display and the active names stay as they are (`AnnotApp.AnnotApp.ToggleMode`).
- **Delete and remove-all in the Qt version end in `KeyError`.** Both change the store and then call `show_annotation(None)`, which raises KeyError, so the display is not cleared afterwards. A failed operation can therefore leave the store changed.
- **The Qt version writes the file only when the window closes** (`closeEvent`). A load after save restores only the entries whose name and text are both non-empty. This holds only when the file reads back the strings that were written: pandas reads an empty cell, and cells such as "NA", "null", "None" or "nan", as NaN, which is truthy and would be stored. The model's files hold strings only.
- **The Qt version can store an empty text.** Edit-all and import can put an empty text, or a text with surrounding whitespace, into the store. Only `save_annotation` checks for empty names and texts.
- **Removing an annotation can leave its text on display.** The display is read back with `toPlainText()`, which turns a no-break space into a space and a line or paragraph separator (U+2028, U+2029) into a newline. The test `annotation_text in current_text` (`AnnotAPP.py:410`) then fails for a text holding one of these characters, so in accumulate mode the text stays on display after its annotation is removed (`AnnotApp.NoBreakSpaceStays`).
- **The double-click expansion miscounts after an emoji.** Qt positions count UTF-16 units, while the loops index the Python string by code point (`AnnotAPP.py:97-110`). In the text U+1F600, space, `abc`, a double-click on `abc` starts from `(3, 6)`. The left loop reads `full_text[2]`, which is `a`, stops at the space and selects ` abc`, space included. In U+1F600, U+1F600, `a`, a double-click on `a` starts from `4` against a length of 3, so `full_text[3]` raises IndexError. The model takes positions as code-point indices within the text (see `Widgets.ExpandSelection` under Left out).
- **The tkinter save guard leaves a stale file.** When the last annotation is deleted, the file is not rewritten, so it comes back at the next start (`OldAnnot.DeleteLastKeepsFile`).

## Model

| member | source | states |
|---|---|---|
| Text.IsSpace | AnnotAPP.py:532-533 | definition: the characters `str.strip` removes, Python's white-space set |
| Text.Less | AnnotAPP.py:384 | definition: the order `sorted` uses on `str`, lexicographic by code point |
| Text.Strip | AnnotAPP.py:532-533 | the result is no longer than the input, has no white space at either end, and is empty exactly when the input is all white space |
| Text.StripSlice | AnnotAPP.py:412 | the result of strip is a contiguous slice of the input with only white space before and after it |
| Text.StripIdempotent | AnnotAPP.py:412 | stripping twice is stripping once |
| Text.StripTrimmed | AnnotAPP.py:412 | a string with no white space at its ends is its own strip |
| Text.StripSpaceBefore | AnnotAPP.py:412 | a leading white-space character does not change the strip |
| Text.FindFrom | AnnotAPP.py:410 | the result is the first occurrence at or after `from`, or None when there is none |
| Text.FindFirst | AnnotAPP.py:410 | the result is the first occurrence of `sub`, and None exactly when `sub` occurs nowhere |
| Text.Contains | AnnotAPP.py:410 | definition: `sub in s`, some occurrence of `sub` in `s` |
| Text.ContainsAt | AnnotAPP.py:410 | an occurrence at any index makes `sub in s` true |
| Text.RemoveFirst | AnnotAPP.py:411 | without an occurrence the string is unchanged; with one, the result is shorter by `len(sub)`, and putting `sub` back at the first occurrence restores the input |
| Text.RemoveFirstAtStart | AnnotAPP.py:411 | when `s` starts with `sub`, the replacement removes that prefix |
| Text.LessIrreflexive | AnnotAPP.py:384 | no string sorts before itself |
| Text.LessTransitive | AnnotAPP.py:384 | string order is transitive |
| Text.LessTotal | AnnotAPP.py:384 | of two distinct strings one sorts first |
| Text.LessAsymmetric | AnnotAPP.py:384 | two strings never sort before each other |
| Text.Insert | AnnotAPP.py:384 | inserting a new name into a sorted sequence keeps it sorted, adds one element and changes the contents by just that name |
| Grid.Position | AnnotAPP.py:386-387 | the column is below 4, and row and column recompose the index as `4 * row + column` |
| Grid.PositionUnique | AnnotAPP.py:386-387 | a row/column pair with column below 4 that recomposes the index is that index's cell |
| Grid.PositionOrder | AnnotAPP.py:384-387 | a later index gets a cell strictly later in row-major order, so no two indices share a cell |
| Grid.IsLayoutOf | AnnotAPP.py:384-393 | definition: the buttons `update_buttons` creates for a name set, sorted, the i-th at `(i // 4, i % 4)`, one per name |
| Grid.DistinctNamesCount | AnnotAPP.py:384-385 | a strictly sorted row of buttons has one distinct name per button |
| Grid.LayoutProperties | AnnotAPP.py:384-393 | the grid of sorted names has one button per stored name, every column is below 4, and cells are pairwise distinct and row-major in name order |
| Grid.SortedUnique | AnnotAPP.py:384 | two strictly sorted sequences with the same elements are equal, so `sorted` has one answer |
| Grid.LayoutUnique | AnnotAPP.py:376-395 | two layouts of the same name set are identical: rebuilding the grid is deterministic |
| Grid.Advance | old/annot.py:113-116 | the cursor step keeps the column below 4 and moves strictly forward in row-major order |
| Grid.AdvancePosition | old/annot.py:113-116 | stepping the cursor from cell `(n // 4, n % 4)` reaches `((n+1) // 4, (n+1) % 4)` |
| Grid.CursorAfter | old/annot.py:113-116 | the cursor after any number of saves from (0, 0) has its column below 4 |
| Grid.CursorOrder | old/annot.py:113-116 | more saves leave the cursor strictly later in row-major order |
| Grid.CursorAfterIsPosition | old/annot.py:113-116 | after `n` saves from (0, 0) the cursor stands at `(n // 4, n % 4)`, the cell the Qt layout gives the n-th button |
| Grid.PlaceAtCursor | old/annot.py:108-116 | a button gridded at the cursor, with the cursor then stepped, keeps every button strictly before the cursor and in placement order |
| Grid.FirstNamed | old/annot.py:139-142 | the result is the first button showing the name, and None exactly when no button shows it |
| Grid.RemoveFirstNamed | old/annot.py:139-142 | destroying the first button showing the name leaves every other button in order; without such a button nothing changes |
| Grid.RemoveKeepsOtherNames | old/annot.py:139-142 | every other name keeps a button |
| Grid.RemovePreservesPlacement | old/annot.py:139-142 | the remaining buttons stay in placement order and before the cursor |
| Persist.HasRequiredColumns | AnnotAPP.py:577 | definition: the sheet has both a `Name` and an `Annotation` column, the test both imports make before reading a row |
| Persist.IsRowsOf | AnnotAPP.py:614 | definition: the rows list every entry of the store exactly once, with its text, as `list(annotations.items())` does |
| Persist.Rows | AnnotAPP.py:614 | the rows written list every entry of the store exactly once with its text |
| Persist.RowsOfTail | AnnotAPP.py:614 | without its first row, such a listing lists the rest of the store |
| Persist.NonEmptyEntries | AnnotAPP.py:534 | definition: the entries whose name and text are both non-empty, with their texts |
| Widgets.ToggleSwitch.constructor | AnnotAPP.py:50-54 | a new switch is off |
| Widgets.ToggleSwitch.MousePress | AnnotAPP.py:74-77 | a click flips the state and announces the new state unless signals are blocked |
| Widgets.ToggleSwitch.SetEnabled | AnnotAPP.py:82-86 | the state becomes the argument, and it is announced only when it changed and signals are not blocked |
| Widgets.ToggleSwitch.BlockSignals | AnnotAPP.py:351-353 | only the blocking flag changes |
| Widgets.IsWordChar | AnnotAPP.py:102 | definition: ASCII letters, digits and `.`, `_`, `-`, `@` |
| Widgets.ExpandSelection | AnnotAPP.py:89-116 | the selection only grows, stays within the text, and gains only word characters; it is maximal, since the characters just outside it are not word characters or are the text's ends |
| Widgets.ExpansionUnique | AnnotAPP.py:102-110 | exactly one selection meets that description |
| Widgets.ExpansionIdempotent | AnnotAPP.py:102-110 | double-clicking inside an expanded selection expands to the same selection |
| Widgets.FontStep | AnnotAPP.py:621-629 | a step up is `min(size + 1, 72)`, a step down `max(size - 1, 6)`, and a size in 6..72 stays in range |
| Widgets.FontStepInverse | AnnotAPP.py:624-627 | inside the range, a step down undoes a step up below 72 and a step up undoes a step down above 6 |
| Widgets.FontStepsUp | AnnotAPP.py:203-211 | n steps up from a size in range climb n points but stop at 72 |
| Widgets.FontStepsDown | AnnotAPP.py:203-211 | n steps down from a size in range fall n points but stop at 6 |
| AnnotApp.Save | AnnotAPP.py:530-543 | no stored text ever changes; a non-empty name with non-empty text is added and nothing else is; a new name gets exactly the given text |
| AnnotApp.LoadAll | AnnotAPP.py:603-610 | definition: every row of the file through `save_annotation`, in order |
| AnnotApp.LoadNeverOverwrites | AnnotAPP.py:603-610 | loading rows never replaces a stored text, so a repeated name keeps its first text |
| AnnotApp.LoadDistinct | AnnotAPP.py:603-610 | loading a listing of a store into disjoint names adds exactly that store's non-empty entries |
| AnnotApp.SaveThenRest | AnnotAPP.py:535-540 | saving one entry and then adding the rest of the store adds the whole store's non-empty entries |
| AnnotApp.ReloadRoundTrip | AnnotAPP.py:603-615 | loading the file written for a store restores exactly its non-empty entries, which is the whole store when no name or text is empty, provided the file reads back the strings written |
| AnnotApp.ImportAll | AnnotAPP.py:579-587 | definition: the import loop's store, where a stored name is overwritten only on a yes and a new name is always written |
| AnnotApp.ImportKeys | AnnotAPP.py:579-587 | after an import the names are the old names plus every row's name |
| AnnotApp.ImportDeclinedKeeps | AnnotAPP.py:582-586 | a stored name whose every row is answered no keeps its text |
| AnnotApp.ImportLastAccepted | AnnotAPP.py:579-587 | the last row for a name decides its text when that row is answered yes, and also when the name was not stored and has no earlier row, since then no question is asked |
| AnnotApp.ImportUntouched | AnnotAPP.py:579-587 | a name no row mentions keeps its text |
| AnnotApp.ImportScenario | AnnotAPP.py:579-587 | a worked import: answering yes overwrites the stored name, answering no keeps it, and a new name is inserted either way |
| AnnotApp.PlainChar | AnnotAPP.py:409-419 | definition: `toPlainText()` gives a no-break space back as a space and U+2028, U+2029 as a newline, any other character as itself |
| AnnotApp.PlainText | AnnotAPP.py:409-425 | definition: the display's text as `toPlainText()` converts it after `setPlainText`, character by character (the conversions on insertion are left out) |
| AnnotApp.PlainTextIdempotent | AnnotAPP.py:409-425 | reading back keeps the length, and a text read back once is its own read-back |
| AnnotApp.PlainTextSlice | AnnotAPP.py:409-425 | reading back commutes with taking a slice |
| AnnotApp.PlainTextConcat | AnnotAPP.py:419-422 | reading back commutes with concatenation |
| AnnotApp.PlainCharSpace | AnnotAPP.py:412 | a character read back is white space exactly when it was, and a non-space character reads back as itself |
| AnnotApp.Accumulated | AnnotAPP.py:418-423 | the old display is kept as a prefix, then a newline when it was non-empty, then the text, and the length adds up |
| AnnotApp.AccumulatedContains | AnnotAPP.py:409-423 | right after being shown, a text that is its own read-back is in the display, so a removal finds it |
| AnnotApp.NoBreakSpaceStays | AnnotAPP.py:409-423 | the text `x`, no-break space, `y` is shown as `x y`, which does not contain it, so removing its annotation leaves the display as it is |
| AnnotApp.ShownAgain | AnnotAPP.py:419-422 | appending to a display that is its own read-back shows the old display, a newline and the text's read-back |
| AnnotApp.AccumulateTwice | AnnotAPP.py:418-423 | showing a text twice puts its read-back into the display at two different places |
| AnnotApp.AccumulateThenRemoveFirst | AnnotAPP.py:404-423 | show `a`, then `b`, then remove `a`: the display is `b` again when both texts are their own read-back and `b` has no white space at its ends |
| AnnotApp.RemoveFirstLine | AnnotAPP.py:411 | cutting `a` from `a`, newline, `b` leaves the newline and `b` |
| AnnotApp.DisplayWithout | AnnotAPP.py:408-412 | a display without the text is left alone; otherwise the result is at least the text's length shorter, has no white space at either end and is its own read-back |
| AnnotApp.Unstyled | AnnotAPP.py:388-393 | definition: one entry per button, none highlighted |
| AnnotApp.AnnotApp.constructor | AnnotAPP.py:214-256 | empty display and active set, no current annotation, replace mode, font size 12, the store is whatever loading the saved file gives, and no button is highlighted |
| AnnotApp.AnnotApp.UpdateButtons | AnnotAPP.py:376-395 | the buttons are the sorted names laid out four to a row, none highlighted |
| AnnotApp.AnnotApp.UpdateButtonStates | AnnotAPP.py:430-436 | a button is highlighted exactly when its name is active |
| AnnotApp.AnnotApp.SaveAnnotation | AnnotAPP.py:530-543 | an empty name or text is InvalidInput, a stored name DuplicateName, and both change nothing; otherwise exactly that pair is inserted and the grid rebuilt |
| AnnotApp.AnnotApp.AddFromDialog | AnnotAPP.py:530-543 | both entries are stripped first; the input is invalid exactly when either entry is all white space, a duplicate when the stripped name is stored, and otherwise saved with the grid rebuilt unhighlighted; a rejected input leaves the buttons and their styles |
| AnnotApp.AnnotApp.LoadAnnotations | AnnotAPP.py:603-610 | the store becomes the rows saved in order; display, mode, selection and file are untouched |
| AnnotApp.AnnotApp.ShowAnnotation | AnnotAPP.py:417-428 | replace mode shows only the text with that name active; accumulate mode appends it and adds the name; the display is then the `PlainText` read-back of what was set; a name that is not stored raises with nothing changed |
| AnnotApp.AnnotApp.RemoveAnnotation | AnnotAPP.py:404-415 | an absent name changes nothing; a present one loses only its entry and its active flag, and in accumulate mode its first occurrence, if the display contains it, is cut from the display, which is then stripped and set again as its `PlainText` read-back |
| AnnotApp.AnnotApp.ClearDisplay | AnnotAPP.py:365-369 | empty display, no active names, no current annotation; store, mode and buttons are unchanged |
| AnnotApp.AnnotApp.ToggleMode | AnnotAPP.py:342-353 | the mode flips or is set, the switch follows it without signalling, and nothing else changes |
| AnnotApp.AnnotApp.ClickToggleSwitch | AnnotAPP.py:238 | a click on the switch flips the mode and leaves the rest of the window as it was |
| AnnotApp.AnnotApp.DeleteAnnotation | AnnotAPP.py:550-561 | with no current annotation, or when the answer is no, nothing changes; when the answer is yes, the operation ends in KeyError, after removing the entry if it was still stored |
| AnnotApp.AnnotApp.RemoveAllAnnotations | AnnotAPP.py:563-570 | on no nothing changes; on yes the store and grid are emptied and the operation ends in KeyError with the display as it was |
| AnnotApp.AnnotApp.EditAllAnnotations | AnnotAPP.py:438-481 | an empty store or a cancelled dialog changes nothing; on Save the store becomes the edited texts under the same names, and the grid is unchanged |
| AnnotApp.AnnotApp.ApplyEdits | AnnotAPP.py:472-477 | every stored text is replaced by its edited text |
| AnnotApp.AnnotApp.ImportAnnotations | AnnotAPP.py:572-591 | a cancelled dialog or a sheet without both columns changes nothing; otherwise the store becomes the import fold of its rows and answers |
| AnnotApp.AnnotApp.ExportAnnotations | AnnotAPP.py:593-601 | a chosen file gets every entry exactly once, including when the store is empty |
| AnnotApp.AnnotApp.SaveAnnotationsToFile | AnnotAPP.py:612-615 | an empty store leaves the file alone; otherwise the file lists every entry once |
| AnnotApp.AnnotApp.ChangeFontSize | AnnotAPP.py:621-629 | the size takes one clamped step |
| AnnotApp.AnnotApp.WheelEvent | AnnotAPP.py:203-211 | a wheel turn with only Ctrl held is consumed and steps the font up for a positive delta and down otherwise; any other turn is passed on unchanged |
| OldAnnot.Truthy | old/annot.py:125 | definition: Python truthiness of the name, false for None and for "" |
| OldAnnot.OldSave | old/annot.py:106-112 | a non-empty name with non-empty text is stored, replacing any old text, and every other entry is kept; anything else leaves the store unchanged |
| OldAnnot.ImportStep | old/annot.py:172-178 | a stored name answered no, or a row with an empty cell, leaves the store as it is and makes no button; any other row adds its name with its text, keeps every other entry, and makes one button for its name |
| OldAnnot.ImportFold | old/annot.py:171-178 | definition: the import loop over the rows, giving the final store and, in order, the names of the accepted saves |
| OldAnnot.LoadFold | old/annot.py:194-201 | definition: loading is the import loop with every overwrite accepted, since no question is asked |
| OldAnnot.ImportFoldSnoc | old/annot.py:171-178 | importing one more row is one more step on what the earlier rows left, and its accepted name is appended |
| OldAnnot.ImportFoldAt | old/annot.py:171-178 | the loop from row i on is row i's step followed by the loop from row i + 1 |
| OldAnnot.ImportSavesEveryRow | old/annot.py:171-178 | with every answer yes and no empty cell, every row is an accepted save, overwrites included, so each moves the cursor |
| OldAnnot.ImportDeclinedKeeps | old/annot.py:174-177 | a stored name whose every row is answered no keeps its text |
| OldAnnot.ImportAgreesWithQt | old/annot.py:171-178 | on rows without empty cells both versions import to the same store |
| OldAnnot.LoadAgreesWithQt | old/annot.py:194-201 | on a file without repeated names both versions load the same store |
| OldAnnot.ReloadRoundTrip | old/annot.py:194-206 | loading the file written for a store restores exactly its non-empty entries, provided the file reads back the strings written |
| OldAnnot.PlacedCells | old/annot.py:108-109 | definition: the k-th accepted save's button shows its name at the cursor after `from + k` saves |
| OldAnnot.PlacedCellsPlacement | old/annot.py:108-116 | the buttons of the accepted saves show their names in order, at the cells `((from + k) // 4, (from + k) % 4)` the Qt layout would use, strictly in row-major order and all before the cursor that follows them |
| OldAnnot.AnnotationApp.constructor | old/annot.py:8-56 | empty display, no current annotation, and the store, buttons and cursor are what loading the saved file gives |
| OldAnnot.AnnotationApp.SaveAnnotation | old/annot.py:106-119 | an empty name or text changes nothing; otherwise the pair is stored, overwriting, a button appears at the old cursor, the cursor takes one step and the file lists the store |
| OldAnnot.AnnotationApp.PlaceButton | old/annot.py:108-116 | the store and grid part of a save: the pair is stored, overwriting, a button appears at the old cursor, the cursor steps once, and the cursor stays past every button |
| OldAnnot.AnnotationApp.AddFromDialog | old/annot.py:104 | only the text entry is stripped; an empty name or an all-white-space text changes nothing; any other input appends its button at the cursor, advances the cursor and rewrites the file with the store |
| OldAnnot.AnnotationApp.ShowAnnotation | old/annot.py:121-127 | the current annotation becomes the name; a truthy stored name shows its text, a falsy name empties the display, and a name that is not stored raises with the display empty |
| OldAnnot.AnnotationApp.DeleteAnnotation | old/annot.py:136-144 | no current annotation changes nothing, and a name that is no longer stored raises with nothing changed; otherwise exactly that entry and its first button go, the display empties, and the cursor does not move back |
| OldAnnot.AnnotationApp.RemoveAllAnnotations | old/annot.py:146-161 | on no nothing changes; on yes the store, the buttons, the cursor, the current annotation, the display and the file are all reset |
| OldAnnot.AnnotationApp.ImportAnnotations | old/annot.py:164-182 | a cancelled dialog or a sheet without both columns changes nothing; otherwise store, buttons and cursor are what the import fold says |
| OldAnnot.AnnotationApp.LoadAnnotations | old/annot.py:194-201 | the rows are imported as if every overwrite were accepted |
| OldAnnot.AnnotationApp.ImportRows | old/annot.py:171-178 | the row loop ends in the import fold's store, with one new button per accepted save and the cursor advanced once per accepted save |
| OldAnnot.AnnotationApp.ImportRow | old/annot.py:172-178 | one pass of the loop is one import step, with the buttons kept in step |
| OldAnnot.AnnotationApp.ExportAnnotations | old/annot.py:184-192 | a chosen file gets every entry exactly once |
| OldAnnot.AnnotationApp.SaveAnnotationsToFile | old/annot.py:203-206 | an empty store leaves the file alone; otherwise the file lists every entry once |
| OldAnnot.DeleteLastKeepsFile | old/annot.py:144 | a file written for a single annotation loads it back, so the file that deleting it leaves unchanged restores it at the next start |

## Left out

- Painting, layouts, window size and centring, icons and the character-count label (`AnnotAPP.py:56-72`, `263-335`, `631-635`): these are widget drawing and do not affect the modelled state.
- The window title and `update_mode_indicator` (`AnnotAPP.py:355-357`): presentation only.
- The version-history dialog (`AnnotAPP.py:118-197`, `641-654`): static text.
- The settings menu and the dialog construction (`AnnotAPP.py:483-528`, `438-470`): the dialogs' results are method parameters.
- The clipboard copy (`AnnotAPP.py:545-548`, `old/annot.py:129-133`): a foreign UI call.
- Always-on-top (`AnnotAPP.py:617-619`). The tkinter `toggle_always_on_top` (`old/annot.py:58-90`) is also left out: it rebuilds the window through the global `root`.
- Windows app-id setup and `resource_path` (`AnnotAPP.py:31-45`): operating-system plumbing.
- Spreadsheet reading and writing: a file is its column headers and its rows of strings.
  - Cell types, NaN and non-string values produced by pandas are not modelled.
  - Neither is the `EmptyDataError` path.
  - Load does not check columns: a saved file without the columns is not modelled.
- File existence. The tkinter remove-all deletes the file, modelled as setting the file to None, and its two information messages are left out.
- Message boxes are bool inputs, and warnings and information boxes are outcomes.
- The Qt line `display_text.clear()` after `show_annotation(None)` (`AnnotAPP.py:559`, `570`) cannot run, because the call before it raises.
- Typing into the Qt display. `SmartSelectTextEdit` (`AnnotAPP.py:227`) is never made read-only, so the user can edit the text that `show_annotation` and `remove_annotation` read back. The contracts are stated for the display as it is when the call is made, and edits between calls are not modelled.
- What happens after an exception escapes a handler. `AnnotAPP.py` installs no `sys.excepthook`, and PyQt5 from version 5.5 aborts the process on an unhandled exception in a slot. The `KeyError` that ends delete and remove-all would then stop the program before `closeEvent` writes the file. The model ends the operation with the state at the raise and does not model the abort.
- AnnotApp.AnnotApp.ShowAnnotation / AnnotApp.AnnotApp.RemoveAnnotation / AnnotApp.PlainText: the display is `PlainText` of the text set, which covers only the three characters `toPlainText()` converts. `setPlainText` inserts through `QTextCursor::insertText`, which also turns `'\r'`, `"\r\n"`, U+FDD0 and U+FDD1 into block breaks that read back as `'\n'`. These conversions are not modelled. For a text holding them, the source shows the converted text, and in accumulate mode its removal then finds no match and keeps it, while the model shows the text as stored and cuts it (for example the text `x`, `"\r\n"`, `y`).
- Qt's `WordUnderCursor` initial selection (`AnnotAPP.py:94`) is taken as the input `(start, end)`.
- Widgets.ExpandSelection: positions are code-point indices into the text, and the selection must lie within it. The source takes Qt's `selectionStart()` and `selectionEnd()`, which count UTF-16 units, and uses them as indices into the Python string from `toPlainText()` (`AnnotAPP.py:97-110`). Each character outside the Basic Multilingual Plane before the cursor shifts those indices by one. The source then tests characters shifted from the ones under the cursor, and it can index past the end of the string and raise IndexError. The model does not capture either effect.
- Persist.Rows: yields the entries in some order instead of the dictionary's insertion order. What is proved, every entry once with its text, does not depend on the order.
- AnnotApp.AnnotApp.EditAllAnnotations: the dialog's edited texts come in as a map with the store's names, since the dialog builds one editor per stored name.
