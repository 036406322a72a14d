# IC10 editor: a verified model of the line-editing engine

This project models the text-editing core of the in-game IC10 code editor, the
`IC10Editor` class of `Editor.cs`. The editor keeps the program as a list of lines
(`Lines`, joined with `\n` into `Code`). It also keeps a caret, a selection range, and
an undo list of snapshots. Snapshots taken less than 500 ms apart, or holding the same
code, replace one another, and the list keeps at most 100 of them. Its operations move
the caret with clamping, select, copy and paste, insert and delete text, and handle the
Backspace, Enter and typed-text keys.

The model has six modules:

- `Positions` (positions.dfy): the caret position and the selection range. A position
  is either set or unset, and a range can be sorted into document order. The small
  module `Optional` in the same file holds the Option type, standing for the source's
  `null`.
- `TextLines` (text_lines.dfy): splitting on `\n` and joining, the flat offset of a
  position in the code, `GetCode`, the clamping of `MoveCaret`, and splice lemmas. The
  splice lemmas say how replacing a stretch of lines changes the joined code.
- `Edits` (edits.dfy): every edit as a function from (lines, caret) to (lines, caret).
  `Insert` and `DeleteRange` appear twice. One version is as written, with the inputs
  that show how it goes wrong. The other is corrected, with the intended property
  proved about it.
- `UndoHistory` (undo_history.dfy): the undo list as a value. It covers the push rule,
  the effect of `Undo` on the list, and lemmas about sequences of pushes.
- `Editor` (editor.dfy): the `IC10Editor` class. Its fields are the lines, caret,
  selection, undo list, scroll flag and clipboard. Each method is proved against the
  functions above. `PushUndoState` keeps the `RemoveLast` while-loop, and
  `DeleteRange` keeps the descending line-removal loop (in `RemoveLinesAfter`). The class invariant `Valid()`
  says four things:
  - there is at least one line;
  - the caret is on one of the lines;
  - the caret column is not negative;
  - the undo list holds at most 100 restorable snapshots.

The class models the code as written, quirks included. The corrected `Insert` and
`DeleteRange` live beside it in `Edits`.

## Model

| member | source | states |
|---|---|---|
| Positions.TextRange.IsActive | Editor.cs:304 | the range's conversion to bool, as HaveSelection and DeleteRange (Editor.cs:326) use it: both ends set and different |
| Positions.TextRange.Sorted | Editor.cs:322 | the same two endpoints, in document order when both are set; sorting does not change whether the range is active |
| Positions.SortedIdempotent | Editor.cs:322 | sorting a sorted range changes nothing |
| Positions.SortedSymmetric | Editor.cs:322 | a selection dragged forward or backward over the same two positions sorts to the same range |
| TextLines.Split | Editor.cs:284 | `Split('\n')` gives one piece more than the text has newlines, and no piece holds a newline |
| TextLines.Join | Editor.cs:39 | `string.Join("\n", Lines)`: the lines with a newline between neighbours; Split is its inverse (JoinSplit, SplitJoin) |
| TextLines.JoinSplit | Editor.cs:39 | joining the pieces of a split with `\n` gives back the text |
| TextLines.SplitJoin | Editor.cs:39 | splitting the code of newline-free lines gives back the lines |
| TextLines.SplitJoinLength | Editor.cs:39 | the code of n lines splits into at least n pieces |
| TextLines.Decompose | Editor.cs:39 | a position cuts the code into the text before it and the text after it; its offset is the length of the first part |
| TextLines.GetCode | Editor.cs:306-320 | the tail of the start line, the whole lines between, and the head of the end line, joined by newlines; one substring when both ends share a line; GetCodeIsSlice states what it yields |
| TextLines.GetCodeIsSlice | Editor.cs:306-320 | GetCode of an in-bounds ordered range is exactly the slice of `Code` between the flat offsets of its two ends |
| TextLines.OffsetStrict | Editor.cs:306-320 | ordered positions have ordered offsets, strictly ordered when the positions differ |
| TextLines.ActiveRangeNonEmpty | Editor.cs:304 | an active range (HaveSelection) selects at least one character |
| TextLines.GetCodeWhole | Editor.cs:230-234 | the range SelectAll builds yields the whole code |
| TextLines.Clamp | Editor.cs:206-216 | the clamped position is inside the text, on the nearest line and the nearest column to the target, and equals the target when it is already inside |
| TextLines.ClampKeepsInBounds | Editor.cs:206-216 | clamping leaves an in-bounds position where it is |
| Edits.InsertAsWritten | Editor.cs:282-297 | the line count grows by the number of newlines; the first piece goes to the end of the caret line; the other pieces go before that line; lines before and after are kept; the caret goes down by the number of inserted lines, keeping an in-line column |
| Edits.InsertMisplacesText | Editor.cs:288-290 | pasting "XY\nZ" at (0, 3) of "abcdef" gives ["Z", "abcdefXY"] with the caret at (1, 3), not "abcXY\nZdef" |
| Edits.InsertAgreesAtLineEnd | Editor.cs:288 | with the caret at the end of its line and newline-free code, the lines after the as-written Insert equal those after the corrected Insert |
| Edits.RestoredLines | Editor.cs:48-53 | restoring a snapshot through ClearCode and Insert yields one line more than the snapshot's code has newlines |
| Edits.RestoredRotates | Editor.cs:48-53 | those lines are the snapshot's lines rotated: all but the first, then the first |
| Edits.RestoreReordersLines | Editor.cs:48-53 | undoing to "a\nb" yields the lines ["b", "a"], whose code differs from "a\nb" |
| Edits.RestoreLeavesCaretPastLine | Editor.cs:48-53 | undoing to "abc\n" with the caret at (0, 3) puts the caret past the end of an empty line |
| Edits.RestoredSingleLine | Editor.cs:48-53 | a single-line snapshot is restored exactly |
| Edits.InsertAtCaret | Editor.cs:282-297 | corrected Insert: the line count grows by the number of newlines and the caret stays inside the text |
| Edits.InsertAtCaretText | Editor.cs:282-297 | corrected Insert puts the code into `Code` at the caret's offset and leaves the caret right after it |
| Edits.RestoreAtCaretExact | Editor.cs:48-53 | with the corrected Insert, restoring a snapshot gives back its code exactly |
| Edits.InsertAtCaretExample | Editor.cs:282-297 | corrected Insert of "XY\nZ" at (0, 3) of "abcdef" gives ["abcXY", "Zdef"] with the caret at (1, 1) |
| Edits.DeleteRangeAsWritten | Editor.cs:324-360 | as written: the caret goes to the range's start, which stays inside the text; the line count drops by end.line - start.line when the end is below the start |
| Edits.DeleteRangeOnCaretLineIsSplice | Editor.cs:335-355 | with the caret on the start line of an ordered range, DeleteRange puts an empty line in place of the range |
| Edits.DeleteRangeOnCaretLine | Editor.cs:335-358 | with the caret on the start line of an ordered range: the start line becomes head of start line + tail of end line; the line count drops by end.line - start.line; the code loses exactly the text between the two offsets |
| Edits.DeleteRangeWrongLine | Editor.cs:343-354 | Select All of ["ab", "cd"] then delete, with the caret on line 1, leaves ["ab"] |
| Edits.DeleteRangeReversed | Editor.cs:335-340 | deleting the backward range (0, 3)..(0, 1) of "abcd" gives "abcbcd" |
| Edits.DeleteRangeSorted | Editor.cs:324-360 | corrected DeleteRange: the caret goes to the sorted range's start and stays inside the text |
| Edits.DeleteRangeSortedText | Editor.cs:324-360 | corrected DeleteRange removes exactly the text between the sorted range's offsets, whichever way the range was dragged, and leaves the caret at the start offset |
| Edits.DeleteThenInsertRestores | Editor.cs:324-360 | deleting a range, then inserting its GetCode text at the caret, restores the code |
| Edits.DeleteRangeSortedExample | Editor.cs:324-360 | corrected DeleteRange of (0, 3)..(1, 1) in ["abcXY", "Zdef"] gives ["abcdef"] with the caret at (0, 3) |
| Edits.EnterAt | Editor.cs:423-430 | lines L and L+1 concatenate to the old line L; the line count grows by one; lines before and after are kept; the caret is (L+1, 0) |
| Edits.EnterText | Editor.cs:423-430 | Enter puts one newline into `Code` at the caret's offset and leaves the caret right after it |
| Edits.EnterThenBackspace | Editor.cs:411-419 | Backspace at the start of the line Enter made restores the lines and the caret |
| Edits.BackspaceAt | Editor.cs:406-420 | at column > 0, exactly the character before the caret is removed and the column drops by one, other lines kept; at column 0 of line L > 0, line L is merged onto L-1, one line is removed and the caret goes to (L-1, old length of L-1); at a non-zero column of an empty line, or at (0, 0), nothing changes |
| Edits.BackspaceText | Editor.cs:406-420 | Backspace removes the one character of `Code` before the caret (the newline, at a line start) and moves the caret back over it |
| Edits.TypeAt | Editor.cs:463-464 | the input is inserted into the caret line at the caret, other lines kept, caret moved past it |
| Edits.TypeAtText | Editor.cs:463-464 | typing puts the input into `Code` at the caret's offset and leaves the caret right after it |
| UndoHistory.Truncated | Editor.cs:71-74 | the first min(n, length) entries of the list |
| UndoHistory.Coalesces | Editor.cs:66 | a new snapshot replaces the head when it is less than 500 ms newer or holds the same code |
| UndoHistory.Pushed | Editor.cs:59-75 | 1 to 100 entries, with the new snapshot at the head; on coalescing, the rest is the old list without its head, and the length does not grow; otherwise it is the old list cut to 99 |
| UndoHistory.AfterUndo | Editor.cs:77-84 | Undo never lengthens the list; when the current state coalesces with the head, the list loses its head; otherwise the restored snapshot stays at the head |
| UndoHistory.PushAll | Editor.cs:59-75 | after pushing several snapshots the last one is at the head and the list holds 1 to 100 entries |
| UndoHistory.PushAllSeparate | Editor.cs:59-75 | snapshots that never coalesce are kept newest first in front of the old list, cut to 100 |
| UndoHistory.BurstKeepsLast | Editor.cs:64-69 | a burst of snapshots each within the window of the previous leaves one entry, the burst's last snapshot |
| Editor.RemoveCarriageReturns | Editor.cs:253 | the text without '\r': every other character kept as often as it occurs (multiset), the length not growing; text without '\r' is unchanged |
| Editor.RemoveCarriageReturnsAppend | Editor.cs:253 | removal works piece by piece: the result for a + b is the result for a followed by the result for b, so order is kept |
| Editor.RemoveCarriageReturnsChar | Editor.cs:253 | on one character, '\r' is dropped and any other character kept |
| Editor.IC10Editor.constructor | Editor.cs:24-33 | one empty line, caret (0, 0), empty undo list, no selection |
| Editor.IC10Editor.Code | Editor.cs:39 | the code of n lines holds at least n - 1 newlines |
| Editor.IC10Editor.State | Editor.cs:41-46 | the snapshot carries the caret and the time, and the State setter can restore it |
| Editor.IC10Editor.PushUndoState | Editor.cs:59-75 | the undo list becomes Pushed(old list, current snapshot); nothing else changes; the invariant is kept |
| Editor.IC10Editor.SetCurrentLine | Editor.cs:92-101 | only the caret's line is replaced |
| Editor.IC10Editor.MoveCaret | Editor.cs:186-228 | the caret is the clamped target, relative or absolute, inside the text; the selection is reset (a selecting move sets only its end, so it is never active); the scroll flag is set |
| Editor.IC10Editor.CaretUp | Editor.cs:166-169 | the caret is the clamped position n lines up |
| Editor.IC10Editor.CaretDown | Editor.cs:171-174 | the caret is the clamped position n lines down |
| Editor.IC10Editor.CaretLeft | Editor.cs:176-179 | the caret is the clamped position n columns left |
| Editor.IC10Editor.CaretRight | Editor.cs:181-184 | the caret is the clamped position n columns right |
| Editor.IC10Editor.CaretToEndOfLine | Editor.cs:156-159 | the caret column is the line's length |
| Editor.IC10Editor.CaretToStartOfLine | Editor.cs:161-164 | the caret column is 0 |
| Editor.IC10Editor.HaveSelection | Editor.cs:304 | the selection converted to bool: it is active |
| Editor.IC10Editor.SelectedCode | Editor.cs:322 | the slice of `Code` between the sorted ends' offsets; it is non-empty exactly when HaveSelection holds |
| Editor.IC10Editor.SelectAll | Editor.cs:230-234 | the selection spans (0, 0) to the end of the last line and SelectedCode is the whole code |
| Editor.IC10Editor.Cut | Editor.cs:236-239 | the clipboard holds the whole code; nothing is deleted |
| Editor.IC10Editor.Copy | Editor.cs:241-248 | the clipboard holds SelectedCode (never null, so the null test always passes); nothing else changes |
| Editor.IC10Editor.ClearCode | Editor.cs:270-280 | one empty line, caret (0, 0), selection reset, the snapshot pushed when asked |
| Editor.IC10Editor.Insert | Editor.cs:282-297 | lines and caret become InsertAsWritten of the old ones; the selection is reset |
| Editor.IC10Editor.SetSourceCode | Editor.cs:260-268 | the current snapshot is pushed, then the lines become RestoredLines(code) and the caret is (0, 0) |
| Editor.IC10Editor.SetState | Editor.cs:48-53 | the lines become RestoredLines(snapshot code) and the caret the snapshot's caret; the current snapshot is pushed |
| Editor.IC10Editor.Undo | Editor.cs:77-84 | an empty list changes nothing; otherwise the lines become the head's restored lines, the caret the head's caret, and the list AfterUndo(old list, current snapshot); the list never grows |
| Editor.IC10Editor.DeleteRange | Editor.cs:324-360 | returns whether the range is active; an inactive range changes nothing; otherwise lines and caret become DeleteRangeAsWritten of the old ones, the caret lies inside its line, and one snapshot is pushed |
| Editor.IC10Editor.DeleteAcrossLines | Editor.cs:343-355 | the joined line is written to the caret's line, then the lines after the start line up to the end line are removed; the lines become those of DeleteRangeAsWritten |
| Editor.IC10Editor.RemoveLinesAfter | Editor.cs:350-354 | the descending removal loop leaves the lines up to the first line followed by the lines after the last one; nothing else changes |
| Editor.IC10Editor.DeleteSelectedCode | Editor.cs:362-371 | DeleteRange of the unsorted selection, then the selection is reset when something was deleted |
| Editor.IC10Editor.Paste | Editor.cs:250-254 | the selection is deleted, then the clipboard's text without '\r' is inserted as written |
| Editor.IC10Editor.CutSelection | Editor.cs:388-392 | the clipboard holds SelectedCode, then an active selection is deleted as DeleteSelectedCode does; an inactive one leaves lines, caret, selection and undo list as they were; the scroll flag never changes |
| Editor.IC10Editor.Backspace | Editor.cs:400-421 | an active selection is deleted; otherwise lines and caret become BackspaceAt of the old ones; one snapshot is pushed either way |
| Editor.IC10Editor.RemoveCharBeforeCaret | Editor.cs:406-410 | lines and caret become BackspaceAt of the old ones |
| Editor.IC10Editor.MergeWithPreviousLine | Editor.cs:411-419 | lines and caret become BackspaceAt of the old ones |
| Editor.IC10Editor.Enter | Editor.cs:423-430 | lines and caret become EnterAt of the old ones; one snapshot is pushed; the caret is inside the text |
| Editor.IC10Editor.TypeText | Editor.cs:456-465 | empty input changes nothing; otherwise an active selection is deleted (else a snapshot is pushed), then the input is inserted at the caret as TypeAt does |

## Behaviour of Editor.cs the model keeps

- Of the operations modelled, only `MoveCaret` clamps the caret; the mouse path, which
  is left out, clamps through GetTextPositionFromMouse (Editor.cs:727-729). The State setter assigns the
  snapshot's caret directly, so after Undo the caret column can lie past the end of
  its line. DeleteRange also assigns the caret directly, but to the start of an
  in-bounds range, so it stays inside the text.
- Insert appends the first piece of the code to the end of the caret line and puts the
  other pieces before that line (first and second Findings rows).
- DeleteRange neither sorts its range nor writes to the range's start line (third and
  fourth Findings rows).
- Editor.cs has no redo stack and no word-wise or wrapping caret motion.
- The Enter key does not delete the selection.

## Left out

- Rendering, layout, the caret blink timer, scrolling geometry and mouse hit-testing are
  left out. They are ImGui calls and float pixel arithmetic; only the `scrollToCaret`
  flag is kept.
- Key polling in HandleInput is left out. The model gives each decoded command its own
  method: Backspace, Enter, TypeText, CutSelection (Ctrl+X), Paste, Copy, SelectAll,
  Undo, and CaretUp/Down/Left/Right with their count.
- Formatter calls (`ReplaceLine`, `AddLine`, `RemoveLine`, `ResetCode`) go to a class
  that is not part of this model, and they do not affect the editor's state.
- Window, focus and game-pause handling, `Export`, the motherboard hand-off and
  logging are left out; they are host integration. Patches.cs and Main.cs are not
  part of this model.
- The wall clock is replaced by a `now: int` parameter in milliseconds. The source
  reads the clock twice in PushUndoState; the model uses the same `now` for both
  reads. Timestamps are integers, not doubles.
- The clipboard is a field of the editor, `None` standing for `null`. In the source it
  is the game's global clipboard, shared by every editor and untouched by the
  constructor; the model's constructor starts it at `None`, so a new editor cannot
  paste until Cut or Copy has run.
- Columns and line lengths count characters (Unicode scalar values), while C#'s
  `Length`, `Substring`, `Remove` and `Insert` count UTF-16 code units. The model
  matches the source only on text inside the Basic Multilingual Plane: on a line
  holding a character outside it, the source's columns are larger and a Backspace
  can remove half of a surrogate pair. Line and column numbers are unbounded
  integers, where the source's caret arithmetic (Editor.cs:197-198, 464) is int32.
- `TextPosition` and `TextRange` are not part of this model's source files. They are
  defined from how Editor.cs uses them:
  - an unset position is a separate constructor;
  - a range is true when both ends are set and differ;
  - the constructor leaves the selection unset.
- The source's `if (newLines.Count == 0) return;` in Insert is left out: Split always
  yields at least one piece, so that branch is never taken.
- Editor.IC10Editor.SelectedCode: GetCode reads `Lines` at both ends of the selection
  and throws when an end is unset or outside the text. The model requires both ends set
  and inside the text (SelectionReadable) instead of modelling the exception.
- Editor.IC10Editor.Copy and Editor.IC10Editor.CutSelection: they read SelectedCode, so
  they carry the same requirement; Ctrl+C and Ctrl+X with an unset selection end, which
  throw in the source, are not modelled.
- Editor.IC10Editor.DeleteSelectedCode, Paste, Backspace and TypeText require both ends
  of an active selection inside the text (ActiveSelectionReadable), since DeleteRange
  would throw in `Substring` otherwise.
- Editor.IC10Editor.Backspace requires BackspaceDefined when no selection is active:
  `Remove` throws when the caret column lies past the end of a non-empty line.
- Editor.IC10Editor.Enter and Editor.IC10Editor.TypeText require the caret inside its
  line (CaretInLine): `Substring` and `Insert` throw otherwise.
- Editor.IC10Editor.Paste requires a clipboard that is not null: `Replace` on a null
  clipboard throws.

## Findings

| source | as written | input that shows it | evidently intended | confidence | as-written member | corrected member |
|---|---|---|---|---|---|---|
| Editor.cs:288-296 | Insert appends the first piece of the code to the end of the caret line and inserts the other pieces before that line; the caret moves down and keeps its column | Paste "XY\nZ" with the caret at (0, 3) of "abcdef": the lines become ["Z", "abcdefXY"] | insert at the caret: ["abcXY", "Zdef"] with the caret at (1, 1) | high (not executed) | Edits.InsertMisplacesText | Edits.InsertAtCaretText |
| Editor.cs:48-53 | the State setter restores a snapshot with ClearCode then Insert, so a multi-line snapshot comes back with its first line moved to the end, and its caret can lie past its line | Undo to the code "a\nb" gives the lines ["b", "a"] | the snapshot's code restored exactly | high (not executed) | Edits.RestoreReordersLines | Edits.RestoreAtCaretExact |
| Editor.cs:335-348 | DeleteRange writes the spliced line through CurrentLine, the caret's line, not the start line | Select All on ["ab", "cd"] with the caret on line 1, then Backspace: ["ab"] is left | [""] (the whole code deleted) | high (not executed) | Edits.DeleteRangeWrongLine | Edits.DeleteRangeSortedText |
| Editor.cs:362-364 | DeleteSelectedCode passes the unsorted selection to DeleteRange | a selection dragged backward from (0, 3) to (0, 1) over "abcd", then Backspace: "abcbcd" | "ad" | high (not executed) | Edits.DeleteRangeReversed | Edits.DeleteRangeSortedText |
