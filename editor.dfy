/** The IC10Editor class of Editor.cs: the line buffer, caret, selection, undo list
    and clipboard, with the operations that change them. Each method is proved
    against the functions of modules Edits and UndoHistory; the text properties are
    proved about those functions. The three edits of HandleInput (Backspace, Enter,
    typed text) are methods that receive the decoded key or text. */
module Editor {
  import opened Positions
  import opened Optional
  import opened TextLines
  import opened Edits
  import opened UndoHistory

  /** A snapshot the State setter can restore: its caret line is one of the lines
      the code splits into (there is one more of them than newlines), and its
      column is not negative. */
  predicate SnapshotValid(s: EditorState)
  {
    s.caret.Pos? && 0 <= s.caret.line <= NewlineCount(s.code) && 0 <= s.caret.col
  }

  /** An undo list the editor can hold: at most MaxUndo restorable snapshots. */
  predicate UndoListValid(list: seq<EditorState>)
  {
    |list| <= MaxUndo && forall i :: 0 <= i < |list| ==> SnapshotValid(list[i])
  }

  lemma UndoListTail(list: seq<EditorState>)
    requires UndoListValid(list) && |list| > 0
    ensures UndoListValid(list[1..])
  {
    assert forall i :: 0 < i < |list| ==> list[1..][i - 1] == list[i];
  }

  /** Removing line i from the lines kept so far by the loop of DeleteRange. */
  lemma DropLine(w: seq<string>, i: nat, e: nat)
    requires i <= e < |w|
    ensures var x := w[..i + 1] + w[e + 1..]; x[..i] + x[i + 1..] == w[..i] + w[e + 1..]
  {
    var x := w[..i + 1] + w[e + 1..];
    assert x[..i] == w[..i];
    assert x[i + 1..] == w[e + 1..];
  }

  /** clipboard.Replace("\r", string.Empty): the text without its carriage returns.
      Every other character is kept as often as it occurs; the order is kept too,
      as RemoveCarriageReturnsAppend and RemoveCarriageReturnsChar state. */
  function RemoveCarriageReturns(s: string): (r: string)
    ensures '\r' !in r
    ensures multiset(r) == multiset(s)['\r' := 0]
    ensures |r| <= |s|
    ensures '\r' !in s ==> r == s
  {
    if |s| == 0 then ""
    else
      var rest := RemoveCarriageReturns(s[1..]);
      assert s == [s[0]] + s[1..];
      if s[0] == '\r' then rest else [s[0]] + rest
  }

  /** Removing carriage returns works piece by piece: the result for a + b is the
      result for a followed by the result for b. */
  lemma {:induction false} RemoveCarriageReturnsAppend(a: string, b: string)
    ensures RemoveCarriageReturns(a + b) == RemoveCarriageReturns(a) + RemoveCarriageReturns(b)
    decreases |a|
  {
    if |a| == 0 {
      assert a + b == b;
    } else {
      assert (a + b)[0] == a[0];
      assert (a + b)[1..] == a[1..] + b;
      RemoveCarriageReturnsAppend(a[1..], b);
    }
  }

  /** On one character: a carriage return is dropped, any other character kept. */
  lemma RemoveCarriageReturnsChar(c: char)
    ensures RemoveCarriageReturns([c]) == if c == '\r' then "" else [c]
  {
    assert [c][1..] == "";
  }

  class IC10Editor {
    var lines: seq<string>
    var caret: TextPosition
    var selection: TextRange
    /** The undo snapshots, newest first. */
    var undoList: seq<EditorState>
    var scrollToCaret: bool
    /** The game's clipboard; None stands for null. */
    var clipboard: Option<string>

    /** At least one line, the caret on one of them with a column that is not
        negative, and at most MaxUndo restorable snapshots. The caret column may lie
        past the end of its line: the State setter, and so Undo, can leave it there. */
    ghost predicate Valid()
      reads this
    {
      && |lines| >= 1
      && caret.Pos? && 0 <= caret.line < |lines| && 0 <= caret.col
      && UndoListValid(undoList)
    }

    /** The caret lies inside its line. */
    predicate CaretInLine()
      reads this
    {
      InBounds(lines, caret)
    }

    /** Both ends of the selection are set and lie inside the text, so GetCode can
        read it; on an unset end it would index outside the lines and throw. */
    predicate SelectionReadable()
      reads this
    {
      InBounds(lines, selection.start) && InBounds(lines, selection.end)
    }

    /** Both ends of an active selection lie inside the text: DeleteRange reads the
        range only when it is active. */
    predicate ActiveSelectionReadable()
      reads this
    {
      selection.IsActive() ==> InBounds(lines, selection.start) && InBounds(lines, selection.end)
    }

    /** The constructor (Editor.cs:24-33): one empty line, the caret at its start. */
    constructor()
      ensures Valid() && CaretInLine()
      ensures lines == [""] && caret == Pos(0, 0)
      ensures selection == NoRange && undoList == [] && !scrollToCaret && clipboard == None
    {
      lines := [""];
      caret := Pos(0, 0);
      selection := NoRange;
      undoList := [];
      scrollToCaret := false;
      clipboard := None;
    }

    /** The code: the lines joined with newlines. */
    function Code(): (r: string)
      reads this
      requires |lines| >= 1
      ensures NewlineCount(r) >= |lines| - 1
    {
      SplitJoinLength(lines);
      Join(lines)
    }

    /** The State getter: a snapshot of the code and caret taken at time now. */
    function State(now: int): (r: EditorState)
      reads this
      requires Valid()
      ensures SnapshotValid(r)
      ensures r.caret == caret && r.timestamp == now
    {
      SplitJoinLength(lines);
      EditorState(Code(), caret, now)
    }

    /** PushUndoState (Editor.cs:59-75) at time now. */
    method PushUndoState(now: int)
      requires Valid()
      modifies this
      ensures Valid()
      ensures undoList == Pushed(old(undoList), old(State(now)))
      ensures lines == old(lines) && caret == old(caret) && selection == old(selection)
      ensures scrollToCaret == old(scrollToCaret) && clipboard == old(clipboard)
    {
      var state := State(now);
      if |undoList| > 0 {
        var first := undoList[0];
        if Coalesces(first, state) {
          undoList := undoList[1..];
        }
      }
      undoList := [State(now)] + undoList;
      ghost var full := undoList;
      while |undoList| > MaxUndo
        invariant 1 <= |undoList| <= |full|
        invariant undoList == full[..|undoList|]
        invariant |undoList| >= (if |full| <= MaxUndo then |full| else MaxUndo)
        invariant lines == old(lines) && caret == old(caret) && selection == old(selection)
        invariant scrollToCaret == old(scrollToCaret) && clipboard == old(clipboard)
        decreases |undoList|
      {
        undoList := undoList[..|undoList| - 1];
      }
    }

    /** The CurrentLine setter (Editor.cs:92-101): replaces the caret's line. */
    method SetCurrentLine(value: string)
      requires caret.Pos? && 0 <= caret.line < |lines|
      modifies this
      ensures lines == old(lines)[old(caret).line := value]
      ensures caret == old(caret) && selection == old(selection) && undoList == old(undoList)
      ensures scrollToCaret == old(scrollToCaret) && clipboard == old(clipboard)
    {
      if value == lines[caret.line] {
        return;
      }
      lines := lines[caret.line := value];
    }

    /** MoveCaret (Editor.cs:186-228): the target, relative or absolute, clamped into
        the text; the selection reset (a selecting move sets only its end). */
    method MoveCaret(horizontal: int, vertical: int, isRelative: bool, isSelecting: bool)
      requires Valid()
      modifies this
      ensures Valid() && CaretInLine()
      ensures caret == Clamp(lines,
        if isRelative then old(caret).line + vertical else vertical,
        if isRelative then old(caret).col + horizontal else horizontal)
      ensures selection == if isSelecting && caret != old(caret) then TextRange(Unset, caret) else NoRange
      ensures !selection.IsActive()
      ensures scrollToCaret
      ensures lines == old(lines) && undoList == old(undoList) && clipboard == old(clipboard)
    {
      scrollToCaret := true;
      selection := NoRange;
      var newLine, newCol := caret.line, caret.col;
      if isRelative {
        newLine := newLine + vertical;
        newCol := newCol + horizontal;
      } else {
        newLine := vertical;
        newCol := horizontal;
      }
      if newLine < 0 {
        newLine := 0;
      }
      if newLine >= |lines| {
        newLine := |lines| - 1;
      }
      if newCol < 0 {
        newCol := 0;
      }
      if newCol > |lines[newLine]| {
        newCol := |lines[newLine]|;
      }
      var newPos := Pos(newLine, newCol);
      if caret == newPos {
        return;
      }
      if isSelecting {
        selection := selection.(end := newPos);
      } else {
        selection := NoRange;
      }
      caret := newPos;
    }

    /** CaretUp (Editor.cs:166-169). */
    method CaretUp(numLines: int)
      requires Valid()
      modifies this
      ensures Valid() && CaretInLine()
      ensures caret == Clamp(lines, old(caret).line - numLines, old(caret).col)
      ensures selection == NoRange && scrollToCaret
      ensures lines == old(lines) && undoList == old(undoList) && clipboard == old(clipboard)
    {
      MoveCaret(0, -numLines, true, false);
    }

    /** CaretDown (Editor.cs:171-174). */
    method CaretDown(numLines: int)
      requires Valid()
      modifies this
      ensures Valid() && CaretInLine()
      ensures caret == Clamp(lines, old(caret).line + numLines, old(caret).col)
      ensures selection == NoRange && scrollToCaret
      ensures lines == old(lines) && undoList == old(undoList) && clipboard == old(clipboard)
    {
      MoveCaret(0, numLines, true, false);
    }

    /** CaretLeft (Editor.cs:176-179). */
    method CaretLeft(numCols: int)
      requires Valid()
      modifies this
      ensures Valid() && CaretInLine()
      ensures caret == Clamp(lines, old(caret).line, old(caret).col - numCols)
      ensures selection == NoRange && scrollToCaret
      ensures lines == old(lines) && undoList == old(undoList) && clipboard == old(clipboard)
    {
      MoveCaret(-numCols, 0, true, false);
    }

    /** CaretRight (Editor.cs:181-184). */
    method CaretRight(numCols: int)
      requires Valid()
      modifies this
      ensures Valid() && CaretInLine()
      ensures caret == Clamp(lines, old(caret).line, old(caret).col + numCols)
      ensures selection == NoRange && scrollToCaret
      ensures lines == old(lines) && undoList == old(undoList) && clipboard == old(clipboard)
    {
      MoveCaret(numCols, 0, true, false);
    }

    /** CaretToEndOfLine (Editor.cs:156-159): the column set directly, no clamping or scrolling. */
    method CaretToEndOfLine()
      requires Valid()
      modifies this
      ensures Valid() && CaretInLine()
      ensures lines == old(lines) && selection == old(selection) && undoList == old(undoList)
      ensures caret == Pos(old(caret).line, |lines[old(caret).line]|)
      ensures scrollToCaret == old(scrollToCaret) && clipboard == old(clipboard)
    {
      caret := caret.(col := |lines[caret.line]|);
    }

    /** CaretToStartOfLine (Editor.cs:161-164). */
    method CaretToStartOfLine()
      requires Valid()
      modifies this
      ensures Valid() && CaretInLine()
      ensures caret == Pos(old(caret).line, 0)
      ensures lines == old(lines) && selection == old(selection) && undoList == old(undoList)
      ensures scrollToCaret == old(scrollToCaret) && clipboard == old(clipboard)
    {
      caret := caret.(col := 0);
    }

    /** HaveSelection (Editor.cs:304): the selection converted to bool. */
    predicate HaveSelection()
      reads this
    {
      selection.IsActive()
    }

    /** SelectedCode (Editor.cs:322): GetCode of the sorted selection, which is the
        slice of the code between the offsets of the selection's two ends. It is
        not empty exactly when there is a selection. */
    function SelectedCode(): (r: string)
      reads this
      requires SelectionReadable()
      ensures var t := selection.Sorted();
        && Offset(lines, t.start) <= Offset(lines, t.end) <= |Join(lines)|
        && r == Join(lines)[Offset(lines, t.start)..Offset(lines, t.end)]
      ensures |r| > 0 <==> HaveSelection()
    {
      var t := selection.Sorted();
      GetCodeIsSlice(lines, t);
      if selection.IsActive() then
        ActiveRangeNonEmpty(lines, selection);
        GetCode(lines, t)
      else
        GetCode(lines, t)
    }

    /** SelectAll (Editor.cs:230-234): the selection spans the whole code. */
    method SelectAll()
      requires Valid()
      modifies this
      ensures Valid() && SelectionReadable()
      ensures selection == TextRange(Pos(0, 0), Pos(|lines| - 1, |lines[|lines| - 1]|))
      ensures SelectedCode() == Join(lines)
      ensures lines == old(lines) && caret == old(caret) && undoList == old(undoList)
      ensures scrollToCaret == old(scrollToCaret) && clipboard == old(clipboard)
    {
      selection := TextRange(Pos(0, 0), Pos(|lines| - 1, |lines[|lines| - 1]|));
      GetCodeWhole(lines);
    }

    /** Cut (Editor.cs:236-239): copies the whole code and deletes nothing. */
    method Cut()
      requires Valid()
      modifies this
      ensures clipboard == Some(Join(lines))
      ensures lines == old(lines) && caret == old(caret) && selection == old(selection)
      ensures undoList == old(undoList) && scrollToCaret == old(scrollToCaret)
    {
      clipboard := Some(Join(lines));
    }

    /** Copy (Editor.cs:241-248): the selected code goes to the clipboard. GetCode
        never yields null, so the source's null test always passes. */
    method Copy()
      requires SelectionReadable()
      modifies this
      ensures clipboard == Some(old(SelectedCode()))
      ensures lines == old(lines) && caret == old(caret) && selection == old(selection)
      ensures undoList == old(undoList) && scrollToCaret == old(scrollToCaret)
    {
      var code := SelectedCode();
      clipboard := Some(code);
    }

    /** ClearCode (Editor.cs:270-280): one empty line, the caret at its start. */
    method ClearCode(pushUndo: bool, now: int)
      requires Valid()
      modifies this
      ensures Valid() && CaretInLine()
      ensures lines == [""] && caret == Pos(0, 0) && selection == NoRange
      ensures undoList == if pushUndo then Pushed(old(undoList), old(State(now))) else old(undoList)
      ensures scrollToCaret == old(scrollToCaret) && clipboard == old(clipboard)
    {
      if pushUndo {
        PushUndoState(now);
      }
      lines := [""];
      caret := Pos(0, 0);
      selection := NoRange;
    }

    /** Insert (Editor.cs:282-297), as written. Split never returns an empty list,
        so the source's early return for one cannot happen. */
    method Insert(code: string)
      requires Valid()
      modifies this
      ensures Valid() && CaretInLine()
      ensures TextState(lines, caret) == InsertAsWritten(old(lines), old(caret), code)
      ensures selection == NoRange && scrollToCaret
      ensures undoList == old(undoList) && clipboard == old(clipboard)
    {
      var segs := Split(code);
      SetCurrentLine(lines[caret.line] + segs[0]);
      var rest := segs[1..];
      lines := lines[..caret.line] + rest + lines[caret.line..];
      assert lines == InsertAsWritten(old(lines), old(caret), code).lines;
      MoveCaret(0, |rest|, true, false);
    }

    /** SetSourceCode (Editor.cs:260-268): the buffer replaced by code, the caret at (0, 0). */
    method SetSourceCode(code: string, now: int)
      requires Valid()
      modifies this
      ensures Valid() && CaretInLine()
      ensures lines == RestoredLines(code) && caret == Pos(0, 0)
      ensures undoList == Pushed(old(undoList), old(State(now)))
      ensures selection == NoRange && scrollToCaret && clipboard == old(clipboard)
    {
      ClearCode(true, now);
      Insert(code);
      caret := Pos(0, 0);
    }

    /** The State setter (Editor.cs:48-53): ClearCode (which pushes the current
        snapshot), Insert of the snapshot's code, then its caret, unclamped. */
    method SetState(value: EditorState, now: int)
      requires Valid() && SnapshotValid(value)
      modifies this
      ensures Valid()
      ensures lines == RestoredLines(value.code) && caret == value.caret
      ensures undoList == Pushed(old(undoList), old(State(now)))
      ensures selection == NoRange && scrollToCaret && clipboard == old(clipboard)
    {
      ClearCode(true, now);
      InsertIntoCleared(value.code);
      caret := value.caret;
    }

    /** The Insert step of the State setter, on the buffer ClearCode left. */
    method InsertIntoCleared(code: string)
      requires Valid() && lines == [""] && caret == Pos(0, 0)
      modifies this
      ensures Valid() && lines == RestoredLines(code) && |lines| == NewlineCount(code) + 1
      ensures undoList == old(undoList) && clipboard == old(clipboard)
      ensures selection == NoRange && scrollToCaret
    {
      Insert(code);
    }

    /** Undo (Editor.cs:77-84): restores the head snapshot through the State setter,
        then drops the head of the list, which by then is the snapshot the setter pushed. */
    method Undo(now: int)
      requires Valid()
      modifies this
      ensures Valid()
      ensures |old(undoList)| == 0 ==>
        && lines == old(lines) && caret == old(caret) && selection == old(selection)
        && undoList == old(undoList) && scrollToCaret == old(scrollToCaret)
      ensures |old(undoList)| > 0 ==>
        && lines == RestoredLines(old(undoList)[0].code)
        && caret == old(undoList)[0].caret
        && undoList == AfterUndo(old(undoList), old(State(now)))
        && selection == NoRange && scrollToCaret
      ensures |undoList| <= |old(undoList)| && clipboard == old(clipboard)
    {
      if |undoList| > 0 {
        ghost var list, current := undoList, State(now);
        var value := undoList[0];
        assert SnapshotValid(value);
        SetState(value, now);
        assert undoList == Pushed(list, current);
        UndoListTail(undoList);
        undoList := undoList[1..];
        assert undoList == AfterUndo(list, current);
      }
    }

    /** DeleteRange (Editor.cs:324-360), as written: nothing happens for a range
        that is not active; otherwise the undo snapshot is pushed, the spliced line
        is written to the caret's line, the lines after the start line up to the end
        line are removed from the last one backward, and the caret goes to the
        range's start. */
    method DeleteRange(range: TextRange, now: int) returns (deleted: bool)
      requires Valid()
      requires range.IsActive() ==> InBounds(lines, range.start) && InBounds(lines, range.end)
      modifies this
      ensures Valid()
      ensures deleted == range.IsActive()
      ensures !deleted ==>
        && lines == old(lines) && caret == old(caret) && undoList == old(undoList)
      ensures deleted ==>
        && TextState(lines, caret) == DeleteRangeAsWritten(old(lines), old(caret).line, range)
        && undoList == Pushed(old(undoList), old(State(now)))
        && CaretInLine()
      ensures selection == old(selection) && scrollToCaret == old(scrollToCaret)
      ensures clipboard == old(clipboard)
    {
      if !range.IsActive() {
        return false;
      }
      ghost var target := DeleteRangeAsWritten(lines, caret.line, range);
      PushUndoState(now);
      var start, end := range.start, range.end;
      if start.line == end.line {
        var line := lines[start.line];
        SetCurrentLine(line[..start.col] + line[end.col..]);
      } else {
        DeleteAcrossLines(start, end);
      }
      assert lines == target.lines;
      caret := start;
      assert InBounds(lines, caret);
      return true;
    }

    /** The multi-line case of DeleteRange (Editor.cs:343-355): the spliced line
        written to the caret's line, then the lines after the start line up to the
        end line removed, the last first. */
    method DeleteAcrossLines(start: TextPosition, end: TextPosition)
      requires caret.Pos? && 0 <= caret.line < |lines|
      requires InBounds(lines, start) && InBounds(lines, end) && start.line != end.line
      modifies this
      ensures lines == DeleteRangeAsWritten(old(lines), old(caret).line, TextRange(start, end)).lines
      ensures caret == old(caret) && selection == old(selection) && undoList == old(undoList)
      ensures scrollToCaret == old(scrollToCaret) && clipboard == old(clipboard)
    {
      var firstLine, lastLine := lines[start.line], lines[end.line];
      SetCurrentLine(firstLine[..start.col] + lastLine[end.col..]);
      if start.line < end.line {
        RemoveLinesAfter(start.line, end.line);
      }
    }

    /** The removal loop of DeleteRange (Editor.cs:350-354): the lines after line
        first up to line last removed, the last one first. */
    method RemoveLinesAfter(first: nat, last: nat)
      requires first < last < |lines|
      modifies this
      ensures lines == old(lines)[..first + 1] + old(lines)[last + 1..]
      ensures caret == old(caret) && selection == old(selection) && undoList == old(undoList)
      ensures scrollToCaret == old(scrollToCaret) && clipboard == old(clipboard)
    {
      var i := last;
      while i > first
        invariant first <= i <= last
        invariant lines == old(lines)[..i + 1] + old(lines)[last + 1..]
        invariant caret == old(caret) && selection == old(selection) && undoList == old(undoList)
        invariant scrollToCaret == old(scrollToCaret) && clipboard == old(clipboard)
        decreases i
      {
        DropLine(old(lines), i, last);
        lines := lines[..i] + lines[i + 1..];
        i := i - 1;
      }
      assert old(lines)[..last + 1] + old(lines)[last + 1..] == old(lines);
    }

    /** DeleteSelectedCode (Editor.cs:362-371): DeleteRange of the selection (not
        sorted), then the selection reset when something was deleted. */
    method DeleteSelectedCode(now: int) returns (deleted: bool)
      requires Valid() && ActiveSelectionReadable()
      modifies this
      ensures Valid()
      ensures deleted == old(selection).IsActive()
      ensures !deleted ==>
        && lines == old(lines) && caret == old(caret) && undoList == old(undoList)
        && selection == old(selection)
      ensures deleted ==>
        && TextState(lines, caret) == DeleteRangeAsWritten(old(lines), old(caret).line, old(selection))
        && undoList == Pushed(old(undoList), old(State(now)))
        && selection == NoRange
      ensures scrollToCaret == old(scrollToCaret) && clipboard == old(clipboard)
    {
      deleted := DeleteRange(selection, now);
      if deleted {
        selection := NoRange;
      }
    }

    /** Paste (Editor.cs:250-254): the selection deleted, then the clipboard's text
        without carriage returns inserted. A null clipboard would throw. */
    method Paste(now: int)
      requires Valid() && ActiveSelectionReadable() && clipboard.Some?
      modifies this
      ensures Valid() && CaretInLine()
      ensures var mid := if old(selection).IsActive()
          then DeleteRangeAsWritten(old(lines), old(caret).line, old(selection))
          else TextState(old(lines), old(caret));
        TextState(lines, caret) == InsertAsWritten(mid.lines, mid.caret, RemoveCarriageReturns(old(clipboard).value))
      ensures old(selection).IsActive() ==> undoList == Pushed(old(undoList), old(State(now)))
      ensures !old(selection).IsActive() ==> undoList == old(undoList)
      ensures selection == NoRange && scrollToCaret && clipboard == old(clipboard)
    {
      var deleted := DeleteSelectedCode(now);
      Insert(RemoveCarriageReturns(clipboard.value));
    }

    /** Ctrl+X (Editor.cs:388-392): the selected code goes to the clipboard, then
        the selection is deleted. */
    method CutSelection(now: int)
      requires Valid() && SelectionReadable()
      modifies this
      ensures Valid()
      ensures clipboard == Some(old(SelectedCode()))
      ensures old(selection).IsActive() ==>
        && TextState(lines, caret) == DeleteRangeAsWritten(old(lines), old(caret).line, old(selection))
        && undoList == Pushed(old(undoList), old(State(now)))
        && selection == NoRange
      ensures !old(selection).IsActive() ==>
        && lines == old(lines) && caret == old(caret) && undoList == old(undoList)
        && selection == old(selection)
      ensures scrollToCaret == old(scrollToCaret)
    {
      clipboard := Some(SelectedCode());
      var deleted := DeleteSelectedCode(now);
    }

    /** The Backspace key (Editor.cs:400-421): an active selection is deleted;
        otherwise the undo snapshot is pushed and the character before the caret
        is removed, or the caret line merged onto the line above. */
    method Backspace(now: int)
      requires Valid() && ActiveSelectionReadable()
      requires !selection.IsActive() ==> BackspaceDefined(lines, caret)
      modifies this
      ensures Valid()
      ensures old(selection).IsActive() ==>
        && TextState(lines, caret) == DeleteRangeAsWritten(old(lines), old(caret).line, old(selection))
        && selection == NoRange
      ensures !old(selection).IsActive() ==>
        && TextState(lines, caret) == BackspaceAt(old(lines), old(caret))
        && selection == old(selection)
      ensures undoList == Pushed(old(undoList), old(State(now)))
      ensures scrollToCaret == old(scrollToCaret) && clipboard == old(clipboard)
    {
      ghost var before := State(now);
      var deleted := DeleteSelectedCode(now);
      if deleted {
        return;
      }
      assert State(now) == before;
      PushUndoState(now);
      if |lines[caret.line]| > 0 && caret.col > 0 {
        RemoveCharBeforeCaret();
      } else if caret.col == 0 && caret.line > 0 {
        MergeWithPreviousLine();
      }
    }

    /** Backspace inside a line (Editor.cs:406-410): the character before the caret removed. */
    method RemoveCharBeforeCaret()
      requires Valid() && 0 < caret.col <= |lines[caret.line]|
      modifies this
      ensures Valid()
      ensures TextState(lines, caret) == BackspaceAt(old(lines), old(caret))
      ensures selection == old(selection) && undoList == old(undoList)
      ensures scrollToCaret == old(scrollToCaret) && clipboard == old(clipboard)
    {
      var line := lines[caret.line];
      SetCurrentLine(line[..caret.col - 1] + line[caret.col..]);
      caret := caret.(col := caret.col - 1);
    }

    /** Backspace at the start of a line (Editor.cs:411-419): the line merged onto
        the one above, the caret at the old end of that line. */
    method MergeWithPreviousLine()
      requires Valid() && caret.col == 0 && caret.line > 0
      modifies this
      ensures Valid()
      ensures TextState(lines, caret) == BackspaceAt(old(lines), old(caret))
      ensures selection == old(selection) && undoList == old(undoList)
      ensures scrollToCaret == old(scrollToCaret) && clipboard == old(clipboard)
    {
      var prevLineLength := |lines[caret.line - 1]|;
      SetCurrentLine(lines[caret.line - 1] + lines[caret.line]);
      lines := lines[..caret.line - 1] + lines[caret.line..];
      caret := caret.(line := caret.line - 1);
      caret := caret.(col := prevLineLength);
    }

    /** The Enter key (Editor.cs:423-430): the caret line split at the caret, the
        caret moved to the start of the new line. */
    method Enter(now: int)
      requires Valid() && CaretInLine()
      modifies this
      ensures Valid() && CaretInLine()
      ensures TextState(lines, caret) == EnterAt(old(lines), old(caret))
      ensures undoList == Pushed(old(undoList), old(State(now)))
      ensures selection == NoRange && scrollToCaret && clipboard == old(clipboard)
    {
      PushUndoState(now);
      ghost var target := EnterAt(lines, caret);
      var newLine := lines[caret.line][caret.col..];
      SetCurrentLine(lines[caret.line][..caret.col]);
      lines := lines[..caret.line + 1] + [newLine] + lines[caret.line + 1..];
      assert lines == target.lines && InBounds(lines, target.caret);
      MoveCaret(0, caret.line + 1, false, false);
      assert caret == target.caret;
    }

    /** Typed text (Editor.cs:456-465): for non-empty input, the selection is
        deleted (or else the undo snapshot pushed), then the input is inserted into
        the caret line at the caret and the caret moved past it. */
    method TypeText(input: string, now: int)
      requires Valid() && ActiveSelectionReadable()
      requires |input| > 0 && !selection.IsActive() ==> CaretInLine()
      modifies this
      ensures Valid()
      ensures |input| == 0 ==>
        && lines == old(lines) && caret == old(caret) && selection == old(selection)
        && undoList == old(undoList)
      ensures |input| > 0 ==>
        var mid := if old(selection).IsActive()
          then DeleteRangeAsWritten(old(lines), old(caret).line, old(selection))
          else TextState(old(lines), old(caret));
        && InBounds(mid.lines, mid.caret)
        && TextState(lines, caret) == TypeAt(mid.lines, mid.caret, input)
        && undoList == Pushed(old(undoList), old(State(now)))
        && selection == if old(selection).IsActive() then NoRange else old(selection)
      ensures scrollToCaret == old(scrollToCaret) && clipboard == old(clipboard)
    {
      if |input| > 0 {
        var deleted := DeleteSelectedCode(now);
        if !deleted {
          PushUndoState(now);
        }
        SetCurrentLine(lines[caret.line][..caret.col] + input + lines[caret.line][caret.col..]);
        caret := caret.(col := caret.col + |input|);
      }
    }
  }
}
