/** The editor's edits as functions from the lines and caret before an edit to the
    lines and caret after it. The editor class (module Editor) is proved against
    these; the lemmas here say what each edit does to the joined text.

    Insert and DeleteRange are given twice: as Editor.cs writes them, with the
    inputs that show how they go wrong, and corrected, with the text property the
    editor evidently intends proved about the corrected version. */
module Edits {
  import opened Positions
  import opened TextLines

  /** The buffer's lines together with the caret. */
  datatype TextState = TextState(lines: seq<string>, caret: TextPosition)

  // ---------------------------------------------------------------------------
  // Insert (Editor.cs:282-297) as written

  /** Insert(code) as written: the first piece of the code is appended to the END
      of the caret line, the remaining pieces are inserted BEFORE the caret line,
      and the caret moves down by their number, keeping its column (clamped). */
  function InsertAsWritten(ls: seq<string>, caret: TextPosition, code: string): (r: TextState)
    requires |ls| >= 1 && caret.Pos? && 0 <= caret.line < |ls|
    ensures |r.lines| == |ls| + NewlineCount(code)
    ensures InBounds(r.lines, r.caret)
    ensures r.lines[..caret.line] == ls[..caret.line]
    ensures r.lines[caret.line..caret.line + NewlineCount(code)] == Split(code)[1..]
    ensures r.lines[caret.line + NewlineCount(code)] == ls[caret.line] + Split(code)[0]
    ensures r.lines[caret.line + NewlineCount(code) + 1..] == ls[caret.line + 1..]
    ensures r.caret.line == caret.line + NewlineCount(code)
    ensures 0 <= caret.col <= |ls[caret.line]| ==> r.caret.col == caret.col
  {
    var segs := Split(code);
    var k := caret.line;
    var newLines := ls[..k] + segs[1..] + [ls[k] + segs[0]] + ls[k + 1..];
    assert newLines[k + |segs| - 1] == ls[k] + segs[0];
    TextState(newLines, Clamp(newLines, k + |segs| - 1, caret.col))
  }

  /** The lines the State setter (Editor.cs:48-53) rebuilds from a snapshot's code:
      ClearCode leaves [""] with the caret at (0, 0), then Insert(code) runs. */
  function RestoredLines(code: string): (r: seq<string>)
    ensures |r| == NewlineCount(code) + 1
  {
    InsertAsWritten([""], Pos(0, 0), code).lines
  }

  /** The restored lines are the snapshot's lines rotated: all but the first, then the first. */
  lemma RestoredRotates(code: string)
    ensures RestoredLines(code) == Split(code)[1..] + [Split(code)[0]]
  {
    var segs := Split(code);
    var n := NewlineCount(code);
    var r := InsertAsWritten([""], Pos(0, 0), code).lines;
    assert |r| == n + 1 && |segs| == n + 1;
    assert r[0..n] == segs[1..];
    assert r[n] == "" + segs[0] == segs[0];
    assert r == r[0..n] + [r[n]];
  }

  /** Pasting "XY\nZ" at (0, 3) of "abcdef" puts "XY" at the end of the line, puts
      "Z" on a new line above it, and leaves the caret at column 3 of the edited line. */
  lemma InsertMisplacesText()
    ensures InsertAsWritten(["abcdef"], Pos(0, 3), "XY\nZ") == TextState(["Z", "abcdefXY"], Pos(1, 3))
    ensures Join(InsertAsWritten(["abcdef"], Pos(0, 3), "XY\nZ").lines) != "abcXY\nZdef"
  {
    SplitExample();
    var r := InsertAsWritten(["abcdef"], Pos(0, 3), "XY\nZ");
    assert "abcdef" + "XY" == "abcdefXY";
    assert r.lines == ["Z", "abcdefXY"];
    assert Join(r.lines) == "Z\nabcdefXY";
    assert Join(r.lines)[0] == 'Z';
  }

  lemma SplitExample()
    ensures Split("XY\nZ") == ["XY", "Z"]
  {
    SplitLine("XY", "Z");
    SplitLine("Z", "");
    assert "XY" + "\n" + "Z" == "XY\nZ";
  }

  /** Undo of a two-line snapshot gives back its lines in the wrong order. */
  lemma RestoreReordersLines()
    ensures RestoredLines("a\nb") == ["b", "a"]
    ensures Join(RestoredLines("a\nb")) != "a\nb"
  {
    RestoredRotates("a\nb");
    SplitLine("a", "b");
    SplitLine("b", "");
    assert "a" + "\n" + "b" == "a\nb";
    assert Split("a\nb") == ["a", "b"];
    assert Join(["b", "a"]) == "b\na";
    assert Join(["b", "a"])[0] == 'b';
  }

  /** Undo of a snapshot whose caret sits at the end of its first line puts the
      caret past the end of an empty line. */
  lemma RestoreLeavesCaretPastLine()
    ensures RestoredLines("abc\n") == ["", "abc"]
    ensures !InBounds(RestoredLines("abc\n"), Pos(0, 3))
  {
    RestoredRotates("abc\n");
    SplitLine("abc", "");
    assert "abc" + "\n" + "" == "abc\n";
    assert Split("") == [""];
    var pieces := Split("abc\n");
    assert pieces == ["abc", ""];
    assert RestoredLines("abc\n") == pieces[1..] + [pieces[0]] == ["", "abc"];
  }

  // ---------------------------------------------------------------------------
  // Insert, corrected: the code goes in at the caret

  /** Insert(code) at the caret: the caret line is cut at the caret, the code's
      pieces go in between, and the caret ends after the inserted code. */
  function InsertAtCaret(ls: seq<string>, p: TextPosition, code: string): (r: TextState)
    requires InBounds(ls, p)
    ensures |r.lines| == |ls| + NewlineCount(code)
    ensures InBounds(r.lines, r.caret)
  {
    SpliceEndText(ls, p, p, Split(code));
    TextState(Splice(ls, p, p, Split(code)), SpliceEnd(ls, p, Split(code)))
  }

  /** Inserting at the caret puts the code into the joined text at the caret's
      offset and leaves the caret right after it. */
  lemma InsertAtCaretText(ls: seq<string>, p: TextPosition, code: string)
    requires InBounds(ls, p)
    ensures Offset(ls, p) <= |Join(ls)|
    ensures Join(InsertAtCaret(ls, p, code).lines) == Join(ls)[..Offset(ls, p)] + code + Join(ls)[Offset(ls, p)..]
    ensures Offset(InsertAtCaret(ls, p, code).lines, InsertAtCaret(ls, p, code).caret) == Offset(ls, p) + |code|
  {
    SpliceText(ls, p, p, Split(code));
    SpliceEndText(ls, p, p, Split(code));
    JoinSplit(code);
    Decompose(ls, p);
  }

  /** With the corrected Insert, restoring a snapshot after ClearCode gives back its code exactly. */
  lemma RestoreAtCaretExact(code: string)
    ensures Join(InsertAtCaret([""], Pos(0, 0), code).lines) == code
  {
    var empty: seq<string> := [""];
    assert Join(empty) == "";
    InsertIntoEmpty(empty, Pos(0, 0), code);
  }

  lemma InsertIntoEmpty(ls: seq<string>, p: TextPosition, code: string)
    requires InBounds(ls, p) && Join(ls) == ""
    ensures Join(InsertAtCaret(ls, p, code).lines) == code
  {
    InsertAtCaretText(ls, p, code);
    var t := Join(ls);
    assert t[..Offset(ls, p)] + code + t[Offset(ls, p)..] == code;
  }

  /** The insertion example: "XY\nZ" at (0, 3) of "abcdef". */
  lemma InsertAtCaretExample()
    ensures InsertAtCaret(["abcdef"], Pos(0, 3), "XY\nZ") == TextState(["abcXY", "Zdef"], Pos(1, 1))
  {
    SplitExample();
    var w := Wrap("abc", ["XY", "Z"], "def");
    assert ["XY", "Z"][1..] == ["Z"];
    WrapOne("", "Z", "def");
    assert "" + "Z" + "def" == "Zdef";
    assert "abc" + "XY" == "abcXY";
    assert w == ["abcXY", "Zdef"];
    assert "abcdef"[..3] == "abc" && "abcdef"[3..] == "def";
  }

  /** Where the misplacement does not show: one line of code typed with the caret
      at the end of its line lands where the corrected Insert puts it. */
  lemma InsertAgreesAtLineEnd(ls: seq<string>, p: TextPosition, code: string)
    requires InBounds(ls, p) && p.col == |ls[p.line]| && '\n' !in code
    ensures InsertAsWritten(ls, p, code).lines == InsertAtCaret(ls, p, code).lines
  {
    var k := p.line;
    SplitLine(code, "");
    WrapOne(ls[k][..p.col], code, ls[k][p.col..]);
    assert ls[k][..p.col] == ls[k] && ls[k][p.col..] == "";
    assert ls[k] + code + "" == ls[k] + code;
    assert Split(code)[1..] == [];
  }

  /** A snapshot of a single line is restored exactly. */
  lemma RestoredSingleLine(code: string)
    requires '\n' !in code
    ensures RestoredLines(code) == [code]
    ensures Join(RestoredLines(code)) == code
  {
    RestoredRotates(code);
    SplitLine(code, "");
  }

  // ---------------------------------------------------------------------------
  // DeleteRange (Editor.cs:324-360) as written

  /** DeleteRange(range) on an active range, as written: the head of the start
      line and the tail of the end line are joined and written to the CARET line,
      the lines after the start line up to the end line are removed (from the end
      backward), and the caret goes to the range's start. The range is not sorted. */
  function DeleteRangeAsWritten(ls: seq<string>, caretLine: int, range: TextRange): (r: TextState)
    requires 0 <= caretLine < |ls|
    requires InBounds(ls, range.start) && InBounds(ls, range.end)
    ensures r.caret == range.start
    ensures InBounds(r.lines, r.caret)
    ensures |r.lines| == |ls| - (if range.end.line > range.start.line then range.end.line - range.start.line else 0)
  {
    var s, e := range.start, range.end;
    var written := ls[caretLine := ls[s.line][..s.col] + ls[e.line][e.col..]];
    var lines := if e.line > s.line then written[..s.line + 1] + written[e.line + 1..] else written;
    assert lines[s.line] == written[s.line];
    TextState(lines, s)
  }

  /** With the caret on the start line of an ordered range, DeleteRange as written
      is the splice of an empty line over the range. */
  lemma DeleteRangeOnCaretLineIsSplice(ls: seq<string>, range: TextRange)
    requires InBounds(ls, range.start) && InBounds(ls, range.end)
    requires Before(range.start, range.end)
    ensures DeleteRangeAsWritten(ls, range.start.line, range).lines == Splice(ls, range.start, range.end, [""])
  {
    var s, e := range.start, range.end;
    var joined := ls[s.line][..s.col] + ls[e.line][e.col..];
    var written := ls[s.line := joined];
    WrapOne(ls[s.line][..s.col], "", ls[e.line][e.col..]);
    assert ls[s.line][..s.col] + "" + ls[e.line][e.col..] == joined;
    if e.line > s.line {
      assert written[..s.line + 1] == ls[..s.line] + [joined];
      assert written[e.line + 1..] == ls[e.line + 1..];
    } else {
      assert written == ls[..s.line] + [joined] + ls[e.line + 1..];
    }
  }

  /** With the caret on the start line of an ordered range, DeleteRange joins the
      head of the start line to the tail of the end line, drops the lines between,
      and removes exactly the range's text from the code. */
  lemma DeleteRangeOnCaretLine(ls: seq<string>, range: TextRange)
    requires InBounds(ls, range.start) && InBounds(ls, range.end)
    requires Before(range.start, range.end)
    ensures var r := DeleteRangeAsWritten(ls, range.start.line, range);
      && r.lines[range.start.line] == ls[range.start.line][..range.start.col] + ls[range.end.line][range.end.col..]
      && |r.lines| == |ls| - (range.end.line - range.start.line)
      && Offset(ls, range.start) <= Offset(ls, range.end) <= |Join(ls)|
      && Join(r.lines) == Join(ls)[..Offset(ls, range.start)] + Join(ls)[Offset(ls, range.end)..]
  {
    DeleteRangeOnCaretLineIsSplice(ls, range);
    DeleteSpliceText(ls, range.start, range.end);
  }

  /** Select All with the caret on the second of two lines, then delete: the
      whole text is selected, yet the first line survives. */
  lemma DeleteRangeWrongLine()
    ensures DeleteRangeAsWritten(["ab", "cd"], 1, TextRange(Pos(0, 0), Pos(1, 2))).lines == ["ab"]
  {
    var ls := ["ab", "cd"];
    assert ls[0][..0] + ls[1][2..] == "";
    var written := ls[1 := ""];
    assert written[..1] == ["ab"];
    assert written[2..] == [];
  }

  /** A selection dragged backward is deleted unsorted: its text is duplicated instead of removed. */
  lemma DeleteRangeReversed()
    ensures DeleteRangeAsWritten(["abcd"], 0, TextRange(Pos(0, 3), Pos(0, 1))).lines == ["abcbcd"]
  {
    assert "abcd"[..3] + "abcd"[1..] == "abcbcd";
  }

  // ---------------------------------------------------------------------------
  // DeleteRange, corrected: sort the range, write the start line

  /** DeleteRange(range) on the sorted range, writing the joined line to the start line. */
  function DeleteRangeSorted(ls: seq<string>, range: TextRange): (r: TextState)
    requires InBounds(ls, range.start) && InBounds(ls, range.end)
    ensures r.caret == range.Sorted().start
    ensures InBounds(r.lines, r.caret)
  {
    var t := range.Sorted();
    SpliceEndText(ls, t.start, t.end, [""]);
    TextState(Splice(ls, t.start, t.end, [""]), t.start)
  }

  /** The corrected DeleteRange removes exactly the range's text, whichever way it was dragged. */
  lemma DeleteRangeSortedText(ls: seq<string>, range: TextRange)
    requires InBounds(ls, range.start) && InBounds(ls, range.end)
    ensures var t := range.Sorted();
      && Offset(ls, t.start) <= Offset(ls, t.end) <= |Join(ls)|
      && Join(DeleteRangeSorted(ls, range).lines) == Join(ls)[..Offset(ls, t.start)] + Join(ls)[Offset(ls, t.end)..]
      && Offset(DeleteRangeSorted(ls, range).lines, t.start) == Offset(ls, t.start)
  {
    var t := range.Sorted();
    DeleteSpliceText(ls, t.start, t.end);
  }

  /** Cutting code[a..b] out and pasting it back at a gives the code again. */
  lemma CutPaste(code: string, a: nat, b: nat)
    requires a <= b <= |code|
    ensures (code[..a] + code[b..])[..a] + code[a..b] + (code[..a] + code[b..])[a..] == code
  {
    var d := code[..a] + code[b..];
    assert d[..a] == code[..a];
    assert d[a..] == code[b..];
  }

  /** Deleting a range and inserting its text back at the caret restores the code. */
  lemma DeleteThenInsertRestores(ls: seq<string>, range: TextRange)
    requires InBounds(ls, range.start) && InBounds(ls, range.end)
    ensures var t := range.Sorted();
      var d := DeleteRangeSorted(ls, range);
      Join(InsertAtCaret(d.lines, d.caret, GetCode(ls, t)).lines) == Join(ls)
  {
    var t := range.Sorted();
    var d := DeleteRangeSorted(ls, range);
    var a, b := Offset(ls, t.start), Offset(ls, t.end);
    DeleteSpliceText(ls, t.start, t.end);
    GetCodeIsSlice(ls, t);
    InsertAtCaretText(d.lines, d.caret, GetCode(ls, t));
    CutPaste(Join(ls), a, b);
  }

  /** The deletion example: deleting (0, 3)..(1, 1) of ["abcXY", "Zdef"]. */
  lemma DeleteRangeSortedExample()
    ensures DeleteRangeSorted(["abcXY", "Zdef"], TextRange(Pos(0, 3), Pos(1, 1))) == TextState(["abcdef"], Pos(0, 3))
  {
    var ls := ["abcXY", "Zdef"];
    WrapOne("abc", "", "def");
    assert ls[0][..3] == "abc" && ls[1][1..] == "def";
    assert "abc" + "" + "def" == "abcdef";
    assert Splice(ls, Pos(0, 3), Pos(1, 1), [""]) == [] + ["abcdef"] + [];
  }

  // ---------------------------------------------------------------------------
  // The edits of HandleInput

  /** Enter (Editor.cs:423-430): the caret line is cut at the caret into two lines
      and the caret goes to the start of the second. */
  function EnterAt(ls: seq<string>, p: TextPosition): (r: TextState)
    requires InBounds(ls, p)
    ensures |r.lines| == |ls| + 1
    ensures r.lines[p.line] + r.lines[p.line + 1] == ls[p.line]
    ensures r.lines[..p.line] == ls[..p.line]
    ensures r.lines[p.line + 2..] == ls[p.line + 1..]
    ensures r.caret == Pos(p.line + 1, 0) && InBounds(r.lines, r.caret)
  {
    var k, c := p.line, p.col;
    var lines := ls[..k] + [ls[k][..c], ls[k][c..]] + ls[k + 1..];
    assert lines[k + 2..] == ls[k + 1..];
    assert ls[k] == ls[k][..c] + ls[k][c..];
    TextState(lines, Pos(k + 1, 0))
  }

  /** Enter puts a newline into the code at the caret's offset, and the caret right after it. */
  lemma EnterText(ls: seq<string>, p: TextPosition)
    requires InBounds(ls, p)
    ensures Offset(ls, p) <= |Join(ls)|
    ensures Join(EnterAt(ls, p).lines) == Join(ls)[..Offset(ls, p)] + "\n" + Join(ls)[Offset(ls, p)..]
    ensures Offset(EnterAt(ls, p).lines, EnterAt(ls, p).caret) == Offset(ls, p) + 1
  {
    var k, c := p.line, p.col;
    var mids := ["", ""];
    assert Wrap(ls[k][..c], mids, ls[k][c..]) == [ls[k][..c], ls[k][c..]] by {
      assert Wrap(ls[k][..c], mids, ls[k][c..]) == [ls[k][..c] + ""] + Wrap("", [""], ls[k][c..]);
      assert ls[k][..c] + "" == ls[k][..c];
      assert "" + "" + ls[k][c..] == ls[k][c..];
    }
    assert EnterAt(ls, p).lines == Splice(ls, p, p, mids);
    assert Join(mids) == "\n";
    SpliceText(ls, p, p, mids);
    SpliceEndText(ls, p, p, mids);
    Decompose(ls, p);
  }

  /** Backspace at the start of the line Enter made undoes the Enter. */
  lemma EnterThenBackspace(ls: seq<string>, p: TextPosition)
    requires InBounds(ls, p)
    ensures BackspaceDefined(EnterAt(ls, p).lines, EnterAt(ls, p).caret)
    ensures BackspaceAt(EnterAt(ls, p).lines, EnterAt(ls, p).caret) == TextState(ls, p)
  {
    var k, c := p.line, p.col;
    var e := EnterAt(ls, p);
    var r := BackspaceAt(e.lines, e.caret);
    assert r.lines == e.lines[..k] + [e.lines[k] + e.lines[k + 1]] + e.lines[k + 2..];
    assert r.lines == ls[..k] + [ls[k]] + ls[k + 1..];
    assert ls == ls[..k] + [ls[k]] + ls[k + 1..];
    assert |e.lines[k]| == c;
  }

  /** What Backspace can act on: the C# Remove throws when the caret column lies
      past the end of a non-empty line. */
  predicate BackspaceDefined(ls: seq<string>, p: TextPosition)
  {
    p.Pos? && 0 <= p.line < |ls| && 0 <= p.col && (p.col <= |ls[p.line]| || ls[p.line] == "")
  }

  /** Backspace with nothing selected (Editor.cs:406-420). */
  function BackspaceAt(ls: seq<string>, p: TextPosition): (r: TextState)
    requires BackspaceDefined(ls, p)
    ensures 0 < p.col <= |ls[p.line]| ==>
      && |r.lines| == |ls|
      && r.lines[p.line] == ls[p.line][..p.col - 1] + ls[p.line][p.col..]
      && (forall i :: 0 <= i < |ls| && i != p.line ==> r.lines[i] == ls[i])
      && r.caret == Pos(p.line, p.col - 1)
    ensures p.col == 0 && p.line > 0 ==>
      && |r.lines| == |ls| - 1
      && r.lines[..p.line - 1] == ls[..p.line - 1]
      && r.lines[p.line - 1] == ls[p.line - 1] + ls[p.line]
      && r.lines[p.line..] == ls[p.line + 1..]
      && r.caret == Pos(p.line - 1, |ls[p.line - 1]|)
    ensures (p.col == 0 && p.line == 0) || (p.col > 0 && ls[p.line] == "") ==> r == TextState(ls, p)
    ensures InBounds(ls, p) ==> InBounds(r.lines, r.caret)
    ensures |r.lines| >= 1 && r.caret.Pos? && 0 <= r.caret.line < |r.lines| && 0 <= r.caret.col
  {
    var k, c := p.line, p.col;
    if |ls[k]| > 0 && c > 0 then
      TextState(ls[k := ls[k][..c - 1] + ls[k][c..]], Pos(k, c - 1))
    else if c == 0 && k > 0 then
      var lines := ls[..k - 1] + [ls[k - 1] + ls[k]] + ls[k + 1..];
      assert lines[..k - 1] == ls[..k - 1];
      assert lines[k - 1] == ls[k - 1] + ls[k];
      assert lines[k..] == ls[k + 1..];
      TextState(lines, Pos(k - 1, |ls[k - 1]|))
    else
      TextState(ls, p)
  }

  /** Backspace removes the one character of the code before the caret (the
      newline, at the start of a line) and moves the caret back over it. */
  lemma BackspaceText(ls: seq<string>, p: TextPosition)
    requires InBounds(ls, p) && p != Pos(0, 0)
    ensures 0 < Offset(ls, p) <= |Join(ls)|
    ensures Join(BackspaceAt(ls, p).lines) == Join(ls)[..Offset(ls, p) - 1] + Join(ls)[Offset(ls, p)..]
    ensures InBounds(BackspaceAt(ls, p).lines, BackspaceAt(ls, p).caret)
    ensures Offset(BackspaceAt(ls, p).lines, BackspaceAt(ls, p).caret) == Offset(ls, p) - 1
  {
    var k, c := p.line, p.col;
    var s := if c > 0 then Pos(k, c - 1) else Pos(k - 1, |ls[k - 1]|);
    var r := BackspaceAt(ls, p);
    assert Offset(ls, s) == Offset(ls, p) - 1;
    WrapOne(ls[s.line][..s.col], "", ls[k][c..]);
    assert ls[s.line][..s.col] + "" + ls[k][c..] == ls[s.line][..s.col] + ls[k][c..];
    if c > 0 {
      assert r.lines == Splice(ls, s, p, [""]);
    } else {
      assert ls[k - 1][..|ls[k - 1]|] == ls[k - 1];
      assert ls[k][0..] == ls[k];
      assert r.lines == Splice(ls, s, p, [""]);
    }
    assert r.caret == SpliceEnd(ls, s, [""]);
    SpliceText(ls, s, p, [""]);
    SpliceEndText(ls, s, p, [""]);
    Decompose(ls, s);
    Decompose(ls, p);
  }

  /** Typed text (Editor.cs:463-464): inserted into the caret line at the caret,
      the caret moved past it. */
  function TypeAt(ls: seq<string>, p: TextPosition, input: string): (r: TextState)
    requires InBounds(ls, p)
    ensures |r.lines| == |ls|
    ensures r.lines[p.line] == ls[p.line][..p.col] + input + ls[p.line][p.col..]
    ensures forall i :: 0 <= i < |ls| && i != p.line ==> r.lines[i] == ls[i]
    ensures r.caret == Pos(p.line, p.col + |input|) && InBounds(r.lines, r.caret)
  {
    var k, c := p.line, p.col;
    TextState(ls[k := ls[k][..c] + input + ls[k][c..]], Pos(k, c + |input|))
  }

  /** Typing puts the input into the code at the caret's offset and leaves the caret after it. */
  lemma TypeAtText(ls: seq<string>, p: TextPosition, input: string)
    requires InBounds(ls, p)
    ensures Offset(ls, p) <= |Join(ls)|
    ensures Join(TypeAt(ls, p, input).lines) == Join(ls)[..Offset(ls, p)] + input + Join(ls)[Offset(ls, p)..]
    ensures Offset(TypeAt(ls, p, input).lines, TypeAt(ls, p, input).caret) == Offset(ls, p) + |input|
  {
    var k, c := p.line, p.col;
    var r := TypeAt(ls, p, input);
    assert r.lines == Splice(ls, p, p, [input]);
    assert r.caret == SpliceEnd(ls, p, [input]);
    SpliceText(ls, p, p, [input]);
    SpliceEndText(ls, p, p, [input]);
    Decompose(ls, p);
  }
}
