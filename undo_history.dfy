/** The editor's undo list (Editor.cs:12-17, 56-84): snapshots of the code and caret,
    newest first, with the 500 ms / same-code coalescing rule and the cap of 100.
    The editor class's PushUndoState and Undo are proved against Pushed and AfterUndo. */
module UndoHistory {
  import opened Positions

  /** The most snapshots the list keeps. */
  const MaxUndo := 100
  /** A snapshot taken less than this many milliseconds after the head replaces it. */
  const CoalesceWindow := 500

  /** A snapshot of the editor: its code, caret and the time it was taken (in ms). */
  datatype EditorState = EditorState(code: string, caret: TextPosition, timestamp: int)

  /** The merge test of PushUndoState: the new snapshot comes within the window
      after the head, or holds the same code. */
  predicate Coalesces(head: EditorState, s: EditorState)
  {
    s.timestamp < head.timestamp + CoalesceWindow || s.code == head.code
  }

  /** The first n entries of a list (all of it when shorter). */
  function Truncated<T>(xs: seq<T>, n: nat): (r: seq<T>)
    ensures |r| == if |xs| <= n then |xs| else n
    ensures r == xs[..|r|]
  {
    if |xs| <= n then xs else xs[..n]
  }

  /** The undo list after PushUndoState: the head is dropped when the new snapshot
      coalesces with it, the snapshot is added at the front, and the list is cut
      back to MaxUndo entries from the end. */
  function Pushed(list: seq<EditorState>, s: EditorState): (r: seq<EditorState>)
    ensures 1 <= |r| <= MaxUndo
    ensures r[0] == s
    ensures |list| > 0 && Coalesces(list[0], s) ==>
      |r| <= |list| && r[1..] == list[1..|r|] && (|list| <= MaxUndo ==> |r| == |list|)
    ensures !(|list| > 0 && Coalesces(list[0], s)) ==>
      |r| == (if |list| + 1 <= MaxUndo then |list| + 1 else MaxUndo) && r[1..] == list[..|r| - 1]
  {
    var kept := if |list| > 0 && Coalesces(list[0], s) then list[1..] else list;
    var r := Truncated([s] + kept, MaxUndo);
    assert r == ([s] + kept)[..|r|];
    assert r[1..] == kept[..|r| - 1];
    assert |list| > 0 && Coalesces(list[0], s) ==> kept[..|r| - 1] == list[1..|r|];
    r
  }

  /** The undo list after Undo on a non-empty list: the State setter pushes the
      current snapshot (through ClearCode), and RemoveFirst then drops the head,
      which is that pushed snapshot, not the one being restored. When the current
      snapshot does not coalesce with the head, the restored snapshot stays at the
      head and a second Undo restores it again. */
  function AfterUndo(list: seq<EditorState>, current: EditorState): (r: seq<EditorState>)
    requires 0 < |list| <= MaxUndo
    ensures |r| <= |list|
    ensures Coalesces(list[0], current) ==> r == list[1..]
    ensures !Coalesces(list[0], current) ==>
      r == list[..if |list| < MaxUndo then |list| else MaxUndo - 1] && r[0] == list[0]
  {
    Pushed(list, current)[1..]
  }

  /** The list in reverse order. */
  function Reversed<T>(xs: seq<T>): (r: seq<T>)
    ensures |r| == |xs|
    ensures forall i :: 0 <= i < |xs| ==> r[i] == xs[|xs| - 1 - i]
  {
    if |xs| == 0 then [] else Reversed(xs[1..]) + [xs[0]]
  }

  /** The undo list after PushUndoState has run once for each snapshot, in order. */
  function PushAll(list: seq<EditorState>, ss: seq<EditorState>): (r: seq<EditorState>)
    ensures |ss| > 0 ==> 1 <= |r| <= MaxUndo && r[0] == ss[|ss| - 1]
    ensures |ss| == 0 ==> r == list
    decreases |ss|
  {
    if |ss| == 0 then list else PushAll(Pushed(list, ss[0]), ss[1..])
  }

  /** No two consecutive snapshots of ss coalesce, and the first does not
      coalesce with the list's head. */
  predicate Separate(list: seq<EditorState>, ss: seq<EditorState>)
  {
    && (|list| > 0 && |ss| > 0 ==> !Coalesces(list[0], ss[0]))
    && (forall i :: 0 < i < |ss| ==> !Coalesces(ss[i - 1], ss[i]))
  }

  lemma {:induction false} TruncatedTwice<T>(x: seq<T>, y: seq<T>, n: nat)
    ensures Truncated(x + Truncated(y, n), n) == Truncated(x + y, n)
  {
    var t := Truncated(y, n);
    var a, b := Truncated(x + t, n), Truncated(x + y, n);
    assert |a| == |b|;
    forall i | 0 <= i < |a|
      ensures a[i] == b[i]
    {
      if i >= |x| {
        assert a[i] == t[i - |x|];
      }
    }
  }

  /** Snapshots taken far enough apart each get their own entry: the list is the
      snapshots newest first followed by the old list, cut back to MaxUndo. */
  lemma {:induction false} PushAllSeparate(list: seq<EditorState>, ss: seq<EditorState>)
    requires |list| <= MaxUndo && Separate(list, ss)
    ensures PushAll(list, ss) == Truncated(Reversed(ss) + list, MaxUndo)
    decreases |ss|
  {
    if |ss| == 0 {
      assert Reversed(ss) + list == list;
    } else {
      var next := Pushed(list, ss[0]);
      assert next == Truncated([ss[0]] + list, MaxUndo);
      assert Separate(next, ss[1..]) by {
        forall i | 0 < i < |ss[1..]|
          ensures !Coalesces(ss[1..][i - 1], ss[1..][i])
        {
          assert ss[1..][i - 1] == ss[i] && ss[1..][i] == ss[i + 1];
        }
        if |ss| > 1 {
          assert !Coalesces(ss[0], ss[1]);
        }
      }
      PushAllSeparate(next, ss[1..]);
      TruncatedTwice(Reversed(ss[1..]), [ss[0]] + list, MaxUndo);
      assert Reversed(ss) == Reversed(ss[1..]) + [ss[0]];
      assert Reversed(ss[1..]) + ([ss[0]] + list) == Reversed(ss) + list;
    }
  }

  /** A burst of snapshots each coalescing with the one before (typing faster than
      the window) leaves a single entry for the whole burst: its LAST snapshot,
      in the place the burst's first snapshot took. */
  lemma {:induction false} BurstKeepsLast(list: seq<EditorState>, ss: seq<EditorState>)
    requires |ss| > 0
    requires forall i :: 0 < i < |ss| ==> Coalesces(ss[i - 1], ss[i])
    ensures PushAll(list, ss) == [ss[|ss| - 1]] + Pushed(list, ss[0])[1..]
    decreases |ss|
  {
    var first := Pushed(list, ss[0]);
    if |ss| > 1 {
      var second := Pushed(first, ss[1]);
      assert Coalesces(ss[0], ss[1]);
      assert second == [ss[1]] + first[1..];
      assert forall i :: 0 < i < |ss[1..]| ==> Coalesces(ss[1..][i - 1], ss[1..][i]) by {
        forall i | 0 < i < |ss[1..]|
          ensures Coalesces(ss[1..][i - 1], ss[1..][i])
        {
          assert ss[1..][i - 1] == ss[i] && ss[1..][i] == ss[i + 1];
        }
      }
      BurstKeepsLast(first, ss[1..]);
      assert PushAll(list, ss) == PushAll(first, ss[1..]);
      assert ss[1..][|ss[1..]| - 1] == ss[|ss| - 1];
    } else {
      assert PushAll(list, ss) == PushAll(first, []);
      assert first == [first[0]] + first[1..];
    }
  }
}
