/** Caret positions and selection ranges of the IC10 editor.

    The source's TextPosition and TextRange structs are not part of this model's
    source files; they are defined here from how Editor.cs uses them: positions are
    compared for equality, can be reset to an "unset" state and converted to bool,
    and a range can be sorted into document order. */
module Positions {

  /** A caret position (line, column), or the unset state left by Reset(). */
  datatype TextPosition = Pos(line: int, col: int) | Unset

  /** Lexicographic (line, then column) order on set positions. */
  predicate Before(p: TextPosition, q: TextPosition)
    requires p.Pos? && q.Pos?
  {
    p.line < q.line || (p.line == q.line && p.col <= q.col)
  }

  /** A directional range; either endpoint may be unset. */
  datatype TextRange = TextRange(start: TextPosition, end: TextPosition) {

    /** The range's conversion to bool: both endpoints set and the range not empty. */
    predicate IsActive() {
      start.Pos? && end.Pos? && start != end
    }

    /** The same two endpoints in document order. */
    function Sorted(): (r: TextRange)
      ensures (r.start == start && r.end == end) || (r.start == end && r.end == start)
      ensures start.Pos? && end.Pos? ==> Before(r.start, r.end)
      ensures r.IsActive() == IsActive()
    {
      if start.Pos? && end.Pos? && !Before(start, end) then TextRange(end, start) else this
    }
  }

  /** The range after Reset(): both endpoints unset. */
  const NoRange := TextRange(Unset, Unset)

  lemma SortedIdempotent(r: TextRange)
    ensures r.Sorted().Sorted() == r.Sorted()
  {
  }

  /** Dragging backward or forward over the same two endpoints sorts to the same range. */
  lemma SortedSymmetric(a: TextPosition, b: TextPosition)
    requires a.Pos? && b.Pos?
    ensures TextRange(a, b).Sorted() == TextRange(b, a).Sorted()
  {
  }
}

/** An optional value; None stands for the source's null. */
module Optional {
  datatype Option<T> = None | Some(value: T)
}
