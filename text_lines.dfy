/** The editor's text as a list of lines: splitting on '\n', joining with '\n'
    (the editor's Code), flat character offsets of positions, the text of a range
    (GetCode), caret clamping, and the splice lemmas that say how replacing a
    stretch of lines changes the joined text. */
module TextLines {
  import opened Positions

  /** Number of newline characters in s. */
  function NewlineCount(s: string): nat
  {
    if |s| == 0 then 0 else (if s[0] == '\n' then 1 else 0) + NewlineCount(s[1..])
  }

  /** s.Split('\n'): the pieces between newline characters; "" gives [""]. */
  function Split(s: string): (r: seq<string>)
    ensures |r| == NewlineCount(s) + 1
    ensures forall i :: 0 <= i < |r| ==> '\n' !in r[i]
  {
    if |s| == 0 then [""]
    else
      var rest := Split(s[1..]);
      if s[0] == '\n' then [""] + rest else [[s[0]] + rest[0]] + rest[1..]
  }

  /** string.Join("\n", ls): the editor's Code. */
  function Join(ls: seq<string>): string
  {
    if |ls| == 0 then "" else if |ls| == 1 then ls[0] else ls[0] + "\n" + Join(ls[1..])
  }

  /** Joining the pieces of a split gives back the text. */
  lemma {:induction false} JoinSplit(s: string)
    ensures Join(Split(s)) == s
  {
    if |s| > 0 {
      var rest := Split(s[1..]);
      JoinSplit(s[1..]);
      if s[0] == '\n' {
        assert Split(s) == [""] + rest;
        assert ([""] + rest)[1..] == rest;
      } else {
        var r := Split(s);
        assert r == [[s[0]] + rest[0]] + rest[1..];
        if |rest| > 1 {
          assert r[1..] == rest[1..];
          assert Join(rest) == rest[0] + "\n" + Join(rest[1..]);
        }
        assert s == [s[0]] + s[1..];
      }
    }
  }

  lemma {:induction false} SplitPrepend(x: string, t: string)
    requires '\n' !in x
    ensures Split(x + t) == [x + Split(t)[0]] + Split(t)[1..]
    decreases |x|
  {
    if |x| > 0 {
      SplitPrepend(x[1..], t);
      assert (x + t)[1..] == x[1..] + t;
      assert x[0] != '\n';
      assert [x[0]] + (x[1..] + Split(t)[0]) == x + Split(t)[0];
    } else {
      assert x + t == t;
      assert x + Split(t)[0] == Split(t)[0];
      assert Split(t) == [Split(t)[0]] + Split(t)[1..];
    }
  }

  /** A line with no newline splits into itself; one followed by a newline splits off. */
  lemma SplitLine(x: string, t: string)
    requires '\n' !in x
    ensures Split(x) == [x]
    ensures Split(x + "\n" + t) == [x] + Split(t)
  {
    SplitPrepend(x, "");
    assert x + "" == x;
    assert Split("") == [""];
    SplitPrepend(x, "\n" + t);
    assert x + "\n" + t == x + ("\n" + t);
    assert ("\n" + t)[1..] == t;
    assert Split("\n" + t) == [""] + Split(t);
    assert x + "" == x;
  }

  /** Splitting joined lines that hold no newline gives back the lines. */
  lemma {:induction false} SplitJoin(ls: seq<string>)
    requires |ls| >= 1
    requires forall i :: 0 <= i < |ls| ==> '\n' !in ls[i]
    ensures Split(Join(ls)) == ls
  {
    if |ls| == 1 {
      SplitPrepend(ls[0], "");
      assert ls[0] + "" == ls[0];
      assert Split("") == [""];
    } else {
      var t := "\n" + Join(ls[1..]);
      SplitJoin(ls[1..]);
      assert t[1..] == Join(ls[1..]);
      assert Split(t) == [""] + ls[1..];
      SplitPrepend(ls[0], t);
      assert Join(ls) == ls[0] + t;
      assert ls[0] + "" == ls[0];
      assert [ls[0]] + ls[1..] == ls;
    }
  }

  lemma {:induction false} NewlineCountAppend(a: string, b: string)
    ensures NewlineCount(a + b) == NewlineCount(a) + NewlineCount(b)
    decreases |a|
  {
    if |a| > 0 {
      NewlineCountAppend(a[1..], b);
      assert (a + b)[1..] == a[1..] + b;
    } else {
      assert a + b == b;
    }
  }

  /** The code of n lines splits into at least n pieces (more when a line holds '\n'). */
  lemma {:induction false} SplitJoinLength(ls: seq<string>)
    requires |ls| >= 1
    ensures |Split(Join(ls))| >= |ls|
    ensures NewlineCount(Join(ls)) >= |ls| - 1
  {
    if |ls| > 1 {
      SplitJoinLength(ls[1..]);
      assert Join(ls) == ls[0] + ("\n" + Join(ls[1..]));
      NewlineCountAppend(ls[0], "\n" + Join(ls[1..]));
      NewlineCountAppend("\n", Join(ls[1..]));
    }
  }

  /** Join of two non-empty line lists puts one newline between them. */
  lemma {:induction false} JoinAppend(a: seq<string>, b: seq<string>)
    requires |a| >= 1 && |b| >= 1
    ensures Join(a + b) == Join(a) + "\n" + Join(b)
    decreases |a|
  {
    if |a| == 1 {
      assert (a + b)[1..] == b;
    } else {
      JoinAppend(a[1..], b);
      assert (a + b)[1..] == a[1..] + b;
    }
  }

  /** A position that lies inside the text: a line that exists, a column up to its end. */
  predicate InBounds(ls: seq<string>, p: TextPosition)
  {
    p.Pos? && 0 <= p.line < |ls| && 0 <= p.col <= |ls[p.line]|
  }

  /** Number of characters taken by the first k lines and their newlines. */
  function PrefixLength(ls: seq<string>, k: nat): nat
    requires k <= |ls|
  {
    if k == 0 then 0 else PrefixLength(ls, k - 1) + |ls[k - 1]| + 1
  }

  /** The flat offset of a position in the joined text. */
  function Offset(ls: seq<string>, p: TextPosition): nat
    requires InBounds(ls, p)
  {
    PrefixLength(ls, p.line) + p.col
  }

  /** The joined text before a position. */
  function TextBefore(ls: seq<string>, p: TextPosition): string
    requires InBounds(ls, p)
  {
    (if p.line == 0 then "" else Join(ls[..p.line]) + "\n") + ls[p.line][..p.col]
  }

  /** The joined text from a position on. */
  function TextAfter(ls: seq<string>, p: TextPosition): string
    requires InBounds(ls, p)
  {
    ls[p.line][p.col..] + (if p.line + 1 == |ls| then "" else "\n" + Join(ls[p.line + 1..]))
  }

  lemma {:induction false} JoinPrefixLength(ls: seq<string>, k: nat)
    requires 1 <= k <= |ls|
    ensures |Join(ls[..k])| + 1 == PrefixLength(ls, k)
  {
    if k > 1 {
      JoinPrefixLength(ls, k - 1);
      assert ls[..k] == ls[..k - 1] + [ls[k - 1]];
      JoinAppend(ls[..k - 1], [ls[k - 1]]);
    }
  }

  /** A position cuts the joined text in two, and its offset is the length of the first part. */
  lemma {:induction false} Decompose(ls: seq<string>, p: TextPosition)
    requires InBounds(ls, p)
    ensures Join(ls) == TextBefore(ls, p) + TextAfter(ls, p)
    ensures |TextBefore(ls, p)| == Offset(ls, p)
    ensures Offset(ls, p) <= |Join(ls)|
    ensures Join(ls)[..Offset(ls, p)] == TextBefore(ls, p)
    ensures Join(ls)[Offset(ls, p)..] == TextAfter(ls, p)
  {
    var k, c := p.line, p.col;
    var head, tail := ls[k][..c], ls[k][c..];
    assert ls[k] == head + tail;
    var rest := if k + 1 == |ls| then "" else "\n" + Join(ls[k + 1..]);
    assert TextAfter(ls, p) == tail + rest;
    if k == 0 {
      if |ls| > 1 {
        assert ls[1..] == ls[k + 1..];
      }
      assert Join(ls) == "" + ((head + tail) + rest);
      assert TextBefore(ls, p) == "" + head;
      CutAt(Join(ls), "", head, tail, rest);
    } else {
      JoinPrefixLength(ls, k);
      assert ls == ls[..k] + ls[k..];
      JoinAppend(ls[..k], ls[k..]);
      assert ls[k..][0] == ls[k];
      if k + 1 < |ls| {
        assert ls[k..][1..] == ls[k + 1..];
      }
      assert Join(ls[k..]) == ls[k] + rest;
      var before := Join(ls[..k]) + "\n";
      assert Join(ls) == before + ((head + tail) + rest);
      assert TextBefore(ls, p) == before + head;
      CutAt(Join(ls), before, head, tail, rest);
    }
  }

  lemma CutAt(whole: string, l: string, h: string, t: string, z: string)
    requires whole == l + ((h + t) + z)
    ensures whole == (l + h) + (t + z)
  {
  }

  /** The newline-prefixed lines i .. j-1: the loop at Editor.cs:315-316 after it reaches j. */
  function LinesBetween(ls: seq<string>, i: int, j: int): string
    requires 0 <= i && j <= |ls|
    decreases j - i
  {
    if j <= i then "" else LinesBetween(ls, i, j - 1) + "\n" + ls[j - 1]
  }

  /** GetCode(range): the text between two positions, built as Editor.cs:306-320 does. */
  function GetCode(ls: seq<string>, r: TextRange): string
    requires InBounds(ls, r.start) && InBounds(ls, r.end)
    requires r.start.line == r.end.line ==> r.start.col <= r.end.col
  {
    var s, e := r.start, r.end;
    if s.line == e.line then ls[s.line][s.col..e.col]
    else ls[s.line][s.col..] + LinesBetween(ls, s.line + 1, e.line) + "\n" + ls[e.line][..e.col]
  }

  lemma {:induction false} JoinPrefixBetween(ls: seq<string>, i: int, j: int)
    requires 1 <= i <= j <= |ls|
    ensures Join(ls[..j]) == Join(ls[..i]) + LinesBetween(ls, i, j)
    decreases j - i
  {
    if j > i {
      JoinPrefixBetween(ls, i, j - 1);
      assert ls[..j] == ls[..j - 1] + [ls[j - 1]];
      JoinAppend(ls[..j - 1], [ls[j - 1]]);
    }
  }

  lemma TextBeforeGetCode(ls: seq<string>, r: TextRange)
    requires InBounds(ls, r.start) && InBounds(ls, r.end)
    requires r.start.line < r.end.line
    ensures TextBefore(ls, r.end) == TextBefore(ls, r.start) + GetCode(ls, r)
  {
    var s, e := r.start, r.end;
    var head, tail := ls[s.line][..s.col], ls[s.line][s.col..];
    var between, last := LinesBetween(ls, s.line + 1, e.line), ls[e.line][..e.col];
    var left := if s.line == 0 then "" else Join(ls[..s.line]) + "\n";
    JoinPrefixBetween(ls, s.line + 1, e.line);
    assert ls[s.line] == head + tail;
    assert Join(ls[..s.line + 1]) == left + ls[s.line] by {
      if s.line == 0 {
        assert ls[..1] == [ls[0]];
      } else {
        assert ls[..s.line + 1] == ls[..s.line] + [ls[s.line]];
        JoinAppend(ls[..s.line], [ls[s.line]]);
      }
    }
    assert TextBefore(ls, e) == Join(ls[..e.line]) + "\n" + last;
    assert Join(ls[..e.line]) == left + (head + tail) + between;
    assert TextBefore(ls, s) == left + head;
    assert GetCode(ls, r) == tail + between + "\n" + last;
    Regroup4(Join(ls[..e.line]), TextBefore(ls, e), TextBefore(ls, s), GetCode(ls, r), left, head, tail, between, last);
  }

  lemma Regroup4(j: string, tbE: string, tbS: string, code: string,
                 l: string, h: string, t: string, b: string, z: string)
    requires tbE == j + "\n" + z && j == l + (h + t) + b
    requires tbS == l + h && code == t + b + "\n" + z
    ensures tbE == tbS + code
  {
  }

  /** GetCode of an ordered range is the slice of the joined text between the
      flat offsets of its two ends. */
  lemma GetCodeIsSlice(ls: seq<string>, r: TextRange)
    requires InBounds(ls, r.start) && InBounds(ls, r.end)
    requires Before(r.start, r.end)
    ensures Offset(ls, r.start) <= Offset(ls, r.end) <= |Join(ls)|
    ensures GetCode(ls, r) == Join(ls)[Offset(ls, r.start)..Offset(ls, r.end)]
  {
    var s, e := r.start, r.end;
    Decompose(ls, s);
    Decompose(ls, e);
    if s.line == e.line {
      var line := ls[s.line];
      assert TextAfter(ls, s)[..e.col - s.col] == line[s.col..e.col];
    } else {
      TextBeforeGetCode(ls, r);
      assert Join(ls) == TextBefore(ls, s) + GetCode(ls, r) + TextAfter(ls, e);
    }
  }

  lemma {:induction false} PrefixLengthMonotone(ls: seq<string>, i: nat, j: nat)
    requires i <= j <= |ls|
    ensures PrefixLength(ls, i) + (if i < j then |ls[i]| + 1 else 0) <= PrefixLength(ls, j)
    decreases j - i
  {
    if i < j - 1 {
      PrefixLengthMonotone(ls, i, j - 1);
    }
  }

  /** Ordered positions have ordered offsets, strictly so when distinct. */
  lemma OffsetStrict(ls: seq<string>, s: TextPosition, e: TextPosition)
    requires InBounds(ls, s) && InBounds(ls, e) && Before(s, e)
    ensures Offset(ls, s) <= Offset(ls, e)
    ensures s != e ==> Offset(ls, s) < Offset(ls, e)
  {
    if s.line < e.line {
      PrefixLengthMonotone(ls, s.line, e.line);
    }
  }

  /** An active range (the source's HaveSelection) selects at least one character. */
  lemma ActiveRangeNonEmpty(ls: seq<string>, r: TextRange)
    requires r.IsActive() && InBounds(ls, r.start) && InBounds(ls, r.end)
    ensures |GetCode(ls, r.Sorted())| > 0
  {
    var t := r.Sorted();
    GetCodeIsSlice(ls, t);
    OffsetStrict(ls, t.start, t.end);
  }

  /** The range SelectAll builds covers the whole code. */
  lemma GetCodeWhole(ls: seq<string>)
    requires |ls| >= 1
    ensures GetCode(ls, TextRange(Pos(0, 0), Pos(|ls| - 1, |ls[|ls| - 1]|))) == Join(ls)
  {
    var e := Pos(|ls| - 1, |ls[|ls| - 1]|);
    GetCodeIsSlice(ls, TextRange(Pos(0, 0), e));
    Decompose(ls, e);
  }

  /** The caret clamping of MoveCaret (Editor.cs:206-216). */
  function Clamp(ls: seq<string>, line: int, col: int): (p: TextPosition)
    requires |ls| >= 1
    ensures InBounds(ls, p)
    ensures line < 0 ==> p.line == 0
    ensures line >= |ls| ==> p.line == |ls| - 1
    ensures 0 <= line < |ls| ==> p.line == line
    ensures col < 0 ==> p.col == 0
    ensures col > |ls[p.line]| ==> p.col == |ls[p.line]|
    ensures 0 <= col <= |ls[p.line]| ==> p.col == col
  {
    var l := if line < 0 then 0 else if line >= |ls| then |ls| - 1 else line;
    var c := if col < 0 then 0 else if col > |ls[l]| then |ls[l]| else col;
    Pos(l, c)
  }

  /** Clamping leaves a position that is already inside the text where it is. */
  lemma ClampKeepsInBounds(ls: seq<string>, p: TextPosition)
    requires InBounds(ls, p)
    ensures Clamp(ls, p.line, p.col) == p
  {
  }

  /** Lines `mids` with `pre` put before the first and `suf` after the last. */
  function Wrap(pre: string, mids: seq<string>, suf: string): (r: seq<string>)
    requires |mids| >= 1
    ensures |r| == |mids|
    decreases |mids|
  {
    if |mids| == 1 then [pre + mids[0] + suf] else [pre + mids[0]] + Wrap("", mids[1..], suf)
  }

  lemma {:induction false} WrapJoin(pre: string, mids: seq<string>, suf: string)
    requires |mids| >= 1
    ensures Join(Wrap(pre, mids, suf)) == pre + Join(mids) + suf
    decreases |mids|
  {
    if |mids| > 1 {
      WrapJoin("", mids[1..], suf);
      var w := Wrap(pre, mids, suf);
      assert w[1..] == Wrap("", mids[1..], suf);
    }
  }

  /** The lines from s to e replaced by `mids`, keeping the text before s and after e. */
  function Splice(ls: seq<string>, s: TextPosition, e: TextPosition, mids: seq<string>): (r: seq<string>)
    requires InBounds(ls, s) && InBounds(ls, e) && s.line <= e.line && |mids| >= 1
    ensures |r| == |ls| - (e.line - s.line) + |mids| - 1
  {
    ls[..s.line] + Wrap(ls[s.line][..s.col], mids, ls[e.line][e.col..]) + ls[e.line + 1..]
  }

  /** Join of lines a followed by non-empty lines x. */
  lemma JoinAfter(a: seq<string>, x: seq<string>)
    requires |x| >= 1
    ensures Join(a + x) == (if |a| == 0 then "" else Join(a) + "\n") + Join(x)
  {
    if |a| == 0 {
      assert a + x == x;
    } else {
      JoinAppend(a, x);
    }
  }

  /** Join of non-empty lines x followed by lines b. */
  lemma JoinBefore(x: seq<string>, b: seq<string>)
    requires |x| >= 1
    ensures Join(x + b) == Join(x) + (if |b| == 0 then "" else "\n" + Join(b))
  {
    if |b| == 0 {
      assert x + b == x;
    } else {
      JoinAppend(x, b);
    }
  }

  /** Splicing replaces the text between s and e by the joined `mids`. */
  lemma {:induction false} SpliceText(ls: seq<string>, s: TextPosition, e: TextPosition, mids: seq<string>)
    requires InBounds(ls, s) && InBounds(ls, e) && s.line <= e.line && |mids| >= 1
    ensures Join(Splice(ls, s, e, mids)) == TextBefore(ls, s) + Join(mids) + TextAfter(ls, e)
  {
    var pre, suf := ls[s.line][..s.col], ls[e.line][e.col..];
    var a, w, b := ls[..s.line], Wrap(pre, mids, suf), ls[e.line + 1..];
    assert Splice(ls, s, e, mids) == a + (w + b);
    WrapJoin(pre, mids, suf);
    JoinBefore(w, b);
    JoinAfter(a, w + b);
    var left := if |a| == 0 then "" else Join(a) + "\n";
    var right := if |b| == 0 then "" else "\n" + Join(b);
    assert TextBefore(ls, s) == left + pre;
    assert TextAfter(ls, e) == suf + right;
    Regroup(left, pre, Join(mids), suf, right);
  }

  lemma Regroup(l: string, p: string, m: string, s: string, r: string)
    ensures l + (p + m + s + r) == (l + p) + m + (s + r)
  {
  }

  lemma WrapOne(pre: string, m: string, suf: string)
    ensures Wrap(pre, [m], suf) == [pre + m + suf]
  {
  }

  /** Cutting the text at s and at e and dropping what lies between. */
  lemma DeleteSpliceText(ls: seq<string>, s: TextPosition, e: TextPosition)
    requires InBounds(ls, s) && InBounds(ls, e) && Before(s, e)
    ensures Offset(ls, s) <= Offset(ls, e) <= |Join(ls)|
    ensures Join(Splice(ls, s, e, [""])) == Join(ls)[..Offset(ls, s)] + Join(ls)[Offset(ls, e)..]
    ensures InBounds(Splice(ls, s, e, [""]), s)
    ensures Offset(Splice(ls, s, e, [""]), s) == Offset(ls, s)
  {
    OffsetStrict(ls, s, e);
    var tb, ta := TextBefore(ls, s), TextAfter(ls, e);
    SpliceText(ls, s, e, [""]);
    assert Join([""]) == "";
    assert tb + "" + ta == tb + ta;
    SpliceEndText(ls, s, e, [""]);
    assert SpliceEnd(ls, s, [""]) == s;
    Decompose(ls, s);
    Decompose(ls, e);
  }

  /** The position right after `mids` in the spliced lines. */
  function SpliceEnd(ls: seq<string>, s: TextPosition, mids: seq<string>): TextPosition
    requires InBounds(ls, s) && |mids| >= 1
  {
    if |mids| == 1 then Pos(s.line, s.col + |mids[0]|)
    else Pos(s.line + |mids| - 1, |mids[|mids| - 1]|)
  }

  lemma {:induction false} WrapPrefix(pre: string, mids: seq<string>, suf: string)
    requires |mids| >= 2
    ensures Wrap(pre, mids, suf)[..|mids| - 1] == [pre + mids[0]] + mids[1..|mids| - 1]
    ensures Wrap(pre, mids, suf)[|mids| - 1] == mids[|mids| - 1] + suf
    decreases |mids|
  {
    var n := |mids|;
    var w := Wrap(pre, mids, suf);
    var rest := Wrap("", mids[1..], suf);
    assert w == [pre + mids[0]] + rest;
    if n == 2 {
      assert rest == ["" + mids[1] + suf];
      assert "" + mids[1] + suf == mids[1] + suf;
    } else {
      WrapPrefix("", mids[1..], suf);
      assert "" + mids[1] == mids[1];
      assert mids[1..][1..n - 2] == mids[2..n - 1];
      assert rest[..n - 2] == [mids[1]] + mids[2..n - 1];
      assert [mids[1]] + mids[2..n - 1] == mids[1..n - 1];
      assert w[..n - 1] == [pre + mids[0]] + rest[..n - 2];
    }
  }

  /** Joining lines whose first one got a prefix. */
  lemma {:induction false} JoinPrefixFirst(pre: string, xs: seq<string>)
    requires |xs| >= 1
    ensures Join([pre + xs[0]] + xs[1..]) == pre + Join(xs)
  {
    var ys := [pre + xs[0]] + xs[1..];
    if |xs| == 1 {
      assert ys == [pre + xs[0]];
    } else {
      assert ys[1..] == xs[1..];
      assert Join(ys) == ys[0] + "\n" + Join(ys[1..]);
      assert Join(xs) == xs[0] + "\n" + Join(xs[1..]);
    }
  }

  /** Regrouping the text before the end of a spliced-in block. */
  lemma JoinTail(tb: string, jh: string, ja: string, pre: string, ji: string, last: string, jm: string)
    requires tb == jh + "\n" + last && jh == ja + (pre + ji) && jm == ji + "\n" + last
    ensures tb == ja + pre + jm
  {
  }

  lemma {:induction false} TextBeforeWrapEnd(a: seq<string>, pre: string, mids: seq<string>, suf: string, b: seq<string>)
    requires |mids| >= 2
    ensures InBounds(a + Wrap(pre, mids, suf) + b, Pos(|a| + |mids| - 1, |mids[|mids| - 1]|))
    ensures TextBefore(a + Wrap(pre, mids, suf) + b, Pos(|a| + |mids| - 1, |mids[|mids| - 1]|))
         == (if |a| == 0 then "" else Join(a) + "\n") + pre + Join(mids)
  {
    var n := |mids|;
    var w := Wrap(pre, mids, suf);
    var r := a + w + b;
    var k := |a| + n - 1;
    WrapPrefix(pre, mids, suf);
    var head := [pre + mids[0]] + mids[1..n - 1];
    assert r[k] == w[n - 1] == mids[n - 1] + suf;
    assert r[k][..|mids[n - 1]|] == mids[n - 1];
    assert r[..k] == a + w[..n - 1];
    assert r[..k] == a + head;
    var init, last := mids[..n - 1], mids[n - 1];
    assert head == [pre + init[0]] + init[1..];
    JoinPrefixFirst(pre, init);
    assert mids == init + [last];
    JoinAppend(init, [last]);
    var ji := Join(init);
    assert Join(mids) == ji + "\n" + last;
    var jh := Join(r[..k]);
    var tb := TextBefore(r, Pos(k, |last|));
    assert tb == jh + "\n" + last;
    var ja := if |a| == 0 then "" else Join(a) + "\n";
    if |a| > 0 {
      JoinAppend(a, head);
      assert jh == Join(a) + "\n" + (pre + ji);
    } else {
      assert r[..k] == head;
      assert jh == "" + (pre + ji);
    }
    JoinTail(tb, jh, ja, pre, ji, last, Join(mids));
  }

  lemma SpliceEndTextMany(ls: seq<string>, s: TextPosition, e: TextPosition, mids: seq<string>)
    requires InBounds(ls, s) && InBounds(ls, e) && s.line <= e.line && |mids| >= 2
    ensures InBounds(Splice(ls, s, e, mids), SpliceEnd(ls, s, mids))
    ensures TextBefore(Splice(ls, s, e, mids), SpliceEnd(ls, s, mids)) == TextBefore(ls, s) + Join(mids)
  {
    var pre, suf := ls[s.line][..s.col], ls[e.line][e.col..];
    var a, b := ls[..s.line], ls[e.line + 1..];
    assert Splice(ls, s, e, mids) == a + Wrap(pre, mids, suf) + b;
    assert SpliceEnd(ls, s, mids) == Pos(|a| + |mids| - 1, |mids[|mids| - 1]|);
    TextBeforeWrapEnd(a, pre, mids, suf, b);
  }

  /** After a splice the text before SpliceEnd is the old text before s followed by the joined `mids`:
      a caret placed there sits right after the inserted text. */
  lemma SpliceEndText(ls: seq<string>, s: TextPosition, e: TextPosition, mids: seq<string>)
    requires InBounds(ls, s) && InBounds(ls, e) && s.line <= e.line && |mids| >= 1
    ensures InBounds(Splice(ls, s, e, mids), SpliceEnd(ls, s, mids))
    ensures TextBefore(Splice(ls, s, e, mids), SpliceEnd(ls, s, mids)) == TextBefore(ls, s) + Join(mids)
    ensures Offset(Splice(ls, s, e, mids), SpliceEnd(ls, s, mids)) == Offset(ls, s) + |Join(mids)|
  {
    var r := Splice(ls, s, e, mids);
    var q := SpliceEnd(ls, s, mids);
    if |mids| == 1 {
      SpliceEndTextOne(ls, s, e, mids);
    } else {
      SpliceEndTextMany(ls, s, e, mids);
    }
    Decompose(r, q);
    Decompose(ls, s);
  }

  lemma SpliceEndTextOne(ls: seq<string>, s: TextPosition, e: TextPosition, mids: seq<string>)
    requires InBounds(ls, s) && InBounds(ls, e) && s.line <= e.line && |mids| == 1
    ensures InBounds(Splice(ls, s, e, mids), SpliceEnd(ls, s, mids))
    ensures TextBefore(Splice(ls, s, e, mids), SpliceEnd(ls, s, mids)) == TextBefore(ls, s) + Join(mids)
  {
    SpliceOneShape(ls, s, e, mids);
    TextBeforeSameLine(ls, Splice(ls, s, e, mids), s, SpliceEnd(ls, s, mids), mids[0]);
    assert Join(mids) == mids[0];
  }

  /** Splicing a single piece keeps the lines above and the start line's head. */
  lemma SpliceOneShape(ls: seq<string>, s: TextPosition, e: TextPosition, mids: seq<string>)
    requires InBounds(ls, s) && InBounds(ls, e) && s.line <= e.line && |mids| == 1
    ensures var r, q := Splice(ls, s, e, mids), SpliceEnd(ls, s, mids);
      && q.line == s.line && InBounds(r, q) && r[..s.line] == ls[..s.line]
      && r[s.line][..q.col] == ls[s.line][..s.col] + mids[0]
  {
    var r := Splice(ls, s, e, mids);
    var pre, m, suf := ls[s.line][..s.col], mids[0], ls[e.line][e.col..];
    WrapOne(pre, m, suf);
    assert r == ls[..s.line] + [pre + m + suf] + ls[e.line + 1..];
    assert r[s.line] == pre + m + suf;
  }

  /** Two texts that agree above a line and up to a column on it agree before that column. */
  lemma TextBeforeSameLine(ls: seq<string>, r: seq<string>, s: TextPosition, q: TextPosition, m: string)
    requires InBounds(ls, s) && InBounds(r, q) && q.line == s.line
    requires r[..s.line] == ls[..s.line] && r[s.line][..q.col] == ls[s.line][..s.col] + m
    ensures TextBefore(r, q) == TextBefore(ls, s) + m
  {
    var pre := ls[s.line][..s.col];
    var head := if s.line == 0 then "" else Join(ls[..s.line]) + "\n";
    assert TextBefore(r, q) == head + (pre + m);
    assert TextBefore(ls, s) == head + pre;
    Regroup(head, pre, m, "", "");
  }

}
