/**
 * Translation between editor positions `{line, ch}` and flat offsets into the
 * code string (src/utils/formatting.js).  Lines are separated by '\n'.
 *
 * The library operations the source builds on (`split('\n')`, `slice(0, end)`,
 * `lastIndexOf('\n')`) are modelled as functions of their own, each with the
 * contract that says what the JavaScript operation computes.
 */
module Formatting {

  /** A CodeMirror position: 0-based line index and 0-based column. */
  datatype Position = Position(line: int, ch: int)

  /** Number of occurrences of `c` in `s`. */
  function Count(s: string, c: char): (n: nat)
    ensures n <= |s|
  {
    if |s| == 0 then 0 else (if s[0] == c then 1 else 0) + Count(s[1..], c)
  }

  /** The pieces of `lines` put back together with '\n' between them. */
  function Join(lines: seq<string>): string
  {
    if |lines| == 0 then ""
    else if |lines| == 1 then lines[0]
    else lines[0] + "\n" + Join(lines[1..])
  }

  /** `s.split('\n')`: the newline-free pieces between the separators, never none. */
  function Split(s: string): (lines: seq<string>)
    ensures |lines| >= 1
  {
    if |s| == 0 then [""]
    else
      var rest := Split(s[1..]);
      if s[0] == '\n' then [""] + rest
      else [[s[0]] + rest[0]] + rest[1..]
  }

  /** No piece holds a '\n'. */
  lemma {:induction false} SplitPiecesLackNewline(s: string)
    ensures forall i :: 0 <= i < |Split(s)| ==> '\n' !in Split(s)[i]
  {
    if |s| > 0 {
      SplitPiecesLackNewline(s[1..]);
      var rest := Split(s[1..]);
      if s[0] != '\n' {
        assert Split(s)[1..] == rest[1..];
      }
    }
  }

  /** Joining the pieces with '\n' gives back `s`. */
  lemma {:induction false} SplitJoin(s: string)
    ensures Join(Split(s)) == s
  {
    if |s| > 0 {
      SplitJoin(s[1..]);
      var rest := Split(s[1..]);
      if s[0] == '\n' {
        assert s == "\n" + s[1..];
      } else {
        assert Split(s)[1..] == rest[1..];
        assert s == [s[0]] + s[1..];
      }
    }
  }

  /** The first piece is no longer than the whole. */
  lemma {:induction false} SplitFirstBound(s: string)
    ensures |Split(s)[0]| <= |s|
  {
    if |s| > 0 {
      SplitFirstBound(s[1..]);
    }
  }

  /** Splitting a join of newline-free pieces gives back the pieces. */
  lemma {:induction false} JoinSplit(lines: seq<string>)
    requires |lines| >= 1
    requires forall i :: 0 <= i < |lines| ==> '\n' !in lines[i]
    ensures Split(Join(lines)) == lines
    decreases |lines|, |lines[0]|
  {
    var l := lines[0];
    if |l| == 0 {
      if |lines| > 1 {
        JoinSplit(lines[1..]);
        assert Join(lines)[1..] == Join(lines[1..]);
      }
    } else {
      var lines' := [l[1..]] + lines[1..];
      assert lines'[1..] == lines[1..];
      assert forall i :: 1 <= i < |lines'| ==> lines'[i] == lines[i];
      JoinSplit(lines');
      assert Join(lines)[1..] == Join(lines');
      assert Join(lines)[0] == l[0];
      assert [l[0]] + l[1..] == l;
    }
  }

  /**
   * `s.slice(0, end)`: the end index counts from the back when negative and
   * is clamped to the bounds of `s`.
   */
  function Slice(s: string, end: int): (r: string)
    ensures |r| <= |s| && r == s[..|r|]
    ensures 0 <= end <= |s| ==> |r| == end
    ensures end > |s| ==> r == s
    ensures end < 0 ==> |r| == if |s| + end < 0 then 0 else |s| + end
  {
    if end < 0 then (if |s| + end < 0 then "" else s[..|s| + end])
    else if end > |s| then s
    else s[..end]
  }

  /**
   * `s.lastIndexOf(c)`: the index of the last occurrence of `c`, or -1 when
   * `c` does not occur.
   */
  function LastIndexOf(s: string, c: char): (i: int)
    ensures -1 <= i < |s|
    ensures i >= 0 ==> s[i] == c
    ensures forall j :: i < j < |s| ==> s[j] != c
  {
    if |s| == 0 then -1
    else
      var i := LastIndexOf(s[1..], c);
      if i >= 0 then i + 1 else if s[0] == c then 0 else -1
  }

  /** One call of the `reduce` callback in `positionToCursorOffset`. */
  function Step(pos: int, currLine: string, index: nat, p: Position): int
  {
    if index < p.line then pos + |currLine| + 1
    else if index == p.line then pos + p.ch
    else pos
  }

  /** `lines.reduce(Step, pos)` started at element `index`. */
  function Fold(lines: seq<string>, index: nat, pos: int, p: Position): int
    requires index <= |lines|
    decreases |lines| - index
  {
    if index == |lines| then pos
    else Fold(lines, index + 1, Step(pos, lines[index], index, p), p)
  }

  /** `positionToCursorOffset(code, {line, ch})`. */
  function PositionToCursorOffset(code: string, p: Position): int
  {
    Fold(Split(code), 0, 0, p)
  }

  /** `cursorOffsetToPosition(code, cursorOffset)`. */
  function CursorOffsetToPosition(code: string, cursorOffset: int): Position
  {
    var substring := Slice(code, cursorOffset);
    var line := |Split(substring)| - 1;
    var indexOfLastLine := LastIndexOf(substring, '\n');
    Position(line, cursorOffset - indexOfLastLine - 1)
  }

  /** Sum of (length + 1) over the first `k` of `lines` (none when `k <= 0`). */
  function LinesBefore(lines: seq<string>, k: int): nat
  {
    if |lines| == 0 || k <= 0 then 0
    else |lines[0]| + 1 + LinesBefore(lines[1..], k - 1)
  }

  /** A position that names a line of `code` and a column within it (or at its end). */
  predicate ValidPosition(code: string, p: Position)
  {
    var lines := Split(code);
    0 <= p.line < |lines| && 0 <= p.ch <= |lines[p.line]|
  }

  // ---------------------------------------------------------------------
  // positionToCursorOffset

  lemma {:induction false} FoldIsPrefixSum(lines: seq<string>, index: nat, pos: int, p: Position)
    requires index <= |lines|
    ensures Fold(lines, index, pos, p)
         == pos + LinesBefore(lines[index..], p.line - index)
                + (if index <= p.line < |lines| then p.ch else 0)
    decreases |lines| - index
  {
    if index < |lines| {
      FoldIsPrefixSum(lines, index + 1, Step(pos, lines[index], index, p), p);
      assert lines[index..][1..] == lines[index + 1..];
    }
  }

  /**
   * The offset is the sum of (length + 1) over the lines before `p.line`,
   * plus `p.ch` when `p.line` names a line; later lines contribute nothing.
   */
  lemma OffsetIsPrefixSum(code: string, p: Position)
    ensures var lines := Split(code);
            PositionToCursorOffset(code, p)
            == LinesBefore(lines, p.line) + (if 0 <= p.line < |lines| then p.ch else 0)
  {
    var lines := Split(code);
    FoldIsPrefixSum(lines, 0, 0, p);
    assert lines[0..] == lines;
  }

  lemma {:induction false} LinesBeforeAll(lines: seq<string>, k: int)
    requires 1 <= |lines| <= k
    ensures LinesBefore(lines, k) == |Join(lines)| + 1
  {
    if |lines| > 1 {
      LinesBeforeAll(lines[1..], k - 1);
    }
  }

  /**
   * A line index at or beyond the last line ignores `ch`: the result is one
   * past the end of `code`.  A negative line index gives 0.
   */
  lemma OffsetOutsideLines(code: string, p: Position)
    ensures p.line >= |Split(code)| ==> PositionToCursorOffset(code, p) == |code| + 1
    ensures p.line < 0 ==> PositionToCursorOffset(code, p) == 0
  {
    OffsetIsPrefixSum(code, p);
    if p.line >= |Split(code)| {
      SplitJoin(code);
      LinesBeforeAll(Split(code), p.line);
    }
  }

  lemma {:induction false} LinesBeforeBound(lines: seq<string>, k: nat)
    requires k < |lines|
    ensures LinesBefore(lines, k) + |lines[k]| <= |Join(lines)|
  {
    if k > 0 {
      LinesBeforeBound(lines[1..], k - 1);
    }
  }

  /** A valid position maps to an offset inside `code` (possibly its end). */
  lemma OffsetInRange(code: string, p: Position)
    requires ValidPosition(code, p)
    ensures 0 <= PositionToCursorOffset(code, p) <= |code|
  {
    OffsetIsPrefixSum(code, p);
    SplitJoin(code);
    LinesBeforeBound(Split(code), p.line);
  }

  // ---------------------------------------------------------------------
  // cursorOffsetToPosition

  lemma {:induction false} SplitCountsNewlines(s: string)
    ensures |Split(s)| == Count(s, '\n') + 1
  {
    if |s| > 0 {
      SplitCountsNewlines(s[1..]);
    }
  }

  /** The line is the number of '\n' characters before the offset. */
  lemma LineCountsNewlines(code: string, o: int)
    requires 0 <= o <= |code|
    ensures CursorOffsetToPosition(code, o).line == Count(code[..o], '\n')
  {
    SplitCountsNewlines(code[..o]);
  }

  /**
   * The column is the distance from the last '\n' before the offset, and the
   * offset itself when there is none (`lastIndexOf` gives -1).
   */
  lemma ColumnFromLastNewline(code: string, o: int)
    requires 0 <= o <= |code|
    ensures var ch := CursorOffsetToPosition(code, o).ch;
            && 0 <= ch <= o
            && (forall j :: o - ch <= j < o ==> code[j] != '\n')
            && (ch < o ==> code[o - ch - 1] == '\n')
            && (ch == o <==> '\n' !in code[..o])
  {
    var sub := code[..o];
    var i := LastIndexOf(sub, '\n');
    assert forall j :: 0 <= j < o ==> sub[j] == code[j];
    if i >= 0 {
      assert sub[i] == '\n';
    }
  }

  // ---------------------------------------------------------------------
  // Round trips

  /** Prepending one character changes the offset of a position in a fixed way. */
  lemma OffsetCons(s: string, p: Position)
    requires |s| >= 1 && p.line >= 1
    ensures s[0] == '\n' ==>
              PositionToCursorOffset(s, p)
              == 1 + PositionToCursorOffset(s[1..], Position(p.line - 1, p.ch))
    ensures s[0] != '\n' ==>
              PositionToCursorOffset(s, p) == 1 + PositionToCursorOffset(s[1..], p)
  {
    var lines, rest := Split(s), Split(s[1..]);
    OffsetIsPrefixSum(s, p);
    if s[0] == '\n' {
      OffsetIsPrefixSum(s[1..], Position(p.line - 1, p.ch));
      assert lines[1..] == rest;
    } else {
      OffsetIsPrefixSum(s[1..], p);
      assert lines[1..] == rest[1..];
    }
  }

  lemma OffsetFirstLine(s: string, ch: int)
    ensures PositionToCursorOffset(s, Position(0, ch)) == ch
  {
    OffsetIsPrefixSum(s, Position(0, ch));
  }

  /** Prepending one character changes the position of an offset in a fixed way. */
  lemma PositionCons(s: string, o: int)
    requires 1 <= o <= |s|
    ensures var q := CursorOffsetToPosition(s[1..], o - 1);
            CursorOffsetToPosition(s, o)
            == if s[0] == '\n' then Position(q.line + 1, q.ch)
               else if q.line == 0 then Position(0, q.ch + 1)
               else q
  {
    var sub, tail := s[..o], s[1..][..o - 1];
    assert sub[1..] == tail;
    SplitCountsNewlines(tail);
    if Count(tail, '\n') == 0 {
      NoNewlineNoLastIndex(tail);
    } else {
      CountedNewlineIsFound(tail);
    }
  }

  lemma {:induction false} NoNewlineNoLastIndex(s: string)
    requires Count(s, '\n') == 0
    ensures LastIndexOf(s, '\n') == -1
  {
    if |s| > 0 {
      NoNewlineNoLastIndex(s[1..]);
    }
  }

  lemma {:induction false} CountedNewlineIsFound(s: string)
    requires Count(s, '\n') > 0
    ensures LastIndexOf(s, '\n') >= 0
  {
    if |s| > 0 && Count(s[1..], '\n') > 0 {
      CountedNewlineIsFound(s[1..]);
    }
  }

  /** Position → offset → position is the identity on valid positions. */
  lemma {:induction false} PositionRoundTrip(code: string, p: Position)
    requires ValidPosition(code, p)
    ensures CursorOffsetToPosition(code, PositionToCursorOffset(code, p)) == p
    decreases |code|, 1
  {
    if |code| == 0 || p.line == 0 {
      FirstLineRoundTrip(code, p.ch);
    } else {
      LaterLineRoundTrip(code, p);
    }
  }

  /** The round trip for a column on the first line. */
  lemma {:induction false} FirstLineRoundTrip(code: string, ch: int)
    requires ValidPosition(code, Position(0, ch))
    ensures CursorOffsetToPosition(code, PositionToCursorOffset(code, Position(0, ch))) == Position(0, ch)
    decreases |code|, 0
  {
    OffsetFirstLine(code, ch);
    SplitFirstBound(code);
    if ch > 0 {
      var lines, rest := Split(code), Split(code[1..]);
      assert code[0] != '\n' && lines[0] == [code[0]] + rest[0];
      FirstLineRoundTrip(code[1..], ch - 1);
      OffsetFirstLine(code[1..], ch - 1);
      PositionCons(code, ch);
    }
  }

  /** The round trip for a position on a line after the first. */
  lemma {:induction false} LaterLineRoundTrip(code: string, p: Position)
    requires ValidPosition(code, p) && p.line >= 1
    ensures CursorOffsetToPosition(code, PositionToCursorOffset(code, p)) == p
    decreases |code|, 0
  {
    var lines, rest := Split(code), Split(code[1..]);
    var p' := if code[0] == '\n' then Position(p.line - 1, p.ch) else p;
    if code[0] == '\n' {
      assert lines[1..] == rest;
    } else {
      assert lines[1..] == rest[1..];
    }
    assert rest[p'.line] == lines[p.line];
    PositionRoundTrip(code[1..], p');
    OffsetCons(code, p);
    OffsetInRange(code[1..], p');
    PositionCons(code, PositionToCursorOffset(code, p));
  }

  /**
   * Offset → position → offset is the identity on offsets within `code`, and
   * the intermediate position is valid.
   */
  lemma {:induction false} OffsetRoundTrip(code: string, o: int)
    requires 0 <= o <= |code|
    ensures ValidPosition(code, CursorOffsetToPosition(code, o))
    ensures PositionToCursorOffset(code, CursorOffsetToPosition(code, o)) == o
    decreases |code|
  {
    if o == 0 {
      OffsetZero(code);
      OffsetFirstLine(code, 0);
    } else {
      OffsetRoundTrip(code[1..], o - 1);
      OffsetRoundTripStep(code, o);
    }
  }

  lemma OffsetZero(code: string)
    ensures CursorOffsetToPosition(code, 0) == Position(0, 0)
  {
    assert code[..0] == "";
  }

  /** The round trip on `code` from the round trip on `code` without its first character. */
  lemma OffsetRoundTripStep(code: string, o: int)
    requires 1 <= o <= |code|
    requires ValidPosition(code[1..], CursorOffsetToPosition(code[1..], o - 1))
    requires PositionToCursorOffset(code[1..], CursorOffsetToPosition(code[1..], o - 1)) == o - 1
    ensures ValidPosition(code, CursorOffsetToPosition(code, o))
    ensures PositionToCursorOffset(code, CursorOffsetToPosition(code, o)) == o
  {
    var q, q' := CursorOffsetToPosition(code, o), CursorOffsetToPosition(code[1..], o - 1);
    PositionCons(code, o);
    var lines, rest := Split(code), Split(code[1..]);
    if code[0] == '\n' {
      assert lines[1..] == rest;
      assert lines[q.line] == rest[q'.line];
      OffsetCons(code, q);
    } else if q'.line == 0 {
      assert lines[0] == [code[0]] + rest[0];
      OffsetFirstLine(code, q.ch);
      OffsetFirstLine(code[1..], q'.ch);
    } else {
      assert lines[1..] == rest[1..];
      assert lines[q.line] == rest[q.line];
      OffsetCons(code, q);
    }
  }
}
