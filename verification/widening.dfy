/** From character edits to row edits: `point_to_row_edit` and `diff_snapshots`.

    A buffer reports its edits as character ranges. Each is widened to whole rows, in one
    of three ways, and widened edits that touch are merged.
 */
module Widening {
  import opened Merging
  import opened Options
  import opened Patching
  import opened Rows
  import opened Selection

  datatype Point = Point(row: int, column: int)

  /** A character edit with its ends given as points. */
  datatype PointEdit = PointEdit(oldStart: Point, oldEnd: Point, newStart: Point, newEnd: Point)

  // ----- rows and positions

  /** The start of the row that the position is in. */
  function LineStart(doc: Doc, p: int): (b: int)
    requires 0 <= p <= |doc|
    ensures 0 <= b <= p && Complete(doc[..b])
    decreases p
  {
    if p == 0 || Terminator(doc[p - 1]) then p else LineStart(doc, p - 1)
  }

  /** The end of the row that the position is in. */
  function LineEnd(doc: Doc, p: int): (b: int)
    requires 0 <= p < |doc| && Complete(doc)
    ensures p < b <= |doc| && Complete(doc[..b])
    decreases |doc| - p
  {
    if Terminator(doc[p]) then p + 1 else LineEnd(doc, p + 1)
  }

  lemma {:induction false} LineStartOpen(doc: Doc, p: int)
    requires 0 <= p <= |doc|
    ensures AtRowStart(doc, LineStart(doc, p))
    ensures forall i | LineStart(doc, p) <= i < p :: !Terminator(doc[i])
    decreases p
  {
    if p != 0 && !Terminator(doc[p - 1]) {
      LineStartOpen(doc, p - 1);
    }
  }

  lemma {:induction false} LineEndOpen(doc: Doc, p: int)
    requires 0 <= p < |doc| && Complete(doc)
    ensures Terminator(doc[LineEnd(doc, p) - 1])
    ensures forall i | p <= i < LineEnd(doc, p) - 1 :: !Terminator(doc[i])
    decreases |doc| - p
  {
    if !Terminator(doc[p]) {
      LineEndOpen(doc, p + 1);
    }
  }

  predicate AtRowStart(doc: Doc, p: int)
    requires 0 <= p <= |doc|
  {
    p == 0 || Terminator(doc[p - 1])
  }

  /** The number of rows before a row boundary. */
  function RowIndex(doc: Doc, b: int): int
    requires 0 <= b <= |doc| && Complete(doc[..b])
  {
    |Lines(doc[..b])|
  }

  function PointOf(doc: Doc, p: int): Point
    requires 0 <= p <= |doc|
  {
    var b := LineStart(doc, p);
    Point(RowIndex(doc, b), p - b)
  }

  /** Between two row boundaries lie the rows from the one to the other. */
  lemma RowsBetween(doc: Doc, a: int, b: int)
    requires 0 <= a <= b <= |doc| && Complete(doc[..a]) && Complete(doc[..b])
    ensures Complete(doc[a..b]) && Lines(doc[..b]) == Lines(doc[..a]) + Lines(doc[a..b])
    ensures RowIndex(doc, b) == RowIndex(doc, a) + |Lines(doc[a..b])|
    ensures a < b ==> RowIndex(doc, a) < RowIndex(doc, b)
  {
    assert doc[..b] == doc[..a] + doc[a..b];
    if a < b {
      assert doc[a..b][b - a - 1] == doc[..b][b - 1];
    }
    LinesConcat(doc[..a], doc[a..b]);
  }

  lemma RowOrder(doc: Doc, a: int, b: int)
    requires 0 <= a <= |doc| && 0 <= b <= |doc| && Complete(doc[..a]) && Complete(doc[..b])
    ensures RowIndex(doc, a) < RowIndex(doc, b) <==> a < b
  {
    if a < b {
      RowsBetween(doc, a, b);
    } else {
      RowsBetween(doc, b, a);
    }
  }

  /** A row starts where the one before it ends. */
  lemma RowAfter(doc: Doc, p: int)
    requires 0 <= p < |doc| && Complete(doc)
    ensures Lines(doc[LineStart(doc, p)..LineEnd(doc, p)]) == [doc[LineStart(doc, p)..LineEnd(doc, p)]]
    ensures RowIndex(doc, LineEnd(doc, p)) == RowIndex(doc, LineStart(doc, p)) + 1
  {
    var a, b := LineStart(doc, p), LineEnd(doc, p);
    var row := doc[a..b];
    LineStartOpen(doc, p);
    LineEndOpen(doc, p);
    assert IsRow(row);
    LinesCons(row, []);
    assert row + [] == row;
    RowsBetween(doc, a, b);
  }

  // ----- widening one edit

  /** The length of a row without its line break. */
  function LineLen(doc: Doc, row: int): int
    requires Complete(doc) && 0 <= row < |Lines(doc)|
  {
    |Lines(doc)[row]| - 1
  }

  function PointToOffset(doc: Doc, point: Point): int
    requires Complete(doc) && 0 <= point.row <= |Lines(doc)|
  {
    |Join(Lines(doc)[..point.row])| + point.column
  }

  /** The character at an offset, if the text does not end there. */
  function NextChar(doc: Doc, offset: int): Option<char> {
    if 0 <= offset < |doc| && doc[offset].Ch? then Some(doc[offset].c) else None
  }

  /** The position behind the last character. */
  function MaxPoint(doc: Doc): Point
    requires doc != []
  {
    PointOf(doc, |doc| - 1)
  }

  function PointToRowEdit(edit: PointEdit, oldText: Doc, newText: Doc): Edit
    requires oldText != [] && Complete(oldText) && Complete(newText)
    requires 0 <= edit.oldStart.row < |Lines(oldText)| && 0 <= edit.newStart.row <= |Lines(newText)|
  {
    if && edit.oldStart.column == LineLen(oldText, edit.oldStart.row)
       && NextChar(newText, PointToOffset(newText, edit.newStart)) == Some('\n')
       && edit.oldStart != MaxPoint(oldText)
    then Edit(edit.oldStart.row + 1, edit.oldEnd.row + 1, edit.newStart.row + 1, edit.newEnd.row + 1)
    else if edit.oldStart.column == 0 && edit.oldEnd.column == 0 && edit.newEnd.column == 0
    then Edit(edit.oldStart.row, edit.oldEnd.row, edit.newStart.row, edit.newEnd.row)
    else Edit(edit.oldStart.row, edit.oldEnd.row + 1, edit.newStart.row, edit.newEnd.row + 1)
  }

  /** The character edit's ends as points of the two texts. */
  function ToPoints(e: Edit, before: Doc, after: Doc): PointEdit
    requires 0 <= e.oldStart <= |before| && 0 <= e.oldEnd <= |before|
    requires 0 <= e.newStart <= |after| && 0 <= e.newEnd <= |after|
  {
    PointEdit(PointOf(before, e.oldStart), PointOf(before, e.oldEnd), PointOf(after, e.newStart), PointOf(after, e.newEnd))
  }

  /** The row a position is in. */
  lemma RowHolding(doc: Doc, p: int)
    requires Complete(doc) && 0 <= p < |doc|
    ensures var a, b := LineStart(doc, p), LineEnd(doc, p);
            && 0 <= RowIndex(doc, a) < |Lines(doc)|
            && Lines(doc)[RowIndex(doc, a)] == doc[a..b] && Lines(doc)[..RowIndex(doc, a)] == Lines(doc[..a])
            && RowIndex(doc, b) == RowIndex(doc, a) + 1
  {
    var a, b := LineStart(doc, p), LineEnd(doc, p);
    RowAfter(doc, p);
    RowsBetween(doc, a, b);
    assert doc[..|doc|] == doc;
    RowsBetween(doc, b, |doc|);
    SplitAt(Lines(doc[..a]), doc[a..b], Lines(doc[b..]));
  }

  lemma SplitAt<T>(left: seq<T>, middle: T, right: seq<T>)
    ensures var all := left + [middle] + right;
            |left| < |all| && all[|left|] == middle && all[..|left|] == left
  {
  }

  lemma PointOffset(doc: Doc, p: int)
    requires Complete(doc) && 0 <= p < |doc|
    ensures var point := PointOf(doc, p);
            0 <= point.row < |Lines(doc)| && PointToOffset(doc, point) == p
  {
    RowHolding(doc, p);
    JoinLines(doc[..LineStart(doc, p)]);
  }

  lemma ColumnZero(doc: Doc, p: int)
    requires 0 <= p <= |doc|
    ensures PointOf(doc, p).column == 0 <==> AtRowStart(doc, p)
  {
    var a := LineStart(doc, p);
    if a == p && p > 0 {
      assert doc[..a][a - 1] == doc[p - 1];
    }
  }

  lemma ColumnAtEnd(doc: Doc, p: int)
    requires Complete(doc) && 0 <= p < |doc|
    ensures 0 <= PointOf(doc, p).row < |Lines(doc)|
    ensures PointOf(doc, p).column == LineLen(doc, PointOf(doc, p).row) <==> LineEnd(doc, p) == p + 1
  {
    RowHolding(doc, p);
  }

  lemma AtMaxPoint(doc: Doc, p: int)
    requires Complete(doc) && 0 <= p < |doc|
    ensures PointOf(doc, p) == MaxPoint(doc) <==> p == |doc| - 1
  {
    PointOffset(doc, p);
    PointOffset(doc, |doc| - 1);
  }

  lemma TerminatorEndsLine(doc: Doc, p: int)
    requires Complete(doc) && 0 <= p < |doc|
    ensures Terminator(doc[p]) <==> LineEnd(doc, p) == p + 1
  {
  }

  predicate LineBreakAt(doc: Doc, p: int)
    requires 0 <= p < |doc|
  {
    doc[p] == Ch('\n')
  }

  /** The edit lies within the characters of both texts. */
  predicate Inside(e: Edit, before: Doc, after: Doc) {
    0 <= e.oldStart <= e.oldEnd < |before| && 0 <= e.newStart <= e.newEnd < |after|
  }

  /** The edit starts before a line break on both sides; the row it starts in stays as it is. */
  predicate AfterRow(e: Edit, before: Doc, after: Doc)
    requires Inside(e, before, after)
  {
    LineBreakAt(before, e.oldStart) && LineBreakAt(after, e.newStart)
  }

  /** The edit replaces whole rows by whole rows. */
  predicate WholeRows(e: Edit, before: Doc, after: Doc)
    requires Inside(e, before, after)
  {
    && AtRowStart(before, e.oldStart) && AtRowStart(before, e.oldEnd)
    && AtRowStart(after, e.newStart) && AtRowStart(after, e.newEnd)
  }

  /** The edit widened to row boundaries, in positions. */
  function Widen(e: Edit, before: Doc, after: Doc): (w: Edit)
    requires Complete(before) && Complete(after) && Inside(e, before, after)
    ensures 0 <= w.oldStart <= w.oldEnd <= |before| && 0 <= w.newStart <= w.newEnd <= |after|
  {
    if AfterRow(e, before, after)
    then Edit(e.oldStart + 1, LineEnd(before, e.oldEnd), e.newStart + 1, LineEnd(after, e.newEnd))
    else if WholeRows(e, before, after) then e
    else Edit(LineStart(before, e.oldStart), LineEnd(before, e.oldEnd), LineStart(after, e.newStart), LineEnd(after, e.newEnd))
  }

  lemma WidenBoundaries(e: Edit, before: Doc, after: Doc)
    requires Complete(before) && Complete(after) && Inside(e, before, after)
    ensures var w := Widen(e, before, after);
            && Complete(before[..w.oldStart]) && Complete(before[..w.oldEnd])
            && Complete(after[..w.newStart]) && Complete(after[..w.newEnd])
  {
    if AfterRow(e, before, after) {
      assert before[..e.oldStart + 1][e.oldStart] == before[e.oldStart];
      assert after[..e.newStart + 1][e.newStart] == after[e.newStart];
    }
  }

  /** A position-based edit whose ends are row boundaries, in rows. */
  function InRows(w: Edit, before: Doc, after: Doc): Edit
    requires 0 <= w.oldStart <= w.oldEnd <= |before| && 0 <= w.newStart <= w.newEnd <= |after|
    requires Complete(before[..w.oldStart]) && Complete(before[..w.oldEnd])
    requires Complete(after[..w.newStart]) && Complete(after[..w.newEnd])
  {
    Edit(RowIndex(before, w.oldStart), RowIndex(before, w.oldEnd), RowIndex(after, w.newStart), RowIndex(after, w.newEnd))
  }

  lemma InRowsOf(w: Edit, before: Doc, after: Doc, a: int, b: int, c: int, d: int)
    requires w == Edit(a, b, c, d) && 0 <= a <= b <= |before| && 0 <= c <= d <= |after|
    requires Complete(before[..a]) && Complete(before[..b]) && Complete(after[..c]) && Complete(after[..d])
    ensures InRows(w, before, after) == Edit(RowIndex(before, a), RowIndex(before, b), RowIndex(after, c), RowIndex(after, d))
  {
  }

  /** The first test of `point_to_row_edit`: both texts have a line break where the edit starts. */
  lemma AfterRowTest(e: Edit, before: Doc, after: Doc)
    requires EndsOnce(before) && Complete(before) && Complete(after) && Inside(e, before, after)
    ensures var points := ToPoints(e, before, after);
            && 0 <= points.oldStart.row < |Lines(before)| && 0 <= points.newStart.row <= |Lines(after)|
            && (AfterRow(e, before, after) <==>
                  && points.oldStart.column == LineLen(before, points.oldStart.row)
                  && NextChar(after, PointToOffset(after, points.newStart)) == Some('\n')
                  && points.oldStart != MaxPoint(before))
  {
    ColumnAtEnd(before, e.oldStart);
    TerminatorEndsLine(before, e.oldStart);
    AtMaxPoint(before, e.oldStart);
    PointOffset(after, e.newStart);
  }

  /** The second test: the edit starts and ends at row starts. */
  lemma WholeRowsTest(e: Edit, before: Doc, after: Doc)
    requires Complete(before) && Complete(after) && Inside(e, before, after)
    requires AtRowStart(before, e.oldStart) <==> AtRowStart(after, e.newStart)
    ensures var points := ToPoints(e, before, after);
            WholeRows(e, before, after) <==>
              points.oldStart.column == 0 && points.oldEnd.column == 0 && points.newEnd.column == 0
  {
    ColumnZero(before, e.oldStart);
    ColumnZero(before, e.oldEnd);
    ColumnZero(after, e.newEnd);
  }

  /** The row of a boundary that starts a row, or of one that ends the row of a position. */
  lemma BoundaryRow(doc: Doc, p: int)
    requires Complete(doc) && 0 <= p < |doc|
    ensures RowIndex(doc, LineEnd(doc, p)) == PointOf(doc, p).row + 1
    ensures AtRowStart(doc, p) ==> LineStart(doc, p) == p
    ensures Terminator(doc[p]) ==> LineEnd(doc, p) == p + 1
  {
    RowHolding(doc, p);
  }

  /** The edit widened to row boundaries, in rows. */
  function WidenedRows(e: Edit, before: Doc, after: Doc): Edit
    requires Complete(before) && Complete(after) && Inside(e, before, after)
  {
    WidenBoundaries(e, before, after);
    InRows(Widen(e, before, after), before, after)
  }

  lemma NextRow(doc: Doc, p: int)
    requires Complete(doc) && 0 <= p < |doc| && Terminator(doc[p])
    ensures Complete(doc[..p + 1]) && RowIndex(doc, p + 1) == PointOf(doc, p).row + 1
  {
    TerminatorEndsLine(doc, p);
    BoundaryRow(doc, p);
  }

  lemma RowsBehind(doc: Doc, start: int, end: int, a: int, b: int)
    requires Complete(doc) && 0 <= start <= end < |doc| && Terminator(doc[start]) && a == start + 1 && b == LineEnd(doc, end)
    ensures RowIndex(doc, a) == PointOf(doc, start).row + 1 && RowIndex(doc, b) == PointOf(doc, end).row + 1
  {
    NextRow(doc, start);
    BoundaryRow(doc, end);
  }

  /** The ends of an edit widened by the first case. */
  lemma AfterRowEnds(e: Edit, before: Doc, after: Doc) returns (a: int, b: int, c: int, d: int)
    requires Complete(before) && Complete(after) && Inside(e, before, after) && AfterRow(e, before, after)
    ensures a == e.oldStart + 1 && b == LineEnd(before, e.oldEnd) && c == e.newStart + 1 && d == LineEnd(after, e.newEnd)
    ensures a <= b <= |before| && c <= d <= |after|
    ensures Complete(before[..a]) && Complete(before[..b]) && Complete(after[..c]) && Complete(after[..d])
    ensures WidenedRows(e, before, after) == Edit(RowIndex(before, a), RowIndex(before, b), RowIndex(after, c), RowIndex(after, d))
  {
    a, b, c, d := e.oldStart + 1, LineEnd(before, e.oldEnd), e.newStart + 1, LineEnd(after, e.newEnd);
    WidenBoundaries(e, before, after);
    InRowsOf(Widen(e, before, after), before, after, a, b, c, d);
  }

  lemma AfterRowRows(e: Edit, before: Doc, after: Doc)
    requires Complete(before) && Complete(after) && Inside(e, before, after) && AfterRow(e, before, after)
    ensures var p := ToPoints(e, before, after);
            WidenedRows(e, before, after) == Edit(p.oldStart.row + 1, p.oldEnd.row + 1, p.newStart.row + 1, p.newEnd.row + 1)
  {
    var a, b, c, d := AfterRowEnds(e, before, after);
    RowsBehind(before, e.oldStart, e.oldEnd, a, b);
    RowsBehind(after, e.newStart, e.newEnd, c, d);
  }

  lemma WholeRowsRows(e: Edit, before: Doc, after: Doc)
    requires Complete(before) && Complete(after) && Inside(e, before, after)
    requires !AfterRow(e, before, after) && WholeRows(e, before, after)
    ensures var p := ToPoints(e, before, after);
            WidenedRows(e, before, after) == Edit(p.oldStart.row, p.oldEnd.row, p.newStart.row, p.newEnd.row)
  {
    WidenBoundaries(e, before, after);
    assert LineStart(before, e.oldStart) == e.oldStart && LineStart(before, e.oldEnd) == e.oldEnd;
    assert LineStart(after, e.newStart) == e.newStart && LineStart(after, e.newEnd) == e.newEnd;
  }

  lemma PartialRowsRows(e: Edit, before: Doc, after: Doc)
    requires Complete(before) && Complete(after) && Inside(e, before, after)
    requires !AfterRow(e, before, after) && !WholeRows(e, before, after)
    ensures var p := ToPoints(e, before, after);
            WidenedRows(e, before, after) == Edit(p.oldStart.row, p.oldEnd.row + 1, p.newStart.row, p.newEnd.row + 1)
  {
    WidenBoundaries(e, before, after);
    BoundaryRow(before, e.oldEnd);
    BoundaryRow(after, e.newEnd);
  }

  /** `point_to_row_edit` computes the widened edit. */
  lemma PointToRowEditWidens(e: Edit, before: Doc, after: Doc)
    requires EndsOnce(before) && Complete(before) && Complete(after) && Inside(e, before, after)
    requires AtRowStart(before, e.oldStart) <==> AtRowStart(after, e.newStart)
    ensures var points := ToPoints(e, before, after);
            && 0 <= points.oldStart.row < |Lines(before)| && 0 <= points.newStart.row <= |Lines(after)|
            && PointToRowEdit(points, before, after) == WidenedRows(e, before, after)
  {
    AfterRowTest(e, before, after);
    WholeRowsTest(e, before, after);
    RowEditCases(ToPoints(e, before, after), before, after, AfterRow(e, before, after), WholeRows(e, before, after));
    if AfterRow(e, before, after) {
      AfterRowRows(e, before, after);
    } else if WholeRows(e, before, after) {
      WholeRowsRows(e, before, after);
    } else {
      PartialRowsRows(e, before, after);
    }
  }

  /** The three cases of `point_to_row_edit`, by what its tests say. */
  lemma RowEditCases(p: PointEdit, oldText: Doc, newText: Doc, first: bool, second: bool)
    requires oldText != [] && Complete(oldText) && Complete(newText)
    requires 0 <= p.oldStart.row < |Lines(oldText)| && 0 <= p.newStart.row <= |Lines(newText)|
    requires first <==>
               && p.oldStart.column == LineLen(oldText, p.oldStart.row)
               && NextChar(newText, PointToOffset(newText, p.newStart)) == Some('\n')
               && p.oldStart != MaxPoint(oldText)
    requires second <==> p.oldStart.column == 0 && p.oldEnd.column == 0 && p.newEnd.column == 0
    ensures PointToRowEdit(p, oldText, newText)
            == if first then Edit(p.oldStart.row + 1, p.oldEnd.row + 1, p.newStart.row + 1, p.newEnd.row + 1)
               else if second then Edit(p.oldStart.row, p.oldEnd.row, p.newStart.row, p.newEnd.row)
               else Edit(p.oldStart.row, p.oldEnd.row + 1, p.newStart.row, p.newEnd.row + 1)
  {
  }

  // ----- equal stretches of two texts have equal rows

  /** `n` cells from `p` in one text and from `q` in the other are the same. */
  ghost predicate Same(before: Doc, p: int, after: Doc, q: int, n: int) {
    0 <= p && 0 <= n && p + n <= |before| && 0 <= q && q + n <= |after| && before[p..p + n] == after[q..q + n]
  }

  lemma SameCell(before: Doc, p: int, after: Doc, q: int, n: int, k: int)
    requires Same(before, p, after, q, n) && 0 <= k < n
    ensures before[p + k] == after[q + k]
  {
    assert before[p..p + n][k] == after[q..q + n][k];
  }

  lemma SamePart(before: Doc, p: int, after: Doc, q: int, n: int, k: int, m: int)
    requires Same(before, p, after, q, n) && 0 <= k && 0 <= m && k + m <= n
    ensures Same(before, p + k, after, q + k, m)
  {
    SliceOfSlice(before, p, p + n, p + k, p + k + m);
    SliceOfSlice(after, q, q + n, q + k, q + k + m);
  }

  /** The same, with the start of the part given on both sides. */
  lemma SameFrom(before: Doc, p: int, after: Doc, q: int, n: int, p': int, q': int, m: int)
    requires Same(before, p, after, q, n) && p <= p' && p' - p == q' - q && 0 <= m && p' + m <= p + n
    ensures Same(before, p', after, q', m)
  {
    SamePart(before, p, after, q, n, p' - p, m);
  }

  lemma SameSlice(before: Doc, p: int, after: Doc, q: int, n: int, p': int, q': int)
    requires Same(before, p, after, q, n) && p' == p + n && q' == q + n
    ensures before[p..p'] == after[q..q']
  {
  }

  lemma SameLonger(before: Doc, p: int, after: Doc, q: int, n: int)
    requires Same(before, p, after, q, n) && p + n < |before| && q + n < |after| && before[p + n] == after[q + n]
    ensures Same(before, p, after, q, n + 1)
  {
    assert before[p..p + n + 1] == before[p..p + n] + [before[p + n]];
    assert after[q..q + n + 1] == after[q..q + n] + [after[q + n]];
  }

  lemma LineEndUnique(doc: Doc, p: int, b: int)
    requires Complete(doc) && 0 <= p < b <= |doc| && Terminator(doc[b - 1])
    requires forall i | p <= i < b - 1 :: !Terminator(doc[i])
    ensures LineEnd(doc, p) == b
  {
    LineEndOpen(doc, p);
  }

  lemma LineStartUnique(doc: Doc, p: int, b: int)
    requires 0 <= b <= p <= |doc| && AtRowStart(doc, b) && forall i | b <= i < p :: !Terminator(doc[i])
    ensures LineStart(doc, p) == b
  {
    LineStartOpen(doc, p);
  }

  lemma LineEndShift(before: Doc, p: int, after: Doc, q: int, n: int)
    requires Complete(before) && Complete(after) && Same(before, p, after, q, n)
    requires p < |before| && LineEnd(before, p) <= p + n
    ensures q < |after| && LineEnd(after, q) - q == LineEnd(before, p) - p
  {
    LineEndOpen(before, p);
    var k := LineEnd(before, p) - p;
    SameCell(before, p, after, q, n, k - 1);
    forall i | q <= i < q + k - 1 ensures !Terminator(after[i]) {
      SameCell(before, p, after, q, n, i - q);
      assert before[p + (i - q)] == after[i];
    }
    LineEndUnique(after, q, q + k);
  }

  lemma LineStartShift(before: Doc, p: int, after: Doc, q: int, n: int)
    requires Same(before, p, after, q, n) && p < LineStart(before, p + n)
    ensures LineStart(after, q + n) - q == LineStart(before, p + n) - p
  {
    LineStartOpen(before, p + n);
    var k := LineStart(before, p + n) - p;
    SameCell(before, p, after, q, n, k - 1);
    forall i | q + k <= i < q + n ensures !Terminator(after[i]) {
      SameCell(before, p, after, q, n, i - q);
      assert before[p + (i - q)] == after[i];
    }
    LineStartUnique(after, q + n, q + k);
  }

  // ----- neighbouring widened edits

  /** Two edits with `n` equal cells between them. */
  ghost predicate Neighbours(e: Edit, f: Edit, before: Doc, after: Doc) {
    && EndsOnce(before) && Complete(before) && EndsOnce(after) && Complete(after)
    && Inside(e, before, after) && Inside(f, before, after)
    && e.oldEnd < f.oldStart && Same(before, e.oldEnd, after, e.newEnd, f.oldStart - e.oldEnd)
    && f.newStart - e.newEnd == f.oldStart - e.oldEnd
  }

  lemma NeighboursUndo(e: Edit, f: Edit, before: Doc, after: Doc)
    requires Neighbours(e, f, before, after)
    ensures Neighbours(e.Undo(), f.Undo(), after, before)
    ensures Widen(e.Undo(), after, before) == Widen(e, before, after).Undo()
    ensures Widen(f.Undo(), after, before) == Widen(f, before, after).Undo()
  {
  }

  /** When the first widened edit ends within the equal cells, it does so on both sides alike. */
  lemma WidenedEnd(e: Edit, f: Edit, before: Doc, after: Doc)
    requires Neighbours(e, f, before, after) && Widen(e, before, after).oldEnd <= f.oldStart
    ensures Widen(e, before, after).newEnd - e.newEnd == Widen(e, before, after).oldEnd - e.oldEnd
  {
    if AfterRow(e, before, after) || !WholeRows(e, before, after) {
      LineEndShift(before, e.oldEnd, after, e.newEnd, f.oldStart - e.oldEnd);
    }
  }

  /** When the second widened edit starts behind the first edit, it does so on both sides alike. */
  lemma WidenedStart(e: Edit, f: Edit, before: Doc, after: Doc)
    requires Neighbours(e, f, before, after) && e.oldEnd < Widen(f, before, after).oldStart
    ensures f.newStart - Widen(f, before, after).newStart == f.oldStart - Widen(f, before, after).oldStart
  {
    if !AfterRow(f, before, after) && !WholeRows(f, before, after) {
      LineStartShift(before, e.oldEnd, after, e.newEnd, f.oldStart - e.oldEnd);
    }
  }

  /** The equal cells reach up to the second widened edit. */
  lemma WidenedStretch(e: Edit, f: Edit, before: Doc, after: Doc)
    requires Neighbours(e, f, before, after) && e.oldEnd < Widen(f, before, after).oldStart
    ensures Same(before, e.oldEnd, after, e.newEnd, Widen(f, before, after).oldStart - e.oldEnd)
  {
    var n := f.oldStart - e.oldEnd;
    var m := Widen(f, before, after).oldStart - e.oldEnd;
    if AfterRow(f, before, after) {
      SameLonger(before, e.oldEnd, after, e.newEnd, n);
    } else {
      assert m <= n;
      SamePart(before, e.oldEnd, after, e.newEnd, n, 0, m);
    }
  }

  lemma WidenedBounds(e: Edit, before: Doc, after: Doc)
    requires Complete(before) && Complete(after) && Inside(e, before, after)
    ensures e.oldEnd <= Widen(e, before, after).oldEnd && Widen(e, before, after).oldStart <= e.oldStart + 1
    ensures e.newEnd <= Widen(e, before, after).newEnd && Widen(e, before, after).newStart <= e.newStart + 1
  {
  }

  /** What lies between two widened edits that do not touch is the same on both sides. */
  lemma WidenedGap(e: Edit, f: Edit, before: Doc, after: Doc)
    requires Neighbours(e, f, before, after)
    requires Widen(e, before, after).oldEnd < Widen(f, before, after).oldStart
    ensures var w, v := Widen(e, before, after), Widen(f, before, after);
            && v.newStart - w.newEnd == v.oldStart - w.oldEnd
            && Same(before, w.oldEnd, after, w.newEnd, v.oldStart - w.oldEnd)
  {
    var w, v := Widen(e, before, after), Widen(f, before, after);
    WidenedGapLength(e, f, before, after);
    WidenedStretch(e, f, before, after);
    SameBetween(before, after, e, w, v);
  }

  lemma SameBetween(before: Doc, after: Doc, e: Edit, w: Edit, v: Edit)
    requires Same(before, e.oldEnd, after, e.newEnd, v.oldStart - e.oldEnd)
    requires e.oldEnd <= w.oldEnd <= v.oldStart && w.newEnd - e.newEnd == w.oldEnd - e.oldEnd
    ensures Same(before, w.oldEnd, after, w.newEnd, v.oldStart - w.oldEnd)
  {
    SameFrom(before, e.oldEnd, after, e.newEnd, v.oldStart - e.oldEnd, w.oldEnd, w.newEnd, v.oldStart - w.oldEnd);
  }

  lemma WidenedGapLength(e: Edit, f: Edit, before: Doc, after: Doc)
    requires Neighbours(e, f, before, after)
    requires Widen(e, before, after).oldEnd < Widen(f, before, after).oldStart
    ensures var w, v := Widen(e, before, after), Widen(f, before, after);
            && v.newStart - w.newEnd == v.oldStart - w.oldEnd && w.newEnd - e.newEnd == w.oldEnd - e.oldEnd
            && e.oldEnd <= w.oldEnd
  {
    WidenedBounds(e, before, after);
    WidenedBounds(f, before, after);
    WidenedEnd(e, f, before, after);
    WidenedStart(e, f, before, after);
  }

  /** Widened edits touch on the new side exactly if they touch on the old side. */
  lemma WidenedTouch(e: Edit, f: Edit, before: Doc, after: Doc)
    requires Neighbours(e, f, before, after)
    ensures Widen(e, before, after).oldEnd < Widen(f, before, after).oldStart
            <==> Widen(e, before, after).newEnd < Widen(f, before, after).newStart
  {
    NeighboursUndo(e, f, before, after);
    if Widen(e, before, after).oldEnd < Widen(f, before, after).oldStart {
      WidenedGap(e, f, before, after);
    }
    if Widen(e, before, after).newEnd < Widen(f, before, after).newStart {
      WidenedGap(e.Undo(), f.Undo(), after, before);
    }
  }

  /** Widened edits end in order, so a merged edit never loses rows. */
  lemma WidenedEndsOrdered(e: Edit, f: Edit, before: Doc, after: Doc)
    requires Neighbours(e, f, before, after)
    ensures Widen(e, before, after).oldEnd <= Widen(f, before, after).oldEnd
    ensures Widen(e, before, after).newEnd <= Widen(f, before, after).newEnd
  {
    NeighboursUndo(e, f, before, after);
    EndsOrdered(e, f, before, after);
    EndsOrdered(e.Undo(), f.Undo(), after, before);
  }

  lemma EndsOrdered(e: Edit, f: Edit, before: Doc, after: Doc)
    requires Neighbours(e, f, before, after)
    ensures Widen(e, before, after).oldEnd <= Widen(f, before, after).oldEnd
  {
    WidenedBounds(f, before, after);
    LineEndOpen(before, e.oldEnd);
    LineEndOpen(before, f.oldEnd);
    if !AfterRow(f, before, after) && WholeRows(f, before, after) {
      assert Terminator(before[f.oldStart - 1]);
    }
  }

  /** What precedes the first widened edit is the same on both sides. */
  lemma FirstGap(f: Edit, before: Doc, after: Doc)
    requires Complete(before) && Complete(after) && Inside(f, before, after)
    requires f.oldStart == f.newStart && Same(before, 0, after, 0, f.oldStart)
    ensures var v := Widen(f, before, after);
            v.oldStart == v.newStart && Same(before, 0, after, 0, v.oldStart)
  {
    var n := f.oldStart;
    var m := Widen(f, before, after).oldStart;
    if AfterRow(f, before, after) {
      SameLonger(before, 0, after, 0, n);
    } else {
      if !WholeRows(f, before, after) {
        if m > 0 {
          LineStartShift(before, 0, after, 0, n);
        } else {
          LineStartOpen(before, n);
          forall i | 0 <= i < n ensures !Terminator(after[i]) {
            SameCell(before, 0, after, 0, n, i);
          }
          LineStartUnique(after, n, 0);
        }
      }
      SamePart(before, 0, after, 0, n, 0, m);
    }
  }

  /** What follows the last widened edit is the same on both sides. */
  lemma LastGap(e: Edit, before: Doc, after: Doc)
    requires Complete(before) && Complete(after) && Inside(e, before, after)
    requires |after| - e.newEnd == |before| - e.oldEnd && Same(before, e.oldEnd, after, e.newEnd, |before| - e.oldEnd)
    ensures var w := Widen(e, before, after);
            && |after| - w.newEnd == |before| - w.oldEnd
            && Same(before, w.oldEnd, after, w.newEnd, |before| - w.oldEnd)
  {
    var n := |before| - e.oldEnd;
    var w := Widen(e, before, after);
    if AfterRow(e, before, after) || !WholeRows(e, before, after) {
      LineEndShift(before, e.oldEnd, after, e.newEnd, n);
    }
    SameFrom(before, e.oldEnd, after, e.newEnd, n, w.oldEnd, w.newEnd, |before| - w.oldEnd);
  }

  // ----- diff_snapshots

  /** Two texts and the character edits between them, as a buffer reports them: in order,
      with unchanged characters between any two, and none reaching beyond the last character. */
  ghost predicate CharPatch(before: Doc, edits: seq<Edit>, after: Doc) {
    && EndsOnce(before) && Complete(before) && EndsOnce(after) && Complete(after)
    && Patches(before, edits, after) && NewApart(edits)
    && forall k | 0 <= k < |edits| :: Inside(edits[k], before, after)
  }

  lemma GapStretch(before: Doc, edits: seq<Edit>, after: Doc, i: int)
    requires CharPatch(before, edits, after) && 0 <= i <= |edits|
    ensures var n := OldGapEnd(edits, |before|, i) - OldGapStart(edits, i);
            && n == NewGapEnd(edits, |after|, i) - NewGapStart(edits, i)
            && Same(before, OldGapStart(edits, i), after, NewGapStart(edits, i), n)
  {
    PatchesPrefix(before, edits, after, i);
  }

  lemma EditsNeighbour(before: Doc, edits: seq<Edit>, after: Doc, i: int)
    requires CharPatch(before, edits, after) && 0 < i < |edits|
    ensures Neighbours(edits[i - 1], edits[i], before, after)
  {
    GapStretch(before, edits, after, i);
    assert Inside(edits[i - 1], before, after) && Inside(edits[i], before, after);
    assert edits[i - 1].newEnd < edits[i].newStart;
  }

  /** An edit starts a row on one side exactly if it does on the other. */
  lemma StartsAlign(before: Doc, edits: seq<Edit>, after: Doc, i: int)
    requires CharPatch(before, edits, after) && 0 <= i < |edits|
    ensures Inside(edits[i], before, after)
    ensures AtRowStart(before, edits[i].oldStart) <==> AtRowStart(after, edits[i].newStart)
  {
    GapStretch(before, edits, after, i);
    var n := OldGapEnd(edits, |before|, i) - OldGapStart(edits, i);
    if i > 0 {
      assert edits[i - 1].newEnd < edits[i].newStart;
    }
    if n > 0 {
      SameCell(before, OldGapStart(edits, i), after, NewGapStart(edits, i), n, n - 1);
    }
  }

  /** The row edit that `point_to_row_edit` computes for the `i`th character edit. */
  lemma RowEditOf(before: Doc, edits: seq<Edit>, after: Doc, i: int)
    requires CharPatch(before, edits, after) && 0 <= i < |edits|
    ensures Inside(edits[i], before, after)
    ensures var points := ToPoints(edits[i], before, after);
            && 0 <= points.oldStart.row < |Lines(before)| && 0 <= points.newStart.row <= |Lines(after)|
            && PointToRowEdit(points, before, after) == WidenedRows(edits[i], before, after)
  {
    StartsAlign(before, edits, after, i);
    PointToRowEditWidens(edits[i], before, after);
  }

  lemma RowsThree(doc: Doc, a: int, b: int, e: int) returns (left: Text, middle: Text, tail: Text)
    requires 0 <= a <= b <= e <= |doc| && Complete(doc[..a]) && Complete(doc[..b]) && Complete(doc[..e])
    ensures left == Lines(doc[..a]) && Complete(doc[b..e]) && tail == Lines(doc[b..e])
    ensures Lines(doc[..e]) == left + middle + tail
    ensures RowIndex(doc, a) == |left| && RowIndex(doc, b) == |left| + |middle|
  {
    RowsBetween(doc, a, b);
    RowsBetween(doc, b, e);
    left, middle, tail := Lines(doc[..a]), Lines(doc[a..b]), Lines(doc[b..e]);
  }

  /** Rows `a..b` of one text and `c..d` of the other, followed by equal rows, extend a row patch. */
  lemma RowsSnoc(before: Doc, a: int, b: int, e: int, after: Doc, c: int, d: int, f: int,
                 base: Text, rows: seq<Edit>, result: Text)
    returns (base': Text, rows': seq<Edit>, result': Text)
    requires 0 <= a <= b <= e && 0 <= c <= d <= f && e - b == f - d && Same(before, b, after, d, e - b)
    requires Complete(before[..a]) && Complete(before[..b]) && Complete(before[..e])
    requires Complete(after[..c]) && Complete(after[..d]) && Complete(after[..f])
    requires base == Lines(before[..a]) && result == Lines(after[..c]) && Patches(base, rows, result)
    ensures base' == Lines(before[..e]) && result' == Lines(after[..f])
    ensures rows' == rows + [Edit(RowIndex(before, a), RowIndex(before, b), RowIndex(after, c), RowIndex(after, d))]
    ensures Patches(base', rows', result')
  {
    SameSlice(before, b, after, d, e - b, e, f);
    var left, middle, tail := RowsThree(before, a, b, e);
    var left', middle', tail' := RowsThree(after, c, d, f);
    assert tail == tail';
    base', result' := Lines(before[..e]), Lines(after[..f]);
    var edit := Edit(RowIndex(before, a), RowIndex(before, b), RowIndex(after, c), RowIndex(after, d));
    rows' := rows + [edit];
    SnocAt(base, rows, result, middle, middle', tail, base', edit, rows', result');
  }

  lemma SnocAt<T>(base: seq<T>, rows: seq<Edit>, result: seq<T>, removed: seq<T>, added: seq<T>, tail: seq<T>,
                  base': seq<T>, edit: Edit, rows': seq<Edit>, result': seq<T>)
    requires Patches(base, rows, result) && rows' == rows + [edit]
    requires base' == base + removed + tail && result' == result + added + tail
    requires edit == Edit(|base|, |base| + |removed|, |result|, |result| + |added|)
    ensures Patches(base', rows', result')
  {
    PatchesSnoc(base, rows, result, removed, added, tail);
  }

  /** The widened edits from the `first`th up to the `i`th, merged, in rows. */
  function Merged(before: Doc, edits: seq<Edit>, after: Doc, first: int, i: int): Edit
    requires Complete(before) && Complete(after) && 0 <= first < |edits| && 0 <= i < |edits|
    requires Inside(edits[first], before, after) && Inside(edits[i], before, after)
  {
    var start, end := WidenedRows(edits[first], before, after), WidenedRows(edits[i], before, after);
    Edit(start.oldStart, end.oldEnd, start.newStart, end.newEnd)
  }

  /** The old rows before the `i`th widened edit; all rows if there is none. */
  ghost function OldRowsTo(before: Doc, edits: seq<Edit>, after: Doc, i: int): Text
    requires Complete(before) && Complete(after)
  {
    if 0 <= i < |edits| && Inside(edits[i], before, after) then
      WidenBoundaries(edits[i], before, after);
      Lines(before[..Widen(edits[i], before, after).oldStart])
    else Lines(before)
  }

  ghost function NewRowsTo(before: Doc, edits: seq<Edit>, after: Doc, i: int): Text
    requires Complete(before) && Complete(after)
  {
    if 0 <= i < |edits| && Inside(edits[i], before, after) then
      WidenBoundaries(edits[i], before, after);
      Lines(after[..Widen(edits[i], before, after).newStart])
    else Lines(after)
  }

  /** The group from the `first`th to the `i`th widened edit ends behind its start. */
  ghost predicate Grouped(before: Doc, edits: seq<Edit>, after: Doc, first: int, i: int)
    requires Complete(before) && Complete(after) && 0 <= first < |edits| && 0 <= i < |edits|
  {
    && Inside(edits[first], before, after) && Inside(edits[i], before, after)
    && Widen(edits[first], before, after).oldStart <= Widen(edits[i], before, after).oldEnd
    && Widen(edits[first], before, after).newStart <= Widen(edits[i], before, after).newEnd
  }

  /** The merged edits from the `first`th up to the `i`th, and the rows up to the next widened edit. */
  lemma FinishGroup(before: Doc, edits: seq<Edit>, after: Doc, first: int, last: int, i: int,
                    base: Text, rows: seq<Edit>, result: Text)
    returns (base': Text, rows': seq<Edit>, result': Text)
    requires CharPatch(before, edits, after) && 0 <= first <= last < i <= |edits| && last == i - 1
    requires Grouped(before, edits, after, first, last)
    requires Behind(before, edits, after, last, i)
    requires base == OldRowsTo(before, edits, after, first) && result == NewRowsTo(before, edits, after, first)
    requires Patches(base, rows, result)
    ensures base' == OldRowsTo(before, edits, after, i) && result' == NewRowsTo(before, edits, after, i)
    ensures rows' == rows + [Merged(before, edits, after, first, last)] && Patches(base', rows', result')
  {
    var g, w := Widen(edits[first], before, after), Widen(edits[last], before, after);
    WidenBoundaries(edits[first], before, after);
    WidenBoundaries(edits[last], before, after);
    var oldEnd, newEnd := GroupGap(before, edits, after, last, i);
    base', rows', result' := RowsSnoc(before, g.oldStart, w.oldEnd, oldEnd, after, g.newStart, w.newEnd, newEnd,
                                      base, rows, result);
  }

  /** The next widened edit, if there is one, starts behind the last one. */
  ghost predicate Behind(before: Doc, edits: seq<Edit>, after: Doc, last: int, i: int)
    requires Complete(before) && Complete(after) && 0 <= last < |edits| && Inside(edits[last], before, after)
    requires 0 <= i <= |edits|
  {
    i < |edits| ==> Inside(edits[i], before, after) &&
                    WidenedRows(edits[last], before, after).oldEnd < WidenedRows(edits[i], before, after).oldStart
  }

  /** Equal cells follow a widened edit up to the next one, or to the end. */
  lemma GroupGap(before: Doc, edits: seq<Edit>, after: Doc, last: int, i: int) returns (oldEnd: int, newEnd: int)
    requires CharPatch(before, edits, after) && 0 <= last < i <= |edits| && last == i - 1
    requires Inside(edits[last], before, after) && Behind(before, edits, after, last, i)
    ensures GapTo(before, edits, after, last, oldEnd, newEnd)
    ensures Complete(before[..oldEnd]) && OldRowsTo(before, edits, after, i) == Lines(before[..oldEnd])
    ensures Complete(after[..newEnd]) && NewRowsTo(before, edits, after, i) == Lines(after[..newEnd])
  {
    if i < |edits| {
      GapToNext(before, edits, after, last, i);
      WidenBoundaries(edits[i], before, after);
      oldEnd, newEnd := Widen(edits[i], before, after).oldStart, Widen(edits[i], before, after).newStart;
    } else {
      GapToEnd(before, edits, after, last);
      WholeDoc(before);
      WholeDoc(after);
      oldEnd, newEnd := |before|, |after|;
    }
  }

  lemma WholeDoc(doc: Doc)
    ensures doc[..|doc|] == doc
  {
  }

  ghost predicate GapTo(before: Doc, edits: seq<Edit>, after: Doc, last: int, oldEnd: int, newEnd: int)
    requires Complete(before) && Complete(after) && 0 <= last < |edits| && Inside(edits[last], before, after)
  {
    var w := Widen(edits[last], before, after);
    && w.oldEnd <= oldEnd && w.newEnd <= newEnd && oldEnd - w.oldEnd == newEnd - w.newEnd
    && Same(before, w.oldEnd, after, w.newEnd, oldEnd - w.oldEnd)
  }

  lemma GapToNext(before: Doc, edits: seq<Edit>, after: Doc, last: int, i: int)
    requires CharPatch(before, edits, after) && 0 <= last < i < |edits| && last == i - 1
    requires Inside(edits[last], before, after) && Inside(edits[i], before, after) && Behind(before, edits, after, last, i)
    ensures GapTo(before, edits, after, last, Widen(edits[i], before, after).oldStart, Widen(edits[i], before, after).newStart)
  {
    WidenBoundaries(edits[last], before, after);
    WidenBoundaries(edits[i], before, after);
    EditsNeighbour(before, edits, after, i);
    RowOrder(before, Widen(edits[last], before, after).oldEnd, Widen(edits[i], before, after).oldStart);
    WidenedGap(edits[last], edits[i], before, after);
  }

  lemma GapToEnd(before: Doc, edits: seq<Edit>, after: Doc, last: int)
    requires CharPatch(before, edits, after) && 0 <= last == |edits| - 1 && Inside(edits[last], before, after)
    ensures GapTo(before, edits, after, last, |before|, |after|)
  {
    GapStretch(before, edits, after, |edits|);
    LastGap(edits[last], before, after);
  }

  /** What is behind on the old side is behind on the new side. */
  lemma BehindNew(before: Doc, edits: seq<Edit>, after: Doc, last: int, i: int)
    requires CharPatch(before, edits, after) && 0 <= last < i < |edits| && last == i - 1
    requires Inside(edits[last], before, after) && Behind(before, edits, after, last, i)
    ensures WidenedRows(edits[last], before, after).newEnd < WidenedRows(edits[i], before, after).newStart
  {
    var w, v := Widen(edits[last], before, after), Widen(edits[i], before, after);
    WidenBoundaries(edits[last], before, after);
    WidenBoundaries(edits[i], before, after);
    EditsNeighbour(before, edits, after, i);
    RowOrder(before, w.oldEnd, v.oldStart);
    WidenedGap(edits[last], edits[i], before, after);
    RowOrder(after, w.newEnd, v.newStart);
  }

  lemma GroupStarts(before: Doc, edits: seq<Edit>, after: Doc, first: int)
    requires CharPatch(before, edits, after) && 0 <= first < |edits|
    ensures Grouped(before, edits, after, first, first)
  {
    assert Inside(edits[first], before, after);
  }

  lemma GroupGrows(before: Doc, edits: seq<Edit>, after: Doc, first: int, i: int)
    requires CharPatch(before, edits, after) && 0 <= first <= i < |edits| - 1
    requires Grouped(before, edits, after, first, i)
    ensures Grouped(before, edits, after, first, i + 1)
  {
    EditsNeighbour(before, edits, after, i + 1);
    WidenedEndsOrdered(edits[i], edits[i + 1], before, after);
  }

  /** The group from the `first`th edit on may reach any later edit. */
  lemma {:induction false} GroupReaches(before: Doc, edits: seq<Edit>, after: Doc, first: int, last: int)
    requires CharPatch(before, edits, after) && 0 <= first <= last < |edits|
    ensures Grouped(before, edits, after, first, last)
    decreases last
  {
    if first == last {
      GroupStarts(before, edits, after, first);
    } else {
      GroupReaches(before, edits, after, first, last - 1);
      GroupGrows(before, edits, after, first, last - 1);
    }
  }

  /** The `k`th character edit widened, in rows. */
  ghost function RowsOf(before: Doc, edits: seq<Edit>, after: Doc, k: int): Edit
    requires Complete(before) && Complete(after)
  {
    if 0 <= k < |edits| && Inside(edits[k], before, after) then WidenedRows(edits[k], before, after) else Edit(0, 0, 0, 0)
  }

  ghost function MappedEdits(before: Doc, edits: seq<Edit>, after: Doc, n: int): (rows: seq<Edit>)
    requires Complete(before) && Complete(after)
    ensures |rows| == if n <= 0 then 0 else n
  {
    if n <= 0 then [] else MappedEdits(before, edits, after, n - 1) + [RowsOf(before, edits, after, n - 1)]
  }

  lemma {:induction false} MappedAt(before: Doc, edits: seq<Edit>, after: Doc, n: int, k: int)
    requires Complete(before) && Complete(after) && 0 <= k < n
    ensures MappedEdits(before, edits, after, n)[k] == RowsOf(before, edits, after, k)
  {
    if k < n - 1 {
      MappedAt(before, edits, after, n - 1, k);
    }
  }

  method NextRowEdit(before: Doc, edits: seq<Edit>, after: Doc, i: int) returns (rowEdit: Edit)
    requires CharPatch(before, edits, after) && 0 <= i < |edits|
    ensures rowEdit == RowsOf(before, edits, after, i)
  {
    RowEditOf(before, edits, after, i);
    rowEdit := PointToRowEdit(ToPoints(edits[i], before, after), before, after);
  }

  /** Maps every character edit to its row edit. */
  method MapToRowEdits(before: Doc, edits: seq<Edit>, after: Doc) returns (mapped: seq<Edit>)
    requires CharPatch(before, edits, after)
    ensures mapped == MappedEdits(before, edits, after, |edits|)
  {
    mapped := [];
    for i := 0 to |edits|
      invariant mapped == MappedEdits(before, edits, after, i)
    {
      var rowEdit := NextRowEdit(before, edits, after, i);
      mapped := mapped + [rowEdit];
    }
  }

  /** The mapped edits from the `first`th up to the `last`th, merged. */
  ghost function RowsMerged(before: Doc, edits: seq<Edit>, after: Doc, first: int, last: int): Edit
    requires Complete(before) && Complete(after)
  {
    var r, s := RowsOf(before, edits, after, first), RowsOf(before, edits, after, last);
    Edit(r.oldStart, s.oldEnd, r.newStart, s.newEnd)
  }

  /** The `i`th mapped edit, if there is one, does not touch the merged one. */
  ghost predicate StopsAfter(before: Doc, edits: seq<Edit>, after: Doc, i: int, edit: Edit)
    requires Complete(before) && Complete(after)
  {
    i < |edits| ==> edit.oldEnd < RowsOf(before, edits, after, i).oldStart
  }

  lemma MergedRows(before: Doc, edits: seq<Edit>, after: Doc, edit: Edit, first: int, last: int, i: int)
    requires CharPatch(before, edits, after) && 0 <= first <= last < i <= |edits| && last == i - 1
    requires edit == RowsMerged(before, edits, after, first, last) && StopsAfter(before, edits, after, i, edit)
    ensures Grouped(before, edits, after, first, last) && edit == Merged(before, edits, after, first, last)
    ensures Behind(before, edits, after, last, i)
  {
    GroupReaches(before, edits, after, first, last);
    if i < |edits| {
      assert Inside(edits[i], before, after);
    }
  }

  lemma MappedRows(before: Doc, edits: seq<Edit>, after: Doc, edit: Edit, first: int, last: int, i: int)
    requires Complete(before) && Complete(after) && 0 <= first <= last < i <= |edits| && last == i - 1
    requires var mapped := MappedEdits(before, edits, after, |edits|);
             && edit == Edit(mapped[first].oldStart, mapped[last].oldEnd, mapped[first].newStart, mapped[last].newEnd)
             && (i < |edits| ==> edit.oldEnd < mapped[i].oldStart)
    ensures edit == RowsMerged(before, edits, after, first, last) && StopsAfter(before, edits, after, i, edit)
  {
    MappedAt(before, edits, after, |edits|, first);
    MappedAt(before, edits, after, |edits|, last);
    if i < |edits| {
      MappedAt(before, edits, after, |edits|, i);
    }
  }

  /** Row edits found so far: apart, and before row `limit` of the new text. */
  ghost predicate ApartBefore(rows: seq<Edit>, limit: int) {
    NewApart(rows) && forall k | 0 <= k < |rows| :: rows[k].newEnd < limit
  }

  /** The new row at which the `i`th widened edit starts; behind all rows if there is none. */
  ghost function NewRowOf(before: Doc, edits: seq<Edit>, after: Doc, i: int): int
    requires Complete(before) && Complete(after)
  {
    if 0 <= i < |edits| && Inside(edits[i], before, after) then WidenedRows(edits[i], before, after).newStart
    else |Lines(after)| + 1
  }

  lemma ApartSnoc(before: Doc, edits: seq<Edit>, after: Doc, first: int, last: int, i: int, rows: seq<Edit>)
    requires CharPatch(before, edits, after) && 0 <= first <= last < i <= |edits| && last == i - 1
    requires Grouped(before, edits, after, first, last) && Behind(before, edits, after, last, i)
    requires ApartBefore(rows, NewRowOf(before, edits, after, first))
    ensures ApartBefore(rows + [Merged(before, edits, after, first, last)], NewRowOf(before, edits, after, i))
  {
    var e := Merged(before, edits, after, first, last);
    WidenBoundaries(edits[first], before, after);
    WidenBoundaries(edits[last], before, after);
    RowOrder(after, Widen(edits[last], before, after).newEnd, Widen(edits[first], before, after).newStart);
    assert e.newStart <= e.newEnd;
    if i < |edits| {
      BehindNew(before, edits, after, last, i);
    } else {
      assert after[..|after|] == after;
      RowOrder(after, |after|, Widen(edits[last], before, after).newEnd);
    }
  }

  lemma AddGroupRows(before: Doc, edits: seq<Edit>, after: Doc, edit: Edit, first: int, last: int, i: int,
                     rows: seq<Edit>, rows': seq<Edit>)
    requires CharPatch(before, edits, after) && 0 <= first <= last < i <= |edits| && last == i - 1 && rows' == rows + [edit]
    requires edit == RowsMerged(before, edits, after, first, last) && StopsAfter(before, edits, after, i, edit)
    requires Patches(OldRowsTo(before, edits, after, first), rows, NewRowsTo(before, edits, after, first))
    ensures Patches(OldRowsTo(before, edits, after, i), rows', NewRowsTo(before, edits, after, i))
  {
    MergedRows(before, edits, after, edit, first, last, i);
    var base, found, result := FinishGroup(before, edits, after, first, last, i,
      OldRowsTo(before, edits, after, first), rows, NewRowsTo(before, edits, after, first));
  }

  lemma AddGroupApart(before: Doc, edits: seq<Edit>, after: Doc, edit: Edit, first: int, last: int, i: int,
                      rows: seq<Edit>, rows': seq<Edit>)
    requires CharPatch(before, edits, after) && 0 <= first <= last < i <= |edits| && last == i - 1 && rows' == rows + [edit]
    requires edit == RowsMerged(before, edits, after, first, last) && StopsAfter(before, edits, after, i, edit)
    requires ApartBefore(rows, NewRowOf(before, edits, after, first))
    ensures ApartBefore(rows', NewRowOf(before, edits, after, i))
  {
    MergedRows(before, edits, after, edit, first, last, i);
    ApartSnoc(before, edits, after, first, last, i, rows);
  }

  /** Adding one group to the row edits. */
  lemma AddGroup(before: Doc, edits: seq<Edit>, after: Doc, mapped: seq<Edit>, edit: Edit, first: int, last: int, i: int,
                 rows: seq<Edit>, rows': seq<Edit>)
    requires CharPatch(before, edits, after) && mapped == MappedEdits(before, edits, after, |edits|)
    requires 0 <= first <= last < i <= |edits| && last == i - 1 && rows' == rows + [edit]
    requires edit == Joined(mapped[first], mapped[last]) && (i < |edits| ==> edit.oldEnd < mapped[i].oldStart)
    requires RowPatch(before, edits, after, first, rows)
    ensures RowPatch(before, edits, after, i, rows')
  {
    MappedRows(before, edits, after, edit, first, last, i);
    AddGroupRows(before, edits, after, edit, first, last, i, rows, rows');
    AddGroupApart(before, edits, after, edit, first, last, i, rows, rows');
  }

  /** The row edits take the old rows before the `i`th widened edit to the new rows, and lie apart. */
  ghost predicate RowPatch(before: Doc, edits: seq<Edit>, after: Doc, i: int, rows: seq<Edit>)
    requires Complete(before) && Complete(after)
  {
    && Patches(OldRowsTo(before, edits, after, i), rows, NewRowsTo(before, edits, after, i))
    && ApartBefore(rows, NewRowOf(before, edits, after, i))
  }

  /** Up to any cut, the runs of the mapped edits are a row patch. */
  lemma {:induction false} RunsPatch(before: Doc, edits: seq<Edit>, after: Doc, mapped: seq<Edit>, i: int)
    returns (rows: seq<Edit>)
    requires CharPatch(before, edits, after) && mapped == MappedEdits(before, edits, after, |edits|)
    requires 0 <= i <= |mapped| && Cut(mapped, i)
    ensures rows == Runs(mapped[..i]) && RowPatch(before, edits, after, i, rows)
    decreases i
  {
    rows := Runs(mapped[..i]);
    if i == 0 {
      FirstRows(before, edits, after);
    } else {
      var first := GroupStart(mapped, i);
      var edit := Joined(mapped[first], mapped[i - 1]);
      var rest := RunsPatch(before, edits, after, mapped, first);
      RunsGroup(mapped, first, i);
      AddGroup(before, edits, after, mapped, edit, first, i - 1, i, rest, rows);
    }
  }

  lemma RunsPatchAll(before: Doc, edits: seq<Edit>, after: Doc, mapped: seq<Edit>)
    requires CharPatch(before, edits, after) && mapped == MappedEdits(before, edits, after, |edits|)
    ensures Patches(Lines(before), Runs(mapped), Lines(after)) && NewApart(Runs(mapped))
  {
    assert mapped[..|mapped|] == mapped;
    var rows := RunsPatch(before, edits, after, mapped, |mapped|);
  }

  // ----- the hunks of a diff

  /** The edit changes something. */
  predicate Changes(e: Edit) {
    e.oldStart < e.oldEnd || e.newStart < e.newEnd
  }

  /** A widened edit is empty only if the edit was. */
  lemma WidenedChanges(e: Edit, before: Doc, after: Doc)
    requires Complete(before) && Complete(after) && Inside(e, before, after) && Changes(e)
    ensures Changes(WidenedRows(e, before, after)) && !IsEmpty(WidenedRows(e, before, after))
  {
    var w := Widen(e, before, after);
    WidenBoundaries(e, before, after);
    RowOrder(before, w.oldStart, w.oldEnd);
    RowOrder(after, w.newStart, w.newEnd);
  }

  lemma WidenedOrdered(e: Edit, before: Doc, after: Doc)
    requires Complete(before) && Complete(after) && Inside(e, before, after)
    ensures WidenedRows(e, before, after).Ordered()
  {
    var w := Widen(e, before, after);
    WidenBoundaries(e, before, after);
    RowOrder(before, w.oldEnd, w.oldStart);
    RowOrder(after, w.newEnd, w.newStart);
  }

  lemma FirstRows(before: Doc, edits: seq<Edit>, after: Doc)
    requires CharPatch(before, edits, after)
    ensures Patches(OldRowsTo(before, edits, after, 0), [], NewRowsTo(before, edits, after, 0))
  {
    GapStretch(before, edits, after, 0);
    var base, result := Lines(before), Lines(after);
    if edits == [] {
      assert before == before[0..|before|] == after[0..|after|] == after;
    } else {
      assert Inside(edits[0], before, after);
      FirstGap(edits[0], before, after);
      WidenBoundaries(edits[0], before, after);
      var w := Widen(edits[0], before, after);
      assert before[..w.oldStart] == before[0..w.oldStart] && after[..w.newStart] == after[0..w.newStart];
      base, result := Lines(before[..w.oldStart]), Lines(after[..w.newStart]);
    }
    assert GapSame(base, [], result, 0);
  }
}
