/** Edits of whole rows, as a buffer reports them: character edits between row starts, and the row edits they are
    widened to. */
module RowEdits {
  import opened Merging
  import opened Patching
  import opened Rows
  import opened Selection
  import opened TextPatches
  import opened Widening

  /** A row that holds nothing but its line break, and a last row that holds nothing. */
  const BLANK: Row := [Ch('\n')]
  const NOTHING: Row := [End]

  // ----- rows and positions

  /** The position at which a row starts. */
  function Offset(text: Text, row: int): (p: int)
    requires 0 <= row <= |text|
    ensures 0 <= p
  {
    |Join(text[..row])|
  }

  /** The position up to which characters are replaced when rows are replaced up to this one: the end of the text has none. */
  function Reach(text: Text, row: int): int
    requires 0 <= row <= |text|
  {
    if row == |text| then Offset(text, row) - 1 else Offset(text, row)
  }

  lemma OffsetSplits(text: Text, a: int, b: int)
    requires 0 <= a <= b <= |text|
    ensures Offset(text, b) == Offset(text, a) + |Join(text[a..b])|
    ensures Offset(text, b) <= |Join(text)|
    ensures Join(text)[..Offset(text, a)] == Join(text[..a])
    ensures Join(text)[Offset(text, a)..Offset(text, b)] == Join(text[a..b])
  {
    assert text[..b] == text[..a] + text[a..b] && text == text[..b] + text[b..];
    JoinConcat(text[..a], text[a..b]);
    JoinConcat(text[..b], text[b..]);
  }

  lemma OffsetEnds(text: Text)
    ensures Offset(text, 0) == 0 && Offset(text, |text|) == |Join(text)|
  {
    assert text[..|text|] == text;
  }

  lemma PartRows(text: Text, a: int, b: int)
    requires IsText(text) && 0 <= a <= b <= |text|
    ensures AllRows(text[a..b])
  {
  }

  lemma RowAtOffset(text: Text, row: int)
    requires IsText(text) && 0 <= row < |text|
    ensures Offset(text, row + 1) == Offset(text, row) + |text[row]| <= |Join(text)| && |text[row]| > 0
    ensures Join(text)[Offset(text, row)..Offset(text, row + 1)] == text[row]
  {
    OffsetSplits(text, row, row + 1);
    assert text[row..row + 1] == [text[row]];
    JoinCons(text[row], []);
    assert text[row] + [] == text[row];
    RowAt(text, row);
  }

  lemma {:induction false} OffsetOrder(text: Text, a: int, b: int)
    requires IsText(text) && 0 <= a <= b <= |text|
    ensures Offset(text, a) <= Offset(text, b) <= |Join(text)|
    ensures a < b ==> Offset(text, a) < Offset(text, b)
    decreases b - a
  {
    OffsetSplits(text, a, b);
    if a < b {
      RowAtOffset(text, a);
      OffsetSplits(text, a + 1, b);
    }
  }

  /** A row start is a row boundary, and the rows before it are counted by its row. */
  lemma OffsetIsBoundary(text: Text, row: int)
    requires IsText(text) && 0 <= row <= |text|
    ensures Complete(Join(text)) && Offset(text, row) <= |Join(text)|
    ensures Complete(Join(text)[..Offset(text, row)]) && RowIndex(Join(text), Offset(text, row)) == row
  {
    OffsetSplits(text, row, |text|);
    PartRows(text, 0, row);
    LinesJoin(text[..row]);
    LinesJoin(text);
  }

  lemma CellOfRow(text: Text, row: int, i: int)
    requires IsText(text) && 0 <= row < |text| && 0 <= i < |text[row]|
    ensures Offset(text, row) + i < |Join(text)| && Join(text)[Offset(text, row) + i] == text[row][i]
  {
    RowAtOffset(text, row);
    assert Join(text)[Offset(text, row)..Offset(text, row + 1)][i] == Join(text)[Offset(text, row) + i];
  }

  /** The line of a row start ends with the row. */
  lemma RowEnd(text: Text, row: int)
    requires IsText(text) && 0 <= row < |text|
    ensures var doc, p := Join(text), Offset(text, row);
            Complete(doc) && p < |doc| && LineEnd(doc, p) == Offset(text, row + 1)
  {
    var doc, p, cells := Join(text), Offset(text, row), text[row];
    OffsetIsBoundary(text, row);
    RowAtOffset(text, row);
    RowAt(text, row);
    forall i | p <= i < p + |cells| - 1 ensures !Terminator(doc[i]) {
      CellOfRow(text, row, i - p);
    }
    CellOfRow(text, row, |cells| - 1);
    LineEndUnique(doc, p, p + |cells|);
  }

  /** Where a row starts. */
  lemma RowStart(text: Text, row: int)
    requires IsText(text) && 0 <= row < |text|
    ensures var doc, p := Join(text), Offset(text, row);
            && p < |doc| && AtRowStart(doc, p) && LineStart(doc, p) == p
            && (LineBreakAt(doc, p) <==> text[row] == BLANK)
  {
    var doc, p := Join(text), Offset(text, row);
    OffsetIsBoundary(text, row);
    RowAtOffset(text, row);
    if p > 0 {
      assert doc[..p][p - 1] == doc[p - 1];
    }
    CellOfRow(text, row, 0);
    RowAt(text, row);
    assert Terminator(text[row][0]) ==> |text[row]| == 1;
  }

  /** The end of the text: whether its last row holds nothing. */
  lemma TextEnd(text: Text)
    requires IsText(text)
    ensures var doc := Join(text);
            && Complete(doc) && 0 < |doc| && Reach(text, |text|) == |doc| - 1 && LineEnd(doc, |doc| - 1) == |doc|
            && (AtRowStart(doc, |doc| - 1) <==> text[|text| - 1] == NOTHING)
            && (text[|text| - 1] == NOTHING ==> Offset(text, |text| - 1) == |doc| - 1)
  {
    var doc, n := Join(text), |text| - 1;
    OffsetEnds(text);
    RowAtOffset(text, n);
    RowAt(text, n);
    LastCellEnds(text, n, doc);
    LastRowStart(text, n, text[n], doc);
  }

  lemma LastCellEnds(text: Text, n: int, doc: Doc)
    requires IsText(text) && n == |text| - 1 && doc == Join(text) && 0 < |doc| && Offset(text, n) + |text[n]| == |doc|
    ensures Complete(doc) && LineEnd(doc, |doc| - 1) == |doc|
  {
    OffsetIsBoundary(text, n);
    RowAt(text, n);
    CellOfRow(text, n, |text[n]| - 1);
    TerminatorEndsLine(doc, |doc| - 1);
  }

  lemma LastRowStart(text: Text, n: int, last: Row, doc: Doc)
    requires IsText(text) && n == |text| - 1 && last == text[n] && doc == Join(text)
    requires 0 < |last| <= |doc| && Offset(text, n) + |last| == |doc| && IsRow(last) && EndsText(last)
    ensures AtRowStart(doc, |doc| - 1) <==> last == NOTHING
  {
    if |last| > 1 {
      CellOfRow(text, n, |last| - 2);
    } else {
      RowStart(text, n);
    }
  }

  // ----- whole rows as characters

  /** The character edit that replaces the rows. */
  function RowChars(s: Edit, before: Text, after: Text): Edit
    requires InTexts(s, before, after)
  {
    Edit(Offset(before, s.oldStart), Reach(before, s.oldEnd), Offset(after, s.newStart), Reach(after, s.newEnd))
  }

  predicate InTexts(s: Edit, before: Text, after: Text) {
    0 <= s.oldStart <= s.oldEnd <= |before| && 0 <= s.newStart <= s.newEnd <= |after|
  }

  ghost function AllRowChars(rows: seq<Edit>, before: Text, after: Text): (chars: seq<Edit>)
    requires forall k | 0 <= k < |rows| :: InTexts(rows[k], before, after)
    ensures |chars| == |rows| && forall k | 0 <= k < |rows| :: chars[k] == RowChars(rows[k], before, after)
  {
    seq(|rows|, k requires 0 <= k < |rows| => RowChars(rows[k], before, after))
  }

  /** Edits of whole rows from one text to another, apart, each starting at a row of both. */
  ghost predicate WholeRowPatch(before: Text, rows: seq<Edit>, after: Text) {
    && IsText(before) && IsText(after) && Patches(before, rows, after) && NewApart(rows)
    && forall k | 0 <= k < |rows| :: rows[k].OldLen() > 0 || rows[k].NewLen() > 0
  }

  lemma WholeRowsIn(before: Text, rows: seq<Edit>, after: Text, k: int)
    requires WholeRowPatch(before, rows, after) && 0 <= k < |rows|
    ensures InTexts(rows[k], before, after) && rows[k].oldStart < |before| && rows[k].newStart < |after|
    ensures rows[k].oldEnd == |before| <==> rows[k].newEnd == |after|
  {
    PatchesPlaced(before, rows, after);
    PlacedAt(rows, |before|, |after|, k);
    PatchFlushAt(before, rows, after, k);
  }

  lemma RowCharsInside(s: Edit, before: Text, after: Text)
    requires IsText(before) && IsText(after) && InTexts(s, before, after)
    requires s.oldStart < |before| && s.newStart < |after|
    ensures Inside(RowChars(s, before, after), Join(before), Join(after))
  {
    ReachInside(before, s.oldStart, s.oldEnd);
    ReachInside(after, s.newStart, s.newEnd);
  }

  lemma ReachInside(text: Text, a: int, b: int)
    requires IsText(text) && 0 <= a <= b <= |text| && a < |text|
    ensures 0 <= Offset(text, a) <= Reach(text, b) < |Join(text)|
    ensures b < |text| ==> Reach(text, b) == Offset(text, b)
  {
    OffsetEnds(text);
    OffsetOrder(text, a, b);
    if b < |text| {
      OffsetOrder(text, b, |text|);
    } else {
      OffsetOrder(text, a, |text|);
    }
  }

  lemma ReachOrder(text: Text, a: int, b: int)
    requires IsText(text) && 0 <= a < b < |text|
    ensures Reach(text, a) < Offset(text, b)
  {
    OffsetOrder(text, a, b);
  }

  /** Equal rows are equal characters, up to the next edit. */
  lemma InnerGap(before: Text, rows: seq<Edit>, after: Text, i: int, chars: seq<Edit>)
    requires WholeRowPatch(before, rows, after) && 0 <= i < |rows|
    requires |chars| == |rows| && forall k | 0 <= k < |rows| :: InTexts(rows[k], before, after) && chars[k] == RowChars(rows[k], before, after)
    ensures GapSame(Join(before), chars, Join(after), i)
  {
    assert GapSame(before, rows, after, i);
    var x, y, u, v := OldGapStart(rows, i), OldGapEnd(rows, |before|, i), NewGapStart(rows, i), NewGapEnd(rows, |after|, i);
    WholeRowsIn(before, rows, after, i);
    OffsetEnds(before);
    OffsetEnds(after);
    OffsetSplits(before, x, y);
    OffsetSplits(after, u, v);
    if i > 0 {
      assert rows[i - 1].newEnd < rows[i].newStart;
      WholeRowsIn(before, rows, after, i - 1);
    }
    GapFrom(Join(before), chars, Join(after), i, Offset(before, x), Offset(before, y), Offset(after, u), Offset(after, v));
  }

  /** The same behind the last edit, where only the mark of the end may be left. */
  lemma LastGapSame(before: Text, rows: seq<Edit>, after: Text, chars: seq<Edit>)
    requires WholeRowPatch(before, rows, after)
    requires |chars| == |rows| && forall k | 0 <= k < |rows| :: InTexts(rows[k], before, after) && chars[k] == RowChars(rows[k], before, after)
    ensures GapSame(Join(before), chars, Join(after), |rows|)
  {
    var i := |rows|;
    assert GapSame(before, rows, after, i);
    var x, u := OldGapStart(rows, i), NewGapStart(rows, i);
    OffsetEnds(before);
    OffsetEnds(after);
    OffsetSplits(before, x, |before|);
    OffsetSplits(after, u, |after|);
    if i > 0 {
      WholeRowsIn(before, rows, after, i - 1);
    }
    if x == |before| {
      EndCell(before);
      EndCell(after);
      GapFrom(Join(before), chars, Join(after), i, Reach(before, x), |Join(before)|, Reach(after, u), |Join(after)|);
    } else {
      GapFrom(Join(before), chars, Join(after), i, Offset(before, x), |Join(before)|, Offset(after, u), |Join(after)|);
    }
  }

  lemma EndCell(text: Text)
    requires IsText(text)
    ensures var doc := Join(text); 0 < |doc| && Reach(text, |text|) == |doc| - 1 && doc[|doc| - 1..|doc|] == [End]
  {
    TextEnd(text);
    EndInText(text);
    var doc := Join(text);
    assert doc[|doc| - 1..|doc|] == [doc[|doc| - 1]];
  }

  /** Edits of whole rows are character edits, as a buffer reports them. */
  lemma RowCharsPatch(before: Text, rows: seq<Edit>, after: Text) returns (chars: seq<Edit>)
    requires WholeRowPatch(before, rows, after)
    ensures forall k | 0 <= k < |rows| :: InTexts(rows[k], before, after)
    ensures chars == AllRowChars(rows, before, after) && CharPatch(Join(before), chars, Join(after))
  {
    forall k | 0 <= k < |rows| ensures InTexts(rows[k], before, after) {
      WholeRowsIn(before, rows, after, k);
    }
    chars := AllRowChars(rows, before, after);
    EndInText(before);
    EndInText(after);
    OffsetIsBoundary(before, 0);
    OffsetIsBoundary(after, 0);
    forall i | 0 <= i <= |chars| ensures GapSame(Join(before), chars, Join(after), i) {
      if i < |rows| {
        InnerGap(before, rows, after, i, chars);
      } else {
        LastGapSame(before, rows, after, chars);
      }
    }
    forall k | 0 <= k < |chars| ensures Inside(chars[k], Join(before), Join(after)) && chars[k].Ordered() {
      WholeRowsIn(before, rows, after, k);
      RowCharsInside(rows[k], before, after);
    }
    forall i, j | 0 <= i < j < |chars| ensures chars[i].newEnd < chars[j].newStart {
      WholeRowsIn(before, rows, after, i);
      WholeRowsIn(before, rows, after, j);
      assert rows[i].newEnd < rows[j].newStart;
      ReachOrder(after, rows[i].newEnd, rows[j].newStart);
    }
  }

  // ----- whole rows widened

  /** The end of the row behind the given ones, or of the text. */
  function UpTo(text: Text, row: int): int {
    if row < |text| then row + 1 else row
  }

  /** The edit starts at a blank row of both texts: the row edit found for it starts one row too late. */
  predicate StartsBlank(s: Edit, before: Text, after: Text)
    requires 0 <= s.oldStart < |before| && 0 <= s.newStart < |after|
  {
    before[s.oldStart] == BLANK && after[s.newStart] == BLANK
  }

  /** The edit ends with the texts, and both end with an empty row: the row edit found for it does not reach that row. */
  predicate EndsEmpty(s: Edit, before: Text, after: Text)
    requires before != [] && after != []
  {
    s.oldEnd == |before| && before[|before| - 1] == NOTHING && after[|after| - 1] == NOTHING
  }

  /** The row edit found for an edit of whole rows. */
  function FoundRows(s: Edit, before: Text, after: Text): Edit
    requires 0 <= s.oldStart < |before| && 0 <= s.newStart < |after|
  {
    if StartsBlank(s, before, after)
    then Edit(s.oldStart + 1, UpTo(before, s.oldEnd), s.newStart + 1, UpTo(after, s.newEnd))
    else if EndsEmpty(s, before, after) then Edit(s.oldStart, s.oldEnd - 1, s.newStart, s.newEnd - 1)
    else s
  }

  /** Where the line of the end of replaced rows ends. */
  lemma ReachEnd(text: Text, row: int)
    requires IsText(text) && 0 <= row <= |text|
    ensures var doc, p := Join(text), Reach(text, row);
            && Complete(doc) && 0 <= p < |doc| && Complete(doc[..LineEnd(doc, p)])
            && RowIndex(doc, LineEnd(doc, p)) == UpTo(text, row)
            && (AtRowStart(doc, p) <==> row < |text| || text[|text| - 1] == NOTHING)
            && (AtRowStart(doc, p) ==> Complete(doc[..p]) && RowIndex(doc, p) == if row < |text| then row else |text| - 1)
  {
    TextEnd(text);
    OffsetEnds(text);
    if row < |text| {
      RowEnd(text, row);
      RowStart(text, row);
      OffsetIsBoundary(text, row);
      OffsetIsBoundary(text, row + 1);
    } else {
      OffsetIsBoundary(text, |text|);
      OffsetIsBoundary(text, |text| - 1);
    }
  }

  /** Behind a blank row starts the next one. */
  lemma BehindBlank(text: Text, row: int)
    requires IsText(text) && 0 <= row < |text| && text[row] == BLANK
    ensures Offset(text, row + 1) == Offset(text, row) + 1 <= |Join(text)|
    ensures Complete(Join(text)[..Offset(text, row) + 1]) && RowIndex(Join(text), Offset(text, row) + 1) == row + 1
  {
    RowAtOffset(text, row);
    OffsetIsBoundary(text, row + 1);
  }

  /** What is known of the ends of the character edit that replaces whole rows. */
  lemma RowCharsEnds(s: Edit, before: Text, after: Text) returns (e: Edit, was: Doc, now: Doc)
    requires IsText(before) && IsText(after) && InTexts(s, before, after)
    requires s.oldStart < |before| && s.newStart < |after| && (s.oldEnd == |before| <==> s.newEnd == |after|)
    ensures e == RowChars(s, before, after) && was == Join(before) && now == Join(after)
    ensures Complete(was) && Complete(now) && Inside(e, was, now)
    ensures AfterRow(e, was, now) <==> StartsBlank(s, before, after)
    ensures WholeRows(e, was, now) <==> s.oldEnd < |before| || EndsEmpty(s, before, after)
    ensures LineStart(was, e.oldStart) == e.oldStart && LineStart(now, e.newStart) == e.newStart
  {
    e, was, now := RowChars(s, before, after), Join(before), Join(after);
    RowCharsInside(s, before, after);
    RowStart(before, s.oldStart);
    RowStart(after, s.newStart);
    ReachEnd(before, s.oldEnd);
    ReachEnd(after, s.newEnd);
  }

  ghost predicate RowsInTexts(s: Edit, before: Text, after: Text) {
    && IsText(before) && IsText(after) && InTexts(s, before, after)
    && s.oldStart < |before| && s.newStart < |after| && (s.oldEnd == |before| <==> s.newEnd == |after|)
  }

  lemma WidenedBlank(s: Edit, before: Text, after: Text) returns (e: Edit, was: Doc, now: Doc)
    requires RowsInTexts(s, before, after) && StartsBlank(s, before, after)
    ensures e == RowChars(s, before, after) && was == Join(before) && now == Join(after)
    ensures Complete(was) && Complete(now) && Inside(e, was, now) && WidenedRows(e, was, now) == FoundRows(s, before, after)
  {
    e, was, now := RowCharsEnds(s, before, after);
    var a, b, c, d := AfterRowEnds(e, was, now);
    BlankRows(before, s.oldStart, s.oldEnd, was, a, b);
    BlankRows(after, s.newStart, s.newEnd, now, c, d);
  }

  lemma BlankRows(text: Text, row: int, end: int, doc: Doc, a: int, b: int)
    requires IsText(text) && 0 <= row < |text| && row <= end <= |text| && text[row] == BLANK && doc == Join(text)
    requires Complete(doc) && 0 <= Reach(text, end) < |doc| && a == Offset(text, row) + 1 && b == LineEnd(doc, Reach(text, end))
    ensures 0 <= a <= |doc| && Complete(doc[..a]) && RowIndex(doc, a) == row + 1 && RowIndex(doc, b) == UpTo(text, end)
  {
    BehindBlank(text, row);
    ReachEnd(text, end);
  }

  lemma WidenedWhole(s: Edit, before: Text, after: Text) returns (e: Edit, was: Doc, now: Doc)
    requires RowsInTexts(s, before, after) && !StartsBlank(s, before, after)
    requires s.oldEnd < |before| || EndsEmpty(s, before, after)
    ensures e == RowChars(s, before, after) && was == Join(before) && now == Join(after)
    ensures Complete(was) && Complete(now) && Inside(e, was, now) && WidenedRows(e, was, now) == FoundRows(s, before, after)
  {
    e, was, now := RowCharsEnds(s, before, after);
    WidenBoundaries(e, was, now);
    ReachEnd(before, s.oldEnd);
    ReachEnd(after, s.newEnd);
    OffsetIsBoundary(before, s.oldStart);
    OffsetIsBoundary(after, s.newStart);
    InRowsOf(Widen(e, was, now), was, now, e.oldStart, e.oldEnd, e.newStart, e.newEnd);
  }

  lemma WidenedPartly(s: Edit, before: Text, after: Text) returns (e: Edit, was: Doc, now: Doc)
    requires RowsInTexts(s, before, after) && !StartsBlank(s, before, after)
    requires s.oldEnd == |before| && !EndsEmpty(s, before, after)
    ensures e == RowChars(s, before, after) && was == Join(before) && now == Join(after)
    ensures Complete(was) && Complete(now) && Inside(e, was, now) && WidenedRows(e, was, now) == FoundRows(s, before, after)
  {
    e, was, now := RowCharsEnds(s, before, after);
    WidenBoundaries(e, was, now);
    ReachEnd(before, s.oldEnd);
    ReachEnd(after, s.newEnd);
    OffsetIsBoundary(before, s.oldStart);
    OffsetIsBoundary(after, s.newStart);
    InRowsOf(Widen(e, was, now), was, now, e.oldStart, LineEnd(was, e.oldEnd), e.newStart, LineEnd(now, e.newEnd));
  }

  /** Widening the character edit of whole rows finds those rows, but for blank rows at its start and an empty row at the end. */
  lemma WidenedRowChars(s: Edit, before: Text, after: Text)
    requires IsText(before) && IsText(after) && InTexts(s, before, after)
    requires s.oldStart < |before| && s.newStart < |after| && (s.oldEnd == |before| <==> s.newEnd == |after|)
    ensures var e := RowChars(s, before, after);
            && Complete(Join(before)) && Complete(Join(after)) && Inside(e, Join(before), Join(after))
            && WidenedRows(e, Join(before), Join(after)) == FoundRows(s, before, after)
  {
    if StartsBlank(s, before, after) {
      var e, was, now := WidenedBlank(s, before, after);
    } else if s.oldEnd < |before| || EndsEmpty(s, before, after) {
      var e, was, now := WidenedWhole(s, before, after);
    } else {
      var e, was, now := WidenedPartly(s, before, after);
    }
  }
}
