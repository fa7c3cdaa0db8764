/** `diff_snapshots`: the row edits between two texts, and how far they reach. */
module RowDiffs {
  import opened Merging
  import opened Patching
  import opened Rows
  import opened Selection
  import opened Widening

  // ----- where rows lie

  /** The position of the first cell of a row; behind the text for the row behind the last. */
  function RowStart(doc: Doc, row: int): int
    requires Complete(doc) && 0 <= row <= |Lines(doc)|
  {
    |Join(Lines(doc)[..row])|
  }

  /** The row meets or borders the stretch from `a` to `b`. */
  predicate RowMeets(doc: Doc, row: int, a: int, b: int)
    requires Complete(doc) && 0 <= row < |Lines(doc)|
  {
    RowStart(doc, row) <= b && a <= RowStart(doc, row + 1)
  }

  lemma {:induction false} JoinSnoc(text: Text, row: Row)
    ensures |Join(text + [row])| == |Join(text)| + |row|
  {
    if text != [] {
      JoinSnoc(text[1..], row);
      assert (text + [row])[1..] == text[1..] + [row];
    } else {
      assert [row][1..] == [];
    }
  }

  lemma NextRowStart(doc: Doc, row: int)
    requires Complete(doc) && 0 <= row < |Lines(doc)|
    ensures RowStart(doc, row + 1) == RowStart(doc, row) + |Lines(doc)[row]|
  {
    var rows := Lines(doc);
    JoinSnoc(rows[..row], rows[row]);
    assert rows[..row + 1] == rows[..row] + [rows[row]];
  }

  lemma {:induction false} RowStartsInOrder(doc: Doc, r: int, s: int)
    requires Complete(doc) && 0 <= r <= s <= |Lines(doc)|
    ensures RowStart(doc, r) <= RowStart(doc, s)
    decreases s
  {
    if r < s {
      RowStartsInOrder(doc, r, s - 1);
      NextRowStart(doc, s - 1);
    }
  }

  lemma BoundaryStart(doc: Doc, a: int, row: int)
    requires Complete(doc) && 0 <= a <= |doc| && Complete(doc[..a]) && 0 <= row <= |Lines(doc)| && Lines(doc)[..row] == Lines(doc[..a])
    ensures RowStart(doc, row) == a
  {
    JoinLines(doc[..a]);
  }

  /** A position lies in the row that its point names. */
  lemma PointInRow(doc: Doc, p: int)
    requires Complete(doc) && 0 <= p < |doc|
    ensures var row := PointOf(doc, p).row;
            0 <= row < |Lines(doc)| && RowStart(doc, row) <= p < RowStart(doc, row + 1)
  {
    var row := PointOf(doc, p).row;
    RowHolding(doc, p);
    BoundaryStart(doc, LineStart(doc, p), row);
    NextRowStart(doc, row);
  }

  /** The rows from the one that holds `a` to the one that holds `b` meet the stretch between. */
  lemma RowBetweenMeets(doc: Doc, row: int, a: int, b: int)
    requires Complete(doc) && 0 <= a < |doc| && 0 <= b < |doc| && PointOf(doc, a).row <= row <= PointOf(doc, b).row
    ensures 0 <= row < |Lines(doc)| && RowMeets(doc, row, a, b)
  {
    PointInRow(doc, a);
    PointInRow(doc, b);
    RowStartsInOrder(doc, PointOf(doc, a).row + 1, row + 1);
    RowStartsInOrder(doc, row, PointOf(doc, b).row);
  }

  // ----- the rows of a run

  /** What a character edit is widened to lies within the rows from its start to its end, on both sides. */
  lemma RowsOfPoints(before: Doc, edits: seq<Edit>, after: Doc, n: int)
    requires CharPatch(before, edits, after) && 0 <= n < |edits|
    ensures Inside(edits[n], before, after)
    ensures var p, w := ToPoints(edits[n], before, after), RowsOf(before, edits, after, n);
            && p.oldStart.row <= w.oldStart && w.oldEnd <= p.oldEnd.row + 1
            && p.newStart.row <= w.newStart && w.newEnd <= p.newEnd.row + 1
  {
    RowEditOf(before, edits, after, n);
  }

  /** Edits that touch on the old side touch on the new side as well. */
  lemma TouchNew(before: Doc, edits: seq<Edit>, after: Doc, n: int)
    requires CharPatch(before, edits, after) && 0 < n < |edits|
    requires RowsOf(before, edits, after, n - 1).oldEnd >= RowsOf(before, edits, after, n).oldStart
    ensures RowsOf(before, edits, after, n - 1).newEnd >= RowsOf(before, edits, after, n).newStart
  {
    EditsNeighbour(before, edits, after, n);
    var w, v := Widen(edits[n - 1], before, after), Widen(edits[n], before, after);
    WidenBoundaries(edits[n - 1], before, after);
    WidenBoundaries(edits[n], before, after);
    RowOrder(before, w.oldEnd, v.oldStart);
    RowOrder(after, w.newEnd, v.newStart);
    WidenedTouch(edits[n - 1], edits[n], before, after);
  }

  ghost predicate Linked(before: Doc, edits: seq<Edit>, after: Doc, first: int, last: int)
    requires Complete(before) && Complete(after)
  {
    && 0 <= first <= last < |edits|
    && forall n | first < n <= last :: RowsOf(before, edits, after, n - 1).oldEnd >= RowsOf(before, edits, after, n).oldStart
  }

  /** A row of the old side of a run is a row of one of its edits. */
  lemma {:induction false} OldRowOfRun(before: Doc, edits: seq<Edit>, after: Doc, first: int, last: int, row: int) returns (n: int)
    requires CharPatch(before, edits, after) && Linked(before, edits, after, first, last)
    requires RowsOf(before, edits, after, first).oldStart <= row < RowsOf(before, edits, after, last).oldEnd
    ensures first <= n <= last && RowsOf(before, edits, after, n).oldStart <= row < RowsOf(before, edits, after, n).oldEnd
    decreases last
  {
    n := last;
    if row < RowsOf(before, edits, after, last).oldStart {
      n := OldRowOfRun(before, edits, after, first, last - 1, row);
    }
  }

  lemma {:induction false} NewRowOfRun(before: Doc, edits: seq<Edit>, after: Doc, first: int, last: int, row: int) returns (n: int)
    requires CharPatch(before, edits, after) && Linked(before, edits, after, first, last)
    requires RowsOf(before, edits, after, first).newStart <= row < RowsOf(before, edits, after, last).newEnd
    ensures first <= n <= last && RowsOf(before, edits, after, n).newStart <= row < RowsOf(before, edits, after, n).newEnd
    decreases last
  {
    n := last;
    if row < RowsOf(before, edits, after, last).newStart {
      TouchNew(before, edits, after, last);
      n := NewRowOfRun(before, edits, after, first, last - 1, row);
    }
  }

  // ----- row edits stay near the character edits

  ghost predicate OldRowNear(before: Doc, edits: seq<Edit>, row: int)
    requires Complete(before)
  {
    0 <= row < |Lines(before)| && exists n :: 0 <= n < |edits| && RowMeets(before, row, edits[n].oldStart, edits[n].oldEnd)
  }

  ghost predicate NewRowNear(after: Doc, edits: seq<Edit>, row: int)
    requires Complete(after)
  {
    0 <= row < |Lines(after)| && exists n :: 0 <= n < |edits| && RowMeets(after, row, edits[n].newStart, edits[n].newEnd)
  }

  /** Every row of a row edit, on either side, meets or borders a character edit. */
  ghost predicate StaysNear(before: Doc, edits: seq<Edit>, after: Doc, rowEdit: Edit)
    requires Complete(before) && Complete(after)
  {
    && (forall row | rowEdit.oldStart <= row < rowEdit.oldEnd :: OldRowNear(before, edits, row))
    && (forall row | rowEdit.newStart <= row < rowEdit.newEnd :: NewRowNear(after, edits, row))
  }

  ghost predicate AllNear(before: Doc, edits: seq<Edit>, after: Doc, rowEdits: seq<Edit>)
    requires Complete(before) && Complete(after)
  {
    && (edits == [] ==> rowEdits == [])
    && forall k | 0 <= k < |rowEdits| :: StaysNear(before, edits, after, rowEdits[k])
  }

  /** The `k`th row edit joins the linked character edits from the `first`th to the `last`th. */
  lemma RowEditAt(before: Doc, edits: seq<Edit>, after: Doc, mapped: seq<Edit>, k: int) returns (first: int, last: int)
    requires CharPatch(before, edits, after) && mapped == MappedEdits(before, edits, after, |edits|) && 0 <= k < |Runs(mapped)|
    ensures Linked(before, edits, after, first, last) && IsRun(mapped, Runs(mapped)[k], first, last)
    ensures Runs(mapped)[k] == Joined(RowsOf(before, edits, after, first), RowsOf(before, edits, after, last))
  {
    assert mapped[..|mapped|] == mapped;
    first, last := RunAt(mapped, |mapped|, k);
    LinkedRun(before, edits, after, mapped, Runs(mapped)[k], first, last);
  }

  lemma LinkedRun(before: Doc, edits: seq<Edit>, after: Doc, mapped: seq<Edit>, run: Edit, first: int, last: int)
    requires CharPatch(before, edits, after) && mapped == MappedEdits(before, edits, after, |edits|) && IsRun(mapped, run, first, last)
    ensures Linked(before, edits, after, first, last)
    ensures run == Joined(RowsOf(before, edits, after, first), RowsOf(before, edits, after, last))
  {
    forall n | first < n <= last
      ensures RowsOf(before, edits, after, n - 1).oldEnd >= RowsOf(before, edits, after, n).oldStart
    {
      MappedAt(before, edits, after, |edits|, n - 1);
      MappedAt(before, edits, after, |edits|, n);
    }
    MappedAt(before, edits, after, |edits|, first);
    MappedAt(before, edits, after, |edits|, last);
  }

  lemma RunStaysNear(before: Doc, edits: seq<Edit>, after: Doc, run: Edit, first: int, last: int)
    requires CharPatch(before, edits, after) && Linked(before, edits, after, first, last)
    requires run == Joined(RowsOf(before, edits, after, first), RowsOf(before, edits, after, last))
    ensures StaysNear(before, edits, after, run)
  {
    forall row | run.oldStart <= row < run.oldEnd ensures OldRowNear(before, edits, row) {
      var n := OldRowOfRun(before, edits, after, first, last, row);
      RowsOfPoints(before, edits, after, n);
      RowBetweenMeets(before, row, edits[n].oldStart, edits[n].oldEnd);
    }
    forall row | run.newStart <= row < run.newEnd ensures NewRowNear(after, edits, row) {
      var n := NewRowOfRun(before, edits, after, first, last, row);
      RowsOfPoints(before, edits, after, n);
      RowBetweenMeets(after, row, edits[n].newStart, edits[n].newEnd);
    }
  }

  lemma RowDiffStaysNear(before: Doc, edits: seq<Edit>, after: Doc, mapped: seq<Edit>)
    requires CharPatch(before, edits, after) && mapped == MappedEdits(before, edits, after, |edits|)
    ensures AllNear(before, edits, after, Runs(mapped))
  {
    var rowEdits := Runs(mapped);
    forall k | 0 <= k < |rowEdits| ensures StaysNear(before, edits, after, rowEdits[k]) {
      var first, last := RowEditAt(before, edits, after, mapped, k);
      RunStaysNear(before, edits, after, rowEdits[k], first, last);
    }
  }

  /** Computes the row edits between two texts from the character edits. They take the rows of the one text to those of the
      other, lie apart, and have no row that is away from all character edits. */
  method DiffSnapshots(before: Doc, edits: seq<Edit>, after: Doc) returns (rowEdits: seq<Edit>)
    requires CharPatch(before, edits, after)
    ensures Patches(Lines(before), rowEdits, Lines(after)) && NewApart(rowEdits)
    ensures AllNear(before, edits, after, rowEdits)
    ensures rowEdits == Runs(MappedEdits(before, edits, after, |edits|))
  {
    var mapped := MapToRowEdits(before, edits, after);
    rowEdits := MergeAll(mapped);
    RunsPatchAll(before, edits, after, mapped);
    RowDiffStaysNear(before, edits, after, mapped);
  }
}
