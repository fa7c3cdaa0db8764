/** What the user types apart from the agent's hunks: the next update takes it into the diff base, so that it is never shown
    for review. */
module UserEdits {
  import opened ActionLog
  import opened Merging
  import opened MixedRebasing
  import opened NonConflictingEdits
  import opened Options
  import opened Patching
  import opened Rebasing
  import opened RowDiffs
  import opened Rows
  import opened Selection
  import opened UpdateDiff
  import opened Widening

  // ----- character edits apart from hunks

  /** The rows that the character edit starts and ends in lie apart from the hunk. */
  predicate RowsApart(before: Doc, e: Edit, hunk: Edit)
    requires 0 <= e.oldStart <= |before| && 0 <= e.oldEnd <= |before|
  {
    hunk.newEnd < PointOf(before, e.oldStart).row || PointOf(before, e.oldEnd).row + 1 < hunk.newStart
  }

  /** The edits from the `a`th to the `b`th lie apart from all hunks, and the edits beside them apart from them. */
  ghost predicate Apart(before: Doc, edits: seq<Edit>, after: Doc, hunks: seq<Edit>, a: int, b: int) {
    && 0 <= a <= b < |edits|
    && (forall n | 0 <= n < |edits| :: Inside(edits[n], before, after))
    && (forall n, h | a <= n <= b && 0 <= h < |hunks| :: RowsApart(before, edits[n], hunks[h]))
    && (a > 0 ==> PointOf(before, edits[a - 1].oldEnd).row + 1 < PointOf(before, edits[a].oldStart).row)
    && (b < |edits| - 1 ==> PointOf(before, edits[b].oldEnd).row + 1 < PointOf(before, edits[b + 1].oldStart).row)
  }

  lemma RowsAway(before: Doc, edits: seq<Edit>, after: Doc, n: int, hunk: Edit)
    requires CharPatch(before, edits, after) && 0 <= n < |edits| && Inside(edits[n], before, after) && RowsApart(before, edits[n], hunk)
    ensures ClearOf(hunk, RowsOf(before, edits, after, n).oldStart, RowsOf(before, edits, after, n).oldEnd, 1)
  {
    RowsOfPoints(before, edits, after, n);
  }

  /** A hunk apart from all edits of a run lies apart from the run. */
  lemma {:induction false} RunAway(before: Doc, edits: seq<Edit>, after: Doc, first: int, last: int, hunk: Edit)
    requires CharPatch(before, edits, after) && Linked(before, edits, after, first, last) && hunk.newStart <= hunk.newEnd
    requires forall n | first <= n <= last :: Inside(edits[n], before, after) && RowsApart(before, edits[n], hunk)
    ensures ClearOf(hunk, RowsOf(before, edits, after, first).oldStart, RowsOf(before, edits, after, last).oldEnd, 1)
    decreases last
  {
    RowsAway(before, edits, after, last, hunk);
    if first < last {
      RunAway(before, edits, after, first, last - 1, hunk);
      assert RowsOf(before, edits, after, last - 1).oldEnd >= RowsOf(before, edits, after, last).oldStart;
    }
  }

  /** Edits whose rows lie apart are not linked. */
  lemma NotLinked(before: Doc, edits: seq<Edit>, after: Doc, n: int, first: int, last: int)
    requires CharPatch(before, edits, after) && 0 < n < |edits| && Inside(edits[n - 1], before, after) && Inside(edits[n], before, after)
    requires PointOf(before, edits[n - 1].oldEnd).row + 1 < PointOf(before, edits[n].oldStart).row
    requires Linked(before, edits, after, first, last)
    ensures n <= first || last < n
  {
    RowsOfPoints(before, edits, after, n - 1);
    RowsOfPoints(before, edits, after, n);
  }

  /** The run of an edit has only edits that lie apart with it. */
  lemma RunWithin(before: Doc, edits: seq<Edit>, after: Doc, hunks: seq<Edit>, a: int, b: int, n: int, first: int, last: int)
    requires CharPatch(before, edits, after) && Apart(before, edits, after, hunks, a, b) && a <= n <= b
    requires Linked(before, edits, after, first, last) && first <= n <= last
    ensures a <= first && last <= b
  {
    if a > 0 {
      NotLinked(before, edits, after, a, first, last);
    }
    if b < |edits| - 1 {
      NotLinked(before, edits, after, b + 1, first, last);
    }
  }

  /** An edit away from the hunks touches none. */
  lemma AwayIsFree(e: Edit, hunks: seq<Edit>)
    requires Clear(hunks, e.oldStart, e.oldEnd, 1)
    ensures FreeBy(e, hunks, 1)
  {
    forall k | 0 <= k < |hunks| ensures !Touches(e, hunks[k]) {
      assert ClearOf(hunks[k], e.oldStart, e.oldEnd, 1);
    }
  }

  /** The row edit that the `n`th character edit is part of lies apart from the hunks. */
  lemma RowEditApart(before: Doc, edits: seq<Edit>, after: Doc, mapped: seq<Edit>, rowEdits: seq<Edit>, hunks: seq<Edit>,
                     oldLen: int, newLen: int, a: int, b: int, n: int)
    returns (k: int, first: int, last: int)
    requires CharPatch(before, edits, after) && mapped == MappedEdits(before, edits, after, |edits|) && rowEdits == Runs(mapped)
    requires Placed(hunks, oldLen, newLen) && Apart(before, edits, after, hunks, a, b) && a <= n <= b
    ensures 0 <= k < |rowEdits| && FreeBy(rowEdits[k], hunks, 1) && first <= n <= last
    ensures Linked(before, edits, after, first, last)
    ensures rowEdits[k] == Joined(RowsOf(before, edits, after, first), RowsOf(before, edits, after, last))
  {
    assert mapped[..|mapped|] == mapped;
    k, first, last := RunWith(mapped, |mapped|, n);
    LinkedRun(before, edits, after, mapped, rowEdits[k], first, last);
    RunWithin(before, edits, after, hunks, a, b, n, first, last);
    forall h | 0 <= h < |hunks| ensures ClearOf(hunks[h], rowEdits[k].oldStart, rowEdits[k].oldEnd, 1) {
      PlacedAt(hunks, oldLen, newLen, h);
      RunAway(before, edits, after, first, last, hunks[h]);
    }
    AwayIsFree(rowEdits[k], hunks);
  }

  /** An edit touches a hunk that has rows exactly if it starts before the hunk's end and ends behind its start, and one that
      has none exactly if the hunk's place is neither before nor behind the edit. */
  lemma TouchesIff(e: Edit, hunk: Edit)
    requires e.oldStart <= e.oldEnd && hunk.newStart <= hunk.newEnd
    ensures Touches(e, hunk)
            <==> if hunk.newStart < hunk.newEnd then e.oldStart < hunk.newEnd && hunk.newStart < e.oldEnd
                 else e.oldStart <= hunk.newStart <= e.oldEnd
  {
  }

  // ----- rows apart from hunks are rows of the base

  function From(c: int): int {
    if c > 0 then c - 1 else 0
  }

  function Upto(d: int, length: int): int {
    if d < length then d + 1 else length
  }

  /** The rows from `c` to `d`, with the rows next to them, stand in the base at `x` as they stand in the text: at its start
      if they are at the start of the text, and at its end if they are at the end. */
  ghost predicate StandsAt<T>(base: seq<T>, text: seq<T>, c: int, d: int, x: int) {
    var length := Upto(d, |text|) - From(c);
    && SameRows(base, x, x + length, text, From(c), Upto(d, |text|))
    && (c == 0 ==> x == 0) && (d == |text| ==> x + length == |base|)
  }

  ghost predicate StandsIn<T>(base: seq<T>, text: seq<T>, c: int, d: int) {
    exists x :: StandsAt(base, text, c, d, x)
  }

  /** The gap between the hunks before the rows and those behind them. */
  lemma GapAround(hunks: seq<Edit>, c: int, d: int) returns (n: int)
    requires Clear(hunks, c, d, 1)
    ensures 0 <= n <= |hunks| && (n > 0 ==> hunks[n - 1].newEnd < c) && (n < |hunks| ==> d < hunks[n].newStart)
  {
    n := |hunks|;
    while n > 0 && hunks[n - 1].newEnd >= c
      invariant 0 <= n <= |hunks| && (n < |hunks| ==> d < hunks[n].newStart)
    {
      n := n - 1;
      assert ClearOf(hunks[n], c, d, 1);
    }
  }

  lemma ApartStands<T>(base: seq<T>, hunks: seq<Edit>, text: seq<T>, c: int, d: int)
    requires Patches(base, hunks, text) && Clear(hunks, c, d, 1) && 0 <= c <= d <= |text|
    ensures StandsIn(base, text, c, d)
  {
    var n := GapAround(hunks, c, d);
    assert GapSame(base, hunks, text, n);
    PatchesPlaced(base, hunks, text);
    if n > 0 {
      PlacedAt(hunks, |base|, |text|, n - 1);
    }
    GapLength(base, hunks, text, n);
    var lo, hi := From(c), Upto(d, |text|);
    var x, y, u, v := OldGapStart(hunks, n), OldGapEnd(hunks, |base|, n), NewGapStart(hunks, n), NewGapEnd(hunks, |text|, n);
    PartOfSame(base, text, x, y, u, v, x + (lo - u), x + (hi - u), lo, hi);
    assert StandsAt(base, text, c, d, x + (lo - u));
  }

  lemma StandsWithin<T>(base: seq<T>, text: seq<T>, c: int, d: int, c': int, d': int)
    requires StandsIn(base, text, c, d) && 0 <= c <= c' <= d' <= d <= |text|
    ensures StandsIn(base, text, c', d')
  {
    var lo, hi, lo', hi' := From(c), Upto(d, |text|), From(c'), Upto(d', |text|);
    var x :| StandsAt(base, text, c, d, x);
    var x' := x + (lo' - lo);
    PartOfSame(base, text, x, x + (hi - lo), lo, hi, x', x' + (hi' - lo'), lo', hi');
    assert StandsAt(base, text, c', d', x');
  }

  // ----- the update

  /** The log is about to track what the user has made of the snapshot. */
  ghost predicate UserUpdate(log: Log, before: Doc, edits: seq<Edit>, after: Doc) {
    && Valid(log) && log.tracked.Some? && log.tracked.value.job.None? && log.tracked.value.queue != []
    && CharPatch(before, edits, after)
    && var t, update := log.tracked.value, log.tracked.value.queue[0];
    && t.snapshot.text == Lines(before) && update.author.User? && update.snapshot.text == Lines(after)
    && (update.snapshot.version == t.snapshot.version ==> edits == [])
  }

  /** What the user types into a file with nothing pending is what the next update tracks. */
  lemma UserTypes(log: Log, before: Doc, edits: seq<Edit>, after: Doc)
    requires Valid(log) && log.tracked.Some? && log.tracked.value.job.None? && log.tracked.value.queue == []
    requires CharPatch(before, edits, after) && log.buffer.text == Lines(before)
    ensures Enabled(log, UserEdit(Lines(after))) && UserUpdate(Step(log, UserEdit(Lines(after))), before, edits, after)
    ensures Step(log, UserEdit(Lines(after))).tracked.value.unreviewed == log.tracked.value.unreviewed
    ensures Step(log, UserEdit(Lines(after))).buffer.text == Lines(after)
  {
    RowsOfClosed(after);
    StepValid(log, UserEdit(Lines(after)));
  }

  lemma BoundaryBelow(doc: Doc, b: int, p: int)
    requires 0 <= b <= p <= |doc| && AtRowStart(doc, b)
    ensures b <= LineStart(doc, p)
  {
    LineStartOpen(doc, p);
  }

  /** Widened edits start in order. */
  lemma StartsOrdered(e: Edit, f: Edit, before: Doc, after: Doc)
    requires Neighbours(e, f, before, after)
    ensures Widen(e, before, after).oldStart <= Widen(f, before, after).oldStart
  {
    var w, v := Widen(e, before, after), Widen(f, before, after);
    LineStartOpen(before, e.oldStart);
    if !AfterRow(f, before, after) && !WholeRows(f, before, after) {
      BoundaryBelow(before, w.oldStart, f.oldStart);
    }
  }

  lemma RowStartsOrdered(before: Doc, edits: seq<Edit>, after: Doc, n: int)
    requires CharPatch(before, edits, after) && 0 < n < |edits|
    ensures RowsOf(before, edits, after, n - 1).newStart <= RowsOf(before, edits, after, n).newStart
  {
    EditsNeighbour(before, edits, after, n);
    NeighboursUndo(edits[n - 1], edits[n], before, after);
    StartsOrdered(edits[n - 1].Undo(), edits[n].Undo(), after, before);
    WidenBoundaries(edits[n - 1], before, after);
    WidenBoundaries(edits[n], before, after);
    RowOrder(after, Widen(edits[n], before, after).newStart, Widen(edits[n - 1], before, after).newStart);
  }

  ghost predicate StartsInOrder(mapped: seq<Edit>) {
    forall k, n | 0 <= k < n < |mapped| && n == k + 1 :: mapped[k].newStart <= mapped[n].newStart
  }

  lemma {:induction false} StartsOrderedFar(mapped: seq<Edit>, i: int, j: int)
    requires StartsInOrder(mapped) && 0 <= i <= j < |mapped|
    ensures mapped[i].newStart <= mapped[j].newStart
    decreases j
  {
    if i < j {
      StartsOrderedFar(mapped, i, j - 1);
      assert mapped[j - 1].newStart <= mapped[j].newStart;
    }
  }

  lemma MappedInOrder(before: Doc, edits: seq<Edit>, after: Doc, mapped: seq<Edit>)
    requires CharPatch(before, edits, after) && mapped == MappedEdits(before, edits, after, |edits|)
    ensures StartsInOrder(mapped) && EndsInOrder(mapped)
  {
    forall k, n | 0 <= k < n < |mapped| && n == k + 1
      ensures mapped[k].newStart <= mapped[n].newStart && mapped[k].oldEnd <= mapped[n].oldEnd && mapped[k].newEnd <= mapped[n].newEnd
    {
      MappedAt(before, edits, after, |edits|, k);
      MappedAt(before, edits, after, |edits|, n);
      RowStartsOrdered(before, edits, after, n);
      RowEndsOrdered(before, edits, after, n);
    }
  }

  /** The rows of a run hold those of its edits. */
  lemma RunHolds(before: Doc, edits: seq<Edit>, after: Doc, first: int, n: int, last: int)
    requires CharPatch(before, edits, after) && 0 <= first <= n <= last < |edits|
    ensures RowsOf(before, edits, after, first).newStart <= RowsOf(before, edits, after, n).newStart
    ensures RowsOf(before, edits, after, n).newStart <= RowsOf(before, edits, after, n).newEnd
    ensures RowsOf(before, edits, after, n).newEnd <= RowsOf(before, edits, after, last).newEnd
  {
    var mapped := MappedEdits(before, edits, after, |edits|);
    MappedInOrder(before, edits, after, mapped);
    StartsOrderedFar(mapped, first, n);
    EndsOrderedFar(mapped, n, last);
    MappedAt(before, edits, after, |edits|, first);
    MappedAt(before, edits, after, |edits|, n);
    MappedAt(before, edits, after, |edits|, last);
    assert Inside(edits[n], before, after);
    WidenedOrdered(edits[n], before, after);
  }

  /** The row edits apply, and the base that they give has the rows of the `n`th edit as the new text has them. */
  lemma EditStands(base: Text, hunks: seq<Edit>, before: Doc, edits: seq<Edit>, after: Doc, rowEdits: seq<Edit>, a: int, b: int, n: int)
    requires CharPatch(before, edits, after) && Patches(base, hunks, Lines(before)) && NewApart(rowEdits)
    requires rowEdits == Runs(MappedEdits(before, edits, after, |edits|)) && Patches(Lines(before), rowEdits, Lines(after))
    requires Apart(before, edits, after, hunks, a, b) && a <= n <= b
    ensures var rows := RowsOf(before, edits, after, n);
            StandsIn(Absorbed(base, hunks, rowEdits, Lines(after)), Lines(after), rows.newStart, rows.newEnd)
  {
    var text, result, rows := Lines(before), Lines(after), RowsOf(before, edits, after, n);
    var newBase, joined := Absorbed(base, hunks, rowEdits, result), JoinedHunks(hunks, rowEdits);
    PatchesPlaced(base, hunks, text);
    PatchesPlaced(text, rowEdits, result);
    var k, first, last := RowEditApart(before, edits, after, MappedEdits(before, edits, after, |edits|), rowEdits, hunks,
                                       |base|, |text|, a, b, n);
    PlacedAt(rowEdits, |text|, |result|, k);
    RebaseWithConflicts(base, hunks, text, rowEdits, result);
    AbsorbedIsNotReviewed(base, hunks, text, rowEdits, result, k, 1);
    ApartStands(newBase, joined, result, rowEdits[k].newStart, rowEdits[k].newEnd);
    RunHolds(before, edits, after, first, n, last);
    StandsWithin(newBase, result, rowEdits[k].newStart, rowEdits[k].newEnd, rows.newStart, rows.newEnd);
  }

  /** What the user edits in rows apart from all hunks goes into the diff base that the next update writes, with the row edits
      that `diff_snapshots` finds: there the rows that the edit is widened to stand as in the new text, next to the same rows. */
  lemma UserEditAbsorbed(log: Log, before: Doc, edits: seq<Edit>, after: Doc, rowEdits: seq<Edit>, a: int, b: int, n: int)
    requires UserUpdate(log, before, edits, after) && Apart(before, edits, after, log.tracked.value.unreviewed, a, b) && a <= n <= b
    requires rowEdits == Runs(MappedEdits(before, edits, after, |edits|))
    ensures Enabled(log, BeginTrack(rowEdits)) && Step(log, BeginTrack(rowEdits)).tracked.value.job.Some?
    ensures var newBase := Step(log, BeginTrack(rowEdits)).tracked.value.job.value.newBase;
            var points := ToPoints(edits[n], before, after);
            && 0 <= points.oldStart.row < |Lines(before)| && 0 <= points.newStart.row <= |Lines(after)|
            && var rows := PointToRowEdit(points, before, after);
            StandsIn(newBase, Lines(after), rows.newStart, rows.newEnd)
  {
    var t := log.tracked.value;
    RunsPatchAll(before, edits, after, MappedEdits(before, edits, after, |edits|));
    assert MappedEdits(before, [], after, 0) == [];
    RowEditOf(before, edits, after, n);
    EditStands(t.diffBase, t.unreviewed, before, edits, after, rowEdits, a, b, n);
  }
}
