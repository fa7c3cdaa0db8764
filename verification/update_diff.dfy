/** Hunks of a diff as unreviewed hunks: what the second half of a background update stores. */
module UpdateDiff {
  import opened ActionLog
  import opened Merging
  import opened Patching
  import opened RowDiffs
  import opened Rows
  import opened Selection
  import opened Widening

  /** The mapped hunks neither shrink nor vanish, and their ends come in order. */
  ghost predicate Solid(mapped: seq<Edit>) {
    && (forall k | 0 <= k < |mapped| :: mapped[k].Ordered() && Changes(mapped[k]))
    && (forall i, j | 0 <= i <= j < |mapped| :: mapped[i].oldEnd <= mapped[j].oldEnd && mapped[i].newEnd <= mapped[j].newEnd)
  }

  /** Joining hunks leaves no empty one. */
  lemma {:induction false} RunsNotIdle(mapped: seq<Edit>, i: int)
    requires Solid(mapped) && 0 <= i <= |mapped| && Cut(mapped, i)
    ensures NoneIdle(Runs(mapped[..i]))
    decreases i
  {
    if i > 0 {
      var first := GroupStart(mapped, i);
      RunsNotIdle(mapped, first);
      RunsGroup(mapped, first, i);
      assert mapped[first].oldEnd <= mapped[i - 1].oldEnd && mapped[first].newEnd <= mapped[i - 1].newEnd;
    }
  }

  /** Each edit ends before the next one does. */
  ghost predicate EndsInOrder(mapped: seq<Edit>) {
    forall k, n | 0 <= k < n < |mapped| && n == k + 1 ::
      mapped[k].oldEnd <= mapped[n].oldEnd && mapped[k].newEnd <= mapped[n].newEnd
  }

  lemma {:induction false} EndsOrderedFar(mapped: seq<Edit>, i: int, j: int)
    requires EndsInOrder(mapped) && 0 <= i <= j < |mapped|
    ensures mapped[i].oldEnd <= mapped[j].oldEnd && mapped[i].newEnd <= mapped[j].newEnd
    decreases j
  {
    if i < j {
      EndsOrderedFar(mapped, i, j - 1);
      assert mapped[j - 1].oldEnd <= mapped[j].oldEnd && mapped[j - 1].newEnd <= mapped[j].newEnd;
    }
  }

  lemma RowEndsOrdered(before: Doc, hunks: seq<Edit>, after: Doc, j: int)
    requires CharPatch(before, hunks, after) && 0 < j < |hunks|
    ensures RowsOf(before, hunks, after, j - 1).oldEnd <= RowsOf(before, hunks, after, j).oldEnd
    ensures RowsOf(before, hunks, after, j - 1).newEnd <= RowsOf(before, hunks, after, j).newEnd
  {
    var w, v := Widen(hunks[j - 1], before, after), Widen(hunks[j], before, after);
    EditsNeighbour(before, hunks, after, j);
    WidenedEndsOrdered(hunks[j - 1], hunks[j], before, after);
    WidenBoundaries(hunks[j - 1], before, after);
    WidenBoundaries(hunks[j], before, after);
    RowOrder(before, v.oldEnd, w.oldEnd);
    RowOrder(after, v.newEnd, w.newEnd);
  }

  lemma MappedSolid(before: Doc, hunks: seq<Edit>, after: Doc, mapped: seq<Edit>)
    requires CharPatch(before, hunks, after) && mapped == MappedEdits(before, hunks, after, |hunks|)
    requires forall k | 0 <= k < |hunks| :: Changes(hunks[k])
    ensures Solid(mapped) && forall k | 0 <= k < |mapped| :: !IsEmpty(mapped[k])
  {
    forall k | 0 <= k < |mapped| ensures mapped[k].Ordered() && Changes(mapped[k]) && !IsEmpty(mapped[k]) {
      MappedAt(before, hunks, after, |hunks|, k);
      assert Inside(hunks[k], before, after);
      WidenedChanges(hunks[k], before, after);
      WidenedOrdered(hunks[k], before, after);
    }
    forall k, n | 0 <= k < n < |mapped| && n == k + 1
      ensures mapped[k].oldEnd <= mapped[n].oldEnd && mapped[k].newEnd <= mapped[n].newEnd
    {
      MappedAt(before, hunks, after, |hunks|, k);
      MappedAt(before, hunks, after, |hunks|, n);
      RowEndsOrdered(before, hunks, after, n);
    }
    forall i, j | 0 <= i <= j < |mapped|
      ensures mapped[i].oldEnd <= mapped[j].oldEnd && mapped[i].newEnd <= mapped[j].newEnd
    {
      EndsOrderedFar(mapped, i, j);
    }
  }

  /** Turns the hunks that the diff library finds, which are character edits that change something, into the list of
      unreviewed hunks. The list is one that a finished update may store, and no hunk has a row that is away from all
      changes. */
  method UnreviewedEdits(newDiffBase: Doc, hunks: seq<Edit>, buffer: Doc) returns (unreviewed: seq<Edit>)
    requires CharPatch(newDiffBase, hunks, buffer)
    requires forall k | 0 <= k < |hunks| :: Changes(hunks[k])
    ensures IsReview(Lines(newDiffBase), unreviewed, Lines(buffer))
    ensures AllNear(newDiffBase, hunks, buffer, unreviewed)
    ensures unreviewed == Runs(MappedEdits(newDiffBase, hunks, buffer, |hunks|))
  {
    var mapped := MapToRowEdits(newDiffBase, hunks, buffer);
    MappedSolid(newDiffBase, hunks, buffer, mapped);
    unreviewed := PushAll(mapped);
    RunsAreReview(newDiffBase, hunks, buffer, mapped, unreviewed);
    RowDiffStaysNear(newDiffBase, hunks, buffer, mapped);
  }

  lemma RunsAreReview(before: Doc, hunks: seq<Edit>, after: Doc, mapped: seq<Edit>, runs: seq<Edit>)
    requires CharPatch(before, hunks, after) && mapped == MappedEdits(before, hunks, after, |hunks|)
    requires Solid(mapped) && runs == Runs(mapped)
    ensures IsReview(Lines(before), runs, Lines(after))
  {
    assert mapped[..|mapped|] == mapped;
    RunsPatchAll(before, hunks, after, mapped);
    RunsNotIdle(mapped, |mapped|);
  }
}
