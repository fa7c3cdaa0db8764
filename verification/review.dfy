/** What the user does with unreviewed hunks: keep those in a range, reject those in
    some ranges, and keep those that a commit already contains. */
module Review {
  import opened Patching
  import opened Rebasing
  import opened Ropes
  import opened Rows
  import opened Selection

  /** A closed range of buffer rows. */
  datatype RowRange = RowRange(start: int, end: int)

  /** The hunk's rows meet the range; touching counts. */
  predicate Meets(hunk: Edit, range: RowRange) {
    !(range.end < hunk.newStart || range.start > hunk.newEnd)
  }

  /** The base with the chosen ones among the first `k` hunks taken into it. */
  ghost function Taken<T>(base: seq<T>, hunks: seq<Edit>, result: seq<T>, chosen: set<Edit>, k: int): seq<T>
    requires 0 <= k <= |hunks|
  {
    var selected := Selected(hunks[..k], chosen);
    if Placed(selected, |base|, |result|) then Apply(base, selected, result) else base
  }

  ghost function TakenGrowth(hunks: seq<Edit>, chosen: set<Edit>, k: int): int
    requires 0 <= k <= |hunks|
  {
    TotalGrowth(Selected(hunks[..k], chosen))
  }

  lemma TakeAll<T>(base: seq<T>, hunks: seq<Edit>, result: seq<T>, chosen: set<Edit>)
    requires Patches(base, hunks, result)
    ensures Placed(Selected(hunks, chosen), |base|, |result|)
    ensures Taken(base, hunks, result, chosen, |hunks|) == Apply(base, Selected(hunks, chosen), result)
  {
    assert hunks[..|hunks|] == hunks;
    SelectedFirst(base, hunks, result, chosen, |hunks|);
  }

  /** The next hunk is chosen: where it goes in the partly changed base, and what that gives. */
  lemma TakeNext<T>(base: seq<T>, hunks: seq<Edit>, result: seq<T>, chosen: set<Edit>, k: int)
    requires Patches(base, hunks, result) && 0 <= k < |hunks| && hunks[k] in chosen
    ensures TakenGrowth(hunks, chosen, k + 1) == TakenGrowth(hunks, chosen, k) + hunks[k].Growth()
    ensures Remaining(hunks[..k + 1], chosen) == Remaining(hunks[..k], chosen)
    ensures var e := hunks[k].Moved(TakenGrowth(hunks, chosen, k), 0);
            var text := Taken(base, hunks, result, chosen, k);
            && 0 <= e.oldStart <= e.oldEnd <= |text| && 0 <= e.newStart <= e.newEnd <= |result|
            && Taken(base, hunks, result, chosen, k + 1)
               == text[..e.oldStart] + result[e.newStart..e.newEnd] + text[e.oldEnd..]
  {
    SelectedFirst(base, hunks, result, chosen, k + 1);
    SelectedSnoc(hunks, chosen, k + 1);
    ApplySnoc(base, Selected(hunks[..k], chosen), hunks[k], result);
  }

  lemma SkipNext<T>(base: seq<T>, hunks: seq<Edit>, result: seq<T>, chosen: set<Edit>, k: int)
    requires 0 <= k < |hunks| && hunks[k] !in chosen
    ensures TakenGrowth(hunks, chosen, k + 1) == TakenGrowth(hunks, chosen, k)
    ensures Taken(base, hunks, result, chosen, k + 1) == Taken(base, hunks, result, chosen, k)
    ensures Remaining(hunks[..k + 1], chosen)
            == Remaining(hunks[..k], chosen) + [hunks[k].Moved(TakenGrowth(hunks, chosen, k), 0)]
  {
    assert Init(hunks[..k + 1]) == hunks[..k] && Last(hunks[..k + 1]) == hunks[k];
  }

  // ----- keep

  function HunksMeeting(hunks: seq<Edit>, range: RowRange): set<Edit> {
    set hunk | hunk in hunks && Meets(hunk, range)
  }

  /** Moves the hunks that meet the range into the diff base and retains the others. */
  method KeepEditsInRange(diffBase: Rope<Row>, snapshot: Text, edits: seq<Edit>, range: RowRange)
    returns (retained: seq<Edit>)
    requires Patches(diffBase.rows, edits, snapshot)
    modifies diffBase
    ensures Placed(Selected(edits, HunksMeeting(edits, range)), |old(diffBase.rows)|, |snapshot|)
    ensures diffBase.rows == Apply(old(diffBase.rows), Selected(edits, HunksMeeting(edits, range)), snapshot)
    ensures retained == Remaining(edits, HunksMeeting(edits, range))
    ensures Patches(diffBase.rows, retained, snapshot)
  {
    ghost var base, kept := diffBase.rows, HunksMeeting(edits, range);
    var k, delta := 0, 0;
    retained := [];
    while k < |edits|
      invariant 0 <= k <= |edits|
      invariant delta == TakenGrowth(edits, kept, k)
      invariant retained == Remaining(edits[..k], kept)
      invariant diffBase.rows == Taken(base, edits, snapshot, kept, k)
    {
      var edit := edits[k].Moved(delta, 0);
      if range.end < edit.newStart || range.start > edit.newEnd {
        SkipNext(base, edits, snapshot, kept, k);
        retained := retained + [edit];
      } else {
        TakeNext(base, edits, snapshot, kept, k);
        diffBase.Replace(edit.oldStart, edit.oldEnd, snapshot[edit.newStart..edit.newEnd]);
        delta := delta + edit.Growth();
      }
      k := k + 1;
    }
    assert edits[..k] == edits;
    TakeAll(base, edits, snapshot, kept);
    KeepPatches(base, edits, snapshot, kept);
  }

  // ----- reject

  /** The first range that does not end before the row; the number of ranges if all do. */
  function FirstReaching(ranges: seq<RowRange>, row: int): (n: nat)
    ensures n <= |ranges|
    ensures n < |ranges| ==> ranges[n].end >= row
    ensures forall i | 0 <= i < n :: ranges[i].end < row
  {
    if ranges == [] || ranges[0].end >= row then 0
    else
      var n := FirstReaching(ranges[1..], row);
      assert forall i | 1 <= i <= n :: ranges[i] == ranges[1..][i - 1];
      n + 1
  }

  /** The scan reverts a hunk if the first range reaching it meets it. */
  predicate Scanned(hunk: Edit, ranges: seq<RowRange>) {
    var n := FirstReaching(ranges, hunk.newStart);
    n < |ranges| && Meets(hunk, ranges[n])
  }

  predicate MeetsSome(hunk: Edit, ranges: seq<RowRange>) {
    exists i | 0 <= i < |ranges| :: Meets(hunk, ranges[i])
  }

  ghost predicate SortedByStart(ranges: seq<RowRange>) {
    forall i, j | 0 <= i < j < |ranges| :: ranges[i].start <= ranges[j].start
  }

  /** For ranges sorted by start, the scan reverts exactly the hunks that some range meets. */
  lemma ScanIsExact(hunk: Edit, ranges: seq<RowRange>)
    requires SortedByStart(ranges)
    ensures Scanned(hunk, ranges) <==> MeetsSome(hunk, ranges)
  {
    var n := FirstReaching(ranges, hunk.newStart);
    if MeetsSome(hunk, ranges) {
      var i :| 0 <= i < |ranges| && Meets(hunk, ranges[i]);
      assert n <= i;
      assert ranges[n].start <= ranges[i].start;
    }
  }

  /** The last row at which a hunk can start that the `j`th range meets and the `i`th, coming first but starting later,
      keeps the scan from seeing. */
  function LastHiddenRow(ranges: seq<RowRange>, i: int, j: int): int
    requires 0 <= i < j < |ranges|
  {
    Min(ranges[j].end, Min(ranges[i].end, ranges[i].start - 1))
  }

  function Min(a: int, b: int): int {
    if a <= b then a else b
  }

  /** Wherever a range comes before one that starts earlier, some range before both reaches every row that it could hide. */
  ghost predicate NothingHidden(ranges: seq<RowRange>) {
    forall i, j | 0 <= i < j < |ranges| && ranges[j].start < ranges[i].start && LastHiddenRow(ranges, i, j) >= 0 ::
      exists k :: 0 <= k < i && ranges[k].end >= LastHiddenRow(ranges, i, j)
  }

  ghost predicate ExactScan(ranges: seq<RowRange>) {
    forall hunk: Edit | 0 <= hunk.newStart <= hunk.newEnd :: Scanned(hunk, ranges) <==> MeetsSome(hunk, ranges)
  }

  lemma HiddenHunk(ranges: seq<RowRange>, i: int, j: int) returns (hunk: Edit)
    requires 0 <= i < j < |ranges| && ranges[j].start < ranges[i].start && LastHiddenRow(ranges, i, j) >= 0
    requires forall k | 0 <= k < i :: ranges[k].end < LastHiddenRow(ranges, i, j)
    ensures 0 <= hunk.newStart <= hunk.newEnd && MeetsSome(hunk, ranges) && !Scanned(hunk, ranges)
  {
    var row := LastHiddenRow(ranges, i, j);
    hunk := Edit(row, row, row, ranges[i].start - 1);
    assert FirstReaching(ranges, row) == i;
    assert Meets(hunk, ranges[j]);
  }

  /** A hunk that the scan misses is hidden by one range from another. */
  lemma MissedIsHidden(hunk: Edit, ranges: seq<RowRange>) returns (i: int, j: int)
    requires 0 <= hunk.newStart <= hunk.newEnd && MeetsSome(hunk, ranges) && !Scanned(hunk, ranges)
    ensures 0 <= i < j < |ranges| && ranges[j].start < ranges[i].start && LastHiddenRow(ranges, i, j) >= 0
    ensures forall k | 0 <= k < i :: ranges[k].end < LastHiddenRow(ranges, i, j)
  {
    i := FirstReaching(ranges, hunk.newStart);
    j :| 0 <= j < |ranges| && Meets(hunk, ranges[j]);
  }

  /** The scan is exact for every hunk if and only if nothing is hidden. Ranges need not run forward. */
  lemma ScanIsExactIff(ranges: seq<RowRange>)
    ensures ExactScan(ranges) <==> NothingHidden(ranges)
  {
    if NothingHidden(ranges) {
      forall hunk: Edit | 0 <= hunk.newStart <= hunk.newEnd ensures Scanned(hunk, ranges) <==> MeetsSome(hunk, ranges) {
        if Scanned(hunk, ranges) {
          assert Meets(hunk, ranges[FirstReaching(ranges, hunk.newStart)]);
        } else if MeetsSome(hunk, ranges) {
          var i, j := MissedIsHidden(hunk, ranges);
          assert false;
        }
      }
    } else {
      var i, j :| 0 <= i < j < |ranges| && ranges[j].start < ranges[i].start && LastHiddenRow(ranges, i, j) >= 0
                  && !exists k :: 0 <= k < i && ranges[k].end >= LastHiddenRow(ranges, i, j);
      var hunk := HiddenHunk(ranges, i, j);
    }
  }

  /** Ranges for which something is hidden: a range that comes too early hides a hunk from the one behind it. */
  lemma ScanNeedsOrder()
    ensures var hunk, ranges := Edit(1, 2, 1, 2), [RowRange(8, 9), RowRange(1, 2)];
            MeetsSome(hunk, ranges) && !Scanned(hunk, ranges) && !NothingHidden(ranges)
  {
    var hunk, ranges := Edit(1, 2, 1, 2), [RowRange(8, 9), RowRange(1, 2)];
    assert Meets(hunk, ranges[1]);
    assert FirstReaching(ranges, 1) == 0;
    assert LastHiddenRow(ranges, 0, 1) == 2;
  }

  /** Dropping a range that the current row has passed does not change where a later row looks. */
  lemma PassRange(ranges: seq<RowRange>, r: int, row: int)
    requires 0 <= r < |ranges| && r <= FirstReaching(ranges, row) && ranges[r].end < row
    ensures r + 1 <= FirstReaching(ranges, row)
  {
    assert r != FirstReaching(ranges, row);
  }

  function ScannedHunks(hunks: seq<Edit>, ranges: seq<RowRange>): set<Edit> {
    set hunk | hunk in hunks && Scanned(hunk, ranges)
  }

  /** The inner walk over the ranges: passes those that end before the hunk, and says whether the next one meets it. */
  method PassRanges(ranges: seq<RowRange>, r0: nat, edit: Edit) returns (r: nat, revert: bool)
    requires r0 <= FirstReaching(ranges, edit.newStart)
    ensures r <= FirstReaching(ranges, edit.newStart)
    ensures revert <==> Scanned(edit, ranges)
  {
    r, revert := r0, false;
    while r < |ranges|
      invariant r <= FirstReaching(ranges, edit.newStart)
      decreases |ranges| - r
    {
      var range := ranges[r];
      if range.end < edit.newStart {
        PassRange(ranges, r, edit.newStart);
        r := r + 1;
      } else if range.start > edit.newEnd {
        return;
      } else {
        revert := true;
        return;
      }
    }
  }

  /** Reverts in the buffer the hunks the ranges select. The buffer is the reviewed snapshot;
      all replacements are collected first and then made in one edit of the buffer. */
  method RejectEditsInRanges(buffer: Rope<Row>, diffBase: Text, edits: seq<Edit>, ranges: seq<RowRange>)
    returns (reverted: seq<Edit>)
    requires Patches(diffBase, edits, buffer.rows)
    modifies buffer
    ensures reverted == UndoAll(Selected(edits, ScannedHunks(edits, ranges)))
    ensures Placed(reverted, |old(buffer.rows)|, |diffBase|)
    ensures buffer.rows == Apply(old(buffer.rows), reverted, diffBase)
  {
    ghost var chosen, snapshot := ScannedHunks(edits, ranges), buffer.rows;
    PatchesPlaced(diffBase, edits, snapshot);
    var r: nat, k := 0, 0;
    reverted := [];
    while k < |edits|
      invariant 0 <= k <= |edits| && buffer.rows == snapshot
      invariant k < |edits| ==> r <= FirstReaching(ranges, edits[k].newStart)
      invariant reverted == UndoAll(Selected(edits[..k], chosen))
    {
      var edit := edits[k];
      var revert;
      r, revert := PassRanges(ranges, r, edit);
      RevertNext(edits, k, chosen);
      if revert {
        reverted := reverted + [edit.Undo()];
      }
      if k + 1 < |edits| {
        PlacedOrder(edits, |diffBase|, |snapshot|, k, k + 1);
        PlacedAt(edits, |diffBase|, |snapshot|, k);
        ReachingLater(ranges, edit.newStart, edits[k + 1].newStart);
      }
      k := k + 1;
    }
    assert edits[..k] == edits;
    RevertedPlaced(edits, chosen, |diffBase|, |snapshot|);
    buffer.rows := Apply(buffer.rows, reverted, diffBase);
  }

  lemma RevertNext(edits: seq<Edit>, k: int, chosen: set<Edit>)
    requires 0 <= k < |edits|
    ensures UndoAll(Selected(edits[..k + 1], chosen))
            == UndoAll(Selected(edits[..k], chosen)) + if edits[k] in chosen then [edits[k].Undo()] else []
  {
    assert Init(edits[..k + 1]) == edits[..k] && Last(edits[..k + 1]) == edits[k];
  }

  lemma ReachingLater(ranges: seq<RowRange>, row: int, later: int)
    requires row <= later
    ensures FirstReaching(ranges, row) <= FirstReaching(ranges, later)
  {
    var n := FirstReaching(ranges, later);
    assert n < |ranges| ==> ranges[n].end >= row;
  }

  lemma {:induction false} RevertedPlaced(edits: seq<Edit>, chosen: set<Edit>, oldLen: int, newLen: int)
    requires Placed(edits, oldLen, newLen)
    ensures Placed(UndoAll(Selected(edits, chosen)), newLen, oldLen)
    decreases |edits|
  {
    if edits != [] {
      var e := Last(edits);
      var rest := Selected(Init(edits), chosen);
      RevertedPlaced(Init(edits), chosen, e.oldStart, e.newStart);
      PlacedNonNegative(Init(edits), e.oldStart, e.newStart);
      if e in chosen {
        assert Init(UndoAll(rest + [e])) == UndoAll(rest) && Last(UndoAll(rest + [e])) == e.Undo();
      } else {
        PlacedWider(UndoAll(rest), e.newStart, e.oldStart, newLen, oldLen);
      }
    }
  }

  // ----- a commit keeps the hunks it contains

  /** The commit makes the same change to the diff base as the hunk: same rows, same characters. */
  predicate Commits(committed: Edit, hunk: Edit, buffer: Text, gitBase: Text)
    requires 0 <= hunk.newStart <= hunk.newEnd <= |buffer|
    requires 0 <= committed.newStart <= committed.newEnd <= |gitBase|
  {
    && committed.oldStart == hunk.oldStart && committed.oldEnd == hunk.oldEnd
    && StringOf(buffer[hunk.newStart..hunk.newEnd]) == StringOf(gitBase[committed.newStart..committed.newEnd])
  }

  ghost predicate CommittedBySome(hunk: Edit, committed: seq<Edit>, buffer: Text, gitBase: Text) {
    exists c | 0 <= c < |committed| ::
      && 0 <= hunk.newStart <= hunk.newEnd <= |buffer|
      && 0 <= committed[c].newStart <= committed[c].newEnd <= |gitBase|
      && Commits(committed[c], hunk, buffer, gitBase)
  }

  ghost function CommittedHunks(hunks: seq<Edit>, committed: seq<Edit>, buffer: Text, gitBase: Text): set<Edit> {
    set hunk | hunk in hunks && CommittedBySome(hunk, committed, buffer, gitBase)
  }

  /** The hunks from the `i`th on have other old ranges than the first `c` committed edits. */
  ghost predicate Ahead(hunks: seq<Edit>, i: int, committed: seq<Edit>, c: int) {
    forall k, n | i <= k < |hunks| && 0 <= k && 0 <= n < c && n < |committed| ::
      committed[n].oldStart != hunks[k].oldStart || committed[n].oldEnd != hunks[k].oldEnd
  }

  /** The walk stops at a hunk behind the committed edit: no later hunk matches that edit. */
  lemma AheadStop(hunks: seq<Edit>, i: int, committed: seq<Edit>, c: int)
    requires 0 <= i < |hunks| && 0 <= c < |committed| && OldApart(hunks)
    requires Ahead(hunks, i, committed, c)
    requires committed[c].oldStart != hunks[i].oldStart || committed[c].oldEnd != hunks[i].oldEnd
    requires committed[c].oldStart <= committed[c].oldEnd <= hunks[i].oldStart <= hunks[i].oldEnd
    ensures Ahead(hunks, i, committed, c + 1)
  {
    forall k | i < k < |hunks| ensures committed[c].oldStart != hunks[k].oldStart {
      assert hunks[i].oldEnd < hunks[k].oldStart;
    }
  }

  /** A hunk the walk passes at a committed edit can match only that edit. */
  lemma OnlyThisCommit(hunk: Edit, hunks: seq<Edit>, i: int, committed: seq<Edit>, c: int, buffer: Text, gitBase: Text)
    requires 0 <= i < |hunks| && hunk == hunks[i] && 0 <= c < |committed| && OldApart(committed)
    requires Ahead(hunks, i, committed, c) && hunk.oldStart <= committed[c].oldEnd
    requires 0 <= hunk.newStart <= hunk.newEnd <= |buffer|
    requires 0 <= committed[c].newStart <= committed[c].newEnd <= |gitBase|
    ensures hunk in CommittedHunks(hunks, committed, buffer, gitBase) <==> Commits(committed[c], hunk, buffer, gitBase)
  {
    forall n | 0 <= n < |committed| && n != c
      ensures committed[n].oldStart != hunk.oldStart || committed[n].oldEnd != hunk.oldEnd
    {
      if c < n {
        assert committed[c].oldEnd < committed[n].oldStart;
      }
    }
  }

  lemma {:induction false} RestNotTaken<T>(base: seq<T>, hunks: seq<Edit>, result: seq<T>, kept: set<Edit>, i: int, n: int)
    requires 0 <= i <= n <= |hunks| && forall k | i <= k < n :: hunks[k] !in kept
    ensures Taken(base, hunks, result, kept, n) == Taken(base, hunks, result, kept, i)
    decreases n
  {
    if i < n {
      RestNotTaken(base, hunks, result, kept, i, n - 1);
      SkipNext(base, hunks, result, kept, n - 1);
    }
  }

  /** Once all committed edits have been seen, no hunk left matches any. */
  lemma RestNotCommitted(base: Text, hunks: seq<Edit>, i: int, committed: seq<Edit>, buffer: Text, gitBase: Text, kept: set<Edit>)
    requires 0 <= i <= |hunks| && Ahead(hunks, i, committed, |committed|)
    requires kept == CommittedHunks(hunks, committed, buffer, gitBase)
    ensures Taken(base, hunks, buffer, kept, |hunks|) == Taken(base, hunks, buffer, kept, i)
  {
    forall k | i <= k < |hunks| ensures hunks[k] !in kept {
      assert !CommittedBySome(hunks[k], committed, buffer, gitBase);
    }
    RestNotTaken(base, hunks, buffer, kept, i, |hunks|);
  }

  /** The inner loop: goes over the hunks up to the committed edit, and keeps those that it makes as well. */
  method KeepHunksOf(hunks: seq<Edit>, i0: int, committed: seq<Edit>, c: int, rowDelta0: int, newBase: Rope<Row>,
                     ghost agentDiffBase: Text, buffer: Text, gitBase: Text)
    returns (i: int, rowDelta: int)
    requires Patches(agentDiffBase, hunks, buffer) && OldApart(hunks)
    requires Placed(committed, |agentDiffBase|, |gitBase|) && OldApart(committed)
    requires 0 <= i0 <= |hunks| && 0 <= c < |committed| && Ahead(hunks, i0, committed, c)
    requires rowDelta0 == TakenGrowth(hunks, CommittedHunks(hunks, committed, buffer, gitBase), i0)
    requires newBase.rows == Taken(agentDiffBase, hunks, buffer, CommittedHunks(hunks, committed, buffer, gitBase), i0)
    modifies newBase
    ensures i0 <= i <= |hunks| && Ahead(hunks, i, committed, c + 1)
    ensures rowDelta == TakenGrowth(hunks, CommittedHunks(hunks, committed, buffer, gitBase), i)
    ensures newBase.rows == Taken(agentDiffBase, hunks, buffer, CommittedHunks(hunks, committed, buffer, gitBase), i)
  {
    ghost var base, kept := agentDiffBase, CommittedHunks(hunks, committed, buffer, gitBase);
    PatchesPlaced(base, hunks, buffer);
    i, rowDelta := i0, rowDelta0;
    var edit := committed[c];
    PlacedAt(committed, |base|, |gitBase|, c);
    while i < |hunks|
      invariant i0 <= i <= |hunks|
      invariant Ahead(hunks, i, committed, c)
      invariant rowDelta == TakenGrowth(hunks, kept, i)
      invariant newBase.rows == Taken(base, hunks, buffer, kept, i)
    {
      var hunk := hunks[i];
      PlacedAt(hunks, |base|, |buffer|, i);
      if edit.oldStart == hunk.oldStart && edit.oldEnd == hunk.oldEnd {
        OnlyThisCommit(hunk, hunks, i, committed, c, buffer, gitBase);
        rowDelta := KeepIfSame(hunks, i, edit, rowDelta, newBase, base, buffer, gitBase, kept);
      } else if hunk.oldStart >= edit.oldEnd {
        AheadStop(hunks, i, committed, c);
        return;
      } else {
        OnlyThisCommit(hunk, hunks, i, committed, c, buffer, gitBase);
        SkipNext(base, hunks, buffer, kept, i);
      }
      i := i + 1;
    }
  }

  /** Keeps a hunk that has the committed edit's old range, if it has its text as well. */
  method KeepIfSame(hunks: seq<Edit>, i: int, edit: Edit, rowDelta: int, newBase: Rope<Row>, ghost base: Text, buffer: Text,
                    gitBase: Text, ghost kept: set<Edit>)
    returns (newDelta: int)
    requires Patches(base, hunks, buffer) && 0 <= i < |hunks|
    requires 0 <= hunks[i].newStart <= hunks[i].newEnd <= |buffer| && 0 <= edit.newStart <= edit.newEnd <= |gitBase|
    requires hunks[i] in kept
             <==> StringOf(buffer[hunks[i].newStart..hunks[i].newEnd]) == StringOf(gitBase[edit.newStart..edit.newEnd])
    requires rowDelta == TakenGrowth(hunks, kept, i) && newBase.rows == Taken(base, hunks, buffer, kept, i)
    modifies newBase
    ensures newDelta == TakenGrowth(hunks, kept, i + 1) && newBase.rows == Taken(base, hunks, buffer, kept, i + 1)
  {
    var hunkText := StringOf(buffer[hunks[i].newStart..hunks[i].newEnd]);
    var committedText := StringOf(gitBase[edit.newStart..edit.newEnd]);
    if hunkText == committedText {
      newDelta := KeepHunk(hunks, i, rowDelta, newBase, base, buffer, kept);
    } else {
      SkipNext(base, hunks, buffer, kept, i);
      newDelta := rowDelta;
    }
  }

  /** Makes one hunk in the diff base, and counts by how much it moves the later ones. */
  method KeepHunk(hunks: seq<Edit>, i: int, rowDelta: int, newBase: Rope<Row>, ghost base: Text, buffer: Text, ghost kept: set<Edit>)
    returns (newDelta: int)
    requires Patches(base, hunks, buffer) && 0 <= i < |hunks| && hunks[i] in kept
    requires rowDelta == TakenGrowth(hunks, kept, i) && newBase.rows == Taken(base, hunks, buffer, kept, i)
    modifies newBase
    ensures newDelta == TakenGrowth(hunks, kept, i + 1) && newBase.rows == Taken(base, hunks, buffer, kept, i + 1)
  {
    var hunk := hunks[i];
    PatchesPlaced(base, hunks, buffer);
    PlacedAt(hunks, |base|, |buffer|, i);
    TakeNext(base, hunks, buffer, kept, i);
    var moved := hunk.Moved(rowDelta, 0);
    newBase.Replace(moved.oldStart, moved.oldEnd, buffer[hunk.newStart..hunk.newEnd]);
    newDelta := rowDelta + hunk.Growth();
  }

  /** Takes into the diff base every hunk that some committed edit makes as well, and no other. */
  method KeepCommittedEdits(agentDiffBase: Text, hunks: seq<Edit>, buffer: Text, committed: seq<Edit>, gitBase: Text)
    returns (newBase: Rope<Row>)
    requires Patches(agentDiffBase, hunks, buffer) && OldApart(hunks)
    requires Placed(committed, |agentDiffBase|, |gitBase|) && OldApart(committed)
    ensures fresh(newBase)
    ensures Placed(Selected(hunks, CommittedHunks(hunks, committed, buffer, gitBase)), |agentDiffBase|, |buffer|)
    ensures newBase.rows
            == Apply(agentDiffBase, Selected(hunks, CommittedHunks(hunks, committed, buffer, gitBase)), buffer)
  {
    newBase := new Rope(agentDiffBase);
    ghost var kept := CommittedHunks(hunks, committed, buffer, gitBase);
    PatchesPlaced(agentDiffBase, hunks, buffer);
    var i, c, rowDelta := 0, 0, 0;
    while c < |committed|
      invariant 0 <= i <= |hunks| && 0 <= c <= |committed|
      invariant Ahead(hunks, i, committed, c)
      invariant rowDelta == TakenGrowth(hunks, kept, i)
      invariant newBase.rows == Taken(agentDiffBase, hunks, buffer, kept, i)
    {
      i, rowDelta := KeepHunksOf(hunks, i, committed, c, rowDelta, newBase, agentDiffBase, buffer, gitBase);
      c := c + 1;
    }
    RestNotCommitted(agentDiffBase, hunks, i, committed, buffer, gitBase, kept);
    TakeAll(agentDiffBase, hunks, buffer, kept);
  }
}
