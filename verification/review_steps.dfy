/** What single steps of the action log mean for the review: what a commit and a keep leave to review, and after which steps
    a rejection has nothing to take back. */
module ReviewSteps {
  import opened ActionLog
  import opened Keeping
  import opened Options
  import opened Patching
  import opened Recovery
  import opened Review
  import opened Rows
  import opened Selection

  // ----- commits

  /** The committed edit replaces the same rows of the diff base as the hunk, by the same text. */
  ghost predicate SameChange(hunk: Edit, committed: Edit, text: Text, gitBase: Text) {
    && 0 <= hunk.newStart <= hunk.newEnd <= |text| && 0 <= committed.newStart <= committed.newEnd <= |gitBase|
    && committed.oldStart == hunk.oldStart && committed.oldEnd == hunk.oldEnd
    && StringOf(text[hunk.newStart..hunk.newEnd]) == StringOf(gitBase[committed.newStart..committed.newEnd])
  }

  ghost predicate InCommit(hunk: Edit, committed: seq<Edit>, text: Text, gitBase: Text) {
    exists c :: 0 <= c < |committed| && SameChange(hunk, committed[c], text, gitBase)
  }

  /** The hunks that are not in the commit. */
  ghost function Uncommitted(t: Tracked, gitBase: Text, committed: seq<Edit>): set<Edit> {
    set hunk | hunk in t.unreviewed && !InCommit(hunk, committed, t.snapshot.text, gitBase)
  }

  lemma InCommitIff(hunk: Edit, committed: seq<Edit>, text: Text, gitBase: Text)
    ensures InCommit(hunk, committed, text, gitBase) <==> CommittedBySome(hunk, committed, text, gitBase)
  {
    if InCommit(hunk, committed, text, gitBase) {
      var c :| 0 <= c < |committed| && SameChange(hunk, committed[c], text, gitBase);
      assert Commits(committed[c], hunk, text, gitBase);
    }
    if CommittedBySome(hunk, committed, text, gitBase) {
      var c :| 0 <= c < |committed| && 0 <= hunk.newStart <= hunk.newEnd <= |text|
               && 0 <= committed[c].newStart <= committed[c].newEnd <= |gitBase| && Commits(committed[c], hunk, text, gitBase);
      assert SameChange(hunk, committed[c], text, gitBase);
    }
  }

  /** The snapshot with the given hunks undone in it. */
  ghost predicate IsUndone(text: Text, t: Tracked, undone: set<Edit>) {
    var edits := UndoAll(Selected(t.unreviewed, undone));
    Placed(edits, |t.snapshot.text|, |t.diffBase|) && text == Apply(t.snapshot.text, edits, t.diffBase)
  }

  /** Undoing some hunks is taking the others into the base. */
  lemma UndoneIsTaken(t: Tracked, kept: set<Edit>, undone: set<Edit>)
    requires IsReview(t.diffBase, t.unreviewed, t.snapshot.text)
    requires forall k | 0 <= k < |t.unreviewed| :: t.unreviewed[k] in undone <==> t.unreviewed[k] !in kept
    ensures IsUndone(Taken(t.diffBase, t.unreviewed, t.snapshot.text, kept, |t.unreviewed|), t, undone)
  {
    OthersAreSelected(t.unreviewed, kept, undone);
    TakeAll(t.diffBase, t.unreviewed, t.snapshot.text, kept);
    KeepIsRejectOthers(t.diffBase, t.unreviewed, t.snapshot.text, kept);
  }

  /** With no hunk undone it is the snapshot, with all undone the diff base. */
  lemma UndoneEnds(t: Tracked, undone: set<Edit>, text: Text)
    requires IsReview(t.diffBase, t.unreviewed, t.snapshot.text) && IsUndone(text, t, undone)
    ensures (forall h | h in t.unreviewed :: h !in undone) ==> text == t.snapshot.text
    ensures (forall h | h in t.unreviewed :: h in undone) ==> text == t.diffBase
  {
    if forall h | h in t.unreviewed :: h !in undone {
      NoneSelected(t.unreviewed, undone);
    }
    if forall h | h in t.unreviewed :: h in undone {
      SelectedAll(t.unreviewed, undone);
      UndoPatch(t.diffBase, t.unreviewed, t.snapshot.text);
    }
  }

  lemma {:induction false} NoneSelected(hunks: seq<Edit>, chosen: set<Edit>)
    requires forall k | 0 <= k < |hunks| :: hunks[k] !in chosen
    ensures Selected(hunks, chosen) == []
    decreases |hunks|
  {
    if hunks != [] {
      NoneSelected(Init(hunks), chosen);
    }
  }

  /** The diff base that a commit's update writes is the snapshot with exactly the hunks undone that are not in the commit:
      the snapshot itself if all are, and the old diff base if none is. Nothing else changes. */
  lemma CommitUndoesOthers(log: Log, gitBase: Text, committed: seq<Edit>)
    requires Valid(log) && Enabled(log, BeginCommit(gitBase, committed))
    ensures var t, after := log.tracked.value, Step(log, BeginCommit(gitBase, committed));
            && after.buffer == log.buffer && after.tracked.Some? && after.tracked.value.job.Some?
            && var job := after.tracked.value.job.value;
            && after.tracked == Some(t.(job := Some(job))) && job.snapshot == t.snapshot
            && IsUndone(job.newBase, t, Uncommitted(t, gitBase, committed))
            && ((forall h | h in t.unreviewed :: InCommit(h, committed, t.snapshot.text, gitBase)) ==> job.newBase == t.snapshot.text)
            && ((forall h | h in t.unreviewed :: !InCommit(h, committed, t.snapshot.text, gitBase)) ==> job.newBase == t.diffBase)
  {
    var t := log.tracked.value;
    var kept, undone := CommittedHunks(t.unreviewed, committed, t.snapshot.text, gitBase), Uncommitted(t, gitBase, committed);
    forall k | 0 <= k < |t.unreviewed| ensures t.unreviewed[k] in undone <==> t.unreviewed[k] !in kept {
      InCommitIff(t.unreviewed[k], committed, t.snapshot.text, gitBase);
    }
    UndoneIsTaken(t, kept, undone);
    UndoneEnds(t, undone, Taken(t.diffBase, t.unreviewed, t.snapshot.text, kept, |t.unreviewed|));
  }

  // ----- keeping

  /** The hunks that lie wholly behind or before the rows of the range. */
  function Unmet(t: Tracked, range: RowRange): set<Edit> {
    set hunk | hunk in t.unreviewed && (range.end < hunk.newStart || hunk.newEnd < range.start)
  }

  /** A keep leaves the snapshot with exactly the hunks undone that the range does not meet as the diff base. A created file
      counts as modified from then on if and only if it meets all hunks. */
  lemma KeepUndoesOthers(log: Log, range: RowRange)
    requires Valid(log) && log.tracked.Some? && !log.tracked.value.status.Deleted?
    ensures var t, after := log.tracked.value, Step(log, Keep(range));
            && after.buffer == log.buffer && after.tracked.Some?
            && var t' := after.tracked.value;
            && IsUndone(t'.diffBase, t, Unmet(t, range)) && t'.snapshot == t.snapshot
            && (t'.unreviewed == [] <==> Unmet(t, range) == {})
            && (t.status.Created? ==> t'.status == if Unmet(t, range) == {} then Modified else t.status)
            && (!t.status.Created? ==> t'.status == t.status)
  {
    var t := log.tracked.value;
    var kept, undone := HunksMeeting(t.unreviewed, range), Unmet(t, range);
    UndoneIsTaken(t, kept, undone);
    RemainingNone(t.unreviewed, kept);
  }

  lemma {:induction false} RemainingNone(hunks: seq<Edit>, kept: set<Edit>)
    ensures Remaining(hunks, kept) == [] <==> forall k | 0 <= k < |hunks| :: hunks[k] in kept
    decreases |hunks|
  {
    if hunks != [] {
      RemainingNone(Init(hunks), kept);
      assert hunks[|hunks| - 1] == Last(hunks);
    }
  }

  /** Nothing is left to review: rejecting, whatever the ranges, does not change the buffer. */
  ghost predicate NothingToReject(log: Log) {
    forall ranges, reverted :: Enabled(log, Reject(ranges, reverted)) ==> Step(log, Reject(ranges, reverted)).buffer == log.buffer
  }

  lemma ReviewedAll(log: Log)
    requires Valid(log) && log.tracked.Some? && log.tracked.value.status.Modified? && log.tracked.value.unreviewed == []
    requires log.tracked.value.snapshot == log.buffer
    ensures NothingToReject(log)
  {
    var t := log.tracked.value;
    forall ranges, reverted | Enabled(log, Reject(ranges, reverted))
      ensures Step(log, Reject(ranges, reverted)).buffer == log.buffer
    {
      assert Selected([], ScannedHunks([], ranges)) == [];
      assert Reverted(t, ranges) == None;
    }
  }

  /** Once all hunks of a file are kept, created or not, its content is accepted: a later rejection does not bring back what
      it was before. */
  lemma KeptIsAccepted(log: Log, event: Event)
    requires Valid(log) && log.tracked.Some? && !log.tracked.value.status.Deleted?
    requires event == KeepAll || (event.Keep? && Unmet(log.tracked.value, event.range) == {})
    ensures var after := Step(log, event);
            && after.buffer == log.buffer && after.tracked.Some? && after.tracked.value.status.Modified?
            && after.tracked.value.diffBase == log.tracked.value.snapshot.text && after.tracked.value.unreviewed == []
            && (log.tracked.value.snapshot == log.buffer ==> NothingToReject(after))
  {
    var t, after := log.tracked.value, Step(log, event);
    StepValid(log, event);
    if event.Keep? {
      KeepUndoesOthers(log, event.range);
      UndoneEnds(t, Unmet(t, event.range), after.tracked.value.diffBase);
    }
    if t.snapshot == log.buffer {
      ReviewedAll(after);
    }
  }

  /** Keeping a deletion is final: the file is forgotten, and its buffer stays as it is. */
  lemma KeptDeletionIsFinal(log: Log, event: Event)
    requires log.tracked.Some? && log.tracked.value.status.Deleted? && (event.Keep? || event.KeepAll?)
    ensures Step(log, event).buffer == log.buffer && NothingToReject(Step(log, event))
  {
  }

  // ----- rejecting

  /** The hunks that share a row with some range, or border it. */
  ghost function Touched(t: Tracked, ranges: seq<RowRange>): set<Edit> {
    set hunk | hunk in t.unreviewed
               && exists i :: 0 <= i < |ranges| && !(ranges[i].end < hunk.newStart) && !(hunk.newEnd < ranges[i].start)
  }

  /** With ranges in order, a rejection undoes exactly the hunks that they touch, and leaves the buffer alone if there is
      none. */
  lemma RejectUndoesTouched(log: Log, ranges: seq<RowRange>, reverted: Option<Text>)
    requires Valid(log) && log.tracked.Some? && log.tracked.value.status.Modified? && log.tracked.value.snapshot == log.buffer
    requires SortedByStart(ranges) && Enabled(log, Reject(ranges, reverted))
    ensures IsUndone(Step(log, Reject(ranges, reverted)).buffer.text, log.tracked.value, Touched(log.tracked.value, ranges))
    ensures Touched(log.tracked.value, ranges) == {} ==> Step(log, Reject(ranges, reverted)) == log
  {
    var t := log.tracked.value;
    var scanned, touched := ScannedHunks(t.unreviewed, ranges), Touched(t, ranges);
    forall hunk ensures hunk in scanned <==> hunk in touched {
      ScanIsExact(hunk, ranges);
    }
    assert scanned == touched;
    var undone := UndoAll(Selected(t.unreviewed, touched));
    PatchesPlaced(t.diffBase, t.unreviewed, t.snapshot.text);
    RevertedPlaced(t.unreviewed, touched, |t.diffBase|, |t.snapshot.text|);
    if undone == [] {
      ApplyNothing(t.snapshot.text, t.diffBase);
    }
    if touched == {} {
      NoneSelected(t.unreviewed, touched);
    }
  }

  lemma ApplyNothing<T>(text: seq<T>, source: seq<T>)
    ensures Apply(text, [], source) == text
  {
  }

  /** Rejecting a created file restores what was there before, if anything was, and the file is forgotten; rejecting a deletion
      restores the diff base, and leaves nothing to reject. */
  lemma RejectedWhole(log: Log, ranges: seq<RowRange>, reverted: Option<Text>)
    requires Valid(log) && log.tracked.Some? && !log.tracked.value.status.Modified? && Enabled(log, Reject(ranges, reverted))
    ensures var t, after := log.tracked.value, Step(log, Reject(ranges, reverted));
            && NothingToReject(after) && (after.tracked.Some? <==> t.status.Deleted?)
            && after.buffer.text == (if t.status.Deleted? then t.diffBase
                                     else if t.status.existing.Some? then t.status.existing.value else log.buffer.text)
  {
    var after := Step(log, Reject(ranges, reverted));
    StepValid(log, Reject(ranges, reverted));
    if after.tracked.Some? {
      ReviewedAll(after);
    }
  }

  // ----- tracking

  /** Deleting a file empties its buffer and keeps what a rejection restores; a file that the agent itself has created is
      forgotten, and one that is deleted already stays so. */
  lemma DeletedIsRestorable(log: Log)
    requires Valid(log)
    ensures var after := Step(log, WillDelete);
            if log.tracked.Some? && log.tracked.value.status.Created? then after.tracked.None? && after.buffer == log.buffer
            else
              && after.tracked.Some? && after.tracked.value.status.Deleted?
              && after.tracked.value.diffBase == (if log.tracked.Some? then log.tracked.value.diffBase else log.buffer.text)
              && (if log.tracked.Some? && log.tracked.value.status.Deleted? then after == log
                  else StringOf(after.buffer.text) == "" && after.tracked.value.Latest() == after.buffer)
  {
    StepValid(log, WillDelete);
  }

  /** A file that the agent creates is to be reviewed as a whole. */
  lemma CreatedIsReviewedWhole(log: Log, onDisk: bool, row: int)
    requires Valid(log) && 0 <= row < |log.buffer.text|
    ensures var after := Step(log, Create(onDisk));
            && after.buffer == log.buffer && after.tracked.Some? && after.tracked.value.status.Created?
            && |after.tracked.value.diffBase| == 1 && StringOf(after.tracked.value.diffBase) == ""
            && exists k :: 0 <= k < |after.tracked.value.unreviewed|
                           && after.tracked.value.unreviewed[k].newStart <= row < after.tracked.value.unreviewed[k].newEnd
  {
    var hunks := Step(log, Create(onDisk)).tracked.value.unreviewed;
    assert hunks[0].newStart <= row < hunks[0].newEnd;
  }

  /** A rejection of a created file restores what the file held when the agent first created it: nothing if it was not there,
      its content if nothing was tracked, and the diff base if the agent had changed it before. */
  lemma CreatedOver(log: Log, onDisk: bool)
    requires Valid(log)
    ensures var status := Step(log, Create(onDisk)).tracked.value.status;
            && status.Created?
            && (log.tracked.None? && !onDisk ==> status.existing == None)
            && (log.tracked.None? && onDisk ==> status.existing == Some(log.buffer.text))
            && (log.tracked.Some? && !log.tracked.value.status.Created? ==> status.existing == Some(log.tracked.value.diffBase))
            && (log.tracked.Some? && log.tracked.value.status.Created? ==> status == log.tracked.value.status)
  {
  }

  /** An agent's edit of a deleted file makes it a modified one, and keeps its diff base and hunks; no edit of the agent leaves a
      file that counts as deleted, or changes what is being reviewed before the next update. */
  lemma EditRevives(log: Log, event: Event)
    requires Valid(log) && Enabled(log, event) && (event.AgentEdit? || event.AgentTouch?) && log.tracked.Some?
    ensures var t, after := log.tracked.value, Step(log, event).tracked;
            && after.Some? && after.value.diffBase == t.diffBase && after.value.unreviewed == t.unreviewed
            && after.value.snapshot == t.snapshot
            && after.value.status == if t.status.Deleted? then Modified else t.status
  {
  }

  /** A file that the agent only reads has nothing to review, and reading a tracked file again changes nothing. */
  lemma ReadOnly(log: Log)
    requires Valid(log)
    ensures Step(log, Read).buffer == log.buffer && Step(log, Read).tracked.Some?
    ensures if log.tracked.Some? then Step(log, Read) == log else NothingToReject(Step(log, Read))
  {
    StepValid(log, Read);
    if log.tracked.None? {
      ReviewedAll(Step(log, Read));
    }
  }

  /** When the file is deleted or comes back on disk against what the agent has left it as, the review starts anew; in any
      other case it goes on. */
  lemma ChangedOnDisk(log: Log, deleted: bool)
    requires Valid(log)
    ensures var after := Step(log, FileChanged(deleted));
            if log.tracked.Some? && log.tracked.value.status.Deleted? != deleted
            then after.buffer == log.buffer && NothingToReject(after) && (after.tracked.Some? <==> !deleted)
            else after == log
  {
    StepValid(log, FileChanged(deleted));
    if log.tracked.Some? && log.tracked.value.status.Deleted? && !deleted {
      ReviewedAll(Step(log, FileChanged(deleted)));
    }
  }
}
