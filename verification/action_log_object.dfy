/** The action log as an object: its methods change buffer and tracked state in place, and
    each makes exactly one step of the log's transition function. */
module ActionLogObject {
  import opened Options
  import opened Patching
  import opened Rebasing
  import opened NonConflictingEdits
  import opened Selection
  import opened Ropes
  import opened Rows
  import opened Review
  import opened ActionLog

  /** What a rejection does to a modified buffer, given the reverted edits and the text they lead to. */
  lemma RejectModified(t: Tracked, ranges: seq<RowRange>, buffer: Snapshot, reverted: seq<Edit>, rows: Text)
    requires t.status.Modified? && reverted == UndoAll(Selected(t.unreviewed, ScannedHunks(t.unreviewed, ranges)))
    requires Placed(reverted, |t.snapshot.text|, |t.diffBase|) && rows == Apply(t.snapshot.text, reverted, t.diffBase)
    ensures AfterReject(t, Reverted(t, ranges), buffer)
            == if reverted == [] then Log(buffer, Some(t))
               else Log(EditBuffer(buffer, rows), Some(t.Schedule(User, EditBuffer(buffer, rows))))
  {
  }

  class ReviewLog {
    var buffer: Snapshot
    var tracked: Option<Tracked>

    ghost function State(): Log
      reads this
    {
      Log(buffer, tracked)
    }

    /** A log that does not track the buffer yet. */
    constructor (text: Text)
      requires IsText(text)
      ensures State() == Log(Snapshot(text, 0), None) && Valid(State())
    {
      buffer := Snapshot(text, 0);
      tracked := None;
    }

    // ----- the agent

    method TrackBuffer(isCreated: bool, onDisk: bool)
      modifies this`tracked
      ensures tracked == Some(Track(old(State()), isCreated, onDisk))
    {
      var existing := None;
      if isCreated {
        if tracked.Some? {
          existing := if tracked.value.status.Created? then tracked.value.status.existing else Some(tracked.value.diffBase);
          tracked := None;
        } else if onDisk {
          existing := Some(buffer.text);
        }
      }
      if tracked.None? {
        if isCreated {
          tracked := Some(Tracked(EmptyText(), [Edit(0, 1, 0, |buffer.text|)], buffer, Created(existing), [], None));
        } else {
          tracked := Some(Tracked(buffer.text, [], buffer, Modified, [], None));
        }
      }
    }

    method ScheduleDiffUpdate(author: Author)
      requires tracked.Some?
      modifies this`tracked
      ensures tracked == Some(old(tracked).value.Schedule(author, buffer))
    {
      tracked := Some(tracked.value.(queue := tracked.value.queue + [Update(author, buffer)]));
    }

    method BufferRead()
      requires Valid(State())
      modifies this
      ensures State() == Step(old(State()), Read) && Valid(State())
    {
      ghost var before := State();
      TrackBuffer(false, false);
      StepValid(before, Read);
    }

    method BufferCreated(onDisk: bool)
      requires Valid(State())
      modifies this
      ensures State() == Step(old(State()), Create(onDisk)) && Valid(State())
    {
      ghost var before := State();
      TrackBuffer(true, onDisk);
      StepValid(before, Create(onDisk));
    }

    method BufferEdited()
      requires Valid(State())
      modifies this
      ensures State() == Step(old(State()), AgentTouch) && Valid(State())
    {
      ghost var before := State();
      TrackBuffer(false, false);
      if tracked.value.status.Deleted? {
        tracked := Some(tracked.value.(status := Modified));
      }
      ScheduleDiffUpdate(Agent);
      StepValid(before, AgentTouch);
    }

    /** The agent edits the buffer and reports it; the buffer's own edit event comes last. */
    method EditByAgent(text: Text)
      requires Valid(State()) && IsText(text)
      modifies this
      ensures State() == Step(old(State()), AgentEdit(text)) && Valid(State())
    {
      ghost var before := State();
      buffer := Snapshot(text, buffer.version + 1);
      TrackBuffer(false, false);
      if tracked.value.status.Deleted? {
        tracked := Some(tracked.value.(status := Modified));
      }
      ScheduleDiffUpdate(Agent);
      ScheduleDiffUpdate(User);
      StepValid(before, AgentEdit(text));
    }

    method WillDeleteBuffer()
      requires Valid(State())
      modifies this
      ensures State() == Step(old(State()), WillDelete) && Valid(State())
    {
      ghost var before := State();
      TrackBuffer(false, false);
      if tracked.value.status.Created? {
        tracked := None;
      } else if tracked.value.status.Modified? {
        buffer := Snapshot(EmptyText(), buffer.version + 1);
        tracked := Some(tracked.value.(status := Deleted));
        ScheduleDiffUpdate(Agent);
        ScheduleDiffUpdate(User);
      }
      StepValid(before, WillDelete);
    }

    // ----- the user

    method EditByUser(text: Text)
      requires Valid(State()) && IsText(text)
      modifies this
      ensures State() == Step(old(State()), UserEdit(text)) && Valid(State())
    {
      ghost var before := State();
      buffer := Snapshot(text, buffer.version + 1);
      if tracked.Some? {
        ScheduleDiffUpdate(User);
      }
      StepValid(before, UserEdit(text));
    }

    method KeepEdits(range: RowRange)
      requires Valid(State())
      modifies this
      ensures State() == Step(old(State()), Keep(range)) && Valid(State())
    {
      ghost var before := State();
      if tracked.Some? {
        var t := tracked.value;
        if t.status.Deleted? {
          tracked := None;
        } else {
          var diffBase := new Rope(t.diffBase);
          var retained := KeepEditsInRange(diffBase, t.snapshot.text, t.unreviewed, range);
          TakeAll(t.diffBase, t.unreviewed, t.snapshot.text, HunksMeeting(t.unreviewed, range));
          t := t.(diffBase := diffBase.rows, unreviewed := retained);
          if retained == [] && t.status.Created? {
            t := t.(status := Modified);
          }
          tracked := Some(t);
          ScheduleDiffUpdate(User);
        }
      }
      StepValid(before, Keep(range));
    }

    method KeepAllEdits()
      requires Valid(State())
      modifies this
      ensures State() == Step(old(State()), KeepAll) && Valid(State())
    {
      ghost var before := State();
      if tracked.Some? {
        var t := tracked.value;
        if t.status.Deleted? {
          tracked := None;
        } else {
          if t.status.Created? {
            t := t.(status := Modified);
          }
          tracked := Some(t.(unreviewed := [], diffBase := t.snapshot.text));
          ScheduleDiffUpdate(User);
        }
      }
      StepValid(before, KeepAll);
    }

    /** Rejects the hunks that the ranges select. If the buffer has been edited since the snapshot, `resolved` is the text
        that reverting them at their anchors gives, if they are still there. */
    method RejectEdits(ranges: seq<RowRange>, resolved: Option<Text>)
      requires Valid(State()) && (resolved.Some? ==> IsText(resolved.value))
      modifies this
      ensures var reverted := if old(tracked).Some? && old(tracked).value.snapshot == old(buffer)
                              then Reverted(old(tracked).value, ranges) else resolved;
              Enabled(old(State()), Reject(ranges, reverted)) && State() == Step(old(State()), Reject(ranges, reverted))
      ensures Valid(State())
    {
      if tracked.None? {
        return;
      }
      var t := tracked.value;
      RevertedText(t, ranges);
      ghost var reverted := if t.snapshot == buffer then Reverted(t, ranges) else resolved;
      RejectValid(t, reverted, buffer);
      match t.status
      case Created(existing) =>
        if existing.Some? {
          buffer := Snapshot(existing.value, buffer.version + 1);
        }
        tracked := None;
      case Deleted =>
        buffer := Snapshot(t.diffBase, buffer.version + 1);
        tracked := None;
        TrackBuffer(false, false);
      case Modified =>
        RejectModifiedBuffer(t, ranges, resolved);
    }

    method RejectModifiedBuffer(t: Tracked, ranges: seq<RowRange>, resolved: Option<Text>)
      requires tracked == Some(t) && t.status.Modified? && Patches(t.diffBase, t.unreviewed, t.snapshot.text)
      modifies this
      ensures State() == AfterReject(t, if t.snapshot == old(buffer) then Reverted(t, ranges) else resolved, old(buffer))
    {
      if t.snapshot == buffer {
        var rope := new Rope(t.snapshot.text);
        var reverted := RejectEditsInRanges(rope, t.diffBase, t.unreviewed, ranges);
        RejectModified(t, ranges, buffer, reverted, rope.rows);
        if reverted != [] {
          buffer := Snapshot(rope.rows, buffer.version + 1);
          ScheduleDiffUpdate(User);
        }
      } else if resolved.Some? {
        buffer := Snapshot(resolved.value, buffer.version + 1);
        ScheduleDiffUpdate(User);
      }
    }

    // ----- background updates

    /** The first half of `track_edits`: takes the next scheduled update and rebases its edits. */
    method BeginTrackEdits(edits: seq<Edit>)
      requires Valid(State()) && Enabled(State(), BeginTrack(edits))
      modifies this
      ensures State() == Step(old(State()), BeginTrack(edits)) && Valid(State())
    {
      ghost var before := State();
      var t := tracked.value;
      var update := t.queue[0];
      var baseText := new Rope(t.diffBase);
      PatchesPlaced(t.snapshot.text, edits, update.snapshot.text);
      ApartBothSides(t.snapshot.text, edits, update.snapshot.text);
      ApartFrom(edits);
      if update.author.User? {
        var newText := new Rope(update.snapshot.text);
        var hasUserChanges := ApplyNonConflictingEdits(t.unreviewed, edits, baseText, newText, t.snapshot.text);
      }
      tracked := Some(t.(queue := t.queue[1..], job := Some(Job(baseText.rows, update.snapshot))));
      StepValid(before, BeginTrack(edits));
    }

    /** The first half of `keep_committed_edits`. */
    method BeginKeepCommitted(gitBase: Text, committed: seq<Edit>)
      requires Valid(State()) && Enabled(State(), BeginCommit(gitBase, committed))
      modifies this
      ensures State() == Step(old(State()), BeginCommit(gitBase, committed)) && Valid(State())
    {
      ghost var before := State();
      var t := tracked.value;
      ApartBothSides(t.diffBase, t.unreviewed, t.snapshot.text);
      var newBase := KeepCommittedEdits(t.diffBase, t.unreviewed, t.snapshot.text, committed, gitBase);
      TakeAll(t.diffBase, t.unreviewed, t.snapshot.text,
              CommittedHunks(t.unreviewed, committed, t.snapshot.text, gitBase));
      tracked := Some(t.(job := Some(Job(newBase.rows, t.snapshot))));
      StepValid(before, BeginCommit(gitBase, committed));
    }

    /** The second half of either: writes back what was computed and the hunks found for it. */
    method FinishUpdate(hunks: seq<Edit>)
      requires Valid(State()) && Enabled(State(), Finish(hunks))
      modifies this
      ensures State() == Step(old(State()), Finish(hunks)) && Valid(State())
    {
      ghost var before := State();
      var job := tracked.value.job.value;
      tracked := Some(tracked.value.(diffBase := job.newBase, snapshot := job.snapshot, unreviewed := hunks, job := None));
      StepValid(before, Finish(hunks));
    }
  }
}
