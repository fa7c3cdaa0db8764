/** The review state of one buffer, as the action log keeps it, and all that can happen to it.

    Background diff updates are split in two: the first half reads the diff base and
    computes a new one, the second half writes diff base, snapshot and hunks back. Edits
    and review actions may come in between.
 */
module ActionLog {
  import opened Options
  import opened Patching
  import opened Rebasing
  import opened NonConflictingEdits
  import opened Selection
  import opened Rows
  import opened TextPatches
  import opened Review

  datatype Author = User | Agent

  /** A buffer's text at a moment; equal versions mean that nothing was edited in between. */
  datatype Snapshot = Snapshot(text: Text, version: nat)

  datatype Update = Update(author: Author, snapshot: Snapshot)

  /** A diff update under way: the diff base it will write and the snapshot it was computed for. */
  datatype Job = Job(newBase: Text, snapshot: Snapshot)

  datatype Status = Created(existing: Option<Text>) | Modified | Deleted

  datatype Tracked = Tracked(diffBase: Text, unreviewed: seq<Edit>, snapshot: Snapshot, status: Status,
                             queue: seq<Update>, job: Option<Job>)
  {
    function Schedule(author: Author, buffer: Snapshot): Tracked {
      this.(queue := queue + [Update(author, buffer)])
    }

    /** The snapshot that will be current once all scheduled updates are through. */
    function Latest(): Snapshot {
      if queue != [] then queue[|queue| - 1].snapshot else if job.Some? then job.value.snapshot else snapshot
    }
  }

  datatype Log = Log(buffer: Snapshot, tracked: Option<Tracked>)

  datatype Event =
    | UserEdit(text: Text)
    | AgentEdit(text: Text)
    | AgentTouch
    | Read
    | Create(onDisk: bool)
    | WillDelete
    | Keep(range: RowRange)
    | KeepAll
    | Reject(ranges: seq<RowRange>, reverted: Option<Text>)
    | FileChanged(deleted: bool)
    | BeginTrack(edits: seq<Edit>)
    | BeginCommit(gitBase: Text, committed: seq<Edit>)
    | Finish(hunks: seq<Edit>)

  function EmptyText(): Text { [[End]] }

  // ----- single steps

  function EditBuffer(buffer: Snapshot, text: Text): Snapshot {
    Snapshot(text, buffer.version + 1)
  }

  function FreshRead(buffer: Snapshot): Tracked {
    Tracked(buffer.text, [], buffer, Modified, [], None)
  }

  function FreshCreated(buffer: Snapshot, existing: Option<Text>): Tracked {
    Tracked(EmptyText(), [Edit(0, 1, 0, |buffer.text|)], buffer, Created(existing), [], None)
  }

  /** `track_buffer_internal`: what is tracked after the agent has read or created the file. */
  function Track(log: Log, isCreated: bool, onDisk: bool): Tracked {
    match log.tracked
    case Some(t) =>
      if !isCreated then t
      else FreshCreated(log.buffer, if t.status.Created? then t.status.existing else Some(t.diffBase))
    case None =>
      if !isCreated then FreshRead(log.buffer)
      else FreshCreated(log.buffer, if onDisk then Some(log.buffer.text) else None)
  }

  function Revive(t: Tracked): Tracked {
    if t.status.Deleted? then t.(status := Modified) else t
  }

  ghost function AfterKeep(t: Tracked, range: RowRange, buffer: Snapshot): Tracked {
    var kept := HunksMeeting(t.unreviewed, range);
    var rest := Remaining(t.unreviewed, kept);
    var t' := t.(diffBase := Taken(t.diffBase, t.unreviewed, t.snapshot.text, kept, |t.unreviewed|),
                 unreviewed := rest,
                 status := if rest == [] && t.status.Created? then Modified else t.status);
    t'.Schedule(User, buffer)
  }

  function AfterKeepAll(t: Tracked, buffer: Snapshot): Tracked {
    var t' := t.(diffBase := t.snapshot.text,
                 unreviewed := [],
                 status := if t.status.Created? then Modified else t.status);
    t'.Schedule(User, buffer)
  }

  ghost function AfterReject(t: Tracked, reverted: Option<Text>, buffer: Snapshot): Log {
    match t.status
    case Created(existing) =>
      Log(if existing.Some? then EditBuffer(buffer, existing.value) else buffer, None)
    case Deleted =>
      var buffer' := EditBuffer(buffer, t.diffBase);
      Log(buffer', Some(FreshRead(buffer')))
    case Modified =>
      if reverted.None? then Log(buffer, Some(t))
      else
        var buffer' := EditBuffer(buffer, reverted.value);
        Log(buffer', Some(t.Schedule(User, buffer')))
  }

  /** `track_edits` up to the point where the new diff base has been computed. */
  ghost function AfterBegin(t: Tracked, edits: seq<Edit>): Tracked
    requires t.queue != []
  {
    var update := t.queue[0];
    var newBase := if update.author.User? then Absorbed(t.diffBase, t.unreviewed, edits, update.snapshot.text)
                   else t.diffBase;
    t.(queue := t.queue[1..], job := Some(Job(newBase, update.snapshot)))
  }

  ghost function AfterCommit(t: Tracked, gitBase: Text, committed: seq<Edit>): Tracked {
    var kept := CommittedHunks(t.unreviewed, committed, t.snapshot.text, gitBase);
    t.(job := Some(Job(Taken(t.diffBase, t.unreviewed, t.snapshot.text, kept, |t.unreviewed|), t.snapshot)))
  }

  function AfterFinish(t: Tracked, hunks: seq<Edit>): Tracked
    requires t.job.Some?
  {
    t.(diffBase := t.job.value.newBase, snapshot := t.job.value.snapshot, unreviewed := hunks, job := None)
  }

  ghost predicate NoneIdle(edits: seq<Edit>) {
    forall k | 0 <= k < |edits| :: edits[k].OldLen() > 0 || edits[k].NewLen() > 0
  }

  /** A list of unreviewed hunks from one text to another: a patch, hunks apart, none of them empty. */
  ghost predicate IsReview(base: Text, hunks: seq<Edit>, text: Text) {
    Patches(base, hunks, text) && NewApart(hunks) && NoneIdle(hunks)
  }

  /** What must hold for an event to happen. Texts are texts; edits reported between two
      snapshots are a patch, empty if the versions agree; hunks found by the diff are a review. */
  ghost predicate Enabled(log: Log, event: Event) {
    match event
    case UserEdit(text) => IsText(text)
    case AgentEdit(text) => IsText(text)
    case Reject(_, reverted) =>
      && (reverted.Some? ==> IsText(reverted.value))
      && (log.tracked.Some? && log.tracked.value.snapshot == log.buffer ==> reverted == Reverted(log.tracked.value, event.ranges))
    case BeginTrack(edits) =>
      && log.tracked.Some? && log.tracked.value.job.None? && log.tracked.value.queue != []
      && var t := log.tracked.value;
      && Patches(t.snapshot.text, edits, t.queue[0].snapshot.text) && NewApart(edits)
      && (t.queue[0].snapshot.version == t.snapshot.version ==> edits == [])
    case BeginCommit(gitBase, committed) =>
      && log.tracked.Some? && log.tracked.value.job.None?
      && Placed(committed, |log.tracked.value.diffBase|, |gitBase|) && OldApart(committed)
    case Finish(hunks) =>
      && log.tracked.Some? && log.tracked.value.job.Some?
      && IsReview(log.tracked.value.job.value.newBase, hunks, log.tracked.value.job.value.snapshot.text)
    case _ => true
  }

  /** The buffer text that rejecting gives when nothing is pending; nothing if no hunk is met. */
  ghost function Reverted(t: Tracked, ranges: seq<RowRange>): Option<Text> {
    var undone := UndoAll(Selected(t.unreviewed, ScannedHunks(t.unreviewed, ranges)));
    if undone == [] || !Placed(undone, |t.snapshot.text|, |t.diffBase|) then None
    else Some(Apply(t.snapshot.text, undone, t.diffBase))
  }

  ghost function Step(log: Log, event: Event): Log
    requires Enabled(log, event)
  {
    var buffer := log.buffer;
    match event
    case UserEdit(text) =>
      var buffer' := EditBuffer(buffer, text);
      Log(buffer', if log.tracked.Some? then Some(log.tracked.value.Schedule(User, buffer')) else None)
    case AgentEdit(text) =>
      var buffer' := EditBuffer(buffer, text);
      var t := Revive(Track(Log(buffer', log.tracked), false, false));
      Log(buffer', Some(t.Schedule(Agent, buffer').Schedule(User, buffer')))
    case AgentTouch =>
      Log(buffer, Some(Revive(Track(log, false, false)).Schedule(Agent, buffer)))
    case Read => Log(buffer, Some(Track(log, false, false)))
    case Create(onDisk) => Log(buffer, Some(Track(log, true, onDisk)))
    case WillDelete =>
      var t := Track(log, false, false);
      (match t.status
       case Created(_) => Log(buffer, None)
       case Modified =>
         var buffer' := EditBuffer(buffer, EmptyText());
         Log(buffer', Some(t.(status := Deleted).Schedule(Agent, buffer').Schedule(User, buffer')))
       case Deleted => Log(buffer, Some(t)))
    case Keep(range) =>
      if log.tracked.None? then log
      else if log.tracked.value.status.Deleted? then Log(buffer, None)
      else Log(buffer, Some(AfterKeep(log.tracked.value, range, buffer)))
    case KeepAll =>
      if log.tracked.None? then log
      else if log.tracked.value.status.Deleted? then Log(buffer, None)
      else Log(buffer, Some(AfterKeepAll(log.tracked.value, buffer)))
    case Reject(_, reverted) =>
      if log.tracked.None? then log else AfterReject(log.tracked.value, reverted, buffer)
    case FileChanged(deleted) =>
      if log.tracked.None? then log
      else if !log.tracked.value.status.Deleted? then (if deleted then Log(buffer, None) else log)
      else if deleted then log else Log(buffer, Some(FreshRead(buffer)))
    case BeginTrack(edits) => Log(buffer, Some(AfterBegin(log.tracked.value, edits)))
    case BeginCommit(gitBase, committed) => Log(buffer, Some(AfterCommit(log.tracked.value, gitBase, committed)))
    case Finish(hunks) => Log(buffer, Some(AfterFinish(log.tracked.value, hunks)))
  }

  // ----- what every step keeps

  ghost predicate TextsIn(t: Tracked) {
    && IsText(t.diffBase) && IsText(t.snapshot.text)
    && (forall i | 0 <= i < |t.queue| :: IsText(t.queue[i].snapshot.text))
    && (t.job.Some? ==> IsText(t.job.value.newBase) && IsText(t.job.value.snapshot.text))
    && (t.status.Created? && t.status.existing.Some? ==> IsText(t.status.existing.value))
  }

  ghost predicate ValidTracked(t: Tracked, buffer: Snapshot) {
    && TextsIn(t)
    && IsReview(t.diffBase, t.unreviewed, t.snapshot.text)
    && t.Latest() == buffer
  }

  ghost predicate Valid(log: Log) {
    IsText(log.buffer.text) && (log.tracked.Some? ==> ValidTracked(log.tracked.value, log.buffer))
  }

  lemma ScheduleValid(t: Tracked, author: Author, buffer: Snapshot)
    requires TextsIn(t) && IsReview(t.diffBase, t.unreviewed, t.snapshot.text) && IsText(buffer.text)
    ensures ValidTracked(t.Schedule(author, buffer), buffer)
  {
  }

  lemma FreshReadValid(buffer: Snapshot)
    requires IsText(buffer.text)
    ensures ValidTracked(FreshRead(buffer), buffer)
  {
    assert GapSame(buffer.text, [], buffer.text, 0);
  }

  lemma FreshCreatedValid(buffer: Snapshot, existing: Option<Text>)
    requires IsText(buffer.text) && (existing.Some? ==> IsText(existing.value))
    ensures ValidTracked(FreshCreated(buffer, existing), buffer)
  {
    var hunks := [Edit(0, 1, 0, |buffer.text|)];
    assert IsText(EmptyText());
    assert GapSame(EmptyText(), hunks, buffer.text, 0) && GapSame(EmptyText(), hunks, buffer.text, 1);
  }

  lemma TrackValid(log: Log, isCreated: bool, onDisk: bool)
    requires Valid(log)
    ensures ValidTracked(Track(log, isCreated, onDisk), log.buffer)
  {
    if log.tracked.None? && !isCreated {
      FreshReadValid(log.buffer);
    } else if isCreated {
      FreshCreatedValid(log.buffer, Track(log, isCreated, onDisk).status.existing);
    }
  }

  lemma TakenValid(t: Tracked, kept: set<Edit>)
    requires TextsIn(t) && IsReview(t.diffBase, t.unreviewed, t.snapshot.text)
    ensures IsText(Taken(t.diffBase, t.unreviewed, t.snapshot.text, kept, |t.unreviewed|))
    ensures IsReview(Taken(t.diffBase, t.unreviewed, t.snapshot.text, kept, |t.unreviewed|),
                     Remaining(t.unreviewed, kept), t.snapshot.text)
  {
    var base, hunks, text := t.diffBase, t.unreviewed, t.snapshot.text;
    TakeAll(base, hunks, text, kept);
    KeepPatches(base, hunks, text, kept);
    KeptText(base, hunks, text, kept);
    PatchesPlaced(base, hunks, text);
    forall k | 0 <= k < |hunks| ensures hunks[k].newEnd < |text| + 1 {
      PlacedAt(hunks, |base|, |text|, k);
    }
    RemainingApart(hunks, kept, |text| + 1);
    RemainingNotIdle(hunks, kept);
  }

  lemma {:induction false} RemainingNotIdle(hunks: seq<Edit>, kept: set<Edit>)
    requires NoneIdle(hunks)
    ensures NoneIdle(Remaining(hunks, kept))
    decreases |hunks|
  {
    if hunks != [] {
      RemainingNotIdle(Init(hunks), kept);
    }
  }

  lemma KeepAllValid(t: Tracked)
    requires IsText(t.snapshot.text)
    ensures IsReview(t.snapshot.text, [], t.snapshot.text)
  {
    assert GapSame(t.snapshot.text, [], t.snapshot.text, 0);
  }

  lemma BeginValid(t: Tracked, buffer: Snapshot, edits: seq<Edit>)
    requires ValidTracked(t, buffer) && t.job.None? && t.queue != []
    requires Patches(t.snapshot.text, edits, t.queue[0].snapshot.text) && NewApart(edits)
    ensures ValidTracked(AfterBegin(t, edits), buffer)
  {
    AbsorbedText(t.diffBase, t.unreviewed, t.snapshot.text, edits, t.queue[0].snapshot.text);
  }

  lemma RevertedText(t: Tracked, ranges: seq<RowRange>)
    requires TextsIn(t) && IsReview(t.diffBase, t.unreviewed, t.snapshot.text)
    ensures Reverted(t, ranges).Some? ==> IsText(Reverted(t, ranges).value)
  {
    var hunks, chosen := t.unreviewed, ScannedHunks(t.unreviewed, ranges);
    PatchFlush(t.diffBase, hunks, t.snapshot.text);
    SelectedFlush(hunks, chosen, |t.diffBase|, |t.snapshot.text|);
    var undone := UndoAll(Selected(hunks, chosen));
    forall k | 0 <= k < |undone| ensures Flush(undone[k], |t.snapshot.text|, |t.diffBase|) {
      assert Flush(Selected(hunks, chosen)[k], |t.diffBase|, |t.snapshot.text|);
    }
    if Reverted(t, ranges).Some? {
      ApplyText(t.snapshot.text, undone, t.diffBase);
    }
  }

  lemma RejectValid(t: Tracked, reverted: Option<Text>, buffer: Snapshot)
    requires ValidTracked(t, buffer) && IsText(buffer.text) && (reverted.Some? ==> IsText(reverted.value))
    ensures Valid(AfterReject(t, reverted, buffer))
  {
    match t.status
    case Created(_) =>
    case Deleted => FreshReadValid(EditBuffer(buffer, t.diffBase));
    case Modified =>
      if reverted.Some? {
        ScheduleValid(t, User, EditBuffer(buffer, reverted.value));
      }
  }

  /** Every event leads from a valid log to a valid log. */
  lemma StepValid(log: Log, event: Event)
    requires Valid(log) && Enabled(log, event)
    ensures Valid(Step(log, event))
  {
    var buffer := log.buffer;
    match event
    case UserEdit(text) =>
      if log.tracked.Some? {
        ScheduleValid(log.tracked.value, User, EditBuffer(buffer, text));
      }
    case AgentEdit(text) => AgentEditValid(log, text);
    case AgentTouch =>
      TrackValid(log, false, false);
      ScheduleValid(Revive(Track(log, false, false)), Agent, buffer);
    case Read => TrackValid(log, false, false);
    case Create(onDisk) => TrackValid(log, true, onDisk);
    case WillDelete => WillDeleteValid(log);
    case Keep(range) =>
      if log.tracked.Some? {
        TakenValid(log.tracked.value, HunksMeeting(log.tracked.value.unreviewed, range));
      }
    case KeepAll =>
      if log.tracked.Some? {
        KeepAllValid(log.tracked.value);
      }
    case Reject(_, reverted) =>
      if log.tracked.Some? {
        RejectValid(log.tracked.value, reverted, buffer);
      }
    case FileChanged(_) => FreshReadValid(buffer);
    case BeginTrack(edits) => BeginValid(log.tracked.value, buffer, edits);
    case BeginCommit(gitBase, committed) =>
      var t := log.tracked.value;
      TakenValid(t, CommittedHunks(t.unreviewed, committed, t.snapshot.text, gitBase));
    case Finish(_) =>
  }

  lemma AgentEditValid(log: Log, text: Text)
    requires Valid(log) && IsText(text)
    ensures Valid(Step(log, AgentEdit(text)))
  {
    var buffer' := EditBuffer(log.buffer, text);
    if log.tracked.None? {
      FreshReadValid(buffer');
    }
    var t := Revive(Track(Log(buffer', log.tracked), false, false));
    ScheduleValid(t, Agent, buffer');
    ScheduleValid(t.Schedule(Agent, buffer'), User, buffer');
  }

  lemma WillDeleteValid(log: Log)
    requires Valid(log)
    ensures Valid(Step(log, WillDelete))
  {
    TrackValid(log, false, false);
    var t := Track(log, false, false);
    if t.status.Modified? {
      var buffer' := EditBuffer(log.buffer, EmptyText());
      assert IsText(EmptyText());
      ScheduleValid(t.(status := Deleted), Agent, buffer');
      ScheduleValid(t.(status := Deleted).Schedule(Agent, buffer'), User, buffer');
    }
  }

  // ----- runs

  ghost predicate CanRun(log: Log, events: seq<Event>)
    decreases |events|
  {
    events == [] || (Enabled(log, events[0]) && CanRun(Step(log, events[0]), events[1..]))
  }

  ghost function Run(log: Log, events: seq<Event>): Log
    requires CanRun(log, events)
    decreases |events|
  {
    if events == [] then log else Run(Step(log, events[0]), events[1..])
  }

  /** In every reachable state the unreviewed hunks turn the diff base into the snapshot, and
      once no update is scheduled or under way, into the buffer itself. */
  lemma {:induction false} RunValid(log: Log, events: seq<Event>)
    requires Valid(log) && CanRun(log, events)
    ensures var log' := Run(log, events);
            && Valid(log')
            && (log'.tracked.Some? && log'.tracked.value.queue == [] && log'.tracked.value.job.None? ==>
                  IsReview(log'.tracked.value.diffBase, log'.tracked.value.unreviewed, log'.buffer.text))
    decreases |events|
  {
    if events != [] {
      StepValid(log, events[0]);
      RunValid(Step(log, events[0]), events[1..]);
    }
  }
}
