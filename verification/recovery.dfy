/** What reviewing gives back: keep and reject complement each other, rejecting everything
    restores the diff base, and the agent alone can never lose a file's original text. */
module Recovery {
  import opened Options
  import opened Patching
  import opened Rebasing
  import opened NonConflictingEdits
  import opened Selection
  import opened Rows
  import opened TextPatches
  import opened Review
  import opened ActionLog

  /** The range from the first to the last row of a text. */
  function WholeText(text: Text): seq<RowRange> {
    [RowRange(0, |text| - 1)]
  }

  /** Nothing is scheduled or under way, and some text is modified. */
  ghost predicate Quiet(log: Log) {
    && Valid(log) && log.tracked.Some? && log.tracked.value.status.Modified?
    && log.tracked.value.queue == [] && log.tracked.value.job.None?
  }

  // ----- rejecting everything

  lemma {:induction false} SelectedAll(hunks: seq<Edit>, chosen: set<Edit>)
    requires forall k | 0 <= k < |hunks| :: hunks[k] in chosen
    ensures Selected(hunks, chosen) == hunks
    decreases |hunks|
  {
    if hunks != [] {
      SelectedAll(Init(hunks), chosen);
    }
  }

  /** The range over the whole text meets every hunk. */
  lemma WholeTextMeets(base: Text, hunks: seq<Edit>, text: Text, k: int)
    requires IsText(base) && IsText(text) && IsReview(base, hunks, text) && 0 <= k < |hunks|
    ensures Scanned(hunks[k], WholeText(text))
  {
    PatchesPlaced(base, hunks, text);
    PlacedAt(hunks, |base|, |text|, k);
    PatchFlushAt(base, hunks, text, k);
    assert hunks[k].OldLen() > 0 || hunks[k].NewLen() > 0;
    assert FirstReaching(WholeText(text), hunks[k].newStart) == 0;
  }

  /** Undoing a whole patch gives its base back. */
  lemma UndoPatch<T>(base: seq<T>, hunks: seq<Edit>, result: seq<T>)
    requires Patches(base, hunks, result)
    ensures Placed(UndoAll(hunks), |result|, |base|) && Apply(result, UndoAll(hunks), base) == base
  {
    PatchesUndo(base, hunks, result);
    ApplyPatch(result, UndoAll(hunks), base);
  }

  /** With nothing pending, rejecting the whole text makes the buffer the diff base. */
  lemma RejectAllRestoresBase(log: Log, reverted: Option<Text>)
    requires Quiet(log) && Enabled(log, Reject(WholeText(log.buffer.text), reverted))
    ensures Step(log, Reject(WholeText(log.buffer.text), reverted)).buffer.text == log.tracked.value.diffBase
  {
    var t := log.tracked.value;
    var ranges := WholeText(log.buffer.text);
    forall k | 0 <= k < |t.unreviewed| ensures t.unreviewed[k] in ScannedHunks(t.unreviewed, ranges) {
      WholeTextMeets(t.diffBase, t.unreviewed, t.snapshot.text, k);
    }
    SelectedAll(t.unreviewed, ScannedHunks(t.unreviewed, ranges));
    UndoPatch(t.diffBase, t.unreviewed, t.snapshot.text);
    if t.unreviewed == [] {
      ApplyPatch(t.diffBase, [], t.snapshot.text);
    } else {
      assert UndoAll(t.unreviewed)[0] == t.unreviewed[0].Undo();
    }
  }

  // ----- updates that bring no edits

  lemma RunCons(log: Log, first: Event, rest: seq<Event>)
    requires CanRun(log, [first] + rest)
    ensures Enabled(log, first) && CanRun(Step(log, first), rest)
    ensures Run(log, [first] + rest) == Run(Step(log, first), rest)
  {
    var events := [first] + rest;
    assert events[0] == first && events[1..] == rest;
  }

  lemma NothingAbsorbed<T>(base: seq<T>, hunks: seq<Edit>, source: seq<T>)
    ensures Absorbed(base, hunks, [], source) == base
  {
    assert AllToBase(hunks, FreeEdits([], hunks)) == [];
  }

  // ----- rejecting never reaches the diff base

  /** An edit that undoes a hunk touches that hunk. */
  lemma UndoTouches(hunk: Edit)
    requires hunk.Ordered()
    ensures Touches(hunk.Undo(), hunk)
  {
  }

  /** The update that follows a rejection absorbs nothing: every reverted row belongs to a hunk. */
  lemma RejectNotAbsorbed<T>(base: seq<T>, hunks: seq<Edit>, result: seq<T>, chosen: set<Edit>, source: seq<T>)
    requires Patches(base, hunks, result)
    ensures FreeEdits(UndoAll(Selected(hunks, chosen)), hunks) == []
    ensures Absorbed(base, hunks, UndoAll(Selected(hunks, chosen)), source) == base
  {
    var undone := UndoAll(Selected(hunks, chosen));
    forall k | 0 <= k < |undone| ensures !Free(undone[k], hunks) {
      var n := SelectedAt(hunks, chosen, k);
      assert hunks[n].Ordered();
      UndoTouches(hunks[n]);
    }
    NoneFreeEdits(undone, hunks);
    assert AllToBase(hunks, []) == [];
  }

  lemma {:induction false} SelectedAt(hunks: seq<Edit>, chosen: set<Edit>, k: int) returns (n: int)
    requires 0 <= k < |Selected(hunks, chosen)|
    ensures 0 <= n < |hunks| && Selected(hunks, chosen)[k] == hunks[n]
    decreases |hunks|
  {
    if k < |Selected(Init(hunks), chosen)| {
      n := SelectedAt(Init(hunks), chosen, k);
    } else {
      n := |hunks| - 1;
    }
  }

  lemma {:induction false} NoneFreeEdits(edits: seq<Edit>, hunks: seq<Edit>)
    requires forall k | 0 <= k < |edits| :: !Free(edits[k], hunks)
    ensures FreeEdits(edits, hunks) == []
    decreases |edits|
  {
    if edits != [] {
      NoneFreeEdits(Init(edits), hunks);
    }
  }

  // ----- the original text

  /** The text that a full rejection restores. */
  function Original(t: Tracked): Option<Text> {
    if t.status.Created? then t.status.existing else Some(t.diffBase)
  }

  /** Every scheduled user update repeats the version before it: the user has edited nothing. */
  ghost predicate Settled(version: nat, queue: seq<Update>)
    decreases |queue|
  {
    queue == [] ||
    var last := queue[|queue| - 1];
    && Settled(version, queue[..|queue| - 1])
    && (last.author.User? ==> last.snapshot.version == LastVersion(version, queue[..|queue| - 1]))
  }

  function LastVersion(version: nat, queue: seq<Update>): nat {
    if queue == [] then version else queue[|queue| - 1].snapshot.version
  }

  ghost predicate Recoverable(log: Log, original: Text) {
    && log.tracked.Some?
    && var t := log.tracked.value;
    && Original(t) == Some(original)
    && (t.job.Some? ==> t.job.value.newBase == t.diffBase)
    && Settled(if t.job.Some? then t.job.value.snapshot.version else t.snapshot.version, t.queue)
  }

  /** What the agent does to an existing file, and the background updates. */
  ghost predicate ByAgent(log: Log, event: Event) {
    match event
    case AgentEdit(_) => true
    case AgentTouch => true
    case Read => true
    case Create(onDisk) => onDisk
    case WillDelete => log.tracked.Some? ==> !log.tracked.value.status.Created?
    case BeginTrack(_) => true
    case Finish(_) => true
    case _ => false
  }

  lemma SettledSnoc(version: nat, queue: seq<Update>, update: Update)
    requires Settled(version, queue)
    requires update.author.User? ==> update.snapshot.version == LastVersion(version, queue)
    ensures Settled(version, queue + [update])
  {
    assert (queue + [update])[..|queue|] == queue;
  }

  lemma SettledPair(version: nat, queue: seq<Update>, buffer: Snapshot)
    requires Settled(version, queue)
    ensures Settled(version, queue + [Update(Agent, buffer)] + [Update(User, buffer)])
  {
    SettledSnoc(version, queue, Update(Agent, buffer));
    SettledSnoc(version, queue + [Update(Agent, buffer)], Update(User, buffer));
  }

  /** The first update out of a settled queue leaves a settled queue behind. */
  lemma {:induction false} SettledRest(version: nat, queue: seq<Update>)
    requires Settled(version, queue) && queue != []
    ensures queue[0].author.User? ==> queue[0].snapshot.version == version
    ensures Settled(queue[0].snapshot.version, queue[1..])
    decreases |queue|
  {
    var init := queue[..|queue| - 1];
    if init != [] {
      SettledRest(version, init);
      var rest := queue[1..];
      assert rest[..|rest| - 1] == init[1..];
    }
  }

  /** No step of the agent changes what a full rejection restores. */
  lemma AgentStepRecoverable(log: Log, event: Event, original: Text)
    requires Recoverable(log, original) && Enabled(log, event) && ByAgent(log, event)
    ensures Recoverable(Step(log, event), original)
  {
    var t := log.tracked.value;
    var version := if t.job.Some? then t.job.value.snapshot.version else t.snapshot.version;
    match event
    case AgentEdit(text) => SettledPair(version, t.queue, EditBuffer(log.buffer, text));
    case AgentTouch => SettledSnoc(version, t.queue, Update(Agent, log.buffer));
    case WillDelete => SettledPair(version, t.queue, EditBuffer(log.buffer, EmptyText()));
    case BeginTrack(edits) =>
      SettledRest(version, t.queue);
      if t.queue[0].author.User? {
        NothingAbsorbed(t.diffBase, t.unreviewed, t.queue[0].snapshot.text);
      }
    case _ =>
  }

  ghost predicate AllByAgent(log: Log, events: seq<Event>)
    requires CanRun(log, events)
    decreases |events|
  {
    events == [] || (ByAgent(log, events[0]) && AllByAgent(Step(log, events[0]), events[1..]))
  }

  lemma {:induction false} AgentRunRecoverable(log: Log, events: seq<Event>, original: Text)
    requires Recoverable(log, original) && CanRun(log, events) && AllByAgent(log, events)
    ensures Recoverable(Run(log, events), original)
    decreases |events|
  {
    if events != [] {
      AgentStepRecoverable(log, events[0], original);
      AgentRunRecoverable(Step(log, events[0]), events[1..], original);
    }
  }

  /** First tracking, by reading or creating over the file, makes its content the original. */
  lemma FirstTrackingRecoverable(log: Log, event: Event)
    requires log.tracked.None? && (event.Read? || event == Create(true))
    ensures Recoverable(Step(log, event), log.buffer.text)
  {
  }

  /** However the agent reads, creates, edits and deletes an existing file, rejecting everything
      restores the content it had when it was first tracked. A modified buffer must have no
      update pending; created and deleted ones are restored at any time. */
  lemma OriginalRestored(log: Log, first: Event, events: seq<Event>, reverted: Option<Text>)
    requires Valid(log) && log.tracked.None? && (first.Read? || first == Create(true))
    requires CanRun(log, [first] + events) && AllByAgent(log, [first] + events)
    requires var log' := Run(log, [first] + events);
             && Enabled(log', Reject(WholeText(log'.buffer.text), reverted))
             && (log'.tracked.Some? && log'.tracked.value.status.Modified? ==> Quiet(log'))
    ensures var log' := Run(log, [first] + events);
            Step(log', Reject(WholeText(log'.buffer.text), reverted)).buffer.text == log.buffer.text
  {
    var all := [first] + events;
    assert all[0] == first && all[1..] == events;
    FirstTrackingRecoverable(log, first);
    AgentRunRecoverable(Step(log, first), events, log.buffer.text);
    var log' := Run(log, all);
    if log'.tracked.value.status.Modified? {
      RejectAllRestoresBase(log', reverted);
    }
  }
}
