/** How permission requests end: by one answer, or because the status that holds their sender is overwritten,
    canceled or removed. */
module PermissionEnds {
  import opened Options
  import opened Streaming
  import opened Permissions
  import opened PermissionRuns

  // ----- when a requester comes to read that it is cancelled

  /** The event drops the status of the `i`th entry without answering it. */
  predicate Drops(t: Thread, e: Event, i: int)
    requires 0 <= i < |t.entries|
  {
    match e
    case Upsert(id, fields, _) => IndexFor(t.entries, id) == i && (fields.status.Some? || fields.contentValid)
    case Request(id, fields, _, _) => IndexFor(t.entries, id) == i && (fields.status.Some? || fields.contentValid)
    case Update(id, fields) => IndexFor(t.entries, id) == i && fields.status.Some?
    case Cancel => t.sending
    case StartTurn => t.sending
    case EndTurn(reason) =>
      reason.Refused? && 0 <= LastUser(t.entries) <= i
      && !(exists k | LastUser(t.entries) < k < |t.entries| :: CompletedWithOutput(t.entries[k]))
    case Rewind(userMessage) => 0 <= UserIndex(t.entries, userMessage) <= i
    case _ => false
  }

  ghost predicate DropsHolder(t: Thread, e: Event, r: nat) {
    exists i :: 0 <= i < |t.entries| && Holds(t.entries[i], r) && Drops(t, e, i)
  }

  /** The request was not answered in `t`, and its requester reads `Cancelled` in `t'`. */
  predicate NewlyCancelled(t: Thread, t': Thread, r: nat) {
    r !in t.outcomes && r in t'.outcomes && t'.outcomes[r] == Cancelled
  }

  lemma SetStatusCancels(t: Thread, i: int, status: Status, r: nat)
    requires 0 <= i < |t.entries| && t.entries[i].Call? && Places(t, r) <= 1
    ensures NewlyCancelled(t, SetStatus(t, i, status), r) <==> Holds(t.entries[i], r)
    ensures !Holds(t.entries[i], r) ==> (r in SetStatus(t, i, status).outcomes <==> r in t.outcomes)
  {
    HeldAtMost(t.entries, i, r);
  }

  lemma SetFieldsCancels(t: Thread, i: int, fields: Fields, r: nat)
    requires 0 <= i < |t.entries| && t.entries[i].Call? && Places(t, r) <= 1 && FieldsReported(fields)
    ensures NewlyCancelled(t, SetFields(t, i, fields), r) <==> fields.status.Some? && Holds(t.entries[i], r)
    ensures Holds(SetFields(t, i, fields).entries[i], r) <==> fields.status.None? && Holds(t.entries[i], r)
    ensures r in t.outcomes <==> r in SetFields(t, i, fields).outcomes && !NewlyCancelled(t, SetFields(t, i, fields), r)
  {
    if fields.status.Some? {
      SetStatusCancels(t, i, fields.status.value, r);
    }
  }

  lemma UpsertedCancels(t: Thread, id: string, fields: Fields, status: Status, r: nat)
    requires Places(t, r) <= 1 && FieldsReported(fields)
    ensures var i := IndexFor(t.entries, id);
            NewlyCancelled(t, Upserted(t, id, fields, status), r)
            <==> i >= 0 && Holds(t.entries[i], r) && (fields.status.Some? || fields.contentValid)
  {
    var i := IndexFor(t.entries, id);
    if i >= 0 {
      var t1 := SetFields(t, i, fields);
      SetFieldsCancels(t, i, fields, r);
      SetFieldsPlaces(t, i, fields, r);
      SetStatusCancels(t1, i, status, r);
      HeldAtMost(t.entries, i, r);
      if r in t.outcomes {
        SetFieldsKeeps(t, i, fields, r);
      } else if r in t1.outcomes {
        SetStatusKeeps(t1, i, status, r);
      }
    }
  }

  lemma {:induction false} HeldIff(entries: seq<Entry>, r: int)
    ensures Held(entries, r) > 0 <==> exists i :: 0 <= i < |entries| && Holds(entries[i], r)
  {
    if entries != [] {
      var n := |entries| - 1;
      HeldIff(entries[..n], r);
      if exists i :: 0 <= i < n && Holds(entries[..n][i], r) {
        var i :| 0 <= i < n && Holds(entries[..n][i], r);
        assert Holds(entries[i], r);
      }
      if i :| 0 <= i < |entries| && Holds(entries[i], r) {
        assert i < n ==> Holds(entries[..n][i], r);
      }
    }
  }

  lemma AllDroppedCancels(t: Thread, t': Thread, n: int, r: nat)
    requires 0 <= n <= |t.entries| && t'.outcomes == AllDropped(t.outcomes, t.entries[n..]) && Places(t, r) <= 1
    ensures NewlyCancelled(t, t', r) <==> exists i :: n <= i < |t.entries| && Holds(t.entries[i], r)
  {
    var tail := t.entries[n..];
    HeldIff(tail, r);
    DroppedHolds(t.outcomes, tail, r);
    HeldIff(t.entries, r);
    if i :| 0 <= i < |tail| && Holds(tail[i], r) {
      assert Holds(t.entries[n + i], r);
    }
    if i :| n <= i < |t.entries| && Holds(t.entries[i], r) {
      assert Holds(tail[i - n], r);
    }
    if r !in t.outcomes && r in t'.outcomes {
      DroppedAreCancelled(t.outcomes, tail, r);
    }
  }

  lemma CanceledTurnCancels(t: Thread, r: nat)
    requires Places(t, r) <= 1
    ensures NewlyCancelled(t, CanceledTurn(t), r) <==> t.sending && exists i :: 0 <= i < |t.entries| && Holds(t.entries[i], r)
  {
    assert t.entries[0..] == t.entries;
    if t.sending {
      AllDroppedCancels(t, CanceledTurn(t), 0, r);
    }
  }

  lemma RefusalCancels(t: Thread, r: nat)
    requires Places(t, r) <= 1
    ensures NewlyCancelled(t, AfterRefusal(t), r) <==> exists i :: 0 <= i < |t.entries| && Holds(t.entries[i], r) && Drops(t, EndTurn(Refused), i)
  {
    var n := LastUser(t.entries);
    if n >= 0 && !exists k | n < k < |t.entries| :: CompletedWithOutput(t.entries[k]) {
      AllDroppedCancels(t, AfterRefusal(t), n, r);
      assert forall i | n <= i < |t.entries| :: Drops(t, EndTurn(Refused), i);
    }
  }

  lemma RewindCancels(t: Thread, userMessage: string, r: nat)
    requires Places(t, r) <= 1
    ensures NewlyCancelled(t, Rewound(t, userMessage), r)
            <==> exists i :: 0 <= i < |t.entries| && Holds(t.entries[i], r) && Drops(t, Rewind(userMessage), i)
  {
    var n := UserIndex(t.entries, userMessage);
    if n >= 0 {
      AllDroppedCancels(t, Rewound(t, userMessage), n, r);
      assert forall i | n <= i < |t.entries| :: Drops(t, Rewind(userMessage), i);
    }
  }

  lemma RequestedCancels(t: Thread, id: string, fields: Fields, options: seq<PermissionOption>, alwaysAllow: bool, r: nat)
    requires Places(t, r) == One(r < t.issued) && FieldsReported(fields)
    ensures var i := IndexFor(t.entries, id);
            NewlyCancelled(t, Requested(t, id, fields, options, alwaysAllow), r)
            <==> i >= 0 && Holds(t.entries[i], r) && (fields.status.Some? || fields.contentValid)
  {
    var i := IndexFor(t.entries, id);
    if i >= 0 {
      HeldAtMost(t.entries, i, r);
    }
    if alwaysAllow && AllowOnceOption(options).Some? {
      UpsertedCancels(t, id, fields, Pending, r);
    } else {
      UpsertedCancels(t, id, fields, WaitingForConfirmation(options, t.issued), r);
    }
  }

  lemma ToolCallCancels(t: Thread, e: Event, r: nat)
    requires Linear(t) && WellFormed(e) && (e.Upsert? || e.Update? || e.Request?)
    ensures NewlyCancelled(t, Step(t, e), r) <==> DropsHolder(t, e, r)
  {
    assert Places(t, r) == One(r < t.issued);
    match e
    case Upsert(id, fields, status) => UpsertedCancels(t, id, fields, status, r);
    case Update(id, fields) =>
      if IndexFor(t.entries, id) >= 0 {
        SetFieldsCancels(t, IndexFor(t.entries, id), fields, r);
      }
    case Request(id, fields, options, alwaysAllow) => RequestedCancels(t, id, fields, options, alwaysAllow, r);
  }

  /** A requester comes to read that it is cancelled exactly if the event drops the status that holds its sender: an
      upsert or update that overwrites it, the end of a running turn, or a removal at or before its entry. */
  lemma StepCancelsIff(t: Thread, e: Event, r: nat)
    requires Linear(t) && WellFormed(e)
    ensures NewlyCancelled(t, Step(t, e), r) <==> DropsHolder(t, e, r)
  {
    assert Places(t, r) == One(r < t.issued);
    match e
    case StartTurn => CanceledTurnCancels(t, r);
    case EndTurn(reason) => RefusalCancels(t.(sending := false), r);
    case Upsert(_, _, _) => ToolCallCancels(t, e, r);
    case Update(_, _) => ToolCallCancels(t, e, r);
    case Request(_, _, _, _) => ToolCallCancels(t, e, r);
    case Authorize(_, _, _) =>
    case Cancel => CanceledTurnCancels(t, r);
    case Rewind(userMessage) => RewindCancels(t, userMessage, r);
    case _ =>
  }

  // ----- over a run, a request ends once

  /** The event is why the requester reads the outcome. */
  ghost predicate Explains(t: Thread, e: Event, r: nat, outcome: Outcome) {
    match outcome
    case Selected(option) => Grants(t, e, r, option)
    case Cancelled => DropsHolder(t, e, r)
  }

  /** An event that would explain some outcome of the request makes its requester come to read that outcome. */
  lemma ExplainsIff(t: Thread, e: Event, r: nat, outcome: Outcome)
    requires Linear(t) && WellFormed(e)
    ensures Explains(t, e, r, outcome) <==> r !in t.outcomes && r in Step(t, e).outcomes && Step(t, e).outcomes[r] == outcome
  {
    match outcome
    case Selected(option) => StepSelectsIff(t, e, r, option);
    case Cancelled => StepCancelsIff(t, e, r);
  }

  lemma LinearUpTo(events: seq<Event>, n: nat)
    requires AllWellFormed(events) && n <= |events|
    ensures Linear(Run(START, events[..n]))
  {
    assert Linear(START);
    RunLinear(START, events[..n]);
  }

  lemma RunNext(events: seq<Event>, n: nat)
    requires n < |events|
    ensures Run(START, events[..n + 1]) == Step(Run(START, events[..n]), events[n])
  {
    assert events[..n + 1][..n] == events[..n];
  }

  /** The first event after which the request has an outcome. */
  lemma {:induction false} EndsSomewhere(events: seq<Event>, r: nat, n: nat) returns (k: nat)
    requires AllWellFormed(events) && n <= |events| && r in Run(START, events[..n]).outcomes
    ensures k < n && r !in Run(START, events[..k]).outcomes && r in Run(START, events[..k + 1]).outcomes
    decreases n
  {
    if r in Run(START, events[..n - 1]).outcomes {
      k := EndsSomewhere(events, r, n - 1);
    } else {
      k := n - 1;
    }
  }

  lemma OutcomeKept(events: seq<Event>, r: nat, n: nat)
    requires AllWellFormed(events) && n < |events| && r in Run(START, events[..n]).outcomes
    ensures SameOutcome(Run(START, events[..n]), Run(START, events[..n + 1]), r)
  {
    LinearUpTo(events, n);
    RunNext(events, n);
    StepKeepsOutcome(Run(START, events[..n]), events[n], r);
  }

  lemma SameOutcomeTwice(t1: Thread, t2: Thread, t3: Thread, r: nat)
    requires r in t1.outcomes && SameOutcome(t1, t2, r) && SameOutcome(t2, t3, r)
    ensures SameOutcome(t1, t3, r)
  {
  }

  lemma {:induction false} OutcomeSame(events: seq<Event>, r: nat, m: nat, n: nat)
    requires AllWellFormed(events) && m <= n <= |events| && r in Run(START, events[..m]).outcomes
    ensures SameOutcome(Run(START, events[..m]), Run(START, events[..n]), r)
    decreases n
  {
    if m < n {
      var k := n - 1;
      OutcomeSame(events, r, m, k);
      OutcomeKept(events, r, k);
      assert events[..k + 1] == events[..n];
      SameOutcomeTwice(Run(START, events[..m]), Run(START, events[..k]), Run(START, events[..n]), r);
    }
  }

  /** Every outcome is owed to exactly one event of the run: the one that answered the request with the option that the
      requester reads, or the one that dropped the status holding its sender. No other event of the run answers the
      request or drops its holder. */
  lemma EndsOnce(events: seq<Event>, r: nat) returns (k: nat)
    requires AllWellFormed(events) && r in Run(START, events).outcomes
    ensures k < |events| && Explains(Run(START, events[..k]), events[k], r, Run(START, events).outcomes[r])
    ensures forall n, outcome | 0 <= n < |events| && Explains(Run(START, events[..n]), events[n], r, outcome) :: n == k
  {
    assert events[..|events|] == events;
    k := EndsSomewhere(events, r, |events|);
    LinearUpTo(events, k);
    RunNext(events, k);
    OutcomeSame(events, r, k + 1, |events|);
    ExplainsIff(Run(START, events[..k]), events[k], r, Run(START, events).outcomes[r]);
    forall n, outcome | 0 <= n < |events| && Explains(Run(START, events[..n]), events[n], r, outcome) ensures n == k {
      LinearUpTo(events, n);
      RunNext(events, n);
      ExplainsIff(Run(START, events[..n]), events[n], r, outcome);
      if k < n {
        OutcomeSame(events, r, k + 1, n);
      } else if n < k {
        OutcomeSame(events, r, n + 1, k);
      }
    }
  }

  /** A requester that reads an option owes it to exactly one event of the run, which answered its request with that
      option; no other event of the run answers it with any. */
  lemma SelectedByAnswer(events: seq<Event>, r: nat, option: string) returns (k: nat)
    requires AllWellFormed(events)
    requires r in Run(START, events).outcomes && Run(START, events).outcomes[r] == Selected(option)
    ensures k < |events| && Grants(Run(START, events[..k]), events[k], r, option)
    ensures forall n, other | 0 <= n < |events| && Grants(Run(START, events[..n]), events[n], r, other) :: n == k
  {
    k := EndsOnce(events, r);
    forall n, other | 0 <= n < |events| && Grants(Run(START, events[..n]), events[n], r, other) ensures n == k {
      assert Explains(Run(START, events[..n]), events[n], r, Selected(other));
    }
  }

  /** Exactly one entry of the thread holds the request's sender. */
  ghost predicate HeldOnce(t: Thread, r: nat) {
    exists i :: 0 <= i < |t.entries| && Holds(t.entries[i], r) && forall j | 0 <= j < |t.entries| && Holds(t.entries[j], r) :: j == i
  }

  /** Exactly one event of the run explains an outcome of the request, and it explains this one. */
  ghost predicate EndedBy(events: seq<Event>, r: nat, outcome: Outcome) {
    exists k :: 0 <= k < |events| && Explains(Run(START, events[..k]), events[k], r, outcome)
                && forall n, other | 0 <= n < |events| && Explains(Run(START, events[..n]), events[n], r, other) :: n == k
  }

  /** A request that was issued waits, and then exactly one tool call holds its sender, or it has ended, and then no
      tool call holds it and exactly one event of the run explains the outcome. */
  lemma WaitsOrEnded(events: seq<Event>, r: nat)
    requires AllWellFormed(events) && r < Run(START, events).issued
    ensures var t := Run(START, events);
            if r in t.outcomes
            then (forall i | 0 <= i < |t.entries| :: !Holds(t.entries[i], r)) && EndedBy(events, r, t.outcomes[r])
            else HeldOnce(t, r) && forall k, outcome | 0 <= k < |events| :: !Explains(Run(START, events[..k]), events[k], r, outcome)
  {
    RequestInOnePlace(events, r);
    if r in Run(START, events).outcomes {
      var k := EndsOnce(events, r);
    } else {
      forall k, outcome | 0 <= k < |events| ensures !Explains(Run(START, events[..k]), events[k], r, outcome) {
        LinearUpTo(events, k);
        RunNext(events, k);
        ExplainsIff(Run(START, events[..k]), events[k], r, outcome);
        if r in Run(START, events[..k + 1]).outcomes {
          assert events[..|events|] == events;
          OutcomeSame(events, r, k + 1, |events|);
        }
      }
    }
  }
}
