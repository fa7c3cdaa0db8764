/** What single events do to the tool calls of a thread: how a permission request is answered or left waiting, which fields
    an update writes, and when a turn is running. */
module PermissionRequests {
  import opened Options
  import opened Streaming
  import opened Permissions
  import opened PermissionRuns

  // ----- a request

  /** The `k`th option is the first that allows once. */
  ghost predicate FirstAllowsOnce(options: seq<PermissionOption>, k: int) {
    && 0 <= k < |options| && options[k].kind.AllowOnce?
    && forall j | 0 <= j < k :: !options[j].kind.AllowOnce?
  }

  ghost predicate NoneAllowsOnce(options: seq<PermissionOption>) {
    forall j | 0 <= j < |options| :: !options[j].kind.AllowOnce?
  }

  lemma {:induction false} AllowOnceIs(options: seq<PermissionOption>)
    ensures NoneAllowsOnce(options) <==> AllowOnceOption(options) == None
    ensures forall k | FirstAllowsOnce(options, k) :: AllowOnceOption(options) == Some(options[k].id)
  {
    if options != [] {
      AllowOnceIs(options[1..]);
      if options[0].kind.AllowOnce? {
        assert forall k | FirstAllowsOnce(options, k) :: k == 0;
      } else {
        forall k | FirstAllowsOnce(options, k) ensures AllowOnceOption(options) == Some(options[k].id) {
          assert FirstAllowsOnce(options[1..], k - 1);
        }
        if NoneAllowsOnce(options[1..]) {
          forall j | 0 <= j < |options| ensures !options[j].kind.AllowOnce? {
            assert j > 0 ==> options[j] == options[1..][j - 1];
          }
        }
      }
    }
  }

  /** The request can be shown: its content can be converted, and the tool call is known or has what a new one needs. */
  ghost predicate GoesThrough(t: Thread, id: string, fields: Fields) {
    fields.contentValid && (fields.titled || exists i :: 0 <= i < |t.entries| && IsCall(t.entries[i], id))
  }

  lemma GoesThroughIff(t: Thread, id: string, fields: Fields)
    ensures GoesThrough(t, id, fields) <==> Accepted(t, id, fields)
  {
    var i := IndexFor(t.entries, id);
    if i < 0 {
      forall k | 0 <= k < |t.entries| ensures !IsCall(t.entries[k], id) {
        NoMatch(t.entries, id, k);
      }
    }
  }

  /** The one tool call with the identifier has this status. */
  ghost predicate OnlyCall(entries: seq<Entry>, id: string, status: Status) {
    exists k :: 0 <= k < |entries| && IsCall(entries[k], id) && entries[k].call.status == status
                && forall n | 0 <= n < |entries| && IsCall(entries[n], id) :: n == k
  }

  lemma Listed(t: Thread, id: string, fields: Fields, status: Status)
    requires UniqueIds(t.entries) && Accepted(t, id, fields)
    ensures OnlyCall(Upserted(t, id, fields, status).entries, id, status)
  {
    UpsertedExactly(t, id, fields, status);
  }

  /** A request with always-allow on is answered at once, by the first option that allows once, and by no other; the tool
      call is pending. */
  lemma AnsweredAtOnce(t: Thread, id: string, fields: Fields, options: seq<PermissionOption>, k: int)
    requires Linear(t) && UniqueIds(t.entries) && FieldsReported(fields) && GoesThrough(t, id, fields) && FirstAllowsOnce(options, k)
    ensures var t' := Step(t, Request(id, fields, options, true));
            && t'.issued == t.issued + 1 && t.issued in t'.outcomes && t'.outcomes[t.issued] == Selected(options[k].id)
            && OnlyCall(t'.entries, id, Pending)
            && forall i | 0 <= i < |t'.entries| :: !Holds(t'.entries[i], t.issued)
  {
    var e := Request(id, fields, options, true);
    GoesThroughIff(t, id, fields);
    AllowOnceIs(options);
    Listed(t, id, fields, Pending);
    StepLinear(t, e);
    HeldByNone(Step(t, e), t.issued);
  }

  lemma HeldByNone(t: Thread, r: nat)
    requires Linear(t) && r in t.outcomes
    ensures forall i | 0 <= i < |t.entries| :: !Holds(t.entries[i], r)
  {
    assert Places(t, r) == One(0 <= r < t.issued);
    forall i | 0 <= i < |t.entries| ensures !Holds(t.entries[i], r) {
      HeldAtMost(t.entries, i, r);
    }
  }

  /** With always-allow off, or without an option that allows once, the tool call waits with the options, and holds the
      sender. */
  lemma WaitsForAnswer(t: Thread, id: string, fields: Fields, options: seq<PermissionOption>, alwaysAllow: bool)
    requires Linear(t) && UniqueIds(t.entries) && FieldsReported(fields) && GoesThrough(t, id, fields)
    requires !alwaysAllow || NoneAllowsOnce(options)
    ensures var t' := Step(t, Request(id, fields, options, alwaysAllow));
            && t'.issued == t.issued + 1 && t.issued !in t'.outcomes
            && OnlyCall(t'.entries, id, WaitingForConfirmation(options, t.issued))
  {
    var e := Request(id, fields, options, alwaysAllow);
    GoesThroughIff(t, id, fields);
    AllowOnceIs(options);
    Listed(t, id, fields, WaitingForConfirmation(options, t.issued));
    StepLinear(t, e);
    var t' := Step(t, e);
    assert Places(t', t.issued) == One(0 <= t.issued < t'.issued);
    var k :| 0 <= k < |t'.entries| && IsCall(t'.entries[k], id) && t'.entries[k].call.status == WaitingForConfirmation(options, t.issued);
    HeldAtMost(t'.entries, k, t.issued);
  }

  /** A request that does not go through issues nothing. */
  lemma RefusedRequest(t: Thread, id: string, fields: Fields, options: seq<PermissionOption>, alwaysAllow: bool)
    requires !GoesThrough(t, id, fields)
    ensures Step(t, Request(id, fields, options, alwaysAllow)).issued == t.issued
  {
    GoesThroughIff(t, id, fields);
  }

  // ----- an update

  /** An update of a known tool call writes the reported status, if there is one, and notes output that can be converted;
      nothing else of it changes, and no other entry. */
  lemma UpdateWrites(t: Thread, id: string, fields: Fields, k: int)
    requires UniqueIds(t.entries) && 0 <= k < |t.entries| && IsCall(t.entries[k], id)
    ensures var after, call := Step(t, Update(id, fields)).entries, t.entries[k].call;
            && SameElsewhere(t.entries, after, k)
            && after[k] == Call(ToolCall(id, if fields.status.Some? then fields.status.value else call.status,
                                         call.hasOutput || (fields.contentValid && fields.hasOutput)))
  {
    OnlyMatch(t.entries, id, k);
  }

  /** An update of an unknown tool call leaves a failed one at the end. */
  lemma UnknownFails(t: Thread, id: string, fields: Fields)
    requires forall i | 0 <= i < |t.entries| :: !IsCall(t.entries[i], id)
    ensures Step(t, Update(id, fields)) == t.(entries := t.entries + [Call(ToolCall(id, Failed, false))])
  {
  }

  /** An upsert that goes through keeps the output there was, and notes what it brings. */
  lemma UpsertNotesOutput(t: Thread, id: string, fields: Fields, status: Status)
    requires UniqueIds(t.entries) && GoesThrough(t, id, fields)
    ensures var after := Step(t, Upsert(id, fields, status)).entries;
            forall k | 0 <= k < |after| && IsCall(after[k], id) ::
              && after[k].call.status == status
              && (after[k].call.hasOutput <==> fields.hasOutput || (k < |t.entries| && t.entries[k].Call? && t.entries[k].call.hasOutput))
  {
    GoesThroughIff(t, id, fields);
    UpsertedExactly(t, id, fields, status);
    var after := Step(t, Upsert(id, fields, status)).entries;
    forall k | 0 <= k < |after| && IsCall(after[k], id)
      ensures k == if IndexFor(t.entries, id) >= 0 then IndexFor(t.entries, id) else |t.entries|
    {
      if k < |t.entries| {
        if IndexFor(t.entries, id) >= 0 {
          OnlyMatch(t.entries, id, k);
        } else {
          NoMatch(t.entries, id, k);
        }
      }
    }
  }

  // ----- turns

  /** The event ends the running turn: it is canceled, or it ends without having been stopped by a cancel. */
  predicate EndsTurn(e: Event) {
    e.Cancel? || (e.EndTurn? && !e.reason.Stopped?)
  }

  lemma StepSending(t: Thread, e: Event)
    ensures Step(t, e).sending == if e.StartTurn? then true else if EndsTurn(e) then false else t.sending
  {
  }

  /** A turn has started with the `i`th event, and none has ended since. */
  ghost predicate RunningFrom(events: seq<Event>, i: int) {
    0 <= i < |events| && events[i].StartTurn? && forall j | i < j < |events| :: !EndsTurn(events[j])
  }

  lemma RunningFromSnoc(init: seq<Event>, e: Event, i: int)
    ensures RunningFrom(init + [e], i) <==> if i == |init| then e.StartTurn? else RunningFrom(init, i) && !EndsTurn(e)
  {
    var events := init + [e];
    assert events[|init|] == e;
    if RunningFrom(events, i) && i < |init| {
      assert init[i] == events[i];
      forall j | i < j < |init| ensures !EndsTurn(init[j]) {
        assert init[j] == events[j];
      }
    }
  }

  /** A turn is running exactly if one has started and none has ended since. */
  lemma {:induction false} RunningIff(events: seq<Event>)
    ensures Run(START, events).sending <==> exists i :: RunningFrom(events, i)
  {
    if events != [] {
      var n := |events| - 1;
      var init, e := events[..n], events[n];
      RunningIff(init);
      StepSending(Run(START, init), e);
      assert events == init + [e];
      forall i: int ensures RunningFrom(events, i) <==> if i == n then e.StartTurn? else RunningFrom(init, i) && !EndsTurn(e) {
        RunningFromSnoc(init, e, i);
      }
      if e.StartTurn? {
        assert RunningFrom(events, n);
      } else if Run(START, init).sending && !EndsTurn(e) {
        var i :| RunningFrom(init, i);
        assert RunningFrom(events, i);
      }
    }
  }
}
