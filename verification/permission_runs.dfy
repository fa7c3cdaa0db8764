/** What holds over whole runs of a thread: outcomes are final, only an answer selects an option, tool-call identifiers
    stay unique, entries stay canonical, and streamed text is conserved. */
module PermissionRuns {
  import opened Options
  import opened Streaming
  import opened Permissions

  /** Events that lead from one thread to another, the last one last. */
  function Run(t: Thread, events: seq<Event>): Thread {
    if events == [] then t else Step(Run(t, events[..|events| - 1]), events[|events| - 1])
  }

  ghost predicate AllWellFormed(events: seq<Event>) {
    forall i | 0 <= i < |events| :: WellFormed(events[i])
  }

  const START := Thread([], false, 0, map[])

  // ----- outcomes are final

  /** The requester reads the same in both threads. */
  predicate SameOutcome(t: Thread, t': Thread, r: nat) {
    r in t.outcomes && r in t'.outcomes && t'.outcomes[r] == t.outcomes[r]
  }

  lemma {:induction false} AllDroppedKeeps(outcomes: map<nat, Outcome>, entries: seq<Entry>, r: nat)
    requires Held(entries, r) == 0
    ensures r in AllDropped(outcomes, entries) <==> r in outcomes
    ensures r in outcomes ==> AllDropped(outcomes, entries)[r] == outcomes[r]
  {
    if entries != [] {
      AllDroppedKeeps(outcomes, entries[..|entries| - 1], r);
    }
  }

  lemma SetStatusKeeps(t: Thread, i: int, status: Status, r: nat)
    requires 0 <= i < |t.entries| && t.entries[i].Call? && Places(t, r) <= 1 && r in t.outcomes
    ensures SameOutcome(t, SetStatus(t, i, status), r)
  {
    HeldAtMost(t.entries, i, r);
  }

  lemma SetFieldsKeeps(t: Thread, i: int, fields: Fields, r: nat)
    requires 0 <= i < |t.entries| && t.entries[i].Call? && Places(t, r) <= 1 && r in t.outcomes
    ensures SameOutcome(t, SetFields(t, i, fields), r)
  {
    if fields.status.Some? {
      SetStatusKeeps(t, i, fields.status.value, r);
    }
  }

  lemma UpsertedKeeps(t: Thread, id: string, fields: Fields, status: Status, r: nat)
    requires Places(t, r) <= 1 && r in t.outcomes && FieldsReported(fields)
    ensures SameOutcome(t, Upserted(t, id, fields, status), r)
  {
    var i := IndexFor(t.entries, id);
    if i >= 0 {
      SetFieldsKeeps(t, i, fields, r);
      SetFieldsPlaces(t, i, fields, r);
      SetStatusKeeps(SetFields(t, i, fields), i, status, r);
    }
  }

  lemma AuthorizedKeeps(t: Thread, id: string, option: string, kind: PermissionKind, r: nat)
    requires Places(t, r) <= 1 && r in t.outcomes
    ensures SameOutcome(t, Authorized(t, id, option, kind), r)
  {
    var i := IndexFor(t.entries, id);
    if i >= 0 {
      HeldAtMost(t.entries, i, r);
    }
  }

  lemma CanceledKeeps(t: Thread, r: nat)
    requires Places(t, r) <= 1 && r in t.outcomes
    ensures SameOutcome(t, CanceledTurn(t), r)
  {
    AllDroppedKeeps(t.outcomes, t.entries, r);
  }

  lemma TruncatedKeeps(t: Thread, r: nat)
    requires Places(t, r) <= 1 && r in t.outcomes
    ensures SameOutcome(t, AfterRefusal(t), r)
    ensures forall message :: SameOutcome(t, Rewound(t, message), r)
  {
    forall n | 0 <= n <= |t.entries| ensures SameOutcome(t, Truncated(t, n), r) {
      HeldSplit(t.entries, n, r);
      AllDroppedKeeps(t.outcomes, t.entries[n..], r);
    }
  }

  lemma RequestedKeeps(t: Thread, id: string, fields: Fields, options: seq<PermissionOption>, alwaysAllow: bool, r: nat)
    requires Places(t, r) <= 1 && r in t.outcomes && r < t.issued && FieldsReported(fields)
    ensures SameOutcome(t, Requested(t, id, fields, options, alwaysAllow), r)
  {
    UpsertedKeeps(t, id, fields, Pending, r);
    UpsertedKeeps(t, id, fields, WaitingForConfirmation(options, t.issued), r);
  }

  /** What a requester has read never changes. */
  lemma StepKeepsOutcome(t: Thread, e: Event, r: nat)
    requires Linear(t) && WellFormed(e) && r in t.outcomes
    ensures SameOutcome(t, Step(t, e), r)
  {
    assert Places(t, r) == One(0 <= r < t.issued);
    match e
    case StartTurn => CanceledKeeps(t, r);
    case EndTurn(reason) =>
      TruncatedKeeps(t, r);
      TruncatedKeeps(t.(sending := false), r);
    case Upsert(id, fields, status) => UpsertedKeeps(t, id, fields, status, r);
    case Update(id, fields) =>
      if IndexFor(t.entries, id) >= 0 {
        SetFieldsKeeps(t, IndexFor(t.entries, id), fields, r);
      }
    case Request(id, fields, options, alwaysAllow) => RequestedKeeps(t, id, fields, options, alwaysAllow, r);
    case Authorize(id, option, kind) => AuthorizedKeeps(t, id, option, kind, r);
    case Cancel => CanceledKeeps(t, r);
    case Rewind(userMessage) => TruncatedKeeps(t, r);
    case _ =>
  }

  lemma {:induction false} RunLinear(t: Thread, events: seq<Event>)
    requires Linear(t) && AllWellFormed(events)
    ensures Linear(Run(t, events))
  {
    if events != [] {
      RunLinear(t, events[..|events| - 1]);
      StepLinear(Run(t, events[..|events| - 1]), events[|events| - 1]);
    }
  }

  lemma {:induction false} OutcomesAreFinal(t: Thread, events: seq<Event>, r: nat)
    requires Linear(t) && AllWellFormed(events) && r in t.outcomes
    ensures SameOutcome(t, Run(t, events), r)
  {
    if events != [] {
      var init := events[..|events| - 1];
      RunLinear(t, init);
      OutcomesAreFinal(t, init, r);
      StepKeepsOutcome(Run(t, init), events[|events| - 1], r);
    }
  }

  // ----- each request is in one place

  lemma {:induction false} HolderExists(entries: seq<Entry>, r: int) returns (i: int)
    requires Held(entries, r) == 1
    ensures 0 <= i < |entries| && Holds(entries[i], r)
    ensures forall j | 0 <= j < |entries| && Holds(entries[j], r) :: j == i
  {
    var n := |entries| - 1;
    if Holds(entries[n], r) {
      i := n;
      forall j | 0 <= j < n ensures !Holds(entries[j], r) {
        HeldAtMost(entries[..n], j, r);
      }
    } else {
      i := HolderExists(entries[..n], r);
    }
  }

  /** In every reachable thread a request either has an outcome and no sender is left, or it has none yet and exactly
      one tool call holds its sender. */
  lemma RequestInOnePlace(events: seq<Event>, r: nat)
    requires AllWellFormed(events) && r < Run(START, events).issued
    ensures var t := Run(START, events);
            if r in t.outcomes then forall i | 0 <= i < |t.entries| :: !Holds(t.entries[i], r)
            else exists i :: 0 <= i < |t.entries| && Holds(t.entries[i], r) && forall j | 0 <= j < |t.entries| && Holds(t.entries[j], r) :: j == i
  {
    var t := Run(START, events);
    assert Linear(START);
    RunLinear(START, events);
    assert Places(t, r) == 1;
    if r in t.outcomes {
      forall i | 0 <= i < |t.entries| ensures !Holds(t.entries[i], r) {
        HeldAtMost(t.entries, i, r);
      }
    } else {
      var i := HolderExists(t.entries, r);
      assert Holds(t.entries[i], r);
    }
  }

  /** Canceling a running turn leaves no request unanswered. */
  lemma CancelAnswersAll(t: Thread, r: nat)
    requires Linear(t) && t.sending && r < t.issued
    ensures r in CanceledTurn(t).outcomes
    ensures r !in t.outcomes ==> CanceledTurn(t).outcomes[r] == Cancelled
  {
    assert Places(t, r) == 1;
    DroppedHolds(t.outcomes, t.entries, r);
    if r !in t.outcomes {
      DroppedAreCancelled(t.outcomes, t.entries, r);
    }
  }

  lemma {:induction false} DroppedAreCancelled(outcomes: map<nat, Outcome>, entries: seq<Entry>, r: nat)
    requires r !in outcomes && r in AllDropped(outcomes, entries)
    ensures AllDropped(outcomes, entries)[r] == Cancelled
  {
    if entries != [] && r in AllDropped(outcomes, entries[..|entries| - 1]) {
      DroppedAreCancelled(outcomes, entries[..|entries| - 1], r);
    }
  }

  // ----- only an answer selects an option

  /** The event answers the request with the option: it authorizes the tool call that waits on it, or it is the
      request itself, answered at once because everything is allowed. */
  predicate Grants(t: Thread, e: Event, r: nat, option: string) {
    || (e.Authorize? && e.option == option && IndexFor(t.entries, e.id) >= 0 && Holds(t.entries[IndexFor(t.entries, e.id)], r))
    || (e.Request? && e.alwaysAllow && AllowOnceOption(e.options) == Some(option) && Accepted(t, e.id, e.fields) && r == t.issued)
  }

  /** The request was not answered in `t`, and is answered with the option in `t'`. */
  predicate NewlySelected(t: Thread, t': Thread, r: nat, option: string) {
    r !in t.outcomes && r in t'.outcomes && t'.outcomes[r] == Selected(option)
  }

  lemma UpsertedSelectsNone(t: Thread, id: string, fields: Fields, status: Status, r: nat, option: string)
    ensures !NewlySelected(t, Upserted(t, id, fields, status), r, option)
    ensures !NewlySelected(t, Updated(t, id, fields), r, option)
  {
  }

  lemma DroppingSelectsNone(t: Thread, r: nat, option: string)
    ensures !NewlySelected(t, CanceledTurn(t), r, option)
    ensures !NewlySelected(t, AfterRefusal(t), r, option)
    ensures forall message :: !NewlySelected(t, Rewound(t, message), r, option)
  {
    forall n | 0 <= n <= |t.entries| ensures !NewlySelected(t, Truncated(t, n), r, option) {
      if NewlySelected(t, Truncated(t, n), r, option) {
        DroppedAreCancelled(t.outcomes, t.entries[n..], r);
      }
    }
    if NewlySelected(t, CanceledTurn(t), r, option) {
      DroppedAreCancelled(t.outcomes, t.entries, r);
    }
  }

  lemma StepSelects(t: Thread, e: Event, r: nat, option: string)
    requires NewlySelected(t, Step(t, e), r, option)
    ensures Grants(t, e, r, option)
  {
    match e
    case StartTurn => DroppingSelectsNone(t, r, option);
    case EndTurn(reason) =>
      DroppingSelectsNone(t, r, option);
      DroppingSelectsNone(t.(sending := false), r, option);
    case Upsert(id, fields, status) => UpsertedSelectsNone(t, id, fields, status, r, option);
    case Update(id, fields) => UpsertedSelectsNone(t, id, fields, Pending, r, option);
    case Request(id, fields, options, alwaysAllow) =>
      UpsertedSelectsNone(t, id, fields, Pending, r, option);
      UpsertedSelectsNone(t, id, fields, WaitingForConfirmation(options, t.issued), r, option);
    case Authorize(id, opt, kind) =>
    case Cancel => DroppingSelectsNone(t, r, option);
    case Rewind(userMessage) => DroppingSelectsNone(t, r, option);
    case _ =>
  }

  /** The event that grants an option to a request is the one at which the requester comes to read it. */
  lemma StepSelectsIff(t: Thread, e: Event, r: nat, option: string)
    requires Linear(t) && WellFormed(e)
    ensures NewlySelected(t, Step(t, e), r, option) <==> Grants(t, e, r, option)
  {
    if Grants(t, e, r, option) {
      assert Places(t, r) == One(0 <= r < t.issued);
      if e.Authorize? {
        HeldAtMost(t.entries, IndexFor(t.entries, e.id), r);
      } else {
        UpsertedPlaces(t, e.id, e.fields, Pending, r);
      }
    }
    if NewlySelected(t, Step(t, e), r, option) {
      StepSelects(t, e, r, option);
    }
  }

  // ----- identifiers stay unique, entries stay canonical

  ghost predicate Tidy(entries: seq<Entry>) {
    UniqueIds(entries) && Canonical(entries)
  }

  lemma ReplaceCallTidy(entries: seq<Entry>, i: int, call: ToolCall)
    requires Tidy(entries) && 0 <= i < |entries| && entries[i].Call? && call.id == entries[i].call.id
    ensures Tidy(entries[i := Call(call)])
  {
  }

  lemma AddCallTidy(t: Thread, call: ToolCall)
    requires Tidy(t.entries) && IndexFor(t.entries, call.id) < 0
    ensures Tidy(AddCall(t, call).entries)
  {
    forall i | 0 <= i < |t.entries| ensures !IsCall(t.entries[i], call.id) {
      NoMatch(t.entries, call.id, i);
    }
  }

  lemma {:induction false} CancelAt(entries: seq<Entry>, i: int)
    requires 0 <= i < |entries|
    ensures CancelEntries(entries)[i] == CancelEntry(entries[i])
  {
    if i < |entries| - 1 {
      CancelAt(entries[..|entries| - 1], i);
    }
  }

  lemma CancelTidy(entries: seq<Entry>)
    requires Tidy(entries)
    ensures Tidy(CancelEntries(entries))
  {
    forall i | 0 <= i < |entries| ensures CancelEntries(entries)[i] == CancelEntry(entries[i]) {
      CancelAt(entries, i);
    }
  }

  lemma TruncatedTidy(entries: seq<Entry>)
    requires Tidy(entries)
    ensures forall n | 0 <= n <= |entries| :: Tidy(entries[..n])
  {
  }

  lemma PushTidy(entries: seq<Entry>, e: Event)
    requires Tidy(entries) && (e.UserChunk? || e.AssistantChunk? || e.SendMessage?)
    ensures e.UserChunk? ==> Tidy(PushUser(entries, e.messageId, e.block))
    ensures e.AssistantChunk? ==> Tidy(PushAssistant(entries, e.block, e.isThought))
    ensures e.SendMessage? ==> Tidy(entries + [UserMessage(e.messageId, Combined(e.blocks), e.blocks)])
  {
    if e.UserChunk? {
      PushUserCanonical(entries, e.messageId, e.block);
    }
    if e.AssistantChunk? {
      PushAssistantCanonical(entries, e.block, e.isThought);
    }
  }

  lemma SetFieldsTidy(t: Thread, i: int, fields: Fields)
    requires Tidy(t.entries) && 0 <= i < |t.entries| && t.entries[i].Call?
    ensures Tidy(SetFields(t, i, fields).entries) && SetFields(t, i, fields).entries[i].call.id == t.entries[i].call.id
  {
    var t1 := t;
    if fields.status.Some? {
      t1 := SetStatus(t, i, fields.status.value);
      ReplaceCallTidy(t.entries, i, t1.entries[i].call);
    }
    ReplaceCallTidy(t1.entries, i, t1.entries[i].call.(hasOutput := true));
  }

  lemma UpsertedTidy(t: Thread, id: string, fields: Fields, status: Status)
    requires Tidy(t.entries)
    ensures Tidy(Upserted(t, id, fields, status).entries)
    ensures Tidy(Updated(t, id, fields).entries)
  {
    var i := IndexFor(t.entries, id);
    if i >= 0 {
      SetFieldsTidy(t, i, fields);
      var t1 := SetFields(t, i, fields);
      ReplaceCallTidy(t1.entries, i, t1.entries[i].call.(status := status));
    } else {
      AddCallTidy(t, ToolCall(id, status, fields.hasOutput));
      AddCallTidy(t, ToolCall(id, Failed, false));
    }
  }

  /** A request changes the entries as an upsert does. */
  lemma RequestedEntries(t: Thread, id: string, fields: Fields, options: seq<PermissionOption>, alwaysAllow: bool)
    returns (status: Status)
    ensures Requested(t, id, fields, options, alwaysAllow).entries == Upserted(t, id, fields, status).entries
  {
    status := if alwaysAllow && AllowOnceOption(options).Some? then Pending else WaitingForConfirmation(options, t.issued);
  }

  lemma AuthorizedTidy(t: Thread, id: string, option: string, kind: PermissionKind)
    requires Tidy(t.entries)
    ensures Tidy(Authorized(t, id, option, kind).entries)
  {
    var i := IndexFor(t.entries, id);
    if i >= 0 {
      ReplaceCallTidy(t.entries, i, t.entries[i].call.(status := AnswerStatus(kind)));
    }
  }

  lemma StepTidy(t: Thread, e: Event)
    requires Tidy(t.entries)
    ensures Tidy(Step(t, e).entries)
  {
    match e
    case UserChunk(_, _) => PushTidy(t.entries, e);
    case AssistantChunk(_, _) => PushTidy(t.entries, e);
    case StartTurn => CancelTidy(t.entries);
    case SendMessage(_, _) => PushTidy(t.entries, e);
    case EndTurn(_) => TruncatedTidy(t.entries);
    case Upsert(id, fields, status) => UpsertedTidy(t, id, fields, status);
    case Update(id, fields) => UpsertedTidy(t, id, fields, Failed);
    case Request(id, fields, options, alwaysAllow) =>
      var status := RequestedEntries(t, id, fields, options, alwaysAllow);
      UpsertedTidy(t, id, fields, status);
    case Authorize(id, option, kind) => AuthorizedTidy(t, id, option, kind);
    case Cancel => CancelTidy(t.entries);
    case Rewind(_) => TruncatedTidy(t.entries);
  }

  /** On any run whatever, tool-call identifiers stay unique, no two assistant messages are neighbours, and each
      alternates between text and thoughts. */
  lemma {:induction false} RunTidy(events: seq<Event>)
    ensures UniqueIds(Run(START, events).entries) && Canonical(Run(START, events).entries)
  {
    if events != [] {
      RunTidy(events[..|events| - 1]);
      StepTidy(Run(START, events[..|events| - 1]), events[|events| - 1]);
    }
  }

  // ----- streamed text is conserved

  /** The event shows what it brings: a chunk is taken by the content it is added to, and a message's blocks combine. */
  predicate Streams(t: Thread, e: Event) {
    match e
    case UserChunk(_, block) => Takes(UserTarget(t.entries), block)
    case AssistantChunk(block, isThought) => Takes(AssistantTarget(t.entries, isThought), block)
    case SendMessage(_, blocks) => Combines(blocks)
    case _ => true
  }

  /** How many of the entries the event leaves: a refusal or a rewind removes those from a user message on. */
  function KeptEntries(t: Thread, e: Event): (n: int)
    ensures 0 <= n <= |t.entries|
  {
    match e
    case EndTurn(reason) => if reason.Refused? then |AfterRefusal(t).entries| else |t.entries|
    case Rewind(userMessage) => |Rewound(t, userMessage).entries|
    case _ => |t.entries|
  }

  /** What the event adds to what the thread shows. */
  function Added(t: Thread, e: Event): seq<Item> {
    match e
    case UserChunk(_, block) => UserItems(BlockText(block))
    case AssistantChunk(block, isThought) => AssistantItems(BlockText(block), isThought)
    case SendMessage(_, blocks) => UserItems(BlockTexts(blocks))
    case Upsert(id, fields, _) => UpsertItems(t, id, fields)
    case Update(id, _) => if IndexFor(t.entries, id) < 0 then [CallMark(id)] else []
    case Request(id, fields, _, _) => UpsertItems(t, id, fields)
    case _ => []
  }

  /** An upsert that goes through adds a tool call, unless the thread has it already. */
  function UpsertItems(t: Thread, id: string, fields: Fields): seq<Item> {
    if IndexFor(t.entries, id) < 0 && fields.contentValid && fields.titled then [CallMark(id)] else []
  }

  function Take<T>(s: seq<T>, n: nat): seq<T> {
    if n <= |s| then s[..n] else s
  }

  /** What the events bring to a thread, in order, less what is removed with the entries that showed it. */
  function Brought(t: Thread, events: seq<Event>): seq<Item> {
    if events == [] then Flatten(t.entries)
    else
      var n := |events| - 1;
      var before := Run(t, events[..n]);
      Take(Brought(t, events[..n]), |Flatten(before.entries[..KeptEntries(before, events[n])])|) + Added(before, events[n])
  }

  lemma {:induction false} FlattenPrefix(entries: seq<Entry>, n: nat)
    requires n <= |entries|
    ensures Flatten(entries[..n]) <= Flatten(entries)
    decreases |entries|
  {
    if n < |entries| {
      var k := |entries| - 1;
      FlattenPrefix(entries[..k], n);
      assert entries[..k][..n] == entries[..n];
      PrefixOfConcat(Flatten(entries[..n]), Flatten(entries[..k]), EntryItems(entries[k]));
    } else {
      assert entries[..n] == entries;
    }
  }

  lemma PrefixOfConcat<T>(s: seq<T>, a: seq<T>, b: seq<T>)
    requires s <= a
    ensures s <= a + b
  {
  }

  lemma TakeOfPrefix<T>(s: seq<T>, t: seq<T>)
    requires t <= s
    ensures Take(s, |t|) == t
  {
  }

  lemma {:induction false} FlattenSetCall(entries: seq<Entry>, i: int, call: ToolCall)
    requires 0 <= i < |entries| && entries[i].Call? && call.id == entries[i].call.id
    ensures Flatten(entries[i := Call(call)]) == Flatten(entries)
  {
    var n := |entries| - 1;
    if i < n {
      FlattenSetCall(entries[..n], i, call);
      assert entries[i := Call(call)][..n] == entries[..n][i := Call(call)];
    } else {
      assert entries[i := Call(call)][..n] == entries[..n];
    }
  }

  lemma {:induction false} FlattenCancel(entries: seq<Entry>)
    ensures Flatten(CancelEntries(entries)) == Flatten(entries)
  {
    if entries != [] {
      var n := |entries| - 1;
      FlattenCancel(entries[..n]);
      FlattenSnoc(CancelEntries(entries[..n]), CancelEntry(entries[n]));
    }
  }

  lemma SetFieldsFlatten(t: Thread, i: int, fields: Fields)
    requires 0 <= i < |t.entries| && t.entries[i].Call?
    ensures Flatten(SetFields(t, i, fields).entries) == Flatten(t.entries)
  {
    var t1 := t;
    if fields.status.Some? {
      t1 := SetStatus(t, i, fields.status.value);
      FlattenSetCall(t.entries, i, t1.entries[i].call);
    }
    FlattenSetCall(t1.entries, i, t1.entries[i].call.(hasOutput := true));
  }

  lemma UpsertedFlatten(t: Thread, id: string, fields: Fields, status: Status)
    ensures Flatten(Upserted(t, id, fields, status).entries) == Flatten(t.entries) + UpsertItems(t, id, fields)
  {
    var i := IndexFor(t.entries, id);
    if i >= 0 {
      SetFieldsFlatten(t, i, fields);
      var t1 := SetFields(t, i, fields);
      FlattenSetCall(t1.entries, i, t1.entries[i].call.(status := status));
    } else {
      FlattenSnoc(t.entries, Call(ToolCall(id, status, fields.hasOutput)));
    }
  }

  lemma UpdatedFlatten(t: Thread, id: string, fields: Fields)
    ensures Flatten(Updated(t, id, fields).entries) == Flatten(t.entries) + Added(t, Update(id, fields))
  {
    var i := IndexFor(t.entries, id);
    if i >= 0 {
      SetFieldsFlatten(t, i, fields);
    } else {
      FlattenSnoc(t.entries, Call(ToolCall(id, Failed, false)));
    }
  }

  lemma AuthorizedFlatten(t: Thread, id: string, option: string, kind: PermissionKind)
    ensures Flatten(Authorized(t, id, option, kind).entries) == Flatten(t.entries)
  {
    var i := IndexFor(t.entries, id);
    if i >= 0 {
      FlattenSetCall(t.entries, i, t.entries[i].call.(status := AnswerStatus(kind)));
    }
  }

  // ----- what one step shows

  /** What the thread shows after the event is what it showed up to the entries that the event removes, and what the event
      brings. */
  ghost predicate Conserves(t: Thread, e: Event) {
    Flatten(Step(t, e).entries) == Flatten(t.entries[..KeptEntries(t, e)]) + Added(t, e)
  }

  lemma ConservesIff(t: Thread, e: Event, entries: seq<Entry>, added: seq<Item>)
    requires entries == Step(t, e).entries && KeptEntries(t, e) == |t.entries| && added == Added(t, e)
    ensures Conserves(t, e) <==> Flatten(entries) == Flatten(t.entries) + added
  {
    assert t.entries[..|t.entries|] == t.entries;
  }

  lemma SentFlatten(entries: seq<Entry>, id: Option<string>, blocks: seq<Block>)
    ensures Flatten(entries + [UserMessage(id, Combined(blocks), blocks)]) == Flatten(entries) + UserItems(BlockTexts(blocks))
            <==> Combines(blocks)
  {
    var shown := ContentText(Combined(blocks));
    FlattenSnoc(entries, UserMessage(id, Combined(blocks), blocks));
    CombinedConserves(blocks);
    UserItemsDiffer(shown, BlockTexts(blocks));
    SameFront(Flatten(entries), UserItems(shown), UserItems(BlockTexts(blocks)));
  }

  lemma BringConserves(t: Thread, e: Event)
    requires e.UserChunk? || e.AssistantChunk? || e.SendMessage?
    ensures Conserves(t, e) <==> Streams(t, e)
  {
    match e
    case UserChunk(messageId, block) =>
      PushUserConserves(t.entries, messageId, block);
      ConservesIff(t, e, PushUser(t.entries, messageId, block), UserItems(BlockText(block)));
    case AssistantChunk(block, isThought) =>
      PushAssistantConserves(t.entries, block, isThought);
      ConservesIff(t, e, PushAssistant(t.entries, block, isThought), AssistantItems(BlockText(block), isThought));
    case SendMessage(messageId, blocks) =>
      SentFlatten(t.entries, messageId, blocks);
      ConservesIff(t, e, t.entries + [UserMessage(messageId, Combined(blocks), blocks)], UserItems(BlockTexts(blocks)));
  }

  lemma TurnConserves(t: Thread, e: Event)
    requires e.StartTurn? || e.Cancel?
    ensures Conserves(t, e)
  {
    FlattenCancel(t.entries);
    ConservesIff(t, e, Step(t, e).entries, []);
  }

  lemma RemovalConserves(t: Thread, e: Event)
    requires e.EndTurn? || e.Rewind?
    ensures Conserves(t, e)
  {
    assert t.entries[..|t.entries|] == t.entries;
    assert Step(t, e).entries == t.entries[..KeptEntries(t, e)];
  }

  lemma UpsertConserves(t: Thread, e: Event)
    requires e.Upsert?
    ensures Conserves(t, e)
  {
    UpsertedFlatten(t, e.id, e.fields, e.status);
    ConservesIff(t, e, Upserted(t, e.id, e.fields, e.status).entries, UpsertItems(t, e.id, e.fields));
  }

  lemma RequestConserves(t: Thread, e: Event)
    requires e.Request?
    ensures Conserves(t, e)
  {
    var status := RequestedEntries(t, e.id, e.fields, e.options, e.alwaysAllow);
    UpsertedFlatten(t, e.id, e.fields, status);
    ConservesIff(t, e, Upserted(t, e.id, e.fields, status).entries, UpsertItems(t, e.id, e.fields));
  }

  lemma UpdateConserves(t: Thread, e: Event)
    requires e.Update?
    ensures Conserves(t, e)
  {
    UpdatedFlatten(t, e.id, e.fields);
    ConservesIff(t, e, Updated(t, e.id, e.fields).entries, Added(t, e));
  }

  lemma AuthorizeConserves(t: Thread, e: Event)
    requires e.Authorize?
    ensures Conserves(t, e)
  {
    AuthorizedFlatten(t, e.id, e.option, e.kind);
    ConservesIff(t, e, Authorized(t, e.id, e.option, e.kind).entries, []);
  }

  /** A step leaves what is shown up to the entries it removes, and adds exactly what it brings, if and only if it
      streams. */
  lemma StepConserves(t: Thread, e: Event)
    ensures Conserves(t, e) <==> Streams(t, e)
  {
    match e
    case UserChunk(_, _) => BringConserves(t, e);
    case AssistantChunk(_, _) => BringConserves(t, e);
    case SendMessage(_, _) => BringConserves(t, e);
    case StartTurn => TurnConserves(t, e);
    case Cancel => TurnConserves(t, e);
    case EndTurn(_) => RemovalConserves(t, e);
    case Rewind(_) => RemovalConserves(t, e);
    case Upsert(_, _, _) => UpsertConserves(t, e);
    case Update(_, _) => UpdateConserves(t, e);
    case Request(_, _, _, _) => RequestConserves(t, e);
    case Authorize(_, _, _) => AuthorizeConserves(t, e);
  }

  // ----- what a run shows

  /** After the first `n` events the thread shows what they brought. */
  ghost predicate ShowsBrought(events: seq<Event>, n: nat)
    requires n <= |events|
  {
    Flatten(Run(START, events[..n]).entries) == Brought(START, events[..n])
  }

  lemma PrefixNext(events: seq<Event>, n: nat) returns (before: Thread)
    requires n < |events|
    ensures before == Run(START, events[..n]) && Run(START, events[..n + 1]) == Step(before, events[n])
    ensures Brought(START, events[..n + 1])
            == Take(Brought(START, events[..n]), |Flatten(before.entries[..KeptEntries(before, events[n])])|) + Added(before, events[n])
  {
    before := Run(START, events[..n]);
    assert events[..n + 1][..n] == events[..n];
  }

  lemma ShowsNext(events: seq<Event>, n: nat)
    requires n < |events| && ShowsBrought(events, n)
    ensures ShowsBrought(events, n + 1) <==> Streams(Run(START, events[..n]), events[n])
  {
    var before := PrefixNext(events, n);
    var kept := before.entries[..KeptEntries(before, events[n])];
    StepConserves(before, events[n]);
    FlattenPrefix(before.entries, KeptEntries(before, events[n]));
    TakeOfPrefix(Flatten(before.entries), Flatten(kept));
  }

  lemma {:induction false} AllShow(events: seq<Event>, n: nat)
    requires n <= |events| && forall i | 0 <= i < n :: Streams(Run(START, events[..i]), events[i])
    ensures ShowsBrought(events, n)
  {
    if n > 0 {
      AllShow(events, n - 1);
      ShowsNext(events, n - 1);
    }
  }

  /** Nothing streamed is lost, repeated or reordered: at every moment of the run the thread shows what the events so far
      have brought, in order, up to the entries that a refusal or a rewind has removed, if and only if every step streams. */
  lemma RunConserves(events: seq<Event>)
    ensures (forall n | 0 <= n <= |events| :: ShowsBrought(events, n))
            <==> forall i | 0 <= i < |events| :: Streams(Run(START, events[..i]), events[i])
  {
    if forall i | 0 <= i < |events| :: Streams(Run(START, events[..i]), events[i]) {
      forall n | 0 <= n <= |events| ensures ShowsBrought(events, n) {
        AllShow(events, n);
      }
    }
    if forall n | 0 <= n <= |events| :: ShowsBrought(events, n) {
      forall i | 0 <= i < |events| ensures Streams(Run(START, events[..i]), events[i]) {
        assert ShowsBrought(events, i) && ShowsBrought(events, i + 1);
        ShowsNext(events, i);
      }
    }
  }

  // ----- runs without links

  /** The event brings no link that could open a content. */
  predicate BringsNoLink(e: Event) {
    match e
    case UserChunk(_, block) => !block.ResourceLink?
    case AssistantChunk(block, _) => !block.ResourceLink?
    case SendMessage(_, blocks) => blocks == [] || !blocks[0].ResourceLink?
    case _ => true
  }

  /** No content of the entry is a bare link. */
  ghost predicate LinkFree(entry: Entry) {
    match entry
    case UserMessage(_, content, _) => !content.Link?
    case AssistantMessage(parts) => forall i | 0 <= i < |parts| :: !parts[i].block.Link?
    case Call(_) => true
  }

  ghost predicate AllLinkFree(entries: seq<Entry>) {
    forall i | 0 <= i < |entries| :: LinkFree(entries[i])
  }

  lemma BringLinkFree(t: Thread, e: Event)
    requires AllLinkFree(t.entries) && BringsNoLink(e) && (e.UserChunk? || e.AssistantChunk? || e.SendMessage?)
    ensures Streams(t, e) && AllLinkFree(Step(t, e).entries)
  {
    assert t.entries != [] ==> LinkFree(t.entries[|t.entries| - 1]);
  }

  lemma {:induction false} CancelLinkFree(entries: seq<Entry>)
    requires AllLinkFree(entries)
    ensures AllLinkFree(CancelEntries(entries))
  {
    if entries != [] {
      CancelLinkFree(entries[..|entries| - 1]);
    }
  }

  lemma UpsertLinkFree(t: Thread, id: string, fields: Fields, status: Status)
    requires AllLinkFree(t.entries)
    ensures AllLinkFree(Upserted(t, id, fields, status).entries)
  {
  }

  lemma StepLinkFree(t: Thread, e: Event)
    requires AllLinkFree(t.entries) && BringsNoLink(e)
    ensures Streams(t, e) && AllLinkFree(Step(t, e).entries)
  {
    match e
    case UserChunk(_, _) => BringLinkFree(t, e);
    case AssistantChunk(_, _) => BringLinkFree(t, e);
    case SendMessage(_, _) => BringLinkFree(t, e);
    case StartTurn => CancelLinkFree(t.entries);
    case Cancel => CancelLinkFree(t.entries);
    case Upsert(id, fields, status) => UpsertLinkFree(t, id, fields, status);
    case Request(id, fields, options, alwaysAllow) =>
      var status := RequestedEntries(t, id, fields, options, alwaysAllow);
      UpsertLinkFree(t, id, fields, status);
    case _ =>
  }

  lemma {:induction false} RunLinkFree(events: seq<Event>, n: nat)
    requires n <= |events| && forall i | 0 <= i < |events| :: BringsNoLink(events[i])
    ensures AllLinkFree(Run(START, events[..n]).entries)
  {
    if n > 0 {
      var k := n - 1;
      RunLinkFree(events, k);
      var before := PrefixNext(events, k);
      StepLinkFree(before, events[k]);
      assert events[..k + 1] == events[..n];
    }
  }

  /** A run that brings no link shows what its events brought, at every moment, whatever else happens. */
  lemma RunWithoutLinks(events: seq<Event>, n: nat)
    requires n <= |events| && forall i | 0 <= i < |events| :: BringsNoLink(events[i])
    ensures ShowsBrought(events, n)
  {
    forall i | 0 <= i < n ensures Streams(Run(START, events[..i]), events[i]) {
      RunLinkFree(events, i);
      StepLinkFree(Run(START, events[..i]), events[i]);
    }
    AllShow(events, n);
  }

  // ----- what the single steps do to the entries

  /** The two threads have the same entries but for the `i`th. */
  ghost predicate SameElsewhere(before: seq<Entry>, after: seq<Entry>, i: int) {
    |after| == |before| && forall k | 0 <= k < |before| && k != i :: after[k] == before[k]
  }

  /** An upsert that goes through leaves exactly one tool call with the identifier, in the given status; every other
      entry stays. */
  lemma UpsertedExactly(t: Thread, id: string, fields: Fields, status: Status)
    requires UniqueIds(t.entries) && Accepted(t, id, fields)
    ensures var after, i := Upserted(t, id, fields, status).entries, IndexFor(t.entries, id);
            && (if i >= 0 then SameElsewhere(t.entries, after, i) else |after| == |t.entries| + 1 && t.entries == after[..|t.entries|])
            && exists k :: 0 <= k < |after| && IsCall(after[k], id) && after[k].call.status == status
                           && forall n | 0 <= n < |after| && IsCall(after[n], id) :: n == k
  {
    var after, i := Upserted(t, id, fields, status).entries, IndexFor(t.entries, id);
    var k := if i >= 0 then i else |t.entries|;
    assert IsCall(after[k], id) && after[k].call.status == status;
    forall n | 0 <= n < |after| && IsCall(after[n], id) ensures n == k {
      if n < |t.entries| && n != k {
        if i >= 0 {
          OnlyMatch(t.entries, id, n);
        } else {
          NoMatch(t.entries, id, n);
        }
      }
    }
  }

  /** An answered tool call waits no more: a rejecting answer ends it, an allowing one lets it run, whatever the option;
      no other entry changes. */
  lemma AuthorizedEndsWaiting(t: Thread, id: string, option: string, kind: PermissionKind, k: int)
    requires UniqueIds(t.entries) && 0 <= k < |t.entries|
    ensures var after := Authorized(t, id, option, kind).entries;
            && |after| == |t.entries|
            && (!IsCall(t.entries[k], id) ==> after[k] == t.entries[k])
            && (IsCall(t.entries[k], id) ==>
                  IsCall(after[k], id) && (if kind.RejectOnce? || kind.RejectAlways? then after[k].call.status.Rejected?
                                           else after[k].call.status.InProgress?))
  {
    if IsCall(t.entries[k], id) {
      OnlyMatch(t.entries, id, k);
    }
  }

  /** Canceling a running turn stops every tool call that is pending, waiting or in progress, and leaves all others. */
  lemma CancelStopsAll(t: Thread, k: int)
    requires t.sending && 0 <= k < |t.entries|
    ensures var after := CanceledTurn(t).entries;
            && |after| == |t.entries|
            && (if t.entries[k].Call? && (t.entries[k].call.status.Pending? || t.entries[k].call.status.InProgress?
                                          || t.entries[k].call.status.WaitingForConfirmation?)
                then after[k] == Call(t.entries[k].call.(status := Status.Canceled)) else after[k] == t.entries[k])
  {
    CancelAt(t.entries, k);
  }

  lemma {:induction false} LastUserIsLast(entries: seq<Entry>, k: int)
    requires LastUser(entries) < k < |entries|
    ensures !entries[k].UserMessage?
    ensures LastUser(entries) >= 0 ==> entries[LastUser(entries)].UserMessage?
  {
    var n := |entries| - 1;
    if k < n {
      LastUserIsLast(entries[..n], k);
    } else if LastUser(entries) < n - 1 {
      LastUserIsLast(entries[..n], n - 1);
    } else if n > 0 {
      LastUserThere(entries[..n]);
    }
  }

  lemma {:induction false} LastUserThere(entries: seq<Entry>)
    requires LastUser(entries) >= 0
    ensures entries[LastUser(entries)].UserMessage?
  {
    if !entries[|entries| - 1].UserMessage? {
      LastUserThere(entries[..|entries| - 1]);
    }
  }

  /** A refusal removes the last user message and all that follows, or nothing: if there is no user message, or a
      completed tool call with output follows the last one. */
  lemma RefusalRemovesLastTurn(t: Thread, i: int)
    requires 0 <= i < |t.entries| && t.entries[i].UserMessage?
    requires forall k | i < k < |t.entries| :: !t.entries[k].UserMessage?
    ensures AfterRefusal(t).entries
            == if exists k | i < k < |t.entries| ::
                    t.entries[k].Call? && t.entries[k].call.status.Completed? && t.entries[k].call.hasOutput
               then t.entries else t.entries[..i]
  {
    if LastUser(t.entries) < i {
      LastUserIsLast(t.entries, i);
    } else {
      LastUserThere(t.entries);
    }
  }

  /** A rewind removes the first user message with the identifier and all that follows. */
  lemma RewindRemovesFrom(t: Thread, userMessage: string, i: int)
    requires 0 <= i < |t.entries| && t.entries[i].UserMessage? && t.entries[i].id == Some(userMessage)
    requires forall k | 0 <= k < i && t.entries[k].UserMessage? :: t.entries[k].id != Some(userMessage)
    ensures Rewound(t, userMessage).entries == t.entries[..i]
  {
    FirstUserIs(t.entries, userMessage, i);
  }

  lemma {:induction false} FirstUserIs(entries: seq<Entry>, userMessage: string, i: int)
    requires 0 <= i < |entries| && entries[i].UserMessage? && entries[i].id == Some(userMessage)
    requires forall k | 0 <= k < i && entries[k].UserMessage? :: entries[k].id != Some(userMessage)
    ensures UserIndex(entries, userMessage) == i
  {
    var n := |entries| - 1;
    if i < n {
      FirstUserIs(entries[..n], userMessage, i);
    } else {
      NoUserBefore(entries[..n], userMessage);
    }
  }

  lemma {:induction false} NoUserBefore(entries: seq<Entry>, userMessage: string)
    requires forall k | 0 <= k < |entries| && entries[k].UserMessage? :: entries[k].id != Some(userMessage)
    ensures UserIndex(entries, userMessage) == -1
  {
    if entries != [] {
      NoUserBefore(entries[..|entries| - 1], userMessage);
    }
  }
}
