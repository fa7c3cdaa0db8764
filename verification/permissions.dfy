/** Tool calls of a thread and the permission requests they hold, as a state machine.

    A request is a one-shot channel. Its sender sits in the status of a tool call; overwriting or removing that
    status drops the sender, and the requester then reads `Cancelled`. `outcomes` says what each requester reads.
 */
module Permissions {
  import opened Options
  import opened Streaming

  datatype Outcome = Selected(option: string) | Cancelled

  /** The thread. `sending` is whether a turn is running; requests are numbered from 0 up to `issued`. */
  datatype Thread = Thread(entries: seq<Entry>, sending: bool, issued: nat, outcomes: map<nat, Outcome>)

  /** The fields of a tool-call update. `contentValid` is whether its content can be converted, and `titled` whether it
      has what a new tool call needs. */
  datatype Fields = Fields(status: Option<Status>, contentValid: bool, hasOutput: bool, titled: bool)

  datatype StopReason = Finished | Stopped | Refused | Broken

  datatype Event =
    | UserChunk(messageId: Option<string>, block: Block)
    | AssistantChunk(block: Block, isThought: bool)
    | StartTurn
    | SendMessage(messageId: Option<string>, blocks: seq<Block>)
    | EndTurn(reason: StopReason)
    | Upsert(id: string, fields: Fields, status: Status)
    | Update(id: string, fields: Fields)
    | Request(id: string, fields: Fields, options: seq<PermissionOption>, alwaysAllow: bool)
    | Authorize(id: string, option: string, kind: PermissionKind)
    | Cancel
    | Rewind(userMessage: string)

  // ----- looking up entries

  predicate IsCall(entry: Entry, id: string) {
    entry.Call? && entry.call.id == id
  }

  /** The last entry for the tool call, or -1. */
  function IndexFor(entries: seq<Entry>, id: string): (index: int)
    ensures -1 <= index < |entries|
    ensures index >= 0 ==> IsCall(entries[index], id)
  {
    if entries == [] then -1
    else if IsCall(entries[|entries| - 1], id) then |entries| - 1
    else IndexFor(entries[..|entries| - 1], id)
  }

  function LastUser(entries: seq<Entry>): (index: int)
    ensures -1 <= index < |entries|
  {
    if entries == [] then -1
    else if entries[|entries| - 1].UserMessage? then |entries| - 1
    else LastUser(entries[..|entries| - 1])
  }

  /** The first user message with the id, or -1. */
  function UserIndex(entries: seq<Entry>, id: string): (index: int)
    ensures -1 <= index < |entries|
  {
    if entries == [] then -1
    else
      var index := UserIndex(entries[..|entries| - 1], id);
      var last := entries[|entries| - 1];
      if index < 0 && last.UserMessage? && last.id == Some(id) then |entries| - 1 else index
  }

  predicate CompletedWithOutput(entry: Entry) {
    entry.Call? && entry.call.status.Completed? && entry.call.hasOutput
  }

  ghost predicate UniqueIds(entries: seq<Entry>) {
    forall i, j | 0 <= i < j < |entries| && entries[i].Call? && entries[j].Call? :: entries[i].call.id != entries[j].call.id
  }

  /** With unique ids the reverse search finds the only match. */
  lemma {:induction false} OnlyMatch(entries: seq<Entry>, id: string, i: int)
    requires UniqueIds(entries) && 0 <= i < |entries| && IsCall(entries[i], id)
    ensures IndexFor(entries, id) == i
  {
    var n := |entries| - 1;
    if i < n {
      OnlyMatch(entries[..n], id, i);
    }
  }

  lemma {:induction false} NoMatch(entries: seq<Entry>, id: string, i: int)
    requires IndexFor(entries, id) < 0 && 0 <= i < |entries|
    ensures !IsCall(entries[i], id)
  {
    var n := |entries| - 1;
    if i < n {
      NoMatch(entries[..n], id, i);
    }
  }

  // ----- senders

  predicate Holds(entry: Entry, r: int) {
    entry.Call? && entry.call.status.WaitingForConfirmation? && entry.call.status.sender == r
  }

  function One(b: bool): int {
    if b then 1 else 0
  }

  /** How many entries hold the sender of the request. */
  function Held(entries: seq<Entry>, r: int): (n: int)
    ensures n >= 0
  {
    if entries == [] then 0 else Held(entries[..|entries| - 1], r) + One(Holds(entries[|entries| - 1], r))
  }

  /** What requesters read once the entry's status is gone. */
  function Dropped(outcomes: map<nat, Outcome>, entry: Entry): map<nat, Outcome> {
    if entry.Call? && entry.call.status.WaitingForConfirmation? then outcomes[entry.call.status.sender := Cancelled]
    else outcomes
  }

  function AllDropped(outcomes: map<nat, Outcome>, entries: seq<Entry>): map<nat, Outcome> {
    if entries == [] then outcomes else Dropped(AllDropped(outcomes, entries[..|entries| - 1]), entries[|entries| - 1])
  }

  // ----- steps

  function SetStatus(t: Thread, i: int, status: Status): Thread
    requires 0 <= i < |t.entries| && t.entries[i].Call?
  {
    var entry := t.entries[i];
    t.(entries := t.entries[i := Call(entry.call.(status := status))], outcomes := Dropped(t.outcomes, entry))
  }

  function SetOutput(t: Thread, i: int): Thread
    requires 0 <= i < |t.entries| && t.entries[i].Call?
  {
    t.(entries := t.entries[i := Call(t.entries[i].call.(hasOutput := true))])
  }

  function AddCall(t: Thread, call: ToolCall): Thread {
    t.(entries := t.entries + [Call(call)])
  }

  function SetFields(t: Thread, i: int, fields: Fields): (t': Thread)
    requires 0 <= i < |t.entries| && t.entries[i].Call?
    ensures |t'.entries| == |t.entries| && t'.entries[i].Call?
  {
    var t1 := if fields.status.Some? then SetStatus(t, i, fields.status.value) else t;
    if fields.contentValid && fields.hasOutput then SetOutput(t1, i) else t1
  }

  /** Whether an upsert goes through; otherwise it reports an error. */
  predicate Accepted(t: Thread, id: string, fields: Fields) {
    fields.contentValid && (IndexFor(t.entries, id) >= 0 || fields.titled)
  }

  function Upserted(t: Thread, id: string, fields: Fields, status: Status): Thread {
    var i := IndexFor(t.entries, id);
    if i >= 0 then
      var t1 := SetFields(t, i, fields);
      if fields.contentValid then SetStatus(t1, i, status) else t1
    else if Accepted(t, id, fields) then AddCall(t, ToolCall(id, status, fields.hasOutput))
    else t
  }

  function Updated(t: Thread, id: string, fields: Fields): Thread {
    var i := IndexFor(t.entries, id);
    if i >= 0 then SetFields(t, i, fields) else AddCall(t, ToolCall(id, Failed, false))
  }

  /** The first option that allows once. */
  function AllowOnceOption(options: seq<PermissionOption>): Option<string> {
    if options == [] then None
    else if options[0].kind.AllowOnce? then Some(options[0].id)
    else AllowOnceOption(options[1..])
  }

  function Requested(t: Thread, id: string, fields: Fields, options: seq<PermissionOption>, alwaysAllow: bool): Thread {
    var allow := AllowOnceOption(options);
    if alwaysAllow && allow.Some? then
      var t1 := Upserted(t, id, fields, Pending);
      if Accepted(t, id, fields) then t1.(issued := t.issued + 1, outcomes := t1.outcomes[t.issued := Selected(allow.value)]) else t1
    else
      var t1 := Upserted(t, id, fields, WaitingForConfirmation(options, t.issued));
      if Accepted(t, id, fields) then t1.(issued := t.issued + 1) else t1
  }

  function AnswerStatus(kind: PermissionKind): Status {
    if kind.RejectOnce? || kind.RejectAlways? then Rejected else InProgress
  }

  function Authorized(t: Thread, id: string, option: string, kind: PermissionKind): Thread {
    var i := IndexFor(t.entries, id);
    if i < 0 then t
    else
      var call := t.entries[i].call;
      t.(entries := t.entries[i := Call(call.(status := AnswerStatus(kind)))],
         outcomes := if call.status.WaitingForConfirmation? then t.outcomes[call.status.sender := Selected(option)] else t.outcomes)
  }

  /** Whether canceling a turn cancels a tool call with this status. */
  predicate Cancellable(status: Status) {
    status.Pending? || status.WaitingForConfirmation? || status.InProgress?
  }

  function CancelEntry(entry: Entry): Entry {
    if entry.Call? && Cancellable(entry.call.status) then Call(entry.call.(status := Canceled)) else entry
  }

  function CancelEntries(entries: seq<Entry>): (r: seq<Entry>)
    ensures |r| == |entries|
  {
    if entries == [] then []
    else CancelEntries(entries[..|entries| - 1]) + [CancelEntry(entries[|entries| - 1])]
  }

  function CanceledTurn(t: Thread): Thread {
    if t.sending then Thread(CancelEntries(t.entries), false, t.issued, AllDropped(t.outcomes, t.entries)) else t
  }

  /** Removes the entries from `n` on. */
  function Truncated(t: Thread, n: int): Thread
    requires 0 <= n <= |t.entries|
  {
    t.(entries := t.entries[..n], outcomes := AllDropped(t.outcomes, t.entries[n..]))
  }

  /** A refused prompt is removed, unless a tool has already produced output for it. */
  function AfterRefusal(t: Thread): Thread {
    var i := LastUser(t.entries);
    if i < 0 || exists k | i < k < |t.entries| :: CompletedWithOutput(t.entries[k]) then t else Truncated(t, i)
  }

  function Rewound(t: Thread, userMessage: string): Thread {
    var i := UserIndex(t.entries, userMessage);
    if i < 0 then t else Truncated(t, i)
  }

  function Step(t: Thread, e: Event): Thread {
    match e
    case UserChunk(messageId, block) => t.(entries := PushUser(t.entries, messageId, block))
    case AssistantChunk(block, isThought) => t.(entries := PushAssistant(t.entries, block, isThought))
    case StartTurn => CanceledTurn(t).(sending := true)
    case SendMessage(messageId, blocks) => t.(entries := t.entries + [UserMessage(messageId, Combined(blocks), blocks)])
    case EndTurn(reason) =>
      var t1 := if reason.Stopped? then t else t.(sending := false);
      if reason.Refused? then AfterRefusal(t1) else t1
    case Upsert(id, fields, status) => Upserted(t, id, fields, status)
    case Update(id, fields) => Updated(t, id, fields)
    case Request(id, fields, options, alwaysAllow) => Requested(t, id, fields, options, alwaysAllow)
    case Authorize(id, option, kind) => Authorized(t, id, option, kind)
    case Cancel => CanceledTurn(t)
    case Rewind(userMessage) => Rewound(t, userMessage)
  }

  /** A status that an agent can report; only the thread itself stores senders. */
  predicate Reported(status: Status) {
    status.Pending? || status.InProgress? || status.Completed? || status.Failed?
  }

  predicate FieldsReported(fields: Fields) {
    fields.status.Some? ==> Reported(fields.status.value)
  }

  /** Events carry only statuses that the protocol knows. */
  predicate WellFormed(e: Event) {
    match e
    case Upsert(_, fields, status) => FieldsReported(fields) && Reported(status)
    case Update(_, fields) => FieldsReported(fields)
    case Request(_, fields, _, _) => FieldsReported(fields)
    case _ => true
  }

  // ----- linearity

  /** How often a request occurs: as a sender in an entry, or as an outcome. */
  function Places(t: Thread, r: int): int {
    Held(t.entries, r) + One(r in t.outcomes)
  }

  /** Every issued request is in exactly one place, and no other request is anywhere. */
  ghost predicate Linear(t: Thread) {
    forall r: int :: Places(t, r) == One(0 <= r < t.issued)
  }

  lemma {:induction false} HeldConcat(a: seq<Entry>, b: seq<Entry>, r: int)
    ensures Held(a + b, r) == Held(a, r) + Held(b, r)
  {
    if b == [] {
      assert a + b == a;
    } else {
      var n := |b| - 1;
      HeldConcat(a, b[..n], r);
      assert (a + b)[..|a + b| - 1] == a + b[..n];
    }
  }

  lemma HeldSplit(entries: seq<Entry>, n: int, r: int)
    requires 0 <= n <= |entries|
    ensures Held(entries, r) == Held(entries[..n], r) + Held(entries[n..], r)
  {
    assert entries == entries[..n] + entries[n..];
    HeldConcat(entries[..n], entries[n..], r);
  }

  lemma HeldSnoc(entries: seq<Entry>, entry: Entry, r: int)
    ensures Held(entries + [entry], r) == Held(entries, r) + One(Holds(entry, r))
  {
    assert (entries + [entry])[..|entries|] == entries;
  }

  lemma {:induction false} HeldSet(entries: seq<Entry>, i: int, entry: Entry, r: int)
    requires 0 <= i < |entries|
    ensures Held(entries[i := entry], r) == Held(entries, r) - One(Holds(entries[i], r)) + One(Holds(entry, r))
  {
    var n := |entries| - 1;
    if i < n {
      HeldSet(entries[..n], i, entry, r);
      assert entries[i := entry][..n] == entries[..n][i := entry];
    } else {
      assert entries[i := entry][..n] == entries[..n];
    }
  }

  /** Replacing an entry that holds a sender takes the request from the entry to the outcomes. */
  lemma SetStatusPlaces(t: Thread, i: int, status: Status, r: int)
    requires 0 <= i < |t.entries| && t.entries[i].Call? && Places(t, r) <= 1
    ensures Places(SetStatus(t, i, status), r)
            == Places(t, r) + One(status.WaitingForConfirmation? && status.sender == r)
  {
    HeldSet(t.entries, i, Call(t.entries[i].call.(status := status)), r);
    HeldAtMost(t.entries, i, r);
  }

  lemma {:induction false} HeldAtMost(entries: seq<Entry>, i: int, r: int)
    requires 0 <= i < |entries|
    ensures One(Holds(entries[i], r)) <= Held(entries, r)
  {
    var n := |entries| - 1;
    if i < n {
      HeldAtMost(entries[..n], i, r);
    }
  }

  lemma SetOutputPlaces(t: Thread, i: int, r: int)
    requires 0 <= i < |t.entries| && t.entries[i].Call?
    ensures Places(SetOutput(t, i), r) == Places(t, r)
  {
    HeldSet(t.entries, i, Call(t.entries[i].call.(hasOutput := true)), r);
  }

  lemma SetFieldsPlaces(t: Thread, i: int, fields: Fields, r: int)
    requires 0 <= i < |t.entries| && t.entries[i].Call? && Places(t, r) <= 1 && FieldsReported(fields)
    ensures Places(SetFields(t, i, fields), r) == Places(t, r)
  {
    var t1 := t;
    if fields.status.Some? {
      SetStatusPlaces(t, i, fields.status.value, r);
      t1 := SetStatus(t, i, fields.status.value);
    }
    SetOutputPlaces(t1, i, r);
  }

  lemma AddCallPlaces(t: Thread, call: ToolCall, r: int)
    ensures Places(AddCall(t, call), r) == Places(t, r) + One(call.status.WaitingForConfirmation? && call.status.sender == r)
  {
    HeldSnoc(t.entries, Call(call), r);
  }

  lemma UpsertedPlaces(t: Thread, id: string, fields: Fields, status: Status, r: int)
    requires Places(t, r) <= 1 && FieldsReported(fields)
    ensures Places(Upserted(t, id, fields, status), r)
            == Places(t, r) + One(Accepted(t, id, fields) && status.WaitingForConfirmation? && status.sender == r)
  {
    var i := IndexFor(t.entries, id);
    if i >= 0 {
      SetFieldsPlaces(t, i, fields, r);
      SetStatusPlaces(SetFields(t, i, fields), i, status, r);
    } else {
      AddCallPlaces(t, ToolCall(id, status, fields.hasOutput), r);
    }
  }

  lemma UpdatedPlaces(t: Thread, id: string, fields: Fields, r: int)
    requires Places(t, r) <= 1 && FieldsReported(fields)
    ensures Places(Updated(t, id, fields), r) == Places(t, r)
  {
    var i := IndexFor(t.entries, id);
    if i >= 0 {
      SetFieldsPlaces(t, i, fields, r);
    } else {
      AddCallPlaces(t, ToolCall(id, Failed, false), r);
    }
  }

  /** A request adds itself, in one place, if it goes through. */
  lemma RequestedPlaces(t: Thread, id: string, fields: Fields, options: seq<PermissionOption>, alwaysAllow: bool, r: int)
    requires Places(t, r) == One(0 <= r < t.issued) && FieldsReported(fields)
    ensures var t' := Requested(t, id, fields, options, alwaysAllow); Places(t', r) == One(0 <= r < t'.issued)
  {
    if alwaysAllow && AllowOnceOption(options).Some? {
      UpsertedPlaces(t, id, fields, Pending, r);
    } else {
      UpsertedPlaces(t, id, fields, WaitingForConfirmation(options, t.issued), r);
    }
  }

  lemma AuthorizedPlaces(t: Thread, id: string, option: string, kind: PermissionKind, r: int)
    requires Places(t, r) <= 1
    ensures Places(Authorized(t, id, option, kind), r) == Places(t, r)
  {
    var i := IndexFor(t.entries, id);
    if i >= 0 {
      HeldSet(t.entries, i, Call(t.entries[i].call.(status := AnswerStatus(kind))), r);
      HeldAtMost(t.entries, i, r);
    }
  }

  lemma {:induction false} DroppedHolds(outcomes: map<nat, Outcome>, entries: seq<Entry>, r: int)
    ensures r in AllDropped(outcomes, entries) <==> r in outcomes || Held(entries, r) > 0
  {
    if entries != [] {
      DroppedHolds(outcomes, entries[..|entries| - 1], r);
    }
  }

  lemma {:induction false} CancelHoldsNone(entries: seq<Entry>, r: int)
    ensures Held(CancelEntries(entries), r) == 0
  {
    if entries != [] {
      var n := |entries| - 1;
      CancelHoldsNone(entries[..n], r);
      HeldSnoc(CancelEntries(entries[..n]), CancelEntry(entries[n]), r);
    }
  }

  lemma CanceledPlaces(t: Thread, r: int)
    requires Places(t, r) <= 1
    ensures Places(CanceledTurn(t), r) == Places(t, r)
    ensures t.sending ==> Held(CanceledTurn(t).entries, r) == 0
  {
    CancelHoldsNone(t.entries, r);
    DroppedHolds(t.outcomes, t.entries, r);
  }

  lemma TruncatedPlaces(t: Thread, n: int, r: int)
    requires 0 <= n <= |t.entries| && Places(t, r) <= 1
    ensures Places(Truncated(t, n), r) == Places(t, r)
  {
    HeldSplit(t.entries, n, r);
    DroppedHolds(t.outcomes, t.entries[n..], r);
  }

  lemma PushPlaces(entries: seq<Entry>, e: Event, r: int)
    requires e.UserChunk? || e.AssistantChunk?
    ensures e.UserChunk? ==> Held(PushUser(entries, e.messageId, e.block), r) == Held(entries, r)
    ensures e.AssistantChunk? ==> Held(PushAssistant(entries, e.block, e.isThought), r) == Held(entries, r)
  {
    var entries' := if e.UserChunk? then PushUser(entries, e.messageId, e.block) else PushAssistant(entries, e.block, e.isThought);
    var last := entries'[|entries'| - 1];
    if |entries'| == |entries| {
      HeldSet(entries, |entries| - 1, last, r);
    } else {
      HeldSnoc(entries, last, r);
    }
  }

  lemma StepPlaces(t: Thread, e: Event, r: int)
    requires WellFormed(e) && Places(t, r) == One(0 <= r < t.issued)
    ensures Places(Step(t, e), r) == One(0 <= r < Step(t, e).issued)
  {
    match e
    case UserChunk(_, _) => PushPlaces(t.entries, e, r);
    case AssistantChunk(_, _) => PushPlaces(t.entries, e, r);
    case StartTurn => CanceledPlaces(t, r);
    case SendMessage(messageId, blocks) => HeldSnoc(t.entries, UserMessage(messageId, Combined(blocks), blocks), r);
    case EndTurn(reason) =>
      TruncationPlaces(t, r);
      TruncationPlaces(t.(sending := false), r);
    case Upsert(id, fields, status) => UpsertedPlaces(t, id, fields, status, r);
    case Update(id, fields) => UpdatedPlaces(t, id, fields, r);
    case Request(id, fields, options, alwaysAllow) => RequestedPlaces(t, id, fields, options, alwaysAllow, r);
    case Authorize(id, option, kind) => AuthorizedPlaces(t, id, option, kind, r);
    case Cancel => CanceledPlaces(t, r);
    case Rewind(userMessage) => TruncationPlaces(t, r);
  }

  lemma TruncationPlaces(t: Thread, r: int)
    requires Places(t, r) <= 1
    ensures forall n | 0 <= n <= |t.entries| :: Places(Truncated(t, n), r) == Places(t, r)
  {
    forall n | 0 <= n <= |t.entries| ensures Places(Truncated(t, n), r) == Places(t, r) {
      TruncatedPlaces(t, n, r);
    }
  }

  /** Every step keeps every request in exactly one place. */
  lemma StepLinear(t: Thread, e: Event)
    requires Linear(t) && WellFormed(e)
    ensures Linear(Step(t, e))
  {
    forall r: int ensures Places(Step(t, e), r) == One(0 <= r < Step(t, e).issued) {
      StepPlaces(t, e, r);
    }
  }
}
