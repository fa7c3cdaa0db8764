/** Bookkeeping of the tools that a model asks for: which were requested by which message, which are pending, and which
    have a result. */
module ToolUses {
  import opened Options

  datatype ToolUse = ToolUse(id: string, name: string, isInputComplete: bool)

  datatype ResultContent = Text(text: string) | Image(tokens: nat)

  datatype ToolResult = ToolResult(id: string, name: string, content: ResultContent, isError: bool)

  datatype PendingStatus = InputStillStreaming | Idle | NeedsConfirmation | Running | Error

  datatype PendingToolUse = PendingToolUse(messageId: nat, id: string, name: string, status: PendingStatus)

  /** What a tool returns. `size` is the length of the text in bytes, `shortened` what replaces it if it is too long. */
  datatype Output = TextOutput(text: string, size: nat, shortened: string) | ImageOutput(tokens: nat) | Failure(message: string)

  datatype State = State(uses: map<nat, seq<ToolUse>>, results: map<string, ToolResult>, pending: map<string, PendingToolUse>)

  datatype Event =
    | RequestUse(messageId: nat, toolUse: ToolUse)
    | RunPending(id: string)
    | ConfirmUse(id: string)
    | InsertOutput(id: string, name: string, output: Output, limit: Option<nat>)
    | CancelAll

  const START := State(map[], map[], map[])

  // ----- steps

  function ReplaceUse(uses: seq<ToolUse>, toolUse: ToolUse): (r: seq<ToolUse>)
    ensures |r| == |uses|
    ensures forall k | 0 <= k < |uses| :: r[k] == if uses[k].id == toolUse.id then toolUse else uses[k]
  {
    if uses == [] then []
    else
      var n := |uses| - 1;
      ReplaceUse(uses[..n], toolUse) + [if uses[n].id == toolUse.id then toolUse else uses[n]]
  }

  ghost predicate Holds(uses: seq<ToolUse>, id: string) {
    exists k :: 0 <= k < |uses| && uses[k].id == id
  }

  /** A tool use with a known identifier replaces the earlier one; any other is added at the end. */
  ghost function PutUse(uses: seq<ToolUse>, toolUse: ToolUse): seq<ToolUse> {
    if Holds(uses, toolUse.id) then ReplaceUse(uses, toolUse) else uses + [toolUse]
  }

  function UsesOf(s: State, messageId: nat): seq<ToolUse> {
    if messageId in s.uses then s.uses[messageId] else []
  }

  function SetPendingStatus(s: State, id: string, status: PendingStatus): State {
    if id in s.pending then s.(pending := s.pending[id := s.pending[id].(status := status)]) else s
  }

  predicate Fits(size: nat, limit: Option<nat>) {
    limit.Some? ==> size < limit.value
  }

  const IMAGE_TOO_LARGE := "Tool responded with an image that would exceeded the remaining tokens"

  function ResultOf(id: string, name: string, output: Output, limit: Option<nat>): ToolResult {
    match output
    case TextOutput(text, size, shortened) => ToolResult(id, name, Text(if Fits(size, limit) then text else shortened), false)
    case ImageOutput(tokens) =>
      if Fits(tokens, limit) then ToolResult(id, name, Image(tokens), false) else ToolResult(id, name, Text(IMAGE_TOO_LARGE), true)
    case Failure(message) => ToolResult(id, name, Text(message), true)
  }

  /** A tool that fails stays pending, with an error; any other is pending no more. */
  function OutputInserted(s: State, id: string, name: string, output: Output, limit: Option<nat>): State {
    var s1 := if output.Failure? then SetPendingStatus(s, id, Error) else s.(pending := s.pending - {id});
    s1.(results := s1.results[id := ResultOf(id, name, output, limit)])
  }

  function CanceledResult(p: PendingToolUse, id: string): ToolResult {
    ToolResult(id, p.name, Text("Tool canceled by user"), true)
  }

  /** Those of the given pending tool uses that are not in error. */
  function OpenIn(s: State, ids: set<string>): (open: set<string>)
    ensures open <= s.pending.Keys
  {
    set id | id in ids && id in s.pending && !s.pending[id].status.Error?
  }

  /** Those of the given tools that are pending are canceled, except those with an error. */
  function CanceledIn(s: State, ids: set<string>): State {
    var open := OpenIn(s, ids);
    State(s.uses, s.results + map id | id in open :: CanceledResult(s.pending[id], id), s.pending - open)
  }

  function Canceled(s: State): State {
    CanceledIn(s, s.pending.Keys)
  }

  ghost function Step(s: State, e: Event): State {
    match e
    case RequestUse(messageId, toolUse) =>
      var status := if toolUse.isInputComplete then Idle else InputStillStreaming;
      State(s.uses[messageId := PutUse(UsesOf(s, messageId), toolUse)], s.results,
            s.pending[toolUse.id := PendingToolUse(messageId, toolUse.id, toolUse.name, status)])
    case RunPending(id) => SetPendingStatus(s, id, Running)
    case ConfirmUse(id) => SetPendingStatus(s, id, NeedsConfirmation)
    case InsertOutput(id, name, output, limit) => OutputInserted(s, id, name, output, limit)
    case CancelAll => Canceled(s)
  }

  ghost function Run(s: State, events: seq<Event>): State {
    if events == [] then s else Step(Run(s, events[..|events| - 1]), events[|events| - 1])
  }

  // ----- completeness

  predicate AllToolsFinished(s: State) {
    forall id | id in s.pending :: s.pending[id].status.Error?
  }

  ghost predicate Requested(s: State, id: string) {
    exists messageId :: messageId in s.uses && Holds(s.uses[messageId], id)
  }

  /** The tool use has a result, or is pending without an error. */
  predicate AccountedFor(s: State, id: string) {
    id in s.results || (id in s.pending && !s.pending[id].status.Error?)
  }

  /** Every requested tool use has a result, or is pending without an error. */
  ghost predicate Accounted(s: State) {
    forall id | Requested(s, id) :: AccountedFor(s, id)
  }

  ghost predicate DistinctIds(uses: seq<ToolUse>) {
    forall i, j | 0 <= i < j < |uses| :: uses[i].id != uses[j].id
  }

  ghost predicate AllDistinct(s: State) {
    forall messageId | messageId in s.uses :: DistinctIds(s.uses[messageId])
  }

  lemma PutUseHolds(uses: seq<ToolUse>, toolUse: ToolUse, id: string)
    ensures Holds(PutUse(uses, toolUse), id) <==> Holds(uses, id) || id == toolUse.id
    ensures DistinctIds(uses) ==> DistinctIds(PutUse(uses, toolUse))
  {
    var put := PutUse(uses, toolUse);
    if Holds(uses, toolUse.id) {
      forall k | 0 <= k < |uses| ensures put[k].id == uses[k].id {
      }
    } else {
      assert put[|uses|] == toolUse;
      forall k | 0 <= k < |uses| ensures put[k] == uses[k] && put[k].id != toolUse.id {
      }
    }
    if Holds(uses, id) {
      var k :| 0 <= k < |uses| && uses[k].id == id;
      assert put[k].id == id;
    }
  }

  lemma StepRequested(s: State, e: Event, id: string)
    requires Requested(Step(s, e), id)
    ensures Requested(s, id) || (e.RequestUse? && id == e.toolUse.id)
  {
    if e.RequestUse? {
      PutUseHolds(UsesOf(s, e.messageId), e.toolUse, id);
      var messageId :| messageId in Step(s, e).uses && Holds(Step(s, e).uses[messageId], id);
      if messageId != e.messageId {
        assert messageId in s.uses && Holds(s.uses[messageId], id);
      }
    }
  }

  /** A step leaves no tool use behind that was not left behind before. */
  lemma StepAccountsFor(s: State, e: Event, id: string)
    requires Requested(Step(s, e), id) && !AccountedFor(Step(s, e), id)
    ensures Requested(s, id) && !AccountedFor(s, id)
  {
    StepRequested(s, e, id);
  }

  /** Whatever the start, a run leaves no tool use behind that the start did not. */
  lemma {:induction false} RunAccountsFor(s: State, events: seq<Event>, id: string)
    requires Requested(Run(s, events), id) && !AccountedFor(Run(s, events), id)
    ensures Requested(s, id) && !AccountedFor(s, id)
  {
    if events != [] {
      StepAccountsFor(Run(s, events[..|events| - 1]), events[|events| - 1], id);
      RunAccountsFor(s, events[..|events| - 1], id);
    }
  }

  lemma StepDistinct(s: State, e: Event)
    requires AllDistinct(s)
    ensures AllDistinct(Step(s, e))
  {
    if e.RequestUse? {
      PutUseHolds(UsesOf(s, e.messageId), e.toolUse, e.toolUse.id);
    }
  }

  lemma {:induction false} RunDistinct(s: State, events: seq<Event>)
    requires AllDistinct(s)
    ensures AllDistinct(Run(s, events))
  {
    if events != [] {
      RunDistinct(s, events[..|events| - 1]);
      StepDistinct(Run(s, events[..|events| - 1]), events[|events| - 1]);
    }
  }

  lemma RunAccounted(s: State, events: seq<Event>)
    requires Accounted(s) && AllDistinct(s)
    ensures Accounted(Run(s, events)) && AllDistinct(Run(s, events))
  {
    RunDistinct(s, events);
    forall id | Requested(Run(s, events), id) ensures AccountedFor(Run(s, events), id) {
      if !AccountedFor(Run(s, events), id) {
        RunAccountsFor(s, events, id);
      }
    }
  }

  /** On any run from the start, once all tools are finished, every tool use that was ever requested has a result. */
  lemma FinishedMeansAnswered(events: seq<Event>)
    requires AllToolsFinished(Run(START, events))
    ensures forall id | Requested(Run(START, events), id) :: id in Run(START, events).results
  {
    RunAccounted(START, events);
  }

  // ----- the object

  class ToolUseState {
    var uses: map<nat, seq<ToolUse>>
    var results: map<string, ToolResult>
    var pending: map<string, PendingToolUse>

    constructor ()
      ensures Value() == START
    {
      uses, results, pending := map[], map[], map[];
    }

    constructor Restored(state: State)
      ensures Value() == state
    {
      uses, results, pending := state.uses, state.results, state.pending;
    }

    function Value(): State
      reads this
    {
      State(uses, results, pending)
    }

    method RequestToolUse(messageId: nat, toolUse: ToolUse)
      modifies this
      ensures Value() == Step(old(Value()), RequestUse(messageId, toolUse))
    {
      var toolUses := if messageId in uses then uses[messageId] else [];
      ghost var before := toolUses;
      var found := false;
      var i := 0;
      while i < |toolUses|
        invariant 0 <= i <= |toolUses| == |before|
        invariant toolUses[..i] == ReplaceUse(before[..i], toolUse) && toolUses[i..] == before[i..]
        invariant found <==> Holds(before[..i], toolUse.id)
        invariant Value() == old(Value())
      {
        assert before[..i + 1][..i] == before[..i];
        assert toolUses[i] == toolUses[i..][0] == before[i..][0] == before[i] == before[..i + 1][i];
        HoldsSnoc(before, i, toolUse.id);
        if toolUses[i].id == toolUse.id {
          toolUses, found := toolUses[i := toolUse], true;
        }
        i := i + 1;
        assert toolUses[i..] == before[i..];
      }
      assert before[..i] == before && toolUses[..i] == toolUses;
      if !found {
        NothingReplaced(before, toolUse);
        toolUses := toolUses + [toolUse];
      }
      var status := if toolUse.isInputComplete then Idle else InputStillStreaming;
      uses := uses[messageId := toolUses];
      pending := pending[toolUse.id := PendingToolUse(messageId, toolUse.id, toolUse.name, status)];
    }

    method RunPendingTool(id: string)
      modifies this
      ensures Value() == Step(old(Value()), RunPending(id))
    {
      if id in pending {
        pending := pending[id := pending[id].(status := Running)];
      }
    }

    method ConfirmToolUse(id: string)
      modifies this
      ensures Value() == Step(old(Value()), ConfirmUse(id))
    {
      if id in pending {
        pending := pending[id := pending[id].(status := NeedsConfirmation)];
      }
    }

    /** Returns the pending tool use that the output belongs to. */
    method InsertToolOutput(id: string, name: string, output: Output, limit: Option<nat>) returns (toolUse: Option<PendingToolUse>)
      modifies this
      ensures Value() == Step(old(Value()), InsertOutput(id, name, output, limit))
      ensures toolUse == if id !in old(pending) then None
                         else Some(if output.Failure? then old(pending)[id].(status := Error) else old(pending)[id])
    {
      match output
      case Failure(message) =>
        results := results[id := ToolResult(id, name, Text(message), true)];
        if id in pending {
          pending := pending[id := pending[id].(status := Error)];
        }
        return if id in pending then Some(pending[id]) else None;
      case ImageOutput(tokens) =>
        toolUse := if id in pending then Some(pending[id]) else None;
        pending := pending - {id};
        if limit.Some? && tokens >= limit.value {
          results := results[id := ToolResult(id, name, Text(IMAGE_TOO_LARGE), true)];
          return;
        }
        results := results[id := ToolResult(id, name, Image(tokens), false)];
      case TextOutput(text, size, shortened) =>
        toolUse := if id in pending then Some(pending[id]) else None;
        pending := pending - {id};
        var shown := if limit.Some? && size >= limit.value then shortened else text;
        results := results[id := ToolResult(id, name, Text(shown), false)];
    }

    /** Visits the pending tool uses in an unspecified order, and returns those it cancels. */
    method CancelPending() returns (canceled: seq<PendingToolUse>)
      modifies this
      ensures Value() == Step(old(Value()), CancelAll)
      ensures forall p :: p in canceled <==> p in old(pending).Values && !p.status.Error?
    {
      canceled := [];
      ghost var before := Value();
      var todo := pending.Keys;
      ghost var done: set<string> := {};
      assert Value() == CanceledIn(before, {});
      while todo != {}
        invariant done + todo == before.pending.Keys && done !! todo
        invariant Value() == CanceledIn(before, done)
        invariant ListsOpen(canceled, before, done)
        decreases todo
      {
        var id :| id in todo;
        var toolUse := pending[id];
        CancelOne(before, done, id);
        ListOne(canceled, before, done, id);
        if !toolUse.status.Error? {
          results := results[id := CanceledResult(toolUse, id)];
          canceled := canceled + [toolUse];
          pending := pending - {id};
        }
        todo, done := todo - {id}, done + {id};
      }
      assert done == before.pending.Keys;
    }
  }

  /** The list holds the open ones of the given tool uses. */
  ghost predicate ListsOpen(list: seq<PendingToolUse>, s: State, ids: set<string>) {
    forall p :: p in list <==> exists id :: id in OpenIn(s, ids) && s.pending[id] == p
  }

  lemma CancelOne(s: State, done: set<string>, id: string)
    requires id in s.pending && id !in done
    ensures var t, p := CanceledIn(s, done), s.pending[id];
            && id in t.pending && t.pending[id] == p
            && CanceledIn(s, done + {id})
               == if p.status.Error? then t else State(t.uses, t.results[id := CanceledResult(p, id)], t.pending - {id})
  {
    var p := s.pending[id];
    assert OpenIn(s, done + {id}) == if p.status.Error? then OpenIn(s, done) else OpenIn(s, done) + {id};
  }

  lemma ListOne(list: seq<PendingToolUse>, s: State, done: set<string>, id: string)
    requires id in s.pending && ListsOpen(list, s, done)
    ensures ListsOpen(if s.pending[id].status.Error? then list else list + [s.pending[id]], s, done + {id})
  {
    var p := s.pending[id];
    assert OpenIn(s, done + {id}) == if p.status.Error? then OpenIn(s, done) else OpenIn(s, done) + {id};
    if !p.status.Error? {
      assert id in OpenIn(s, done + {id});
      forall q | q in list ensures exists k :: k in OpenIn(s, done + {id}) && s.pending[k] == q {
        var k :| k in OpenIn(s, done) && s.pending[k] == q;
        assert k in OpenIn(s, done + {id});
      }
    }
  }

  lemma HoldsSnoc(uses: seq<ToolUse>, i: nat, id: string)
    requires i < |uses|
    ensures Holds(uses[..i + 1], id) <==> Holds(uses[..i], id) || uses[i].id == id
  {
    var longer := uses[..i + 1];
    assert longer[i] == uses[i];
    if Holds(uses[..i], id) {
      var k :| 0 <= k < i && uses[..i][k].id == id;
      assert longer[k].id == id;
    }
    if Holds(longer, id) && uses[i].id != id {
      var k :| 0 <= k < |longer| && longer[k].id == id;
      assert uses[..i][k].id == id;
    }
  }

  lemma NothingReplaced(uses: seq<ToolUse>, toolUse: ToolUse)
    requires !Holds(uses, toolUse.id)
    ensures ReplaceUse(uses, toolUse) == uses
  {
  }
}
