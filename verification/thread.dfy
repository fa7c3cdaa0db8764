/** The agent thread as an object: its messages, the tools they ask for, and the requests made of them. */
module Threads {
  import opened Options
  import opened ToolUses
  import opened CompletionRequests
  import opened Restoring

  /** Identifiers increase, and the next one is unused. */
  ghost predicate Increasing(messages: seq<Message>, next: nat) {
    && (forall i, j | 0 <= i < j < |messages| :: messages[i].id < messages[j].id)
    && (forall i | 0 <= i < |messages| :: messages[i].id < next)
  }

  /** Where the last turn starts: at the last user message that opens the thread or follows an assistant message. */
  function TurnStart(messages: seq<Message>): (start: nat)
    ensures start <= |messages|
  {
    if messages == [] then 0
    else
      var n := |messages| - 1;
      if messages[n].role.User? && (n == 0 || messages[n - 1].role.Assistant?) then n else TurnStart(messages[..n])
  }

  /** A user message that opens the thread or follows an assistant message. */
  predicate OpensTurn(messages: seq<Message>, k: int) {
    0 <= k < |messages| && messages[k].role.User? && (k == 0 || messages[k - 1].role.Assistant?)
  }

  /** The last turn starts at the last message that opens one, or with the thread if none does. */
  lemma {:induction false} TurnStartIs(messages: seq<Message>, k: int)
    ensures OpensTurn(messages, k) && (forall j | k < j < |messages| :: !OpensTurn(messages, j)) ==> TurnStart(messages) == k
    ensures (forall j | 0 <= j < |messages| :: !OpensTurn(messages, j)) ==> TurnStart(messages) == 0
  {
    if messages != [] {
      var n := |messages| - 1;
      forall j | 0 <= j < n ensures OpensTurn(messages[..n], j) <==> OpensTurn(messages, j) {
      }
      TurnStartIs(messages[..n], k);
      assert OpensTurn(messages, n) <==> messages[n].role.User? && (n == 0 || messages[n - 1].role.Assistant?);
    }
  }

  // ----- building a request

  method SegmentsToContent(segments: seq<Segment>) returns (content: seq<Content>)
    ensures content == SegmentsContents(segments)
  {
    content := [];
    for i := 0 to |segments|
      invariant content == SegmentsContents(segments[..i])
    {
      assert segments[..i + 1][..i] == segments[..i];
      match segments[i]
      case TextSegment(text) =>
        if TrimEnd(text) != "" {
          content := content + [TextContent(TrimEnd(text))];
        }
      case Thinking(text, signature) =>
        if text != "" {
          content := content + [ThinkingContent(text, signature)];
        }
      case RedactedThinking(data) =>
        content := content + [RedactedContent(data)];
    }
    assert segments[..|segments|] == segments;
  }

  /** The contents for the answered ones of the tool uses, and whether all are answered. */
  method PairToolUses(uses: seq<ToolUse>, results: map<string, ToolResult>)
    returns (asked: seq<Content>, outcomes: seq<Content>, allAnswered: bool)
    ensures var answered := Answered(uses, results);
            && asked == UseContents(answered)
            && (forall k | 0 <= k < |answered| :: answered[k].id in results)
            && outcomes == OutcomeContents(answered, results)
    ensures allAnswered <==> forall k | 0 <= k < |uses| :: uses[k].id in results
  {
    asked, outcomes, allAnswered := [], [], true;
    AnsweredHaveResults([], results);
    for i := 0 to |uses|
      invariant forall k | 0 <= k < |Answered(uses[..i], results)| :: Answered(uses[..i], results)[k].id in results
      invariant asked == UseContents(Answered(uses[..i], results))
      invariant outcomes == OutcomeContents(Answered(uses[..i], results), results)
      invariant allAnswered <==> forall k | 0 <= k < i :: uses[k].id in results
    {
      assert uses[..i + 1][..i] == uses[..i];
      AnsweredHaveResults(uses[..i + 1], results);
      var toolUse := uses[i];
      if toolUse.id in results {
        asked := asked + [UseContent(toolUse)];
        outcomes := outcomes + [OutcomeContent(Outcome(toolUse, results[toolUse.id]))];
      } else {
        allAnswered := false;
      }
    }
    assert uses[..|uses|] == uses;
  }

  class Thread {
    var messages: seq<Message>
    var nextMessageId: nat
    var remainingTurns: nat
    const toolUse: ToolUseState

    ghost predicate Valid()
      reads this
    {
      Increasing(messages, nextMessageId)
    }

    constructor (turns: nat)
      ensures Valid() && fresh(toolUse) && messages == [] && nextMessageId == 0 && remainingTurns == turns
      ensures toolUse.Value() == START
    {
      messages, nextMessageId, remainingTurns := [], 0, turns;
      toolUse := new ToolUseState();
    }

    /** A thread from its stored messages. */
    constructor Deserialize(stored: seq<StoredMessage>, restored: seq<Message>, turns: nat)
      requires |restored| == |stored| && forall k | 0 <= k < |stored| :: restored[k].id == stored[k].id
      requires forall i, j | 0 <= i < j < |stored| :: stored[i].id < stored[j].id
      ensures Valid() && fresh(toolUse) && messages == restored && remainingTurns == turns
      ensures nextMessageId == if stored == [] then 0 else stored[|stored| - 1].id + 1
      ensures toolUse.Value() == RestoredState(stored)
    {
      messages, remainingTurns := restored, turns;
      nextMessageId := if stored == [] then 0 else stored[|stored| - 1].id + 1;
      var state := FromSerializedMessages(stored);
      toolUse := new ToolUseState.Restored(state);
    }

    // ----- messages

    method PushMessage(role: Role, segments: seq<Segment>, context: Context, isHidden: bool, uiOnly: bool) returns (id: nat)
      requires Valid()
      modifies this`messages, this`nextMessageId
      ensures Valid() && id == old(nextMessageId) && nextMessageId == id + 1
      ensures messages == old(messages) + [Message(id, role, segments, context, isHidden, uiOnly)]
    {
      id := nextMessageId;
      nextMessageId := nextMessageId + 1;
      messages := messages + [Message(id, role, segments, context, isHidden, uiOnly)];
    }

    method EditMessage(id: nat, role: Role, segments: seq<Segment>, context: Option<Context>) returns (found: bool)
      requires Valid()
      modifies this`messages
      ensures Valid() && |messages| == |old(messages)|
      ensures found <==> exists k :: 0 <= k < |old(messages)| && old(messages)[k].id == id
      ensures forall k | 0 <= k < |messages| ::
                var m := old(messages)[k];
                messages[k] == if m.id != id then m
                               else m.(role := role, segments := segments, context := if context.Some? then context.value else m.context)
    {
      for k := 0 to |messages|
        invariant forall j | 0 <= j < k :: messages[j].id != id
        invariant messages == old(messages)
      {
        if messages[k].id == id {
          var m := messages[k];
          messages := messages[k := m.(role := role, segments := segments, context := if context.Some? then context.value else m.context)];
          return true;
        }
      }
      return false;
    }

    method DeleteMessage(id: nat) returns (found: bool)
      requires Valid()
      modifies this`messages
      ensures Valid()
      ensures found <==> exists k :: 0 <= k < |old(messages)| && old(messages)[k].id == id
      ensures !found ==> messages == old(messages)
      ensures forall k | 0 <= k < |old(messages)| && old(messages)[k].id == id ::
                messages == old(messages)[..k] + old(messages)[k + 1..]
    {
      for k := 0 to |messages|
        invariant forall j | 0 <= j < k :: messages[j].id != id
        invariant messages == old(messages)
      {
        if messages[k].id == id {
          messages := messages[..k] + messages[k + 1..];
          return true;
        }
      }
      return false;
    }

    /** Removes the message and all later ones. */
    method TruncateAt(id: nat)
      requires Valid()
      modifies this`messages
      ensures Valid()
      ensures forall k | 0 <= k < |old(messages)| && old(messages)[k].id == id :: messages == old(messages)[..k]
      ensures (forall k | 0 <= k < |old(messages)| :: old(messages)[k].id != id) ==> messages == old(messages)
    {
      var k := |messages| - 1;
      while k >= 0 && messages[k].id != id
        invariant -1 <= k < |messages|
        invariant forall j | k < j < |messages| :: messages[j].id != id
      {
        k := k - 1;
      }
      if k >= 0 {
        messages := messages[..k];
      }
    }

    /** Binary search; finds the message with the identifier if there is one. */
    method FindMessage(id: nat) returns (message: Option<Message>)
      requires Valid()
      ensures message.Some? ==> message.value in messages && message.value.id == id
      ensures message.None? ==> forall k | 0 <= k < |messages| :: messages[k].id != id
    {
      var low, high := 0, |messages|;
      while low < high
        invariant 0 <= low <= high <= |messages|
        invariant forall k | 0 <= k < low :: messages[k].id < id
        invariant forall k | high <= k < |messages| :: id < messages[k].id
      {
        var mid := low + (high - low) / 2;
        if messages[mid].id < id {
          low := mid + 1;
        } else if id < messages[mid].id {
          high := mid;
        } else {
          return Some(messages[mid]);
        }
      }
      return None;
    }

    /** Removes the turn that the model refused, message by message from the end. */
    method RemoveRefusedTurn()
      requires Valid()
      modifies this`messages
      ensures Valid() && messages == old(messages)[..TurnStart(old(messages))]
    {
      var ids := RefusedIds();
      var i := 0;
      while i < |ids|
        invariant 0 <= i <= |ids| == |old(messages)| - TurnStart(old(messages))
        invariant Valid() && messages == old(messages)[..|old(messages)| - i]
      {
        var n := |messages| - 1;
        assert messages[n].id == ids[i];
        var found := DeleteMessage(ids[i]);
        i := i + 1;
      }
    }

    method RefusedIds() returns (ids: seq<nat>)
      ensures |ids| == |messages| - TurnStart(messages)
      ensures forall k | 0 <= k < |ids| :: ids[k] == messages[|messages| - 1 - k].id
    {
      ids := [];
      var n := |messages|;
      assert messages[..n] == messages;
      while n > 0
        invariant 0 <= n <= |messages| && |ids| == |messages| - n
        invariant TurnStart(messages) == TurnStart(messages[..n])
        invariant forall k | 0 <= k < |ids| :: ids[k] == messages[|messages| - 1 - k].id
      {
        assert messages[..n][..n - 1] == messages[..n - 1];
        n := n - 1;
        ids := ids + [messages[n].id];
        if messages[n].role.User? && (n == 0 || messages[n - 1].role.Assistant?) {
          return;
        }
      }
    }

    // ----- requests

    method ToCompletionRequest(systemPrompt: Option<string>) returns (request: seq<RequestMessage>)
      ensures request == Request(systemPrompt, messages, toolUse.Value())
    {
      var system := SystemMessages(systemPrompt);
      var assembled: seq<RequestMessage> := [];
      ghost var s := toolUse.Value();
      var indexToCache := -1;
      for i := 0 to |messages|
        invariant s == toolUse.Value()
        invariant assembled == Assembled(messages[..i], s) && indexToCache == CacheIndex(messages[..i], s)
      {
        assert messages[..i + 1][..i] == messages[..i];
        if !messages[i].uiOnly {
          var content := SegmentsToContent(messages[i].segments);
          var uses := UsesOf(toolUse.Value(), messages[i].id);
          var asked, outcomes, cacheMessage := PairToolUses(uses, toolUse.results);
          if cacheMessage {
            indexToCache := |assembled|;
          }
          assembled := assembled + [RequestMessage(messages[i].role, ContextContents(messages[i].context) + content + asked, false)];
          if outcomes != [] {
            if cacheMessage {
              indexToCache := |assembled|;
            }
            assembled := assembled + [RequestMessage(User, outcomes, false)];
          }
        }
      }
      assert messages[..|messages|] == messages;
      if indexToCache >= 0 {
        CacheInside(messages, s);
        assembled := assembled[indexToCache := assembled[indexToCache].(cache := true)];
      }
      request := system + assembled;
    }

    /** Sends a request unless no turns are left. */
    method SendToModel(systemPrompt: Option<string>) returns (request: Option<seq<RequestMessage>>)
      modifies this`remainingTurns
      ensures request == if old(remainingTurns) == 0 then None else Some(Request(systemPrompt, messages, toolUse.Value()))
      ensures remainingTurns == if old(remainingTurns) == 0 then 0 else old(remainingTurns) - 1
    {
      if remainingTurns == 0 {
        return None;
      }
      remainingTurns := remainingTurns - 1;
      var sent := ToCompletionRequest(systemPrompt);
      return Some(sent);
    }

    /** After a tool has finished: once all have, and a model is configured, their results are sent. A request that is
        sent lists exactly the tool uses with a result, in order, each with its result right after it. If no tool use has
        been left without a result that is not pending, it lists every tool use of the thread's messages. */
    method ToolFinished(configured: bool, canceled: bool, systemPrompt: Option<string>)
      returns (request: Option<seq<RequestMessage>>)
      requires Valid()
      modifies this`remainingTurns
      ensures Valid()
      ensures request.Some? <==> AllToolsFinished(toolUse.Value()) && configured && !canceled && old(remainingTurns) > 0
      ensures request.Some? ==> Paired(request.value) && AllUseIds(request.value) == AnsweredIds(messages, toolUse.Value())
      ensures request.Some? && Accounted(toolUse.Value()) ==> AllUseIds(request.value) == ThreadUseIds(messages, toolUse.Value())
      ensures remainingTurns == if request.Some? then old(remainingTurns) - 1 else old(remainingTurns)
    {
      request := None;
      if AllToolsFinished(toolUse.Value()) && configured && !canceled {
        request := SendToModel(systemPrompt);
        RequestPaired(systemPrompt, messages, toolUse.Value());
        RequestListsAnswered(toolUse.Value(), systemPrompt, messages);
        if Accounted(toolUse.Value()) {
          RequestOmitsNothing(toolUse.Value(), systemPrompt, messages);
        }
      }
    }
  }
}
