/** The thread as an object. Each method changes the fields step by step, and its contract says which step of the
    state machine that is. */
module ThreadObject {
  import opened Options
  import opened Streaming
  import opened Permissions

  class AcpThread {
    var entries: seq<Entry>
    var sending: bool
    var issued: nat
    var outcomes: map<nat, Outcome>

    constructor ()
      ensures State() == Thread([], false, 0, map[])
    {
      entries, sending, issued, outcomes := [], false, 0, map[];
    }

    function State(): Thread
      reads this
    {
      Thread(entries, sending, issued, outcomes)
    }

    // ----- searches

    method IndexForToolCall(id: string) returns (index: int)
      ensures index == IndexFor(entries, id)
    {
      index := |entries| - 1;
      assert entries[..|entries|] == entries;
      while index >= 0 && !IsCall(entries[index], id)
        invariant -1 <= index < |entries|
        invariant IndexFor(entries, id) == IndexFor(entries[..index + 1], id)
      {
        assert entries[..index + 1][..index] == entries[..index];
        index := index - 1;
      }
    }

    method LastUserMessage() returns (index: int)
      ensures index == LastUser(entries)
    {
      index := |entries| - 1;
      assert entries[..|entries|] == entries;
      while index >= 0 && !entries[index].UserMessage?
        invariant -1 <= index < |entries|
        invariant LastUser(entries) == LastUser(entries[..index + 1])
      {
        assert entries[..index + 1][..index] == entries[..index];
        index := index - 1;
      }
    }

    method UserMessageIndex(id: string) returns (index: int)
      ensures index == UserIndex(entries, id)
    {
      index := 0;
      while index < |entries|
        invariant 0 <= index <= |entries|
        invariant UserIndex(entries[..index], id) == -1
      {
        assert entries[..index + 1][..index] == entries[..index];
        if entries[index].UserMessage? && entries[index].id == Some(id) {
          FirstStays(entries, id, index + 1);
          return;
        }
        index := index + 1;
      }
      assert entries[..|entries|] == entries;
      index := -1;
    }

    /** The first of the tool calls at the end of the thread that waits for confirmation, or -1. */
    method FirstToolAwaitingConfirmation() returns (found: int)
      ensures -1 <= found < |entries|
      ensures found >= 0 ==> Waiting(entries[found]) && AllCalls(entries, found)
      ensures forall k | 0 <= k < |entries| && Waiting(entries[k]) && AllCalls(entries, k) :: 0 <= found <= k
    {
      found := -1;
      var i := |entries| - 1;
      while i >= 0 && entries[i].Call?
        invariant -1 <= i < |entries| && -1 <= found < |entries|
        invariant AllCalls(entries, i + 1)
        invariant found >= 0 ==> Waiting(entries[found]) && i < found
        invariant forall k | i < k < |entries| && Waiting(entries[k]) :: 0 <= found <= k
      {
        if Waiting(entries[i]) {
          found := i;
        }
        i := i - 1;
      }
    }

    // ----- streaming

    method PushUserContentBlock(messageId: Option<string>, block: Block)
      modifies this
      ensures State() == Step(old(State()), UserChunk(messageId, block))
    {
      var n := |entries|;
      if n > 0 && entries[n - 1].UserMessage? {
        var last := entries[n - 1];
        var id := if messageId.Some? then messageId else last.id;
        entries := entries[n - 1 := UserMessage(id, Append(last.content, block), last.chunks + [block])];
      } else {
        entries := entries + [UserMessage(messageId, Append(Empty, block), [block])];
      }
    }

    method PushAssistantContentBlock(block: Block, isThought: bool)
      modifies this
      ensures State() == Step(old(State()), AssistantChunk(block, isThought))
    {
      var n := |entries|;
      if n > 0 && entries[n - 1].AssistantMessage? {
        var parts := entries[n - 1].parts;
        if |parts| > 0 && parts[|parts| - 1].isThought == isThought {
          parts := parts[|parts| - 1 := Chunk(isThought, Append(parts[|parts| - 1].block, block))];
        } else {
          parts := parts + [Chunk(isThought, Append(Empty, block))];
        }
        entries := entries[n - 1 := AssistantMessage(parts)];
      } else {
        entries := entries + [AssistantMessage([Chunk(isThought, Append(Empty, block))])];
      }
    }

    method SendUserMessage(messageId: Option<string>, message: seq<Block>)
      modifies this
      ensures State() == Step(old(State()), SendMessage(messageId, message))
    {
      var content := NewCombined(message);
      entries := entries + [UserMessage(messageId, content, message)];
    }

    // ----- tool calls

    /** Drops the status the tool call has, and stores the new one. */
    method OverwriteStatus(i: nat, status: Status)
      requires i < |entries| && entries[i].Call?
      modifies this
      ensures State() == SetStatus(old(State()), i, status)
    {
      outcomes := Dropped(outcomes, entries[i]);
      entries := entries[i := Call(entries[i].call.(status := status))];
    }

    method UpdateFields(i: nat, fields: Fields) returns (ok: bool)
      requires i < |entries| && entries[i].Call?
      modifies this
      ensures State() == SetFields(old(State()), i, fields) && ok == fields.contentValid
    {
      if fields.status.Some? {
        OverwriteStatus(i, fields.status.value);
      }
      if !fields.contentValid {
        return false;
      }
      if fields.hasOutput {
        entries := entries[i := Call(entries[i].call.(hasOutput := true))];
      }
      return true;
    }

    method UpsertToolCallInner(id: string, fields: Fields, status: Status) returns (ok: bool)
      modifies this
      ensures State() == Upserted(old(State()), id, fields, status) && ok == Accepted(old(State()), id, fields)
    {
      var ix := IndexForToolCall(id);
      if ix >= 0 {
        ok := UpdateFields(ix, fields);
        if ok {
          OverwriteStatus(ix, status);
        }
      } else if fields.titled && fields.contentValid {
        entries := entries + [Call(ToolCall(id, status, fields.hasOutput))];
        ok := true;
      } else {
        ok := false;
      }
    }

    method UpdateToolCall(id: string, fields: Fields) returns (ok: bool)
      modifies this
      ensures State() == Step(old(State()), Update(id, fields))
      ensures ok == (IndexFor(old(entries), id) < 0 || fields.contentValid)
    {
      var ix := IndexForToolCall(id);
      if ix < 0 {
        entries := entries + [Call(ToolCall(id, Failed, false))];
        return true;
      }
      ok := UpdateFields(ix, fields);
    }

    /** On success returns the number of the request whose outcome the caller will read. */
    method RequestToolCallAuthorization(id: string, fields: Fields, options: seq<PermissionOption>, alwaysAllow: bool)
      returns (request: Option<nat>)
      modifies this
      ensures State() == Step(old(State()), Request(id, fields, options, alwaysAllow))
      ensures request == if Accepted(old(State()), id, fields) then Some(old(issued)) else None
    {
      var ok;
      if alwaysAllow {
        var allow := FindAllowOnce(options);
        if allow.Some? {
          ok := UpsertToolCallInner(id, fields, Pending);
          if !ok {
            return None;
          }
          outcomes := outcomes[issued := Selected(allow.value)];
          issued := issued + 1;
          return Some(issued - 1);
        }
      }
      ok := UpsertToolCallInner(id, fields, WaitingForConfirmation(options, issued));
      if !ok {
        return None;
      }
      issued := issued + 1;
      return Some(issued - 1);
    }

    method AuthorizeToolCall(id: string, option: string, kind: PermissionKind)
      modifies this
      ensures State() == Step(old(State()), Authorize(id, option, kind))
    {
      var ix := IndexForToolCall(id);
      if ix < 0 {
        return;
      }
      var current := entries[ix].call.status;
      entries := entries[ix := Call(entries[ix].call.(status := AnswerStatus(kind)))];
      if current.WaitingForConfirmation? {
        outcomes := outcomes[current.sender := Selected(option)];
      }
    }

    // ----- turns

    method CancelTurn()
      modifies this
      ensures State() == Step(old(State()), Cancel)
    {
      if !sending {
        return;
      }
      sending := false;
      ghost var before := entries;
      ghost var answered := outcomes;
      var i := 0;
      while i < |entries|
        invariant 0 <= i <= |entries| == |before|
        invariant entries[..i] == CancelEntries(before[..i]) && entries[i..] == before[i..]
        invariant outcomes == AllDropped(answered, before[..i])
        invariant !sending && issued == old(issued)
      {
        assert before[..i + 1][..i] == before[..i];
        var entry := entries[i];
        assert entry == before[i];
        if entry.Call? && Cancellable(entry.call.status) {
          OverwriteStatus(i, Canceled);
        }
        assert entries[..i + 1] == entries[..i] + [CancelEntry(before[i])];
        i := i + 1;
      }
      assert before[..i] == before && entries[..i] == entries;
    }

    /** Removes the entries from `n` on, and with them the senders they hold. */
    method TruncateEntries(n: nat)
      requires n <= |entries|
      modifies this
      ensures State() == Truncated(old(State()), n)
    {
      outcomes := AllDropped(outcomes, entries[n..]);
      entries := entries[..n];
    }

    method RewindTo(userMessage: string)
      modifies this
      ensures State() == Step(old(State()), Rewind(userMessage))
    {
      var ix := UserMessageIndex(userMessage);
      if ix >= 0 {
        TruncateEntries(ix);
      }
    }

    method HandleRefusal()
      modifies this
      ensures State() == AfterRefusal(old(State()))
    {
      var ix := LastUserMessage();
      if ix < 0 {
        return;
      }
      var k := ix + 1;
      while k < |entries|
        invariant ix < k <= |entries|
        invariant forall j | ix < j < k :: !CompletedWithOutput(entries[j])
      {
        if CompletedWithOutput(entries[k]) {
          return;
        }
        k := k + 1;
      }
      TruncateEntries(ix);
    }

    method FinishTurn(reason: StopReason)
      modifies this
      ensures State() == Step(old(State()), EndTurn(reason))
    {
      if !reason.Stopped? {
        sending := false;
      }
      if reason.Refused? {
        HandleRefusal();
      }
    }

    method RunTurn()
      modifies this
      ensures State() == Step(old(State()), StartTurn)
    {
      CancelTurn();
      sending := true;
    }
  }

  predicate Waiting(entry: Entry) {
    entry.Call? && entry.call.status.WaitingForConfirmation?
  }

  /** From `k` on there are only tool calls. */
  ghost predicate AllCalls(entries: seq<Entry>, k: int) {
    forall j | 0 <= k <= j < |entries| :: entries[j].Call?
  }

  lemma {:induction false} FirstStays(entries: seq<Entry>, id: string, n: nat)
    requires n <= |entries| && UserIndex(entries[..n], id) >= 0
    ensures UserIndex(entries, id) == UserIndex(entries[..n], id)
  {
    if n < |entries| {
      var init := entries[..|entries| - 1];
      assert init[..n] == entries[..n];
      FirstStays(init, id, n);
    } else {
      assert entries[..n] == entries;
    }
  }

  method FindAllowOnce(options: seq<PermissionOption>) returns (id: Option<string>)
    ensures id == AllowOnceOption(options)
  {
    var i := 0;
    assert options[0..] == options;
    while i < |options|
      invariant 0 <= i <= |options|
      invariant AllowOnceOption(options) == AllowOnceOption(options[i..])
    {
      if options[i].kind.AllowOnce? {
        return Some(options[i].id);
      }
      assert options[i..][1..] == options[i + 1..];
      i := i + 1;
    }
    return None;
  }
}
