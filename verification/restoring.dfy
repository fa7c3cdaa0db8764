/** Restoring the tool bookkeeping of a stored thread, and what a restored thread can leave unanswered. */
module Restoring {
  import opened Options
  import opened ToolUses
  import opened CompletionRequests

  datatype StoredUse = StoredUse(id: string, name: string)

  datatype StoredResult = StoredResult(id: string, content: ResultContent, isError: bool)

  datatype StoredMessage = StoredMessage(id: nat, role: Role, toolUses: seq<StoredUse>, toolResults: seq<StoredResult>)

  /** What has been restored so far: the names of the tools, by identifier of the tool use, uses and results. */
  datatype Restored = Restored(names: map<string, string>, uses: map<nat, seq<ToolUse>>, results: map<string, ToolResult>)

  // ----- restoring

  function ToolUsesOf(stored: seq<StoredUse>): seq<ToolUse> {
    seq(|stored|, i requires 0 <= i < |stored| => ToolUse(stored[i].id, stored[i].name, true))
  }

  function AddNames(names: map<string, string>, stored: seq<StoredUse>): map<string, string> {
    if stored == [] then names
    else AddNames(names, stored[..|stored| - 1])[stored[|stored| - 1].id := stored[|stored| - 1].name]
  }

  /** A result whose tool use has not been named is dropped. */
  function AddResult(results: map<string, ToolResult>, names: map<string, string>, r: StoredResult): map<string, ToolResult> {
    if r.id in names then results[r.id := ToolResult(r.id, names[r.id], r.content, r.isError)] else results
  }

  function AddResults(results: map<string, ToolResult>, names: map<string, string>, stored: seq<StoredResult>): map<string, ToolResult> {
    if stored == [] then results
    else AddResult(AddResults(results, names, stored[..|stored| - 1]), names, stored[|stored| - 1])
  }

  /** Only assistant messages with tool uses are looked at. */
  predicate Counts(m: StoredMessage) {
    m.role.Assistant? && m.toolUses != []
  }

  function RestoreMessage(r: Restored, m: StoredMessage): Restored {
    if !Counts(m) then r
    else
      var names := AddNames(r.names, m.toolUses);
      Restored(names, r.uses[m.id := ToolUsesOf(m.toolUses)], AddResults(r.results, names, m.toolResults))
  }

  function Restore(messages: seq<StoredMessage>): Restored {
    if messages == [] then Restored(map[], map[], map[])
    else RestoreMessage(Restore(messages[..|messages| - 1]), messages[|messages| - 1])
  }

  function RestoredState(messages: seq<StoredMessage>): State {
    var r := Restore(messages);
    State(r.uses, r.results, map[])
  }

  /** Goes over the stored messages, and over the tool uses and results of each. */
  method FromSerializedMessages(messages: seq<StoredMessage>) returns (restored: State)
    ensures restored == RestoredState(messages)
  {
    var names: map<string, string> := map[];
    var uses: map<nat, seq<ToolUse>> := map[];
    var results: map<string, ToolResult> := map[];
    for i := 0 to |messages|
      invariant Restored(names, uses, results) == Restore(messages[..i])
    {
      assert messages[..i + 1][..i] == messages[..i];
      var m := messages[i];
      if m.role.Assistant? && m.toolUses != [] {
        var toolUses;
        names, toolUses := RestoreUses(names, m.toolUses);
        uses := uses[m.id := toolUses];
        results := RestoreResults(results, names, m.toolResults);
      }
    }
    assert messages[..|messages|] == messages;
    restored := State(uses, results, map[]);
  }

  method RestoreUses(names: map<string, string>, stored: seq<StoredUse>) returns (allNames: map<string, string>, toolUses: seq<ToolUse>)
    ensures allNames == AddNames(names, stored) && toolUses == ToolUsesOf(stored)
  {
    allNames, toolUses := names, [];
    for i := 0 to |stored|
      invariant allNames == AddNames(names, stored[..i]) && toolUses == ToolUsesOf(stored[..i])
    {
      assert stored[..i + 1][..i] == stored[..i];
      allNames := allNames[stored[i].id := stored[i].name];
      toolUses := toolUses + [ToolUse(stored[i].id, stored[i].name, true)];
    }
    assert stored[..|stored|] == stored;
  }

  method RestoreResults(results: map<string, ToolResult>, names: map<string, string>, stored: seq<StoredResult>)
    returns (all: map<string, ToolResult>)
    ensures all == AddResults(results, names, stored)
  {
    all := results;
    for i := 0 to |stored|
      invariant all == AddResults(results, names, stored[..i])
    {
      assert stored[..i + 1][..i] == stored[..i];
      if stored[i].id in names {
        all := all[stored[i].id := ToolResult(stored[i].id, names[stored[i].id], stored[i].content, stored[i].isError)];
      }
    }
    assert stored[..|stored|] == stored;
  }

  // ----- what is restored

  /** The stored result, under a name that a stored tool use gave it. */
  ghost predicate RestoresAs(messages: seq<StoredMessage>, id: string, result: ToolResult) {
    && result.id == id
    && (exists j, k :: StoredUseAt(messages, j, k) && messages[j].toolUses[k] == StoredUse(id, result.name))
    && (exists j, k :: StoredResultAt(messages, j, k) && messages[j].toolResults[k] == StoredResult(id, result.content, result.isError))
  }

  predicate StoredUseAt(messages: seq<StoredMessage>, j: int, k: int) {
    0 <= j < |messages| && Counts(messages[j]) && 0 <= k < |messages[j].toolUses|
  }

  predicate StoredResultAt(messages: seq<StoredMessage>, j: int, k: int) {
    0 <= j < |messages| && Counts(messages[j]) && 0 <= k < |messages[j].toolResults|
  }

  lemma {:induction false} NamedBy(names: map<string, string>, stored: seq<StoredUse>, id: string) returns (k: int)
    requires id in AddNames(names, stored)
    ensures if k < 0 then id in names && AddNames(names, stored)[id] == names[id]
            else k < |stored| && stored[k] == StoredUse(id, AddNames(names, stored)[id])
  {
    k := -1;
    if stored != [] {
      var n := |stored| - 1;
      if stored[n].id == id {
        k := n;
      } else {
        k := NamedBy(names, stored[..n], id);
      }
    }
  }

  lemma {:induction false} ResultBy(results: map<string, ToolResult>, names: map<string, string>, stored: seq<StoredResult>, id: string)
    returns (k: int)
    requires id in AddResults(results, names, stored)
    ensures var result := AddResults(results, names, stored)[id];
            if k < 0 then id in results && result == results[id]
            else k < |stored| && id in names && result.id == id && result.name == names[id]
                 && stored[k] == StoredResult(id, result.content, result.isError)
  {
    k := -1;
    if stored != [] {
      var n := |stored| - 1;
      if stored[n].id == id && id in names {
        k := n;
      } else {
        k := ResultBy(results, names, stored[..n], id);
      }
    }
  }

  lemma {:induction false} NameStored(messages: seq<StoredMessage>, id: string)
    requires id in Restore(messages).names
    ensures exists j, k :: StoredUseAt(messages, j, k) && messages[j].toolUses[k] == StoredUse(id, Restore(messages).names[id])
  {
    var n := |messages| - 1;
    if n >= 0 {
      var init, m := messages[..n], messages[n];
      var k := -1;
      if Counts(m) {
        k := NamedBy(Restore(init).names, m.toolUses, id);
      }
      if k >= 0 {
        assert StoredUseAt(messages, n, k);
      } else {
        NameStored(init, id);
        var i, l :| StoredUseAt(init, i, l) && init[i].toolUses[l] == StoredUse(id, Restore(init).names[id]);
        assert StoredUseAt(messages, i, l);
      }
    }
  }

  /** A restored result says what a stored one says. */
  lemma {:induction false} ResultRestored(messages: seq<StoredMessage>, id: string)
    requires id in RestoredState(messages).results
    ensures RestoresAs(messages, id, RestoredState(messages).results[id])
  {
    var n := |messages| - 1;
    if n >= 0 {
      var init, m, result := messages[..n], messages[n], RestoredState(messages).results[id];
      var k := -1;
      if Counts(m) {
        k := ResultBy(Restore(init).results, Restore(messages).names, m.toolResults, id);
      }
      if k >= 0 {
        NameStored(messages, id);
        assert StoredResultAt(messages, n, k);
      } else {
        ResultRestored(init, id);
        var i, l :| StoredUseAt(init, i, l) && init[i].toolUses[l] == StoredUse(id, result.name);
        assert StoredUseAt(messages, i, l);
        var i', l' :| StoredResultAt(init, i', l') && init[i'].toolResults[l'] == StoredResult(id, result.content, result.isError);
        assert StoredResultAt(messages, i', l');
      }
    }
  }

  /** A message gets back the tool uses stored with it, in order, as complete ones. */
  lemma {:induction false} UsesRestored(messages: seq<StoredMessage>, j: int)
    requires forall i, k | 0 <= i < k < |messages| :: messages[i].id != messages[k].id
    requires 0 <= j < |messages| && Counts(messages[j])
    ensures var uses := UsesOf(RestoredState(messages), messages[j].id);
            && |uses| == |messages[j].toolUses|
            && forall k | 0 <= k < |uses| ::
                 uses[k] == ToolUse(messages[j].toolUses[k].id, messages[j].toolUses[k].name, true)
  {
    var n := |messages| - 1;
    if j < n {
      UsesRestored(messages[..n], j);
    }
  }

  // ----- which tool uses have a result

  ghost predicate Names(m: StoredMessage, id: string) {
    Counts(m) && exists k :: 0 <= k < |m.toolUses| && m.toolUses[k].id == id
  }

  ghost predicate HasResult(m: StoredMessage, id: string) {
    Counts(m) && exists k :: 0 <= k < |m.toolResults| && m.toolResults[k].id == id
  }

  /** Some assistant message with tool uses stores a result for the tool use, which it or an earlier one names. */
  ghost predicate StoredAnswer(messages: seq<StoredMessage>, id: string) {
    exists i, j :: 0 <= j <= i < |messages| && HasResult(messages[i], id) && Names(messages[j], id)
  }

  /** An assistant message names the tool use, and no later one with the same identifier replaces it. */
  ghost predicate StoredUseOf(messages: seq<StoredMessage>, id: string) {
    exists j :: 0 <= j < |messages| && Names(messages[j], id)
                && forall n | j < n < |messages| && Counts(messages[n]) :: messages[n].id != messages[j].id
  }

  lemma {:induction false} AddNamesHas(names: map<string, string>, stored: seq<StoredUse>, id: string)
    ensures id in AddNames(names, stored) <==> id in names || exists k :: 0 <= k < |stored| && stored[k].id == id
  {
    if stored != [] {
      var n := |stored| - 1;
      AddNamesHas(names, stored[..n], id);
      if k :| 0 <= k < n && stored[..n][k].id == id {
        assert stored[k].id == id;
      }
      if k :| 0 <= k < |stored| && stored[k].id == id {
        assert k < n ==> stored[..n][k].id == id;
      }
    }
  }

  lemma {:induction false} AddResultsHas(results: map<string, ToolResult>, names: map<string, string>, stored: seq<StoredResult>, id: string)
    ensures id in AddResults(results, names, stored)
            <==> id in results || (id in names && exists k :: 0 <= k < |stored| && stored[k].id == id)
  {
    if stored != [] {
      var n := |stored| - 1;
      AddResultsHas(results, names, stored[..n], id);
      if k :| 0 <= k < n && stored[..n][k].id == id {
        assert stored[k].id == id;
      }
      if k :| 0 <= k < |stored| && stored[k].id == id {
        assert k < n ==> stored[..n][k].id == id;
      }
    }
  }

  lemma {:induction false} NamesRestored(messages: seq<StoredMessage>, id: string)
    ensures id in Restore(messages).names <==> exists j :: 0 <= j < |messages| && Names(messages[j], id)
  {
    if messages != [] {
      var n := |messages| - 1;
      NamesRestored(messages[..n], id);
      AddNamesHas(Restore(messages[..n]).names, messages[n].toolUses, id);
      if j :| 0 <= j < n && Names(messages[..n][j], id) {
        assert Names(messages[j], id);
      }
      if j :| 0 <= j < |messages| && Names(messages[j], id) {
        assert j < n ==> Names(messages[..n][j], id);
      }
    }
  }

  /** A tool use has a result once restored exactly if the stored messages hold an answer for it. */
  lemma {:induction false} ResultRestoredIff(messages: seq<StoredMessage>, id: string)
    ensures id in Restore(messages).results <==> StoredAnswer(messages, id)
  {
    if messages != [] {
      var n := |messages| - 1;
      var init := messages[..n];
      ResultRestoredIff(init, id);
      NamesRestored(messages, id);
      AddResultsHas(Restore(init).results, AddNames(Restore(init).names, messages[n].toolUses), messages[n].toolResults, id);
      if i, j :| 0 <= j <= i < n && HasResult(init[i], id) && Names(init[j], id) {
        assert HasResult(messages[i], id) && Names(messages[j], id);
      }
      if i, j :| 0 <= j <= i < |messages| && HasResult(messages[i], id) && Names(messages[j], id) {
        assert i < n ==> HasResult(init[i], id) && Names(init[j], id);
      }
      if HasResult(messages[n], id) && exists j :: 0 <= j < |messages| && Names(messages[j], id) {
        var j :| 0 <= j < |messages| && Names(messages[j], id);
        assert StoredAnswer(messages, id);
      }
    }
  }

  lemma UsesHold(stored: seq<StoredUse>, id: string)
    ensures Holds(ToolUsesOf(stored), id) <==> exists k :: 0 <= k < |stored| && stored[k].id == id
  {
    var uses := ToolUsesOf(stored);
    if k :| 0 <= k < |uses| && uses[k].id == id {
      assert stored[k].id == id;
    }
    if k :| 0 <= k < |stored| && stored[k].id == id {
      assert uses[k].id == id;
    }
  }

  /** A restored message's tool uses are those of the last stored assistant message with that identifier. */
  /** The last assistant message with tool uses and this identifier names the tool use. */
  ghost predicate StoredIn(messages: seq<StoredMessage>, messageId: nat, id: string) {
    exists j :: 0 <= j < |messages| && messages[j].id == messageId && Names(messages[j], id)
                && forall n | j < n < |messages| && Counts(messages[n]) :: messages[n].id != messageId
  }

  lemma StoredInSnoc(init: seq<StoredMessage>, m: StoredMessage, messageId: nat, id: string)
    ensures StoredIn(init + [m], messageId, id)
            <==> if Counts(m) && m.id == messageId then Names(m, id) else StoredIn(init, messageId, id)
  {
    var messages, last := init + [m], |init|;
    assert messages[last] == m;
    if StoredIn(messages, messageId, id) {
      var j :| 0 <= j < |messages| && messages[j].id == messageId && Names(messages[j], id)
               && forall n | j < n < |messages| && Counts(messages[n]) :: messages[n].id != messageId;
      assert j < last ==> init[j] == messages[j];
      assert forall n | j < n < last :: messages[n] == init[n];
    }
    if StoredIn(init, messageId, id) {
      var j :| 0 <= j < last && init[j].id == messageId && Names(init[j], id)
               && forall n | j < n < last && Counts(init[n]) :: init[n].id != messageId;
      assert messages[j] == init[j];
      assert forall n | j < n < last :: messages[n] == init[n];
    }
  }

  lemma {:induction false} UsesRestoredIff(messages: seq<StoredMessage>, messageId: nat, id: string)
    ensures (messageId in Restore(messages).uses && Holds(Restore(messages).uses[messageId], id))
            <==> StoredIn(messages, messageId, id)
  {
    if messages != [] {
      var init, m := messages[..|messages| - 1], messages[|messages| - 1];
      UsesRestoredIff(init, messageId, id);
      UsesHold(m.toolUses, id);
      StoredInSnoc(init, m, messageId, id);
      assert messages == init + [m];
    }
  }

  lemma RequestedRestoredIff(messages: seq<StoredMessage>, id: string)
    ensures Requested(RestoredState(messages), id) <==> StoredUseOf(messages, id)
  {
    var s := RestoredState(messages);
    if Requested(s, id) {
      var messageId :| messageId in s.uses && Holds(s.uses[messageId], id);
      UsesRestoredIff(messages, messageId, id);
    }
    if StoredUseOf(messages, id) {
      var j :| 0 <= j < |messages| && Names(messages[j], id)
               && forall n | j < n < |messages| && Counts(messages[n]) :: messages[n].id != messages[j].id;
      UsesRestoredIff(messages, messages[j].id, id);
    }
  }

  /** A restored thread counts as finished. Every tool use has a result exactly if the stored messages hold an answer for
      each of the tool uses that are restored. */
  lemma RestoredIsAnsweredIff(messages: seq<StoredMessage>)
    ensures AllToolsFinished(RestoredState(messages))
    ensures Accounted(RestoredState(messages)) <==> forall id | StoredUseOf(messages, id) :: StoredAnswer(messages, id)
  {
    var s := RestoredState(messages);
    forall id ensures Requested(s, id) <==> StoredUseOf(messages, id) {
      RequestedRestoredIff(messages, id);
    }
    forall id ensures AccountedFor(s, id) <==> StoredAnswer(messages, id) {
      ResultRestoredIff(messages, id);
    }
  }

  /** Three stored threads with a result for their tool use that is lost: it stands in a user message, in an assistant
      message without tool uses, or before the message that names the tool use. */
  lemma RestoredUnanswered(content: ResultContent)
    ensures var asks := StoredMessage(0, Assistant, [StoredUse("a", "grep")], []);
            var result := StoredResult("a", content, false);
            && !Accounted(RestoredState([asks, StoredMessage(1, User, [], [result])]))
            && !Accounted(RestoredState([asks, StoredMessage(1, Assistant, [], [result])]))
            && !Accounted(RestoredState([StoredMessage(1, Assistant, [StoredUse("b", "grep")], [result]), asks]))
  {
    var asks := StoredMessage(0, Assistant, [StoredUse("a", "grep")], []);
    var result := StoredResult("a", content, false);
    Unanswered([asks, StoredMessage(1, User, [], [result])], 0, "a");
    Unanswered([asks, StoredMessage(1, Assistant, [], [result])], 0, "a");
    Unanswered([StoredMessage(1, Assistant, [StoredUse("b", "grep")], [result]), asks], 1, "a");
  }

  lemma Unanswered(messages: seq<StoredMessage>, j: int, id: string)
    requires 0 <= j < |messages| && Counts(messages[j]) && messages[j].toolUses[0].id == id
    requires forall n | j < n < |messages| && Counts(messages[n]) :: messages[n].id != messages[j].id
    requires !StoredAnswer(messages, id)
    ensures !Accounted(RestoredState(messages))
  {
    assert Names(messages[j], id);
    RestoredIsAnsweredIff(messages);
  }

  // ----- what a restored thread sends

  lemma {:induction false} ThreadUseRequested(messages: seq<Message>, s: State, id: string)
    requires id in ThreadUseIds(messages, s)
    ensures Requested(s, id)
  {
    var n := |messages| - 1;
    if id in ThreadUseIds(messages[..n], s) {
      ThreadUseRequested(messages[..n], s, id);
    } else {
      var uses := UsesOf(s, messages[n].id);
      var k :| 0 <= k < |IdsOf(uses)| && IdsOf(uses)[k] == id;
      assert uses[k].id == id;
      assert Holds(s.uses[messages[n].id], id);
    }
  }

  /** On any run from a restored thread, once all tools are finished, a request omits exactly the tool uses without a
      result, and each of them was stored without an answer. */
  lemma RestoredRequestOmits(stored: seq<StoredMessage>, events: seq<Event>, prompt: Option<string>, messages: seq<Message>, id: string)
    requires var s := Run(RestoredState(stored), events); AllToolsFinished(s) && id in ThreadUseIds(messages, s)
    ensures var s := Run(RestoredState(stored), events);
            && (id !in AllUseIds(Request(prompt, messages, s)) <==> id !in s.results)
            && (id !in s.results ==> StoredUseOf(stored, id) && !StoredAnswer(stored, id))
  {
    var s := Run(RestoredState(stored), events);
    RequestListsAnswered(s, prompt, messages);
    AnsweredIdsHave(messages, s, id);
    if id !in s.results {
      ThreadUseRequested(messages, s, id);
      RunAccountsFor(RestoredState(stored), events, id);
      RequestedRestoredIff(stored, id);
      ResultRestoredIff(stored, id);
    }
  }

  /** If the stored messages hold an answer for each of their tool uses, a restored thread's request, once all tools are
      finished, omits no tool use of the thread's messages. */
  lemma RestoredRequestOmitsNothing(stored: seq<StoredMessage>, events: seq<Event>, prompt: Option<string>, messages: seq<Message>)
    requires forall id | StoredUseOf(stored, id) :: StoredAnswer(stored, id)
    requires AllToolsFinished(Run(RestoredState(stored), events))
    ensures AllUseIds(Request(prompt, messages, Run(RestoredState(stored), events)))
            == ThreadUseIds(messages, Run(RestoredState(stored), events))
  {
    var s := Run(RestoredState(stored), events);
    RestoredIsAnsweredIff(stored);
    forall id | Requested(s, id) ensures AccountedFor(s, id) {
      if !AccountedFor(s, id) {
        RunAccountsFor(RestoredState(stored), events, id);
      }
    }
    RequestOmitsNothing(s, prompt, messages);
  }

  /** Just restored, the request lists a tool use of the thread's messages exactly if there is a stored answer for it. */
  lemma JustRestoredRequestLists(stored: seq<StoredMessage>, prompt: Option<string>, messages: seq<Message>, id: string)
    requires id in ThreadUseIds(messages, RestoredState(stored))
    ensures id in AllUseIds(Request(prompt, messages, RestoredState(stored))) <==> StoredAnswer(stored, id)
  {
    RequestListsAnswered(RestoredState(stored), prompt, messages);
    AnsweredIdsHave(messages, RestoredState(stored), id);
    ResultRestoredIff(stored, id);
  }
}
