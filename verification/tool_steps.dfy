/** What single events do to the bookkeeping of tools: the result that an output leaves, the tool uses that a message lists,
    and what is pending. */
module ToolSteps {
  import opened Options
  import opened ToolUses

  // ----- results

  /** Only the result and the pending tool use with the identifier may differ. */
  ghost predicate SameButFor(s: State, s': State, id: string) {
    && s'.uses == s.uses
    && (forall other | other != id :: other in s'.results <==> other in s.results)
    && (forall other | other != id && other in s.results :: s'.results[other] == s.results[other])
    && (forall other | other != id :: other in s'.pending <==> other in s.pending)
    && (forall other | other != id && other in s.pending :: s'.pending[other] == s.pending[other])
  }

  /** Text is stored as it is if it is shorter than the limit, and shortened if not. */
  lemma TextStored(s: State, id: string, name: string, text: string, size: nat, shortened: string, limit: Option<nat>)
    ensures var s' := Step(s, InsertOutput(id, name, TextOutput(text, size, shortened), limit));
            && SameButFor(s, s', id) && id !in s'.pending && id in s'.results
            && (limit.None? || size < limit.value ==> s'.results[id] == ToolResult(id, name, Text(text), false))
            && (limit.Some? && limit.value <= size ==> s'.results[id] == ToolResult(id, name, Text(shortened), false))
  {
  }

  /** An image is stored if it needs fewer tokens than the limit; a larger one leaves an error. */
  lemma ImageStored(s: State, id: string, name: string, tokens: nat, limit: Option<nat>)
    ensures var s' := Step(s, InsertOutput(id, name, ImageOutput(tokens), limit));
            && SameButFor(s, s', id) && id !in s'.pending && id in s'.results
            && var result := s'.results[id];
            && result.id == id && result.name == name
            && (limit.None? || tokens < limit.value ==> result.content == Image(tokens) && !result.isError)
            && (limit.Some? && limit.value <= tokens ==>
                  && result.content == Text("Tool responded with an image that would exceeded the remaining tokens")
                  && result.isError)
  {
  }

  /** A failure leaves its message as an error, and the tool use pending in error if it was pending. */
  lemma FailureStored(s: State, id: string, name: string, message: string, limit: Option<nat>)
    ensures var s' := Step(s, InsertOutput(id, name, Failure(message), limit));
            && SameButFor(s, s', id) && id in s'.results && s'.results[id] == ToolResult(id, name, Text(message), true)
            && (id in s'.pending <==> id in s.pending)
            && (id in s.pending ==> s'.pending[id] == s.pending[id].(status := Error))
  {
  }

  /** A cancel leaves an error for each tool that was pending without one, and nothing else changes. */
  lemma CanceledStored(s: State, id: string)
    ensures var s' := Step(s, CancelAll);
            && s'.uses == s.uses
            && (if id in s.pending && !s.pending[id].status.Error?
                then id !in s'.pending && id in s'.results
                     && s'.results[id] == ToolResult(id, s.pending[id].name, Text("Tool canceled by user"), true)
                else && (id in s'.pending <==> id in s.pending) && (id in s.pending ==> s'.pending[id] == s.pending[id])
                     && (id in s'.results <==> id in s.results) && (id in s.results ==> s'.results[id] == s.results[id]))
  {
  }

  // ----- what is pending

  /** A tool that is run, or that asks for confirmation, is marked if it is pending. */
  lemma PendingMarked(s: State, id: string)
    ensures SameButFor(s, Step(s, RunPending(id)), id) && SameButFor(s, Step(s, ConfirmUse(id)), id)
    ensures Step(s, RunPending(id)).results == s.results && Step(s, ConfirmUse(id)).results == s.results
    ensures id in Step(s, RunPending(id)).pending <==> id in s.pending
    ensures id in Step(s, ConfirmUse(id)).pending <==> id in s.pending
    ensures id in s.pending ==> Step(s, RunPending(id)).pending[id] == s.pending[id].(status := Running)
    ensures id in s.pending ==> Step(s, ConfirmUse(id)).pending[id] == s.pending[id].(status := NeedsConfirmation)
  {
  }

  /** A tool use that a message asks for is pending from then on; it is idle once its input is complete. */
  lemma RequestedIsPending(s: State, messageId: nat, toolUse: ToolUse)
    ensures var s' := Step(s, RequestUse(messageId, toolUse));
            && s'.results == s.results && toolUse.id in s'.pending
            && var p := s'.pending[toolUse.id];
            && p.messageId == messageId && p.id == toolUse.id && p.name == toolUse.name
            && (p.status.Idle? <==> toolUse.isInputComplete) && (p.status.InputStillStreaming? <==> !toolUse.isInputComplete)
            && (forall other | other != toolUse.id :: other in s'.pending <==> other in s.pending)
            && (forall other | other != toolUse.id && other in s.pending :: s'.pending[other] == s.pending[other])
  {
  }

  // ----- what a message lists

  lemma PutUseIn(uses: seq<ToolUse>, v: ToolUse, u: ToolUse)
    ensures u in PutUse(uses, v) <==> u == v || (u in uses && u.id != v.id)
  {
    var put := PutUse(uses, v);
    if Holds(uses, v.id) {
      if u == v {
        var k :| 0 <= k < |uses| && uses[k].id == v.id;
        assert put[k] == v;
      }
      if u in uses && u.id != v.id {
        var k :| 0 <= k < |uses| && uses[k] == u;
        assert put[k] == u;
      }
    } else if u in uses {
      var k :| 0 <= k < |uses| && uses[k] == u;
      assert put[k] == u && uses[k].id != v.id;
    }
  }

  /** The message asked for the tool use with the `i`th event, and for none with this identifier since. */
  ghost predicate LastAskedAt(events: seq<Event>, i: int, messageId: nat, u: ToolUse) {
    && 0 <= i < |events| && events[i] == RequestUse(messageId, u)
    && forall j | i < j < |events| :: !Asks(events[j], messageId, u.id)
  }

  predicate Asks(e: Event, messageId: nat, id: string) {
    e.RequestUse? && e.messageId == messageId && e.toolUse.id == id
  }

  lemma LastAskedSnoc(init: seq<Event>, e: Event, i: int, messageId: nat, u: ToolUse)
    ensures LastAskedAt(init + [e], i, messageId, u)
            <==> if i == |init| then e == RequestUse(messageId, u) else LastAskedAt(init, i, messageId, u) && !Asks(e, messageId, u.id)
  {
    var events := init + [e];
    assert events[|init|] == e;
    if LastAskedAt(events, i, messageId, u) && i < |init| {
      forall j | i < j < |init| ensures !Asks(init[j], messageId, u.id) {
        assert init[j] == events[j];
      }
    }
  }

  /** On any run, a message lists a tool use exactly if it asked for it last under its identifier. */
  lemma {:induction false} ListsLatest(events: seq<Event>, messageId: nat, u: ToolUse)
    ensures u in UsesOf(Run(START, events), messageId) <==> exists i :: LastAskedAt(events, i, messageId, u)
  {
    if events != [] {
      var n := |events| - 1;
      var init, e := events[..n], events[n];
      ListsLatest(init, messageId, u);
      assert events == init + [e];
      forall i: int
        ensures LastAskedAt(events, i, messageId, u)
                <==> if i == n then e == RequestUse(messageId, u) else LastAskedAt(init, i, messageId, u) && !Asks(e, messageId, u.id)
      {
        LastAskedSnoc(init, e, i, messageId, u);
      }
      if e.RequestUse? && e.messageId == messageId {
        PutUseIn(UsesOf(Run(START, init), messageId), e.toolUse, u);
      }
      if e == RequestUse(messageId, u) {
        assert LastAskedAt(events, n, messageId, u);
      } else if u in UsesOf(Run(START, init), messageId) && !Asks(e, messageId, u.id) {
        var i :| LastAskedAt(init, i, messageId, u);
        assert LastAskedAt(events, i, messageId, u);
      }
    }
  }
}
