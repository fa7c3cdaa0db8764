/** The messages of a thread as a model receives them: tool uses with their results, and the mark up to which the
    request may be cached. */
module CompletionRequests {
  import opened Options
  import opened ToolUses

  datatype Role = System | User | Assistant

  datatype Segment = TextSegment(text: string) | Thinking(text: string, signature: Option<string>) | RedactedThinking(data: string)

  /** Context that was attached to a message. */
  datatype Context = Context(text: string, images: seq<string>)

  /** A `uiOnly` message is shown to the user, and never sent. */
  datatype Message = Message(id: nat, role: Role, segments: seq<Segment>, context: Context, isHidden: bool, uiOnly: bool)

  datatype Content =
    | TextContent(text: string)
    | ThinkingContent(text: string, signature: Option<string>)
    | RedactedContent(data: string)
    | ImageContent(image: string)
    | UseContent(toolUse: ToolUse)
    | OutcomeContent(result: ToolResult)

  datatype RequestMessage = RequestMessage(role: Role, content: seq<Content>, cache: bool)

  // ----- one message

  predicate IsWhitespace(c: char) {
    || '\t' <= c <= '\r' || c == ' ' || c == '\U{85}' || c == '\U{A0}' || c == '\U{1680}'
    || '\U{2000}' <= c <= '\U{200A}' || c == '\U{2028}' || c == '\U{2029}' || c == '\U{202F}' || c == '\U{205F}'
    || c == '\U{3000}'
  }

  function TrimEnd(text: string): string {
    if text != "" && IsWhitespace(text[|text| - 1]) then TrimEnd(text[..|text| - 1]) else text
  }

  predicate IsEmpty(content: ResultContent) {
    content.Text? && forall k | 0 <= k < |content.text| :: IsWhitespace(content.text[k])
  }

  function ImageContents(images: seq<string>): seq<Content> {
    seq(|images|, i requires 0 <= i < |images| => ImageContent(images[i]))
  }

  function ContextContents(context: Context): seq<Content> {
    var text := if context.text != "" then [TextContent(context.text)] else [];
    if context.images == [] then text
    else (if text == [] then [TextContent("Images attached by user:")] else text) + ImageContents(context.images)
  }

  function SegmentContents(segment: Segment): seq<Content> {
    match segment
    case TextSegment(text) => if TrimEnd(text) != "" then [TextContent(TrimEnd(text))] else []
    case Thinking(text, signature) => if text != "" then [ThinkingContent(text, signature)] else []
    case RedactedThinking(data) => [RedactedContent(data)]
  }

  function SegmentsContents(segments: seq<Segment>): seq<Content> {
    if segments == [] then []
    else SegmentsContents(segments[..|segments| - 1]) + SegmentContents(segments[|segments| - 1])
  }

  const EMPTY_RESULT := "<Tool returned an empty string>"

  /** The result as the model receives it. */
  function Outcome(toolUse: ToolUse, result: ToolResult): ToolResult {
    ToolResult(toolUse.id, result.name, if IsEmpty(result.content) then Text(EMPTY_RESULT) else result.content, result.isError)
  }

  /** The tool uses that have a result. */
  function Answered(uses: seq<ToolUse>, results: map<string, ToolResult>): seq<ToolUse> {
    if uses == [] then []
    else
      var n := |uses| - 1;
      Answered(uses[..n], results) + if uses[n].id in results then [uses[n]] else []
  }

  function UseContents(uses: seq<ToolUse>): seq<Content> {
    seq(|uses|, i requires 0 <= i < |uses| => UseContent(uses[i]))
  }

  function OutcomeContents(uses: seq<ToolUse>, results: map<string, ToolResult>): seq<Content>
    requires forall k | 0 <= k < |uses| :: uses[k].id in results
  {
    seq(|uses|, i requires 0 <= i < |uses| => OutcomeContent(Outcome(uses[i], results[uses[i].id])))
  }

  lemma {:induction false} AnsweredHaveResults(uses: seq<ToolUse>, results: map<string, ToolResult>)
    ensures forall k | 0 <= k < |Answered(uses, results)| :: Answered(uses, results)[k].id in results
  {
    if uses != [] {
      AnsweredHaveResults(uses[..|uses| - 1], results);
    }
  }

  function PlainContents(m: Message): seq<Content> {
    ContextContents(m.context) + SegmentsContents(m.segments)
  }

  /** The message with its answered tool uses, followed by the results if there are any. */
  ghost function RequestOf(m: Message, s: State): seq<RequestMessage> {
    var uses := Answered(UsesOf(s, m.id), s.results);
    AnsweredHaveResults(UsesOf(s, m.id), s.results);
    var message := RequestMessage(m.role, PlainContents(m) + UseContents(uses), false);
    if uses == [] then [message] else [message, RequestMessage(User, OutcomeContents(uses, s.results), false)]
  }

  // ----- the whole request

  ghost function Assembled(messages: seq<Message>, s: State): seq<RequestMessage> {
    if messages == [] then []
    else
      var n := |messages| - 1;
      Assembled(messages[..n], s) + if messages[n].uiOnly then [] else RequestOf(messages[n], s)
  }

  ghost predicate AllAnswered(m: Message, s: State) {
    forall k | 0 <= k < |UsesOf(s, m.id)| :: UsesOf(s, m.id)[k].id in s.results
  }

  ghost predicate Cacheable(m: Message, s: State) {
    !m.uiOnly && AllAnswered(m, s)
  }

  /** The place of the cache mark among the assembled messages, or -1. */
  ghost function CacheIndex(messages: seq<Message>, s: State): int {
    if messages == [] then -1
    else
      var n := |messages| - 1;
      if Cacheable(messages[n], s) then |Assembled(messages, s)| - 1
      else CacheIndex(messages[..n], s)
  }

  function SystemMessages(prompt: Option<string>): seq<RequestMessage> {
    if prompt.Some? then [RequestMessage(System, [TextContent(prompt.value)], true)] else []
  }

  function Marked(request: seq<RequestMessage>, index: int): seq<RequestMessage> {
    if 0 <= index < |request| then request[index := request[index].(cache := true)] else request
  }

  /** The request for a thread: the system prompt, then its messages with the cache mark. */
  ghost function Request(prompt: Option<string>, messages: seq<Message>, s: State): seq<RequestMessage> {
    SystemMessages(prompt) + Marked(Assembled(messages, s), CacheIndex(messages, s))
  }

  // ----- tool uses and results go together

  function UseIds(content: seq<Content>): seq<string> {
    if content == [] then []
    else
      var last := content[|content| - 1];
      UseIds(content[..|content| - 1]) + if last.UseContent? then [last.toolUse.id] else []
  }

  function OutcomeIds(content: seq<Content>): seq<string> {
    if content == [] then []
    else
      var last := content[|content| - 1];
      OutcomeIds(content[..|content| - 1]) + if last.OutcomeContent? then [last.result.id] else []
  }

  predicate IsPlain(c: Content) {
    !c.UseContent? && !c.OutcomeContent?
  }

  ghost predicate OnlyOutcomes(content: seq<Content>) {
    forall k | 0 <= k < |content| :: content[k].OutcomeContent? && !IsEmpty(content[k].result.content)
  }

  lemma {:induction false} IdsConcat(a: seq<Content>, b: seq<Content>)
    ensures UseIds(a + b) == UseIds(a) + UseIds(b)
    ensures OutcomeIds(a + b) == OutcomeIds(a) + OutcomeIds(b)
  {
    if b == [] {
      assert a + b == a;
    } else {
      IdsConcat(a, b[..|b| - 1]);
      assert (a + b)[..|a + b| - 1] == a + b[..|b| - 1];
    }
  }

  lemma {:induction false} PlainHasNoIds(content: seq<Content>)
    requires forall k | 0 <= k < |content| :: IsPlain(content[k])
    ensures UseIds(content) == [] && OutcomeIds(content) == []
  {
    if content != [] {
      PlainHasNoIds(content[..|content| - 1]);
    }
  }

  lemma {:induction false} SegmentsArePlain(segments: seq<Segment>)
    ensures forall k | 0 <= k < |SegmentsContents(segments)| :: IsPlain(SegmentsContents(segments)[k])
  {
    if segments != [] {
      SegmentsArePlain(segments[..|segments| - 1]);
    }
  }

  function IdsOf(uses: seq<ToolUse>): seq<string> {
    seq(|uses|, i requires 0 <= i < |uses| => uses[i].id)
  }

  lemma {:induction false} UseContentsIds(uses: seq<ToolUse>)
    ensures UseIds(UseContents(uses)) == IdsOf(uses) && OutcomeIds(UseContents(uses)) == []
  {
    if uses != [] {
      var n := |uses| - 1;
      UseContentsIds(uses[..n]);
      assert UseContents(uses)[..n] == UseContents(uses[..n]);
      assert IdsOf(uses) == IdsOf(uses[..n]) + [uses[n].id];
    } else {
      assert UseContents(uses) == [] && IdsOf(uses) == [];
    }
  }

  lemma {:induction false} OutcomeContentsIds(uses: seq<ToolUse>, results: map<string, ToolResult>)
    requires forall k | 0 <= k < |uses| :: uses[k].id in results
    ensures OutcomeIds(OutcomeContents(uses, results)) == IdsOf(uses) && UseIds(OutcomeContents(uses, results)) == []
    ensures OnlyOutcomes(OutcomeContents(uses, results))
  {
    assert EMPTY_RESULT[0] == '<';
    if uses != [] {
      var n := |uses| - 1;
      OutcomeContentsIds(uses[..n], results);
      assert OutcomeContents(uses, results)[..n] == OutcomeContents(uses[..n], results);
      assert IdsOf(uses) == IdsOf(uses[..n]) + [uses[n].id];
    } else {
      assert OutcomeContents(uses, results) == [] && IdsOf(uses) == [];
    }
  }

  lemma AskedIds(m: Message, uses: seq<ToolUse>)
    ensures UseIds(PlainContents(m) + UseContents(uses)) == IdsOf(uses)
    ensures OutcomeIds(PlainContents(m) + UseContents(uses)) == []
  {
    var plain, asked := PlainContents(m), UseContents(uses);
    PlainContentsIds(m, plain);
    IdsConcat(plain, asked);
    UseContentsIds(uses);
    assert [] + IdsOf(uses) == IdsOf(uses);
  }

  lemma PlainContentsIds(m: Message, plain: seq<Content>)
    requires plain == PlainContents(m)
    ensures UseIds(plain) == [] && OutcomeIds(plain) == []
  {
    SegmentsArePlain(m.segments);
    PlainHasNoIds(plain);
  }

  /** The message carries the answered tool uses, and the results follow with the same identifiers in the same order. */
  lemma RequestOfPairs(m: Message, s: State)
    ensures var request, ids := RequestOf(m, s), IdsOf(Answered(UsesOf(s, m.id), s.results));
            && UseIds(request[0].content) == ids && OutcomeIds(request[0].content) == []
            && (ids == [] ==> |request| == 1)
            && (ids != [] ==> |request| == 2 && OutcomeIds(request[1].content) == ids && UseIds(request[1].content) == []
                              && OnlyOutcomes(request[1].content) && request[1].role == User)
  {
    var uses := Answered(UsesOf(s, m.id), s.results);
    AnsweredHaveResults(UsesOf(s, m.id), s.results);
    AskedIds(m, uses);
    OutcomeContentsIds(uses, s.results);
    assert |IdsOf(uses)| == |uses|;
  }

  /** The message after one with tool uses holds their results and nothing else; results come after such a message only. */
  ghost predicate Paired(request: seq<RequestMessage>) {
    && (forall i | 0 <= i < |request| && UseIds(request[i].content) != [] :: i + 1 < |request| && Answers(request[i], request[i + 1]))
    && (forall j | 0 <= j < |request| && OutcomeIds(request[j].content) != [] :: 0 < j && Answers(request[j - 1], request[j]))
  }

  ghost predicate Answers(asking: RequestMessage, answering: RequestMessage) {
    && OutcomeIds(answering.content) == UseIds(asking.content)
    && OnlyOutcomes(answering.content) && answering.role == User
  }

  lemma PairedConcat(a: seq<RequestMessage>, b: seq<RequestMessage>)
    requires Paired(a) && Paired(b)
    ensures Paired(a + b)
  {
    var request := a + b;
    forall i | 0 <= i < |request| && UseIds(request[i].content) != []
      ensures i + 1 < |request| && Answers(request[i], request[i + 1])
    {
      if i < |a| {
        assert Answers(a[i], a[i + 1]);
      } else {
        assert Answers(b[i - |a|], b[i - |a| + 1]);
      }
    }
    forall j | 0 <= j < |request| && OutcomeIds(request[j].content) != []
      ensures 0 < j && Answers(request[j - 1], request[j])
    {
      if j < |a| {
        assert Answers(a[j - 1], a[j]);
      } else {
        assert Answers(b[j - |a| - 1], b[j - |a|]);
      }
    }
  }

  lemma RequestOfPaired(m: Message, s: State)
    ensures Paired(RequestOf(m, s))
  {
    var request := RequestOf(m, s);
    RequestOfPairs(m, s);
    forall i | 0 <= i < |request| && UseIds(request[i].content) != []
      ensures i + 1 < |request| && Answers(request[i], request[i + 1])
    {
      assert i == 0;
    }
    forall j | 0 <= j < |request| && OutcomeIds(request[j].content) != []
      ensures 0 < j && Answers(request[j - 1], request[j])
    {
      assert j == 1;
    }
  }

  lemma {:induction false} AssembledPaired(messages: seq<Message>, s: State)
    ensures Paired(Assembled(messages, s))
  {
    if messages != [] {
      var n := |messages| - 1;
      AssembledPaired(messages[..n], s);
      RequestOfPaired(messages[n], s);
      PairedConcat(Assembled(messages[..n], s), if messages[n].uiOnly then [] else RequestOf(messages[n], s));
    }
  }

  lemma MarkedPaired(request: seq<RequestMessage>, index: int)
    requires Paired(request)
    ensures Paired(Marked(request, index))
  {
    var marked := Marked(request, index);
    forall i | 0 <= i < |marked| && UseIds(marked[i].content) != []
      ensures i + 1 < |marked| && Answers(marked[i], marked[i + 1])
    {
      assert Answers(request[i], request[i + 1]);
    }
    forall j | 0 <= j < |marked| && OutcomeIds(marked[j].content) != []
      ensures 0 < j && Answers(marked[j - 1], marked[j])
    {
      assert Answers(request[j - 1], request[j]);
    }
  }

  lemma SystemPaired(prompt: Option<string>)
    ensures Paired(SystemMessages(prompt))
  {
    var system := SystemMessages(prompt);
    forall i | 0 <= i < |system| ensures UseIds(system[i].content) == [] == OutcomeIds(system[i].content) {
      PlainHasNoIds(system[i].content);
    }
  }

  /** In any request whatever, tool uses and results go together. */
  lemma RequestPaired(prompt: Option<string>, messages: seq<Message>, s: State)
    ensures Paired(Request(prompt, messages, s))
  {
    var system, marked := SystemMessages(prompt), Marked(Assembled(messages, s), CacheIndex(messages, s));
    AssembledPaired(messages, s);
    MarkedPaired(Assembled(messages, s), CacheIndex(messages, s));
    SystemPaired(prompt);
    PairedConcat(system, marked);
  }

  // ----- nothing is omitted

  /** The identifiers of all tool uses in the request, in order. */
  ghost function AllUseIds(request: seq<RequestMessage>): seq<string> {
    if request == [] then [] else AllUseIds(request[..|request| - 1]) + UseIds(request[|request| - 1].content)
  }

  /** The identifiers of all tool uses of the thread's messages, in order. */
  function ThreadUseIds(messages: seq<Message>, s: State): seq<string> {
    if messages == [] then []
    else
      var n := |messages| - 1;
      ThreadUseIds(messages[..n], s) + if messages[n].uiOnly then [] else IdsOf(UsesOf(s, messages[n].id))
  }

  lemma Associates(x: seq<string>, y: seq<string>, z: seq<string>)
    ensures x + (y + z) == x + y + z
  {
  }

  lemma AllUseIdsSnoc(a: seq<RequestMessage>, m: RequestMessage)
    ensures AllUseIds(a + [m]) == AllUseIds(a) + UseIds(m.content)
  {
    assert (a + [m])[..|a|] == a;
  }

  lemma {:induction false} AllUseIdsConcat(a: seq<RequestMessage>, b: seq<RequestMessage>)
    ensures AllUseIds(a + b) == AllUseIds(a) + AllUseIds(b)
  {
    if b == [] {
      assert a + b == a;
    } else {
      var init, m := b[..|b| - 1], b[|b| - 1];
      AllUseIdsConcat(a, init);
      assert b == init + [m];
      AllUseIdsStep(a, init, m, b);
    }
  }

  lemma AllUseIdsStep(a: seq<RequestMessage>, init: seq<RequestMessage>, m: RequestMessage, b: seq<RequestMessage>)
    requires b == init + [m] && AllUseIds(a + init) == AllUseIds(a) + AllUseIds(init)
    ensures AllUseIds(a + b) == AllUseIds(a) + AllUseIds(b)
  {
    AllUseIdsSnoc(a + init, m);
    AllUseIdsSnoc(init, m);
    assert a + b == a + init + [m];
    Associates(AllUseIds(a), AllUseIds(init), UseIds(m.content));
  }

  lemma {:induction false} AllOfThemAnswered(uses: seq<ToolUse>, results: map<string, ToolResult>)
    requires forall k | 0 <= k < |uses| :: uses[k].id in results
    ensures Answered(uses, results) == uses
  {
    if uses != [] {
      AllOfThemAnswered(uses[..|uses| - 1], results);
    }
  }

  lemma RequestOfUseIds(m: Message, s: State)
    ensures AllUseIds(RequestOf(m, s)) == IdsOf(Answered(UsesOf(s, m.id), s.results))
  {
    RequestOfPairs(m, s);
    UseIdsOfTwo(RequestOf(m, s));
  }

  lemma UseIdsOfTwo(request: seq<RequestMessage>)
    requires |request| == 1 || (|request| == 2 && UseIds(request[1].content) == [])
    ensures AllUseIds(request) == UseIds(request[0].content)
  {
    assert request[..0] == [];
    if |request| == 2 {
      assert request[..1][..0] == [];
    }
  }

  /** The identifiers of the tool uses of the thread's messages that have a result, in order. */
  function AnsweredIds(messages: seq<Message>, s: State): seq<string> {
    if messages == [] then []
    else
      var n := |messages| - 1;
      AnsweredIds(messages[..n], s) + if messages[n].uiOnly then [] else IdsOf(Answered(UsesOf(s, messages[n].id), s.results))
  }

  lemma {:induction false} AssembledListsAnswered(messages: seq<Message>, s: State)
    ensures AllUseIds(Assembled(messages, s)) == AnsweredIds(messages, s)
  {
    if messages != [] {
      var n := |messages| - 1;
      AssembledListsAnswered(messages[..n], s);
      RequestOfUseIds(messages[n], s);
      AllUseIdsConcat(Assembled(messages[..n], s), if messages[n].uiOnly then [] else RequestOf(messages[n], s));
    }
  }

  lemma {:induction false} AnsweredIsAll(messages: seq<Message>, s: State)
    requires forall k | 0 <= k < |messages| :: AllAnswered(messages[k], s)
    ensures AnsweredIds(messages, s) == ThreadUseIds(messages, s)
  {
    if messages != [] {
      var n := |messages| - 1;
      AnsweredIsAll(messages[..n], s);
      AllOfThemAnswered(UsesOf(s, messages[n].id), s.results);
    }
  }

  lemma {:induction false} AnsweredHas(uses: seq<ToolUse>, results: map<string, ToolResult>, id: string)
    ensures id in IdsOf(Answered(uses, results)) <==> id in IdsOf(uses) && id in results
  {
    if uses != [] {
      var n := |uses| - 1;
      AnsweredHas(uses[..n], results, id);
      IdsOfSnoc(uses[..n], uses[n]);
      assert uses == uses[..n] + [uses[n]];
      if uses[n].id in results {
        IdsOfSnoc(Answered(uses[..n], results), uses[n]);
      } else {
        assert Answered(uses, results) == Answered(uses[..n], results);
      }
    } else {
      assert IdsOf(uses) == [] && IdsOf(Answered(uses, results)) == [];
    }
  }

  lemma IdsOfSnoc(uses: seq<ToolUse>, toolUse: ToolUse)
    ensures IdsOf(uses + [toolUse]) == IdsOf(uses) + [toolUse.id]
  {
  }

  lemma {:induction false} AnsweredIdsHave(messages: seq<Message>, s: State, id: string)
    ensures id in AnsweredIds(messages, s) <==> id in ThreadUseIds(messages, s) && id in s.results
  {
    if messages != [] {
      var n := |messages| - 1;
      AnsweredIdsHave(messages[..n], s, id);
      AnsweredHas(UsesOf(s, messages[n].id), s.results, id);
    }
  }

  lemma {:induction false} MarkedUseIds(request: seq<RequestMessage>, index: int)
    ensures AllUseIds(Marked(request, index)) == AllUseIds(request)
  {
    if request != [] {
      var n := |request| - 1;
      MarkedUseIds(request[..n], index);
      assert Marked(request, index)[..n] == Marked(request[..n], index);
    }
  }

  lemma FinishedIsAnswered(s: State, m: Message)
    requires Accounted(s) && AllToolsFinished(s)
    ensures AllAnswered(m, s)
  {
    forall k | 0 <= k < |UsesOf(s, m.id)| ensures UsesOf(s, m.id)[k].id in s.results {
      assert Holds(s.uses[m.id], UsesOf(s, m.id)[k].id);
      assert Requested(s, UsesOf(s, m.id)[k].id);
    }
  }

  /** On any run from the start, a request sent once all tools are finished omits no tool use of the thread. */
  lemma FinishedRequestOmitsNothing(events: seq<Event>, prompt: Option<string>, messages: seq<Message>)
    requires AllToolsFinished(Run(START, events))
    ensures AllUseIds(Request(prompt, messages, Run(START, events))) == ThreadUseIds(messages, Run(START, events))
  {
    RunAccounted(START, events);
    RequestOmitsNothing(Run(START, events), prompt, messages);
  }

  lemma RequestOmitsNothing(s: State, prompt: Option<string>, messages: seq<Message>)
    requires Accounted(s) && AllToolsFinished(s)
    ensures AllUseIds(Request(prompt, messages, s)) == ThreadUseIds(messages, s)
  {
    forall k | 0 <= k < |messages| ensures AllAnswered(messages[k], s) {
      FinishedIsAnswered(s, messages[k]);
    }
    AnsweredIsAll(messages, s);
    RequestListsAnswered(s, prompt, messages);
  }

  /** Whatever the state, a request lists exactly the tool uses that have a result, in order. */
  lemma RequestListsAnswered(s: State, prompt: Option<string>, messages: seq<Message>)
    ensures AllUseIds(Request(prompt, messages, s)) == AnsweredIds(messages, s)
  {
    var assembled := Assembled(messages, s);
    AssembledListsAnswered(messages, s);
    MarkedUseIds(assembled, CacheIndex(messages, s));
    SystemHasNoUses(prompt);
    AllUseIdsConcat(SystemMessages(prompt), Marked(assembled, CacheIndex(messages, s)));
  }

  lemma SystemHasNoUses(prompt: Option<string>)
    ensures AllUseIds(SystemMessages(prompt)) == []
  {
    if prompt.Some? {
      PlainHasNoIds(SystemMessages(prompt)[0].content);
      assert SystemMessages(prompt)[..0] == [];
    }
  }

  // ----- the cache mark

  lemma {:induction false} CacheInside(messages: seq<Message>, s: State)
    ensures -1 <= CacheIndex(messages, s) < |Assembled(messages, s)|
  {
    if messages != [] {
      CacheInside(messages[..|messages| - 1], s);
    }
  }

  /** The last message that is sent and has all its tool uses answered, or -1. */
  ghost function LastCacheable(messages: seq<Message>, s: State): (k: int)
    ensures -1 <= k < |messages|
    ensures k >= 0 ==> Cacheable(messages[k], s)
  {
    if messages == [] then -1
    else
      var n := |messages| - 1;
      if Cacheable(messages[n], s) then n else LastCacheable(messages[..n], s)
  }

  lemma {:induction false} NoneCacheableAfter(messages: seq<Message>, s: State, j: int)
    requires LastCacheable(messages, s) < j < |messages|
    ensures !Cacheable(messages[j], s)
  {
    var n := |messages| - 1;
    if j < n {
      NoneCacheableAfter(messages[..n], s, j);
    }
  }

  /** The mark is on what the last message with all its tool uses answered contributes last: its results if it has
      tool uses, itself otherwise. Without such a message there is no mark. */
  lemma {:induction false} CacheMarkIsLast(messages: seq<Message>, s: State)
    ensures var k := LastCacheable(messages, s);
            CacheIndex(messages, s) == if k < 0 then -1 else |Assembled(messages[..k + 1], s)| - 1
  {
    if messages != [] {
      var n := |messages| - 1;
      if Cacheable(messages[n], s) {
        assert messages[..n + 1] == messages;
      } else {
        var k := LastCacheable(messages[..n], s);
        CacheMarkIsLast(messages[..n], s);
        assert k >= 0 ==> messages[..n][..k + 1] == messages[..k + 1];
      }
    }
  }

  /** No message of the request is marked but the system prompt and the one at the cache index. */
  lemma {:induction false} AssembledUnmarked(messages: seq<Message>, s: State)
    ensures forall i | 0 <= i < |Assembled(messages, s)| :: !Assembled(messages, s)[i].cache
  {
    if messages != [] {
      AssembledUnmarked(messages[..|messages| - 1], s);
    }
  }

  lemma CacheMarksExactly(prompt: Option<string>, messages: seq<Message>, s: State, i: int)
    requires 0 <= i < |Request(prompt, messages, s)|
    ensures Request(prompt, messages, s)[i].cache
            <==> i < |SystemMessages(prompt)| || i - |SystemMessages(prompt)| == CacheIndex(messages, s)
  {
    AssembledUnmarked(messages, s);
    CacheInside(messages, s);
  }

  /** Once all tools are finished, the mark is on the last message of the request. */
  lemma FinishedCachesAll(prompt: Option<string>, messages: seq<Message>, s: State)
    requires Accounted(s) && AllToolsFinished(s) && Assembled(messages, s) != []
    ensures CacheIndex(messages, s) == |Assembled(messages, s)| - 1
    ensures var request := Request(prompt, messages, s); request[|request| - 1].cache
  {
    LastIsCached(messages, s);
  }

  lemma {:induction false} LastIsCached(messages: seq<Message>, s: State)
    requires Accounted(s) && AllToolsFinished(s) && Assembled(messages, s) != []
    ensures CacheIndex(messages, s) == |Assembled(messages, s)| - 1
  {
    var n := |messages| - 1;
    FinishedIsAnswered(s, messages[n]);
    if messages[n].uiOnly {
      LastIsCached(messages[..n], s);
    }
  }
}
