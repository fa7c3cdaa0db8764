/** What a completion request says: the context and the segments of each message, and the results of its tool uses. */
module RequestContents {
  import opened Options
  import opened ToolUses
  import opened CompletionRequests

  /** The parts one after the other. */
  function Flat<T>(parts: seq<seq<T>>): seq<T> {
    if parts == [] then [] else Flat(parts[..|parts| - 1]) + parts[|parts| - 1]
  }

  lemma FlatSnoc<T>(parts: seq<seq<T>>, part: seq<T>)
    ensures Flat(parts + [part]) == Flat(parts) + part
  {
    assert (parts + [part])[..|parts|] == parts;
  }

  // ----- what one message should say

  predicate Blank(text: string) {
    forall k | 0 <= k < |text| :: IsWhitespace(text[k])
  }

  /** The text up to its last character that is no white space. */
  predicate IsTrimmed(text: string, trimmed: string) {
    trimmed <= text && Blank(text[|trimmed|..]) && (trimmed != "" ==> !IsWhitespace(trimmed[|trimmed| - 1]))
  }

  /** Text is sent without the white space at its end, thoughts as they are; blank text and empty thoughts are not sent. */
  predicate SegmentSays(segment: Segment, said: seq<Content>) {
    match segment
    case TextSegment(text) =>
      if Blank(text) then said == [] else |said| == 1 && said[0].TextContent? && IsTrimmed(text, said[0].text)
    case Thinking(text, signature) => said == if text == "" then [] else [ThinkingContent(text, signature)]
    case RedactedThinking(data) => said == [RedactedContent(data)]
  }

  /** The text of the context comes first, if there is any, and then all images, behind a text in any case. */
  predicate ContextSays(context: Context, said: seq<Content>) {
    var text := if context.text != "" then context.text else "Images attached by user:";
    if context.text == "" && context.images == [] then said == []
    else
      && |said| == 1 + |context.images| && said[0] == TextContent(text)
      && forall k | 0 <= k < |context.images| :: said[k + 1] == ImageContent(context.images[k])
  }

  /** The result as it is stored, but that a fixed text stands for a blank one. */
  predicate ResultSays(toolUse: ToolUse, results: map<string, ToolResult>, said: Content) {
    && toolUse.id in results && said.OutcomeContent?
    && var stored := results[toolUse.id];
    && said.result.id == toolUse.id && said.result.name == stored.name && said.result.isError == stored.isError
    && said.result.content == if stored.content.Text? && Blank(stored.content.text) then Text("<Tool returned an empty string>")
                              else stored.content
  }

  /** The message's context, what its segments say, and its tool uses that have results; the results follow in a message of
      their own. */
  ghost predicate MessageSays(m: Message, s: State, context: seq<Content>, parts: seq<seq<Content>>, uses: seq<ToolUse>,
                              sent: seq<RequestMessage>)
  {
    && ContextSays(m.context, context)
    && |parts| == |m.segments| && (forall k | 0 <= k < |parts| :: SegmentSays(m.segments[k], parts[k]))
    && (forall u :: u in uses <==> u in UsesOf(s, m.id) && u.id in s.results)
    && |sent| == (if uses == [] then 1 else 2)
    && sent[0].role == m.role && |sent[0].content| == |context + Flat(parts)| + |uses| && context + Flat(parts) <= sent[0].content
    && (forall k | 0 <= k < |uses| :: sent[0].content[|context + Flat(parts)| + k] == UseContent(uses[k]))
    && (uses != [] ==> sent[1].role.User? && |sent[1].content| == |uses|
                       && forall k | 0 <= k < |uses| :: ResultSays(uses[k], s.results, sent[1].content[k]))
  }

  // ----- what it says

  lemma {:induction false} TrimEndTrims(text: string)
    ensures IsTrimmed(text, TrimEnd(text)) && (TrimEnd(text) == "" <==> Blank(text))
  {
    if text != "" && IsWhitespace(text[|text| - 1]) {
      var rest := text[..|text| - 1];
      TrimEndTrims(rest);
      var n := |TrimEnd(rest)|;
      assert text[n..] == rest[n..] + [text[|text| - 1]];
      if Blank(rest) {
        assert forall k | 0 <= k < |rest| :: text[k] == rest[k];
      }
      if Blank(text) {
        assert forall k | 0 <= k < |rest| :: rest[k] == text[k];
      }
    } else {
      assert text[|text|..] == "";
    }
  }

  lemma SegmentContentsSay(segment: Segment)
    ensures SegmentSays(segment, SegmentContents(segment))
  {
    if segment.TextSegment? {
      TrimEndTrims(segment.text);
    }
  }

  lemma {:induction false} SegmentsSay(segments: seq<Segment>) returns (parts: seq<seq<Content>>)
    ensures |parts| == |segments| && Flat(parts) == SegmentsContents(segments)
    ensures forall k | 0 <= k < |parts| :: SegmentSays(segments[k], parts[k])
  {
    if segments == [] {
      parts := [];
    } else {
      var n := |segments| - 1;
      var rest := SegmentsSay(segments[..n]);
      parts := rest + [SegmentContents(segments[n])];
      FlatSnoc(rest, SegmentContents(segments[n]));
      SegmentContentsSay(segments[n]);
      forall k | 0 <= k < |parts| ensures SegmentSays(segments[k], parts[k]) {
        assert k < n ==> segments[k] == segments[..n][k];
      }
    }
  }

  lemma ContextContentsSay(context: Context)
    ensures ContextSays(context, ContextContents(context))
  {
  }

  lemma {:induction false} AnsweredAre(uses: seq<ToolUse>, results: map<string, ToolResult>)
    ensures forall u :: u in Answered(uses, results) <==> u in uses && u.id in results
  {
    if uses != [] {
      var n := |uses| - 1;
      AnsweredAre(uses[..n], results);
      assert uses == uses[..n] + [uses[n]];
    }
  }

  lemma OutcomeSays(toolUse: ToolUse, results: map<string, ToolResult>)
    requires toolUse.id in results
    ensures ResultSays(toolUse, results, OutcomeContent(Outcome(toolUse, results[toolUse.id])))
  {
  }

  /** A message that is sent says what it should. */
  lemma RequestOfSays(m: Message, s: State) returns (context: seq<Content>, parts: seq<seq<Content>>, uses: seq<ToolUse>)
    ensures MessageSays(m, s, context, parts, uses, RequestOf(m, s))
  {
    context, uses := ContextContents(m.context), Answered(UsesOf(s, m.id), s.results);
    parts := SegmentsSay(m.segments);
    ContextContentsSay(m.context);
    AnsweredAre(UsesOf(s, m.id), s.results);
    AnsweredHaveResults(UsesOf(s, m.id), s.results);
    forall k | 0 <= k < |uses| ensures ResultSays(uses[k], s.results, OutcomeContents(uses, s.results)[k]) {
      OutcomeSays(uses[k], s.results);
    }
  }

  // ----- the whole request

  ghost predicate Says(m: Message, s: State, sent: seq<RequestMessage>) {
    if m.uiOnly then sent == []
    else exists context, parts, uses :: MessageSays(m, s, context, parts, uses, sent)
  }

  lemma LastSays(m: Message, s: State) returns (last: seq<RequestMessage>)
    ensures last == (if m.uiOnly then [] else RequestOf(m, s)) && Says(m, s, last)
  {
    last := if m.uiOnly then [] else RequestOf(m, s);
    if !m.uiOnly {
      var context, parts, uses := RequestOfSays(m, s);
    }
  }

  /** Each part says what its message should. */
  ghost predicate AllSay(messages: seq<Message>, s: State, sent: seq<seq<RequestMessage>>) {
    |sent| == |messages| &&
    (messages == [] ||
     var n := |messages| - 1;
     AllSay(messages[..n], s, sent[..n]) && Says(messages[n], s, sent[n]))
  }

  lemma {:induction false} AssembledSays(messages: seq<Message>, s: State) returns (sent: seq<seq<RequestMessage>>)
    ensures AllSay(messages, s, sent) && Flat(sent) == Assembled(messages, s)
  {
    sent := [];
    if messages != [] {
      var n := |messages| - 1;
      var last := LastSays(messages[n], s);
      var rest := AssembledSays(messages[..n], s);
      sent := rest + [last];
      FlatSnoc(rest, last);
      assert sent[..n] == rest;
    }
  }

  lemma {:induction false} SaysAt(messages: seq<Message>, s: State, sent: seq<seq<RequestMessage>>, k: int)
    requires AllSay(messages, s, sent) && 0 <= k < |messages|
    ensures |sent| == |messages| && Says(messages[k], s, sent[k])
  {
    var n := |messages| - 1;
    if k < n {
      SaysAt(messages[..n], s, sent[..n], k);
    }
  }

  /** The two requests say the same; only their cache marks may differ. */
  ghost predicate SameWords(a: seq<RequestMessage>, b: seq<RequestMessage>) {
    |a| == |b| && forall k | 0 <= k < |a| :: a[k].role == b[k].role && a[k].content == b[k].content
  }

  /** A request says the system prompt, and then what each message has to say, in order. */
  lemma RequestSays(prompt: Option<string>, messages: seq<Message>, s: State) returns (sent: seq<seq<RequestMessage>>)
    ensures AllSay(messages, s, sent)
    ensures var system := if prompt.Some? then [RequestMessage(System, [TextContent(prompt.value)], true)] else [];
            SameWords(Request(prompt, messages, s), system + Flat(sent))
  {
    sent := AssembledSays(messages, s);
  }
}
