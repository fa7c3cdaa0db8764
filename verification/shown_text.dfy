/** What a thread shows of the text, the links and the messages that reach it, character by character. */
module ShownText {
  import opened Options
  import opened Streaming
  import opened Permissions
  import opened PermissionRuns
  import opened MentionLinks
  import Mentions
  import UrlPaths
  import Urls

  // ----- text

  predicate IsTextChunk(e: Event) {
    (e.UserChunk? || e.AssistantChunk?) && e.block.Text?
  }

  /** The characters of the chunk, each as one of a user message, an answer or a thought. */
  function CharsOf(e: Event): seq<Item>
    requires IsTextChunk(e)
  {
    var text := e.block.text;
    seq(|text|, i requires 0 <= i < |text| =>
      if e.UserChunk? then UserChar(text[i]) else if e.isThought then ThoughtChar(text[i]) else MessageChar(text[i]))
  }

  function AllChars(events: seq<Event>): seq<Item>
    requires forall i | 0 <= i < |events| :: IsTextChunk(events[i])
  {
    if events == [] then [] else AllChars(events[..|events| - 1]) + CharsOf(events[|events| - 1])
  }

  /** A chunk of text adds exactly its characters, in their kind, at the end, unless the content that it is added to is a
      bare link. */
  lemma TextChunkAdds(t: Thread, e: Event)
    requires IsTextChunk(e)
    requires if e.UserChunk? then !UserTarget(t.entries).Link? else !AssistantTarget(t.entries, e.isThought).Link?
    ensures Flatten(Step(t, e).entries) == Flatten(t.entries) + CharsOf(e)
  {
    StepConserves(t, e);
    assert t.entries[..|t.entries|] == t.entries;
    assert Added(t, e) == CharsOf(e);
  }

  lemma NoLinkTarget(t: Thread, e: Event)
    requires AllLinkFree(t.entries) && IsTextChunk(e)
    ensures if e.UserChunk? then !UserTarget(t.entries).Link? else !AssistantTarget(t.entries, e.isThought).Link?
  {
    assert t.entries != [] ==> LinkFree(t.entries[|t.entries| - 1]);
  }

  /** On any run of text, thoughts and user text, all characters are shown, in order and in their kind, and nothing else. */
  lemma {:induction false} TextRunShows(events: seq<Event>)
    requires forall i | 0 <= i < |events| :: IsTextChunk(events[i])
    ensures Flatten(Run(START, events).entries) == AllChars(events)
  {
    if events != [] {
      var n := |events| - 1;
      var before := Run(START, events[..n]);
      TextRunShows(events[..n]);
      RunLinkFree(events, n);
      NoLinkTarget(before, events[n]);
      TextChunkAdds(before, events[n]);
    }
  }

  function TextOf(e: Event): string
    requires IsTextChunk(e)
  {
    e.block.text
  }

  function JoinedText(events: seq<Event>): string
    requires forall i | 0 <= i < |events| :: IsTextChunk(events[i])
  {
    if events == [] then "" else JoinedText(events[..|events| - 1]) + TextOf(events[|events| - 1])
  }

  lemma SamePartGrows(shown: string, text: string, isThought: bool)
    ensures PushAssistant([AssistantMessage([Chunk(isThought, Markdown(shown))])], Text(text), isThought)
            == [AssistantMessage([Chunk(isThought, Markdown(shown + text))])]
  {
    var part, grown := Chunk(isThought, Markdown(shown)), Chunk(isThought, Markdown(shown + text));
    assert [part][0 := grown] == [grown];
    assert [AssistantMessage([part])][0 := AssistantMessage([grown])] == [AssistantMessage([grown])];
  }

  /** Chunks of one kind become one part of one message, with their texts joined. */
  lemma {:induction false} AnswerIsJoined(events: seq<Event>, isThought: bool)
    requires events != []
    requires forall i | 0 <= i < |events| :: events[i].AssistantChunk? && events[i].isThought == isThought && events[i].block.Text?
    ensures Run(START, events).entries == [AssistantMessage([Chunk(isThought, Markdown(JoinedText(events)))])]
  {
    var n := |events| - 1;
    var init, e := events[..n], events[n];
    assert JoinedText(events) == JoinedText(init) + e.block.text;
    if n > 0 {
      AnswerIsJoined(init, isThought);
      SamePartGrows(JoinedText(init), e.block.text, isThought);
      assert Run(START, events) == Step(Run(START, init), e);
    } else {
      assert init == [] && Run(START, events) == Step(START, e);
      EmptyFirst(e.block.text);
      EmptyFirst([AssistantMessage([Chunk(isThought, Markdown(e.block.text))])]);
    }
  }

  /** A user's chunks become one message, with their texts joined; it keeps all blocks as they came, and the last identifier
      that came with one. */
  lemma UserChunkKept(entries: seq<Entry>, id: Option<string>, block: Block)
    ensures var after := PushUser(entries, id, block);
            && after != [] && after[|after| - 1].UserMessage?
            && var last := after[|after| - 1];
            if entries != [] && entries[|entries| - 1].UserMessage?
            then
              && |after| == |entries| && after[..|after| - 1] == entries[..|entries| - 1]
              && last.chunks == entries[|entries| - 1].chunks + [block]
              && (if id.Some? then last.id == id else last.id == entries[|entries| - 1].id)
            else after[..|after| - 1] == entries && last.chunks == [block] && last.id == id
  {
  }

  predicate AllTexts(blocks: seq<Block>) {
    forall i | 0 <= i < |blocks| :: blocks[i].Text?
  }

  function JoinedBlocks(blocks: seq<Block>): string
    requires AllTexts(blocks)
  {
    if blocks == [] then "" else JoinedBlocks(blocks[..|blocks| - 1]) + blocks[|blocks| - 1].text
  }

  /** A message of text blocks shows their texts joined. */
  lemma MessageIsJoined(t: Thread, id: Option<string>, blocks: seq<Block>)
    requires blocks != [] && AllTexts(blocks)
    ensures Step(t, SendMessage(id, blocks)).entries == t.entries + [UserMessage(id, Markdown(JoinedBlocks(blocks)), blocks)]
  {
    TextsCombine(blocks);
    SentEntries(t, id, blocks);
  }

  lemma SentEntries(t: Thread, id: Option<string>, blocks: seq<Block>)
    ensures Step(t, SendMessage(id, blocks)).entries == t.entries + [UserMessage(id, Combined(blocks), blocks)]
  {
  }

  lemma TextsCombine(blocks: seq<Block>)
    requires blocks != [] && AllTexts(blocks)
    ensures Combined(blocks) == Markdown(JoinedBlocks(blocks))
  {
    BlocksJoined(blocks);
    assert blocks[0].Text?;
  }

  lemma {:induction false} BlocksJoined(blocks: seq<Block>)
    requires AllTexts(blocks)
    ensures BlockTexts(blocks) == JoinedBlocks(blocks)
  {
    if blocks != [] {
      BlocksJoined(blocks[..|blocks| - 1]);
    }
  }

  // ----- links

  /** The markdown of a link: its name and its URI if it is a mention, and the URI as it came if it is not. */
  function LinkShown(uri: string): string {
    match Mentions.ParseText(uri)
    case Some(m) => "[@" + Name(m) + "](" + Urls.Written(Mentions.ToUri(m)) + ")"
    case None => uri
  }

  /** Behind other content a link, or a resource, is shown by its markdown, and an image by its mark; what cannot be shown
      adds nothing. */
  lemma BehindContent(c: Content, b: Block)
    requires c.Markdown?
    ensures ContentText(Append(c, b))
            == c.text + match b
                        case Text(text) => text
                        case ResourceLink(uri) => LinkShown(uri)
                        case Resource(uri) => LinkShown(uri)
                        case Image => "`Image`"
                        case Unshown => ""
  {
  }

  /** A link that opens a content is shown by its URI as long as it stands alone, and by its markdown, on a line of its own,
      as soon as something follows. */
  lemma OpeningLink(uri: string, text: string)
    ensures ContentText(Append(Empty, ResourceLink(uri))) == uri
    ensures ContentText(Append(Append(Empty, ResourceLink(uri)), Text(text))) == LinkShown(uri) + "\n" + text
  {
  }

  /** The name of a file or directory is the last part of its path. */
  lemma NameOfFile(directory: UrlPaths.Bytes, name: UrlPaths.Bytes)
    requires name != [] && '/' as int !in name && name != ['.' as int] && name != ['.' as int, '.' as int]
    ensures Name(Mentions.File(directory + ['/' as int] + name)) == Decoded(name)
    ensures Name(Mentions.Directory(directory + ['/' as int] + name)) == Decoded(name)
  {
    var path := LastPart(directory, name);
  }

  lemma LastPart(directory: UrlPaths.Bytes, name: UrlPaths.Bytes) returns (path: UrlPaths.Bytes)
    requires name != [] && '/' as int !in name && name != ['.' as int] && name != ['.' as int, '.' as int]
    ensures path == directory + ['/' as int] + name && FileName(path) == Some(name)
  {
    path := directory + ['/' as int] + name;
    LastSlashIs(directory, name);
    assert path[|directory| + 1..] == name;
  }

  function LinesShown(lines: Mentions.LineRange): string {
    " (" + Mentions.Decimal(lines.start + 1) + ":" + Mentions.Decimal(lines.end + 1) + ")"
  }

  /** A selection is named by its file and its lines, counted from one. */
  lemma NameOfSelection(directory: UrlPaths.Bytes, name: UrlPaths.Bytes, lines: Mentions.LineRange) returns (path: UrlPaths.Bytes)
    requires name != [] && '/' as int !in name && name != ['.' as int] && name != ['.' as int, '.' as int]
    requires lines.start < Mentions.U32_LIMIT - 1 && lines.end < Mentions.U32_LIMIT - 1
    ensures path == directory + ['/' as int] + name && Name(Mentions.Selection(Some(path), lines)) == Decoded(name) + LinesShown(lines)
    ensures Name(Mentions.Selection(None, lines)) == "Untitled" + LinesShown(lines)
  {
    path := LastPart(directory, name);
    LinesAreShown(Decoded(name), lines);
    LinesAreShown("Untitled", lines);
  }

  lemma LinesAreShown(name: string, lines: Mentions.LineRange)
    requires lines.start < Mentions.U32_LIMIT - 1 && lines.end < Mentions.U32_LIMIT - 1
    ensures name + " (" + Mentions.Decimal(Mentions.OneBased(lines.start)) + ":" + Mentions.Decimal(Mentions.OneBased(lines.end)) + ")"
            == name + LinesShown(lines)
  {
    Counted(lines.start);
    Counted(lines.end);
  }

  lemma Counted(line: Mentions.U32)
    requires line < Mentions.U32_LIMIT - 1
    ensures Mentions.OneBased(line) == line + 1
  {
  }

  /** Text of plain characters is shown as it is. */
  lemma {:induction false} PlainDecodes(s: string)
    requires forall i | 0 <= i < |s| :: s[i] as int < 0x80
    ensures Decoded(UrlPaths.AsBytes(s)) == s
  {
    if s != "" {
      PlainDecodes(s[1..]);
      var bytes := UrlPaths.AsBytes(s);
      assert bytes[0] == s[0] as int && bytes[1..] == UrlPaths.AsBytes(s[1..]);
      assert s == [s[0]] + s[1..];
    }
  }

  lemma {:induction false} LastSlashIs(directory: UrlPaths.Bytes, name: UrlPaths.Bytes)
    requires '/' as int !in name
    ensures LastSlash(directory + ['/' as int] + name) == |directory|
    decreases |name|
  {
    var path := directory + ['/' as int] + name;
    if name != [] {
      var rest := name[..|name| - 1];
      LastSlashIs(directory, rest);
      assert path[..|path| - 1] == directory + ['/' as int] + rest;
      assert path[|path| - 1] == name[|name| - 1];
    }
  }
}
