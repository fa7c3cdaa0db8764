/** Streamed content: how chunks of text, thoughts and user input become thread entries. */
module Streaming {
  import opened Options
  import FileUris
  import MentionLinks
  import UrlPaths
  import Urls

  // ----- content blocks

  /** A block as it arrives. */
  datatype Block =
    | Text(text: string)
    | ResourceLink(uri: string)
    | Resource(uri: string)
    | Image
    | Unshown

  /** A block as it is kept. */
  datatype Content = Empty | Markdown(text: string) | Link(uri: string)

  function BlockText(b: Block): string {
    match b
    case Text(text) => text
    case ResourceLink(uri) => MentionLinks.LinkText(uri)
    case Resource(uri) => MentionLinks.LinkText(uri)
    case Image => "`Image`"
    case Unshown => ""
  }

  function Append(c: Content, b: Block): Content {
    if c.Empty? && b.ResourceLink? then Link(b.uri)
    else match c
      case Empty => Markdown(BlockText(b))
      case Markdown(text) => Markdown(text + BlockText(b))
      case Link(uri) => Markdown(MentionLinks.LinkText(uri) + "\n" + BlockText(b))
  }

  function ContentText(c: Content): string {
    match c
    case Empty => ""
    case Markdown(text) => text
    case Link(uri) => uri
  }

  function BlockTexts(bs: seq<Block>): string {
    if bs == [] then "" else BlockTexts(bs[..|bs| - 1]) + BlockText(bs[|bs| - 1])
  }

  /** What a list of blocks amounts to. A link keeps its URI only while it stands alone. */
  function Combined(bs: seq<Block>): Content {
    if bs == [] then Empty
    else if !bs[0].ResourceLink? then Markdown(BlockTexts(bs))
    else if |bs| == 1 then Link(bs[0].uri)
    else Markdown(BlockText(bs[0]) + "\n" + BlockTexts(bs[1..]))
  }

  lemma BlockTextsSnoc(bs: seq<Block>, b: Block)
    ensures BlockTexts(bs + [b]) == BlockTexts(bs) + BlockText(b)
  {
    assert (bs + [b])[..|bs|] == bs;
  }

  lemma CombinedSnoc(bs: seq<Block>, b: Block)
    ensures Combined(bs + [b]) == Append(Combined(bs), b)
  {
    if bs == [] {
      EmptyFirst(BlockText(b));
      BlockTextsSnoc([], b);
    } else if !bs[0].ResourceLink? {
      BlockTextsSnoc(bs, b);
    } else {
      var rest, first := bs[1..], BlockText(bs[0]) + "\n";
      assert (bs + [b])[1..] == rest + [b];
      BlockTextsSnoc(rest, b);
      assert Combined(bs + [b]) == Markdown(first + (BlockTexts(rest) + BlockText(b)));
      LinkSnoc(bs, b, first, BlockTexts(rest));
    }
  }

  lemma LinkSnoc(bs: seq<Block>, b: Block, first: string, rest: string)
    requires bs != [] && bs[0].ResourceLink? && first == BlockText(bs[0]) + "\n" && rest == BlockTexts(bs[1..])
    ensures Append(Combined(bs), b) == Markdown(first + (rest + BlockText(b)))
  {
    Associative(first, rest, BlockText(b));
    if |bs| == 1 {
      assert rest == "";
      EmptyFirst(BlockText(b));
    }
  }

  /** Appending block after block gives the combined content. */
  method NewCombined(blocks: seq<Block>) returns (c: Content)
    ensures c == Combined(blocks)
  {
    c := Empty;
    for i := 0 to |blocks|
      invariant c == Combined(blocks[..i])
    {
      CombinedSnoc(blocks[..i], blocks[i]);
      assert blocks[..i + 1] == blocks[..i] + [blocks[i]];
      c := Append(c, blocks[i]);
    }
    assert blocks[..|blocks|] == blocks;
  }

  // ----- entries

  datatype PermissionKind = AllowOnce | AllowAlways | RejectOnce | RejectAlways

  datatype PermissionOption = PermissionOption(id: string, kind: PermissionKind)

  /** `sender` identifies the one-shot channel on which the request is answered. */
  datatype Status =
    | Pending
    | WaitingForConfirmation(options: seq<PermissionOption>, sender: nat)
    | InProgress
    | Completed
    | Failed
    | Rejected
    | Canceled

  datatype ToolCall = ToolCall(id: string, status: Status, hasOutput: bool)

  datatype Chunk = Chunk(isThought: bool, block: Content)

  datatype Entry =
    | UserMessage(id: Option<string>, content: Content, chunks: seq<Block>)
    | AssistantMessage(parts: seq<Chunk>)
    | Call(call: ToolCall)

  // ----- pushing chunks

  function AddPart(parts: seq<Chunk>, block: Block, isThought: bool): seq<Chunk> {
    var n := |parts|;
    if n > 0 && parts[n - 1].isThought == isThought
    then parts[n - 1 := Chunk(isThought, Append(parts[n - 1].block, block))]
    else parts + [Chunk(isThought, Append(Empty, block))]
  }

  function PushAssistant(entries: seq<Entry>, block: Block, isThought: bool): seq<Entry> {
    var n := |entries|;
    if n > 0 && entries[n - 1].AssistantMessage?
    then entries[n - 1 := AssistantMessage(AddPart(entries[n - 1].parts, block, isThought))]
    else entries + [AssistantMessage([Chunk(isThought, Append(Empty, block))])]
  }

  function PushUser(entries: seq<Entry>, id: Option<string>, block: Block): seq<Entry> {
    var n := |entries|;
    if n > 0 && entries[n - 1].UserMessage?
    then
      var last := entries[n - 1];
      entries[n - 1 := UserMessage(if id.Some? then id else last.id, Append(last.content, block), last.chunks + [block])]
    else entries + [UserMessage(id, Append(Empty, block), [block])]
  }

  // ----- canonical form

  /** Neighbouring parts of a message differ in kind. */
  ghost predicate Alternating(parts: seq<Chunk>) {
    parts != [] && forall i, j | 0 <= i < j < |parts| && j == i + 1 :: parts[i].isThought != parts[j].isThought
  }

  /** No two assistant messages are neighbours, and each alternates between text and thoughts. */
  ghost predicate Canonical(entries: seq<Entry>) {
    && (forall i | 0 <= i < |entries| && entries[i].AssistantMessage? :: Alternating(entries[i].parts))
    && (forall i, j | 0 <= i < j < |entries| && j == i + 1 :: !(entries[i].AssistantMessage? && entries[j].AssistantMessage?))
  }

  lemma PushAssistantCanonical(entries: seq<Entry>, block: Block, isThought: bool)
    requires Canonical(entries)
    ensures Canonical(PushAssistant(entries, block, isThought))
  {
  }

  lemma PushUserCanonical(entries: seq<Entry>, id: Option<string>, block: Block)
    requires Canonical(entries)
    ensures Canonical(PushUser(entries, id, block))
  {
  }

  // ----- conservation

  datatype Item = UserChar(c: char) | MessageChar(c: char) | ThoughtChar(c: char) | CallMark(id: string)

  function UserItems(text: string): seq<Item> {
    seq(|text|, i requires 0 <= i < |text| => UserChar(text[i]))
  }

  function AssistantItems(text: string, isThought: bool): seq<Item> {
    seq(|text|, i requires 0 <= i < |text| => if isThought then ThoughtChar(text[i]) else MessageChar(text[i]))
  }

  function PartItems(parts: seq<Chunk>): seq<Item> {
    if parts == [] then []
    else
      var n := |parts| - 1;
      PartItems(parts[..n]) + AssistantItems(ContentText(parts[n].block), parts[n].isThought)
  }

  function EntryItems(entry: Entry): seq<Item> {
    match entry
    case UserMessage(_, content, _) => UserItems(ContentText(content))
    case AssistantMessage(parts) => PartItems(parts)
    case Call(call) => [CallMark(call.id)]
  }

  /** Everything a thread shows, in order: every character with its kind, and every tool call. */
  function Flatten(entries: seq<Entry>): seq<Item> {
    if entries == [] then [] else Flatten(entries[..|entries| - 1]) + EntryItems(entries[|entries| - 1])
  }

  // ----- a block added to a content

  /** The content takes the block as it is: it is not a bare link, and does not become one that is a mention. */
  predicate Takes(c: Content, b: Block) {
    !c.Link? && (c.Empty? && b.ResourceLink? ==> MentionLinks.IsNoMention(b.uri))
  }

  /** Exactly when appending a block adds its markdown and nothing else: a mention that opens a content is shown by its
      URI, and any URI that opens one gives way to its markdown and a line break as soon as something follows. */
  lemma AppendConservesIff(c: Content, b: Block)
    ensures ContentText(Append(c, b)) == ContentText(c) + BlockText(b) <==> Takes(c, b)
  {
    if c.Link? {
      MentionLinks.LinkDiffers(c.uri);
      SameTail(MentionLinks.LinkText(c.uri) + "\n", c.uri, BlockText(b));
    } else if c.Empty? {
      EmptyFirst(BlockText(b));
      if b.ResourceLink? {
        MentionLinks.LinkDiffers(b.uri);
      }
    }
  }

  /** So no mention that opens a content is conserved: not the URI of any file. */
  lemma MentionIsRewritten(path: UrlPaths.Bytes, text: string) returns (uri: string)
    requires path != [] && path[0] == '/' as int
    ensures uri == Urls.Written(FileUris.FileUrl(path))
    ensures var c := Append(Empty, ResourceLink(uri));
            && ContentText(c) == uri && BlockText(ResourceLink(uri)) != uri
            && ContentText(Append(c, Text(text))) != uri + text
  {
    uri := MentionLinks.FileIsMention(path);
    MentionLinks.LinkDiffers(uri);
    AppendConservesIff(Link(uri), Text(text));
  }

  lemma SameTail<T>(s: seq<T>, t: seq<T>, tail: seq<T>)
    ensures s + tail == t + tail <==> s == t
  {
    if s + tail == t + tail {
      assert |s| == |t|;
      assert s == (s + tail)[..|s|] == (t + tail)[..|t|] == t;
    }
  }

  lemma SameFront<T>(front: seq<T>, s: seq<T>, t: seq<T>)
    ensures front + s == front + t <==> s == t
  {
    if front + s == front + t {
      assert s == (front + s)[|front|..] == (front + t)[|front|..] == t;
    }
  }

  lemma Associative<T>(a: seq<T>, b: seq<T>, c: seq<T>)
    ensures a + (b + c) == a + b + c
  {
  }

  lemma EmptyFirst<T>(s: seq<T>)
    ensures [] + s == s
  {
  }

  // ----- a block added to a thread

  lemma AssistantItemsConcat(s: string, t: string, isThought: bool)
    ensures AssistantItems(s + t, isThought) == AssistantItems(s, isThought) + AssistantItems(t, isThought)
  {
  }

  lemma UserItemsConcat(s: string, t: string)
    ensures UserItems(s + t) == UserItems(s) + UserItems(t)
  {
  }

  lemma AssistantItemsDiffer(s: string, t: string, isThought: bool)
    ensures AssistantItems(s, isThought) == AssistantItems(t, isThought) <==> s == t
  {
    var a, b := AssistantItems(s, isThought), AssistantItems(t, isThought);
    if a == b {
      assert |s| == |a| == |b| == |t|;
      forall i | 0 <= i < |s| ensures s[i] == t[i] {
        assert a[i] == b[i];
      }
    }
  }

  lemma UserItemsDiffer(s: string, t: string)
    ensures UserItems(s) == UserItems(t) <==> s == t
  {
    var a, b := UserItems(s), UserItems(t);
    if a == b {
      assert |s| == |a| == |b| == |t|;
      forall i | 0 <= i < |s| ensures s[i] == t[i] {
        assert a[i] == b[i];
      }
    }
  }

  lemma FlattenSnoc(entries: seq<Entry>, entry: Entry)
    ensures Flatten(entries + [entry]) == Flatten(entries) + EntryItems(entry)
  {
    assert (entries + [entry])[..|entries|] == entries;
  }

  lemma FlattenSetLast(entries: seq<Entry>, entry: Entry, added: seq<Item>)
    requires entries != []
    ensures Flatten(entries[|entries| - 1 := entry]) == Flatten(entries) + added
            <==> EntryItems(entry) == EntryItems(entries[|entries| - 1]) + added
  {
    var n := |entries| - 1;
    assert entries[n := entry][..n] == entries[..n];
    Associative(Flatten(entries[..n]), EntryItems(entries[n]), added);
    SameFront(Flatten(entries[..n]), EntryItems(entry), EntryItems(entries[n]) + added);
  }

  lemma PartSnoc(parts: seq<Chunk>, part: Chunk)
    ensures PartItems(parts + [part]) == PartItems(parts) + AssistantItems(ContentText(part.block), part.isThought)
  {
    assert (parts + [part])[..|parts|] == parts;
  }

  lemma PartSetLast(parts: seq<Chunk>, c: Content, text: string)
    requires parts != []
    ensures var n := |parts| - 1;
            PartItems(parts[n := Chunk(parts[n].isThought, c)]) == PartItems(parts) + AssistantItems(text, parts[n].isThought)
            <==> ContentText(c) == ContentText(parts[n].block) + text
  {
    var n := |parts| - 1;
    var isThought := parts[n].isThought;
    var front, shown := PartItems(parts[..n]), ContentText(parts[n].block);
    assert parts[n := Chunk(isThought, c)] == parts[..n] + [Chunk(isThought, c)] && parts == parts[..n] + [parts[n]];
    PartSnoc(parts[..n], Chunk(isThought, c));
    PartSnoc(parts[..n], parts[n]);
    AssistantItemsConcat(shown, text, isThought);
    Associative(front, AssistantItems(shown, isThought), AssistantItems(text, isThought));
    SameFront(front, AssistantItems(ContentText(c), isThought), AssistantItems(shown + text, isThought));
    AssistantItemsDiffer(ContentText(c), shown + text, isThought);
  }

  /** The content that a chunk of the given kind is added to. */
  function PartTarget(parts: seq<Chunk>, isThought: bool): Content {
    var n := |parts|;
    if n > 0 && parts[n - 1].isThought == isThought then parts[n - 1].block else Empty
  }

  function AssistantTarget(entries: seq<Entry>, isThought: bool): Content {
    var n := |entries|;
    if n > 0 && entries[n - 1].AssistantMessage? then PartTarget(entries[n - 1].parts, isThought) else Empty
  }

  function UserTarget(entries: seq<Entry>): Content {
    var n := |entries|;
    if n > 0 && entries[n - 1].UserMessage? then entries[n - 1].content else Empty
  }

  lemma AddPartItems(parts: seq<Chunk>, block: Block, isThought: bool)
    ensures PartItems(AddPart(parts, block, isThought)) == PartItems(parts) + AssistantItems(BlockText(block), isThought)
            <==> Takes(PartTarget(parts, isThought), block)
  {
    var n, target, text := |parts|, PartTarget(parts, isThought), BlockText(block);
    var c := Append(target, block);
    AppendConservesIff(target, block);
    if n > 0 && parts[n - 1].isThought == isThought {
      PartSetLast(parts, c, text);
    } else {
      EmptyFirst(text);
      PartSnoc(parts, Chunk(isThought, c));
      SameFront(PartItems(parts), AssistantItems(ContentText(c), isThought), AssistantItems(text, isThought));
      AssistantItemsDiffer(ContentText(c), text, isThought);
    }
  }

  /** A text chunk or thought adds exactly its own characters, in its own kind, at the end, if and only if the content it
      is added to takes it. */
  lemma PushAssistantConserves(entries: seq<Entry>, block: Block, isThought: bool)
    ensures Flatten(PushAssistant(entries, block, isThought)) == Flatten(entries) + AssistantItems(BlockText(block), isThought)
            <==> Takes(AssistantTarget(entries, isThought), block)
  {
    var n, added := |entries|, AssistantItems(BlockText(block), isThought);
    if n > 0 && entries[n - 1].AssistantMessage? {
      var parts := entries[n - 1].parts;
      AddPartItems(parts, block, isThought);
      FlattenSetLast(entries, AssistantMessage(AddPart(parts, block, isThought)), added);
    } else {
      var entry := AssistantMessage([Chunk(isThought, Append(Empty, block))]);
      AddPartItems([], block, isThought);
      EmptyFirst([Chunk(isThought, Append(Empty, block))]);
      EmptyFirst(added);
      FlattenSnoc(entries, entry);
      SameFront(Flatten(entries), EntryItems(entry), added);
    }
  }

  lemma PushUserConserves(entries: seq<Entry>, id: Option<string>, block: Block)
    ensures Flatten(PushUser(entries, id, block)) == Flatten(entries) + UserItems(BlockText(block))
            <==> Takes(UserTarget(entries), block)
  {
    var n, target, text := |entries|, UserTarget(entries), BlockText(block);
    var c := Append(target, block);
    AppendConservesIff(target, block);
    if n > 0 && entries[n - 1].UserMessage? {
      var last := entries[n - 1];
      UserItemsConcat(ContentText(target), text);
      UserItemsDiffer(ContentText(c), ContentText(target) + text);
      var entry := UserMessage(if id.Some? then id else last.id, c, last.chunks + [block]);
      FlattenSetLast(entries, entry, UserItems(text));
    } else {
      EmptyFirst(text);
      UserItemsDiffer(ContentText(c), text);
      var entry := UserMessage(id, c, [block]);
      FlattenSnoc(entries, entry);
      SameFront(Flatten(entries), EntryItems(entry), UserItems(text));
    }
  }

  /** The blocks of a whole message are shown as they are: the first is not a link, or is one that is no mention and
      stands alone. */
  predicate Combines(bs: seq<Block>) {
    bs == [] || !bs[0].ResourceLink? || (|bs| == 1 && MentionLinks.IsNoMention(bs[0].uri))
  }

  /** A whole message shows exactly its blocks if and only if they combine. */
  lemma CombinedConserves(bs: seq<Block>)
    ensures ContentText(Combined(bs)) == BlockTexts(bs) <==> Combines(bs)
  {
    if bs != [] && bs[0].ResourceLink? {
      if |bs| == 1 {
        EmptyFirst(BlockText(bs[0]));
        MentionLinks.LinkDiffers(bs[0].uri);
      } else {
        BlockTextsFirst(bs);
        assert |ContentText(Combined(bs))| == |BlockTexts(bs)| + 1;
      }
    }
  }

  lemma {:induction false} BlockTextsFirst(bs: seq<Block>)
    requires bs != []
    ensures BlockTexts(bs) == BlockText(bs[0]) + BlockTexts(bs[1..])
  {
    var n := |bs| - 1;
    if n == 0 {
      EmptyFirst(BlockText(bs[0]));
    } else {
      BlockTextsFirst(bs[..n]);
      assert bs[..n][1..] == bs[1..][..n - 1];
      Associative(BlockText(bs[0]), BlockTexts(bs[1..][..n - 1]), BlockText(bs[n]));
    }
  }
}
