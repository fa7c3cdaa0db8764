/** Mentions as markdown links: their names, and the text that stands for a URI in a message. */
module MentionLinks {
  import opened Options
  import opened Utf8Text
  import opened UrlPaths
  import opened Urls
  import opened Mentions
  import opened FileUris

  // ----- bytes as characters

  /** The bits of a byte above its mark. */
  function Bits(b: int, mark: int): int {
    b - mark
  }

  /** The character that the bytes start with. */
  function Character(s: Bytes): char
    requires Width(s) > 0
  {
    if Width(s) == 1 then s[0] as char
    else if Width(s) == 2 then (Bits(s[0], 0xC0) * 0x40 + Bits(s[1], 0x80)) as char
    else if Width(s) == 3 then (Bits(s[0], 0xE0) * 0x1000 + Bits(s[1], 0x80) * 0x40 + Bits(s[2], 0x80)) as char
    else (Bits(s[0], 0xF0) * 0x4_0000 + Bits(s[1], 0x80) * 0x1000 + Bits(s[2], 0x80) * 0x40 + Bits(s[3], 0x80)) as char
  }

  /** The bytes as text, with a replacement character for what is none. */
  function Decoded(s: Bytes): string {
    if s == [] then ""
    else if Width(s) > 0 then [Character(s)] + Decoded(s[Width(s)..])
    else ['\U{FFFD}'] + Decoded(s[BrokenLength(s)..])
  }

  // ----- names

  /** The place of the last slash, or -1. */
  function LastSlash(path: Bytes): (n: int)
    ensures -1 <= n < |path|
  {
    if path == [] then -1
    else if path[|path| - 1] == '/' as int then |path| - 1
    else LastSlash(path[..|path| - 1])
  }

  /** The last part of a path: empty parts and single dots are passed over, and two dots are no name. */
  function FileName(path: Bytes): Option<Bytes>
    decreases |path|
  {
    var slash := LastSlash(path);
    var last := path[slash + 1..];
    if last == [] || last == ['.' as int] then if slash < 0 then None else FileName(path[..slash])
    else if last == ['.' as int, '.' as int] then None
    else Some(last)
  }

  function PathName(path: Bytes, otherwise: string): string {
    var name := FileName(path);
    if name.Some? then Decoded(name.value) else otherwise
  }

  function SelectionName(file: Option<Bytes>, lines: LineRange): string {
    (if file.Some? then PathName(file.value, "Untitled") else "Untitled")
    + " (" + Decimal(OneBased(lines.start)) + ":" + Decimal(OneBased(lines.end)) + ")"
  }

  function Name(m: Mention): string {
    match m
    case File(path) => PathName(path, "")
    case Directory(path) => PathName(path, "")
    case PastedImage => "Image"
    case Symbol(_, name, _) => Decoded(name)
    case Thread(_, name) => Decoded(name)
    case TextThread(_, name) => Decoded(name)
    case Rule(_, name) => Decoded(name)
    case Selection(file, lines) => SelectionName(file, lines)
    case Fetch(url) => Written(url)
  }

  // ----- links

  function AsLink(m: Mention): (link: string)
    ensures link != "" && link[0] == '['
  {
    "[@" + Name(m) + "](" + Written(ToUri(m)) + ")"
  }

  /** The markdown that stands for a URI: a link if it is a mention, and the URI itself if it is not. */
  function LinkText(uri: string): string {
    var m := ParseText(uri);
    if m.Some? then AsLink(m.value) else uri
  }

  lemma {:induction false} SplitFirst(s: string, c: char)
    ensures SplitOnce(s, c).0 <= s
  {
    SplitJoins(s, c);
  }

  lemma ReadScheme(text: string)
    requires Read(text).Some?
    ensures Read(text).value.scheme <= text
  {
    var rest := SplitOnce(text, '#').0;
    var head := SplitOnce(rest, '?').0;
    SplitFirst(text, '#');
    SplitFirst(rest, '?');
    SplitFirst(head, ':');
  }

  /** A text that is a mention starts with its scheme. */
  lemma MentionStarts(text: string)
    requires ParseText(text).Some?
    ensures text != "" && text[0] != '['
  {
    ReadScheme(text);
    var scheme := Read(text).value.scheme;
    assert scheme in ["file", "zed", "http", "https"];
    assert text[0] == scheme[0];
  }

  predicate IsNoMention(uri: string) {
    ParseText(uri).None?
  }

  /** The URI of a mention is never its own markdown, with or without a line break behind it. */
  lemma LinkDiffers(uri: string)
    ensures LinkText(uri) == uri <==> IsNoMention(uri)
    ensures LinkText(uri) + "\n" != uri
  {
    if ParseText(uri).Some? {
      MentionStarts(uri);
      assert LinkText(uri)[0] == (LinkText(uri) + "\n")[0] == '[';
    } else {
      assert |LinkText(uri) + "\n"| == |uri| + 1;
    }
  }

  /** The URI of a file is a mention. */
  lemma FileIsMention(path: Bytes) returns (uri: string)
    requires path != [] && path[0] == '/' as int
    ensures uri == Written(FileUrl(path)) && !IsNoMention(uri)
  {
    FileUriParses(path);
    uri := Written(FileUrl(path));
  }
}
