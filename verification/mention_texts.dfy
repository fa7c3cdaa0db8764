/** The texts of the application's own URIs. */
module MentionTexts {
  import opened Options
  import opened Utf8Text
  import opened UrlPaths
  import opened Urls
  import opened Mentions

  predicate AllKept(s: string) {
    forall i | 0 <= i < |s| :: s[i] as int < 0x80 && FormKept(s[i] as int)
  }

  lemma {:induction false} PlainIsKept(s: string)
    requires AllKept(s)
    ensures FormEncode(AsBytes(s)) == s
  {
    if s != "" {
      PlainIsKept(s[1..]);
      assert AsBytes(s)[1..] == AsBytes(s[1..]);
      assert s == [s[0]] + s[1..];
    }
  }

  /** A space is a plus sign; any other byte that is not kept is a percent sign and two hexadecimal digits. */
  lemma OtherBytes(b: Byte)
    requires !FormKept(b)
    ensures b == ' ' as int ==> FormEncode([b]) == "+"
    ensures b != ' ' as int ==> FormEncode([b]) == "%" + [HexDigit(b / 16)] + [HexDigit(b % 16)]
  {
    assert FormEncode([b]) == FormByte(b) + FormEncode([]);
  }

  /** An own URL starts with its scheme and no host, and has its query and its fragment, if any, behind the path. */
  lemma OwnText(path: string, query: Option<string>, fragment: Option<string>)
    ensures Written(Url("zed", "", path, query, fragment))
            == "zed://" + path + (if query.Some? then "?" + query.value else "") + if fragment.Some? then "#" + fragment.value else ""
  {
    assert "zed" + ":" + ("//" + "" + path) == "zed://" + path;
  }

  function Pair(key: string, value: Bytes): string {
    key + "=" + FormEncode(value)
  }

  /** The lines as the user counts them. */
  function Counted(lines: LineRange): string {
    "L" + Decimal(lines.start + 1) + ":" + Decimal(lines.end + 1)
  }

  lemma PairIs(url: Url, key: string, value: Bytes)
    requires url.query == None && AllKept(key)
    ensures url.AppendPair(AsBytes(key), value) == url.(query := Some(Pair(key, value)))
  {
    PlainIsKept(key);
  }

  lemma PathIs(place: string, path: Bytes)
    ensures WithPath(Own(place), path) == Url("zed", "", place, Some(Pair("path", Lossy(path))), None)
  {
    PairIs(Own(place), "path", Lossy(path));
  }

  lemma NameIs(place: string, name: Bytes)
    ensures WithName(Own(place), name) == Url("zed", "", place, Some(Pair("name", name)), None)
  {
    PairIs(Own(place), "name", name);
  }

  lemma LinesAre(lines: LineRange)
    requires lines.start < U32_LIMIT - 1 && lines.end < U32_LIMIT - 1
    ensures LineText(lines) == Counted(lines)
  {
    assert OneBased(lines.start) == lines.start + 1 && OneBased(lines.end) == lines.end + 1;
  }

  // ----- the parts

  /** A path stands in the query, form-encoded. */
  lemma FileParts(path: Bytes)
    ensures ToUri(File(path)) == Url("zed", "", "/agent/file", Some(Pair("path", Lossy(path))), None)
    ensures ToUri(Directory(path)) == Url("zed", "", "/agent/directory", Some(Pair("path", Lossy(path))), None)
    ensures ToUri(PastedImage) == Url("zed", "", "/agent/pasted-image", None, None)
  {
    PathIs(FILE, path);
    PathIs(DIRECTORY, path);
  }

  /** Lines stand in the fragment, counted from one. */
  lemma SelectionParts(path: Bytes, lines: LineRange)
    requires lines.start < U32_LIMIT - 1 && lines.end < U32_LIMIT - 1
    ensures ToUri(Selection(Some(path), lines))
            == Url("zed", "", "/agent/selection", Some(Pair("path", Lossy(path))), Some(Counted(lines)))
    ensures ToUri(Selection(None, lines)) == Url("zed", "", "/agent/untitled-buffer", None, Some(Counted(lines)))
  {
    LinesAre(lines);
    PathIs(SELECTION, path);
  }

  /** The symbol stands in the path, as the URL library stores it, and its file in the query. */
  lemma SymbolParts(path: Bytes, name: Bytes, lines: LineRange)
    requires lines.start < U32_LIMIT - 1 && lines.end < U32_LIMIT - 1
    ensures ToUri(Symbol(path, name, lines))
            == Url("zed", "", StoredPath(AsBytes("/agent/symbol/") + name), Some(Pair("path", Lossy(path))), Some(Counted(lines)))
  {
    LinesAre(lines);
    PathIs(StoredPath(AsBytes(SYMBOL) + name), path);
  }

  /** Identifiers stand in the path, and names in the query. */
  lemma ThreadParts(id: Bytes, name: Bytes)
    ensures ToUri(Thread(id, name)) == Url("zed", "", StoredPath(AsBytes("/agent/thread/") + id), Some(Pair("name", name)), None)
  {
    NameIs(StoredPath(AsBytes(THREAD) + id), name);
  }

  lemma TextThreadParts(path: Bytes, name: Bytes)
    ensures ToUri(TextThread(path, name))
            == Url("zed", "", StoredPath(AsBytes("/agent/text-thread/") + TrimSlashes(Lossy(path))), Some(Pair("name", name)), None)
  {
    NameIs(StoredPath(AsBytes(TEXT_THREAD) + TrimSlashes(Lossy(path))), name);
  }

  lemma RuleParts(uuid: string, name: Bytes)
    ensures ToUri(Rule(uuid, name))
            == Url("zed", "", StoredPath(AsBytes("/agent/rule/") + AsBytes(uuid)), Some(Pair("name", name)), None)
  {
    NameIs(StoredPath(AsBytes(RULE) + AsBytes(uuid)), name);
  }
}
