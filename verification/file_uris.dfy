/** File URIs: the mention that each of them stands for, and when its path is the one that was written. */
module FileUris {
  import opened Options
  import opened Utf8Text
  import opened UrlPaths
  import opened Urls
  import opened Mentions

  /** A byte of a file path as a file URI writes it. */
  function FileByte(b: Byte): string {
    if PathKept(b) && b != '%' as int then [b as char] else Escape(b)
  }

  function FilePathText(path: Bytes): string {
    if path == [] then "" else FileByte(path[0]) + FilePathText(path[1..])
  }

  lemma FileByteDecodes(b: Byte, rest: string)
    ensures PercentDecode(FileByte(b) + rest) == [b] + PercentDecode(rest)
    ensures KeptText(FileByte(b))
  {
    EscapeDecodes(b, rest);
    EscapeIsKept(b);
    if PathKept(b) && b != '%' as int {
      assert (FileByte(b) + rest)[1..] == rest;
    }
  }

  lemma EscapeIsKept(b: Byte)
    ensures KeptText(Escape(b))
  {
    EscapeDecodes(b, "");
  }

  lemma {:induction false} FilePathDecodes(path: Bytes)
    ensures PercentDecode(FilePathText(path)) == path && KeptText(FilePathText(path))
  {
    if path != [] {
      FilePathDecodes(path[1..]);
      FileByteDecodes(path[0], FilePathText(path[1..]));
    }
  }

  function FileUrl(path: Bytes): Url {
    Url("file", "", FilePathText(path), None, None)
  }

  // ----- texts that encode a path

  /** The text writes each byte that it decodes to as a file URI does. */
  ghost predicate Encodes(s: string) {
    s == FilePathText(PercentDecode(s))
  }

  lemma TextEncodes(path: Bytes)
    ensures Encodes(FilePathText(path))
  {
    FilePathDecodes(path);
  }

  lemma {:induction false} FilePathTextConcat(a: Bytes, b: Bytes)
    ensures FilePathText(a + b) == FilePathText(a) + FilePathText(b)
  {
    if a == [] {
      assert a + b == b;
    } else {
      FilePathTextConcat(a[1..], b);
      assert (a + b)[1..] == a[1..] + b;
      FilePathTextStarts(a);
      FilePathTextStarts(a + b);
      Associates(FileByte(a[0]), FilePathText(a[1..]), FilePathText(b));
    }
  }

  lemma Associates(x: string, y: string, z: string)
    ensures x + (y + z) == (x + y) + z
  {
  }

  lemma EncodesConcat(s: string, t: string)
    requires Encodes(s) && Encodes(t)
    ensures Encodes(s + t)
  {
    FilePathTextConcat(PercentDecode(s), PercentDecode(t));
    TextEncodes(PercentDecode(s) + PercentDecode(t));
  }

  /** Nothing in the text is written differently. */
  ghost predicate Plain(s: string) {
    forall i | 0 <= i < |s| :: s[i] as int < 0x80 && PathKept(s[i] as int) && s[i] != '%'
  }

  lemma {:induction false} EncodesKept(s: string)
    requires Plain(s)
    ensures Encodes(s)
  {
    if s != "" {
      EncodesKept(s[1..]);
      assert FileByte(s[0] as int) == [s[0]];
      FileByteDecodes(s[0] as int, s[1..]);
      assert s == [s[0]] + s[1..];
    }
  }

  ghost predicate AllEncode(segments: seq<string>) {
    forall k | 0 <= k < |segments| :: Encodes(segments[k])
  }

  lemma {:induction false} SplitOnceAfter(a: string, s: string, c: char)
    requires Lacks(a, c)
    ensures SplitOnce(a + s, c) == (a + SplitOnce(s, c).0, SplitOnce(s, c).1)
  {
    if a == "" {
      assert a + s == s && a + SplitOnce(s, c).0 == SplitOnce(s, c).0;
    } else {
      LacksRest(a, c);
      SplitOnceAfter(a[1..], s, c);
      assert (a + s)[1..] == a[1..] + s && a == [a[0]] + a[1..];
      assert [a[0]] + (a[1..] + SplitOnce(s, c).0) == a + SplitOnce(s, c).0;
    }
  }

  lemma FileByteLacksSlash(b: Byte)
    requires b != '/' as int
    ensures Lacks(FileByte(b), '/')
  {
    LacksIff(FileByte(b), '/');
  }

  /** The parts of a text that encodes a path encode paths. */
  lemma {:induction false} SplitEncodes(path: Bytes)
    ensures var (first, rest) := SplitOnce(FilePathText(path), '/');
            Encodes(first) && (rest.Some? ==> Encodes(rest.value))
  {
    if path == [] {
      assert FilePathText(path) == "";
      TextEncodes([]);
    } else {
      var b, text := path[0], FilePathText(path[1..]);
      SplitEncodes(path[1..]);
      if b == '/' as int {
        assert (FileByte(b) + text)[1..] == text;
        TextEncodes(path[1..]);
        TextEncodes([]);
      } else {
        FileByteLacksSlash(b);
        SplitOnceAfter(FileByte(b), text, '/');
        FileByteEncodes(b);
        EncodesConcat(FileByte(b), SplitOnce(text, '/').0);
      }
    }
  }

  lemma FileByteEncodes(b: Byte)
    ensures Encodes(FileByte(b))
  {
    var path := [b];
    TextEncodes(path);
    FilePathTextStarts(path);
    assert path[1..] == [] && FileByte(b) + "" == FileByte(b);
  }

  lemma {:induction false} SegmentsEncode(text: string)
    requires Encodes(text)
    ensures AllEncode(Segments(text))
    decreases |text|
  {
    var (first, rest) := SplitOnce(text, '/');
    SplitEncodes(PercentDecode(text));
    if rest.Some? {
      SplitShorter(text, '/');
      SegmentsEncode(rest.value);
    }
  }

  lemma DriveEncodes(segment: string)
    requires IsBarredDrive(segment)
    ensures Encodes([segment[0], ':'])
  {
    EncodesKept([segment[0], ':']);
  }

  lemma NextEncodes(before: seq<string>, segments: seq<string>, drives: bool)
    requires segments != [] && AllEncode(before) && AllEncode(segments)
    ensures AllEncode(NextBefore(before, segments, drives))
  {
    var last := if |segments| == 1 then [""] else [];
    EmptyEncodes(last);
    if IsDoubleDot(segments[0]) {
      AllEncodeConcat(Up(before, drives), last);
    } else if IsDot(segments[0]) {
      AllEncodeConcat(before, last);
    } else {
      PushedEncodes(before, segments[0], drives);
    }
  }

  lemma EmptyEncodes(last: seq<string>)
    requires last == [""] || last == []
    ensures AllEncode(last)
  {
    TextEncodes([]);
  }

  lemma AllEncodeConcat(a: seq<string>, b: seq<string>)
    requires AllEncode(a) && AllEncode(b)
    ensures AllEncode(a + b)
  {
  }

  lemma PushedEncodes(before: seq<string>, segment: string, drives: bool)
    requires AllEncode(before) && Encodes(segment)
    ensures AllEncode(Pushed(before, segment, drives))
  {
    if IsBarredDrive(segment) {
      DriveEncodes(segment);
    }
  }

  lemma {:induction false} ResolveEncodes(before: seq<string>, segments: seq<string>, drives: bool)
    requires AllEncode(before) && AllEncode(segments)
    ensures AllEncode(Resolve(before, segments, drives))
    decreases |segments|
  {
    if segments != [] {
      NextEncodes(before, segments, drives);
      ResolveEncodes(NextBefore(before, segments, drives), segments[1..], drives);
    }
  }

  lemma {:induction false} JoinEncodes(segments: seq<string>)
    requires AllEncode(segments)
    ensures Encodes(JoinSegments(segments))
  {
    if segments == [] {
      TextEncodes([]);
    } else {
      JoinEncodes(segments[1..]);
      EncodesKept("/");
      EncodesConcat("/", segments[0]);
      EncodesConcat("/" + segments[0], JoinSegments(segments[1..]));
    }
  }

  lemma {:induction false} SlashedEncodes(path: Bytes)
    ensures Encodes(Slashed(true, FilePathText(path)))
  {
    if path == [] {
      TextEncodes([]);
      assert Slashed(true, "") == "";
    } else {
      var b, text := path[0], FilePathText(path[1..]);
      SlashedEncodes(path[1..]);
      SlashedByteEncodes(b);
      SlashedConcat(FileByte(b), text);
      EncodesConcat(Slashed(true, FileByte(b)), Slashed(true, text));
    }
  }

  lemma SlashedConcat(s: string, t: string)
    ensures Slashed(true, s + t) == Slashed(true, s) + Slashed(true, t)
  {
  }

  lemma SlashedByteEncodes(b: Byte)
    ensures Encodes(Slashed(true, FileByte(b)))
  {
    FileByteEncodes(b);
    EncodesKept("/");
    if b == '\\' as int {
      assert Slashed(true, FileByte(b)) == "/";
    } else {
      assert Slashed(true, FileByte(b)) == FileByte(b);
    }
  }

  // ----- the path that is read

  /** The text of the path as it is read. */
  function PathRead(path: Bytes): string
    requires path != []
  {
    FilePathTextStarts(path);
    ParsedPath("file", FilePathText(path))
  }

  lemma FilePathTextStarts(path: Bytes)
    requires path != []
    ensures FilePathText(path) != "" && FilePathText(path) == FileByte(path[0]) + FilePathText(path[1..])
  {
  }

  lemma FileTextStarts(path: Bytes) returns (rest: string)
    requires path != [] && path[0] == '/' as int
    ensures rest == FilePathText(path[1..]) && FilePathText(path) == ['/'] + rest && FilePathText(path)[1..] == rest
    ensures KeptText(FilePathText(path)) && KeptText(rest)
  {
    rest := FilePathText(path[1..]);
    FilePathDecodes(path);
    FilePathDecodes(path[1..]);
  }

  /** What is read encodes a path. */
  lemma PathReadEncodes(path: Bytes)
    requires path != [] && path[0] == '/' as int
    ensures Encodes(PathRead(path))
  {
    var rest := FileTextStarts(path);
    var text := SlashedText(rest, path[1..]);
    SegmentsEncode(text);
    ResolveEncodes([], Segments(text), true);
    JoinEncodes(Resolve([], Segments(text), true));
  }

  lemma SlashedText(rest: string, path: Bytes) returns (text: string)
    requires rest == FilePathText(path) && KeptText(rest)
    ensures text == Slashed(IsSpecial("file"), rest) && Encodes(text) && text == PathEncode(AsBytes(text))
  {
    text := Slashed(true, rest);
    SlashedEncodes(path);
    SlashedKept(true, rest);
    PathEncodeText(text);
  }

  // ----- a slash at the end

  ghost predicate EndsWithSlash(s: string) {
    s != "" && s[|s| - 1] == '/'
  }

  lemma {:induction false} LastSegment(text: string)
    requires text == "" || EndsWithSlash(text)
    ensures var segments := Segments(text); segments != [] && segments[|segments| - 1] == ""
    decreases |text|
  {
    var (first, rest) := SplitOnce(text, '/');
    SplitJoins(text, '/');
    FirstHasNoSlash(text);
    assert text != "" ==> text[|text| - 1] in text;
    if rest.Some? {
      SplitShorter(text, '/');
      assert text[|first| + 1..] == rest.value;
      LastSegment(rest.value);
    }
  }

  lemma {:induction false} LastResolved(before: seq<string>, segments: seq<string>, drives: bool)
    requires segments != [] && segments[|segments| - 1] == ""
    ensures var r := Resolve(before, segments, drives); r != [] && r[|r| - 1] == ""
    decreases |segments|
  {
    if |segments| > 1 {
      LastResolved(NextBefore(before, segments, drives), segments[1..], drives);
    }
  }

  lemma JoinLast(segments: seq<string>)
    requires segments != [] && segments[|segments| - 1] == ""
    ensures EndsWithSlash(JoinSegments(segments))
  {
    var n := |segments| - 1;
    JoinConcat(segments[..n], [""]);
    assert segments == segments[..n] + [""];
    assert JoinSegments([""]) == "/" + "" + JoinSegments([]);
  }

  lemma SlashKept(text: string)
    requires text == "" || EndsWithSlash(text)
    ensures EndsWithSlash(JoinSegments(Resolve([], Segments(text), true)))
  {
    LastSegment(text);
    LastResolved([], Segments(text), true);
    JoinLast(Resolve([], Segments(text), true));
  }

  lemma SlashStays(path: Bytes)
    requires path != [] && path[0] == '/' as int && EndsWithSlash(FilePathText(path))
    ensures EndsWithSlash(PathRead(path))
  {
    var rest := FileTextStarts(path);
    var text := SlashedText(rest, path[1..]);
    assert rest == "" || (EndsWithSlash(rest) && EndsWithSlash(text));
    SlashKept(text);
  }

  lemma {:induction false} LastOfFilePath(path: Bytes)
    requires path != []
    ensures EndsWithSlash(FilePathText(path)) <==> path[|path| - 1] == '/' as int
  {
    if |path| > 1 {
      LastOfFilePath(path[1..]);
      FilePathTextStarts(path[1..]);
    } else {
      assert FilePathText(path) == FileByte(path[0]);
      EscapeDecodes(path[0], "");
    }
  }

  /** The URI of the path is read as that path, byte for byte: it has no backslash, no dot segment, no drive letter with a
      bar at its beginning, and no drive letter at its end. Paths that are compared part by part may be equal without it:
      single dots and a slash at the end do not count then. */
  ghost predicate ReadAsWritten(path: Bytes)
    requires path != []
  {
    FilePathTextStarts(path);
    Unread("file", FilePathText(path)) && !EndsInDrive(path)
  }

  lemma PathReadIff(path: Bytes)
    requires path != [] && path[0] == '/' as int
    ensures FilePathOf(PathRead(path)) == path <==> ReadAsWritten(path)
  {
    var text, read := FilePathText(path), PathRead(path);
    var rest := FileTextStarts(path);
    FilePathDecodes(path);
    ParsedUnchangedIff("file", text);
    PathReadEncodes(path);
    var decoded := PercentDecode(read);
    if decoded + ['/' as int] == path {
      DriveIsNoSlash(path, decoded, read);
    }
  }

  /** A slash that is put behind a drive letter was not there. */
  lemma DriveIsNoSlash(path: Bytes, decoded: Bytes, read: string)
    requires path != [] && path[0] == '/' as int && read == PathRead(path) && Encodes(read) && decoded == PercentDecode(read)
    requires decoded + ['/' as int] == path
    ensures !EndsInDrive(decoded)
  {
    LastOfFilePath(path);
    SlashStays(path);
    if decoded != [] {
      LastOfFilePath(decoded);
    }
  }

  // ----- the mentions that are read

  lemma FileUrlSplits(path: Bytes)
    requires path != [] && path[0] == '/' as int
    ensures FileUrl(path).Splits()
  {
    var rest := FileTextStarts(path);
    KeptIsPath(FilePathText(path));
    SchemeLacks(':');
    SchemeLacks('?');
    SchemeLacks('#');
    LacksIff("", '/');
    LacksIff("", '?');
    LacksIff("", '#');
  }

  lemma SchemeLacks(c: char)
    requires c in [':', '?', '#']
    ensures Lacks("file", c)
  {
    LacksIff("file", c);
  }

  /** Reading a file URL: its path is resolved, and a slash at the end of the text makes a directory. */
  lemma FileTextParses(url: Url, text: string) returns (read: Url)
    requires url.Splits() && url.scheme == "file" && text == Written(url)
    ensures read == url.(path := ParsedPath("file", url.path))
    ensures ParseText(text) == ParseFile(read, text != "" && text[|text| - 1] == '/')
  {
    ReadResolves(url);
    read := url.(path := ParsedPath("file", url.path));
  }

  /** A file URI is a directory if it ends with a slash and a file otherwise, with the path that is read from it: the one
      that was written if and only if that is read as it is written. */
  lemma FileUriParses(path: Bytes)
    requires path != [] && path[0] == '/' as int
    ensures var read := FilePathOf(PathRead(path));
            && ParseText(Written(FileUrl(path))) == Some(if path[|path| - 1] == '/' as int then Directory(read) else File(read))
            && (read == path <==> ReadAsWritten(path))
  {
    FileUrlSplits(path);
    PathReadIff(path);
    LastOfFilePath(path);
    var text := FileText(path);
    var url := FileTextParses(FileUrl(path), text);
  }

  lemma {:induction false} PlainDecodes(s: string)
    requires Plain(s)
    ensures PercentDecode(s) == AsBytes(s)
  {
    if s != "" {
      PlainDecodes(s[1..]);
      assert AsBytes(s) == [CharByte(s[0])] + AsBytes(s[1..]);
    }
  }

  /** A plain path is read by resolving its segments. */
  lemma PlainPathRead(text: string, segments: seq<string>, read: string) returns (path: Bytes)
    requires Plain(text) && text != "" && text[0] == '/' && Slashed(true, text) == JoinSegments(segments)
    requires segments != [] && forall k | 0 <= k < |segments| :: '/' !in segments[k]
    requires JoinSegments(Resolve([], segments, true)) == read && Plain(read)
    ensures path == AsBytes(text) && path != []
    ensures FilePathOf(PathRead(path)) == if EndsInDrive(AsBytes(read)) then AsBytes(read) + ['/' as int] else AsBytes(read)
  {
    path := AsBytes(text);
    EncodesKept(text);
    PlainDecodes(text);
    PlainDecodes(read);
    assert KeptText(text[1..]);
    assert Slashed(true, text)[1..] == Slashed(true, text[1..]);
    SegmentsJoin(segments);
    SlashedKept(true, text[1..]);
    PathEncodeText(Slashed(true, text[1..]));
  }

  /** Dot segments are resolved: /a/../b is read as /b. */
  lemma DotsAreResolved() returns (path: Bytes)
    ensures path == AsBytes("/a/../b") && FilePathOf(PathRead(path)) == AsBytes("/b")
  {
    var segments := ["a", "..", "b"];
    assert JoinSegments(segments) == "/a/../b";
    assert Resolve([], segments, true) == ["b"] && JoinSegments(["b"]) == "/b" + JoinSegments([]);
    DotsArePlain();
    path := PlainPathRead("/a/../b", segments, "/b");
  }

  lemma DotsArePlain()
    ensures Plain("/a/../b") && Plain("/b")
  {
  }

  /** Backslashes become slashes: /a\b is read as /a/b. */
  lemma BackslashesAreSlashes() returns (path: Bytes)
    ensures path == AsBytes("/a\\b") && FilePathOf(PathRead(path)) == AsBytes("/a/b")
  {
    var segments := ["a", "b"];
    assert JoinSegments(segments) == "/a/b";
    assert Resolve([], segments, true) == segments;
    BackslashIsPlain();
    path := PlainPathRead("/a\\b", segments, "/a/b");
  }

  lemma BackslashIsPlain()
    ensures Plain("/a\\b") && Plain("/a/b") && Slashed(true, "/a\\b") == "/a/b"
  {
  }

  /** A drive letter is written with a colon at the beginning, and gets a slash at the end: /c| is read as /c:/. */
  lemma DrivesAreRewritten() returns (path: Bytes)
    ensures path == AsBytes("/c|") && FilePathOf(PathRead(path)) == AsBytes("/c:") + ['/' as int]
  {
    var segments := ["c|"];
    assert JoinSegments(segments) == "/c|" + JoinSegments([]);
    assert Resolve([], segments, true) == ["c:"] && JoinSegments(["c:"]) == "/c:" + JoinSegments([]);
    path := PlainPathRead("/c|", segments, "/c:");
  }

  lemma FileText(path: Bytes) returns (text: string)
    requires path != []
    ensures text == Written(FileUrl(path)) && (EndsWithSlash(text) <==> EndsWithSlash(FilePathText(path)))
  {
    FilePathTextStarts(path);
    text := Written(FileUrl(path));
    assert text[|text| - 1] == FilePathText(path)[|FilePathText(path)| - 1];
  }

  /** With lines it is a selection, if both lines can be printed, and no mention otherwise. */
  lemma FileSelectionParses(path: Bytes, lines: LineRange)
    requires path != [] && path[0] == '/' as int
    ensures var read := FilePathOf(PathRead(path));
            && ParseText(Written(WithLines(FileUrl(path), lines)))
               == (if Printable(lines) then Some(Selection(Some(read), lines)) else None)
            && (read == path <==> ReadAsWritten(path))
  {
    var url := WithLines(FileUrl(path), lines);
    FileUrlSplits(path);
    PathReadIff(path);
    LineRangeRoundTrip(lines);
    var read := FileTextParses(url, Written(url));
    NoPairs(read);
  }

  lemma NoPairs(url: Url)
    requires url.query.None?
    ensures SingleQueryParam(url, "symbol") == Absent
  {
    assert SplitPairs("") == [""];
    assert DecodePairs([""]) == [] + DecodePairs([""][1..]);
  }

  /** With lines and a symbol it is that symbol. */
  lemma FileSymbolParses(path: Bytes, name: Bytes, lines: LineRange)
    requires path != [] && path[0] == '/' as int && Utf8(name)
    ensures var read := FilePathOf(PathRead(path));
            && ParseText(Written(WithLines(WithSymbol(FileUrl(path), name), lines)))
               == (if Printable(lines) then Some(Symbol(read, name, lines)) else None)
            && (read == path <==> ReadAsWritten(path))
  {
    FileUrlSplits(path);
    PathReadIff(path);
    var paired := SymbolParam(FileUrl(path), name);
    var url := WithLines(paired, lines);
    var text := Written(url);
    var read := FileTextParses(url, text);
    SameParam(read, paired, "symbol");
    SymbolParses(read, text != "" && text[|text| - 1] == '/', name, lines);
  }

  lemma SymbolParses(url: Url, endsWithSlash: bool, name: Bytes, lines: LineRange)
    requires url.host == "" && url.fragment == Some(LineText(lines)) && SingleQueryParam(url, "symbol") == Value(name)
    ensures ParseFile(url, endsWithSlash) == if Printable(lines) then Some(Symbol(FilePathOf(url.path), name, lines)) else None
  {
    LineRangeRoundTrip(lines);
  }

  function WithSymbol(url: Url, name: Bytes): Url {
    url.AppendPair(AsBytes("symbol"), name)
  }

  lemma SymbolParam(url: Url, name: Bytes) returns (paired: Url)
    requires url.Splits() && url.query.None? && Utf8(name)
    ensures paired == WithSymbol(url, name) && paired.Splits() && SingleQueryParam(paired, "symbol") == Value(name)
  {
    AsciiIsText(AsBytes("symbol"));
    PairParam(url, "symbol", name);
    AppendedPairReads(url, AsBytes("symbol"), name);
    paired := WithSymbol(url, name);
  }
}
