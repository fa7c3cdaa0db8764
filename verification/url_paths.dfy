/** Texts of URLs and their paths: percent-encoding (section 2.1 of RFC 3986), splitting, and how a path is encoded and
    its dot segments resolved (section 4.4 of the WHATWG URL Standard). */
module UrlPaths {
  import opened Options
  import opened Utf8Text

  type Bytes = seq<Byte>

  // ----- bytes and characters

  /** The byte of a character of a URL. URLs are ASCII; nothing else is told apart. */
  function CharByte(c: char): Byte {
    if c as int < 0x80 then c as int else 0x3F
  }

  function AsBytes(s: string): (r: Bytes)
    ensures |r| == |s|
  {
    seq(|s|, i requires 0 <= i < |s| => CharByte(s[i]))
  }

  function HexDigit(n: int): char
    requires 0 <= n < 16
  {
    if n < 10 then '0' + n as char else 'A' + (n - 10) as char
  }

  /** The value of a hexadecimal digit, or -1. */
  function HexValue(c: char): (v: int)
    ensures -1 <= v < 16
  {
    if '0' <= c <= '9' then c as int - '0' as int
    else if 'A' <= c <= 'F' then c as int - 'A' as int + 10
    else if 'a' <= c <= 'f' then c as int - 'a' as int + 10
    else -1
  }

  function Escape(b: Byte): string {
    ['%', HexDigit(b / 16), HexDigit(b % 16)]
  }

  function PercentDecode(s: string): Bytes {
    if s == "" then []
    else if s[0] == '%' && |s| >= 3 && HexValue(s[1]) >= 0 && HexValue(s[2]) >= 0
    then [16 * HexValue(s[1]) + HexValue(s[2])] + PercentDecode(s[3..])
    else [CharByte(s[0])] + PercentDecode(s[1..])
  }

  lemma EscapeDecodes(b: Byte, rest: string)
    ensures PercentDecode(Escape(b) + rest) == [b] + PercentDecode(rest)
  {
    var s := Escape(b) + rest;
    assert s[3..] == rest;
    assert s[0] == '%' && s[1] == HexDigit(b / 16) && s[2] == HexDigit(b % 16);
  }

  // ----- splitting

  /** Where the character occurs in the text. */
  ghost function Occurrences(s: string, c: char): set<int> {
    set k | 0 <= k < |s| && s[k] == c
  }

  ghost predicate Lacks(s: string, c: char) {
    Occurrences(s, c) == {}
  }

  lemma LacksIff(s: string, c: char)
    ensures Lacks(s, c) <==> c !in s
  {
    if c in s {
      var k :| 0 <= k < |s| && s[k] == c;
      assert k in Occurrences(s, c);
    }
  }

  lemma LacksRest(s: string, c: char)
    requires s != ""
    ensures Lacks(s, c) <==> s[0] != c && Lacks(s[1..], c)
  {
    LacksIff(s, c);
    LacksIff(s[1..], c);
    assert s == [s[0]] + s[1..];
  }

  lemma LacksConcat(s: string, t: string, c: char)
    ensures Lacks(s + t, c) <==> Lacks(s, c) && Lacks(t, c)
  {
    LacksIff(s, c);
    LacksIff(t, c);
    LacksIff(s + t, c);
  }

  /** The text before the first occurrence of the character, and the text after it if there is one. */
  function SplitOnce(s: string, c: char): (string, Option<string>) {
    if s == "" then ("", None)
    else if s[0] == c then ("", Some(s[1..]))
    else
      var (before, after) := SplitOnce(s[1..], c);
      ([s[0]] + before, after)
  }

  lemma {:induction false} SplitOnceAt(a: string, c: char, b: string)
    requires Lacks(a, c)
    ensures SplitOnce(a + [c] + b, c) == (a, Some(b))
  {
    var s := a + [c] + b;
    if a != "" {
      LacksRest(a, c);
      assert s[1..] == a[1..] + [c] + b && a == [a[0]] + a[1..];
      SplitOnceAt(a[1..], c, b);
    } else {
      assert s[1..] == b;
    }
  }

  lemma {:induction false} SplitOnceNone(a: string, c: char)
    requires Lacks(a, c)
    ensures SplitOnce(a, c) == (a, None)
  {
    if a != "" {
      LacksRest(a, c);
      assert a == [a[0]] + a[1..];
      SplitOnceNone(a[1..], c);
    }
  }

  lemma {:induction false} SplitShorter(s: string, c: char)
    ensures SplitOnce(s, c).1.Some? ==> |SplitOnce(s, c).1.value| < |s|
  {
    if s != "" && s[0] != c {
      SplitShorter(s[1..], c);
    }
  }

  // ----- paths

  predicate PathKept(b: Byte) {
    && 0x21 <= b <= 0x7E && b != '"' as int && b != '#' as int && b != '<' as int && b != '>' as int && b != '?' as int
    && b != '^' as int && b != '`' as int && b != '{' as int && b != '}' as int
  }

  predicate IsTabOrNewline(b: Byte) {
    b == 0x09 || b == 0x0A || b == 0x0D
  }

  function PathByte(b: Byte): string {
    if PathKept(b) then [b as char] else if IsTabOrNewline(b) then "" else Escape(b)
  }

  function PathEncode(bytes: Bytes): string {
    if bytes == [] then "" else PathByte(bytes[0]) + PathEncode(bytes[1..])
  }

  predicate PathSafe(bytes: Bytes) {
    forall i | 0 <= i < |bytes| :: PathKept(bytes[i])
  }

  lemma {:induction false} PathEncodeKept(bytes: Bytes)
    ensures forall i | 0 <= i < |PathEncode(bytes)| :: PathEncode(bytes)[i] as int < 0x80 && PathKept(PathEncode(bytes)[i] as int)
  {
    if bytes != [] {
      PathEncodeKept(bytes[1..]);
      EscapeDecodes(bytes[0], "");
    }
  }

  lemma {:induction false} PathEncodeSafe(bytes: Bytes)
    requires PathSafe(bytes)
    ensures AsBytes(PathEncode(bytes)) == bytes
  {
    if bytes != [] {
      PathEncodeSafe(bytes[1..]);
      var rest := PathEncode(bytes[1..]);
      assert AsBytes([bytes[0] as char] + rest) == [bytes[0]] + AsBytes(rest);
    }
  }

  /** Bytes come through path-encoding unchanged exactly if none needs it. */
  lemma PathEncodeKeepsIff(bytes: Bytes)
    ensures AsBytes(PathEncode(bytes)) == bytes <==> PathSafe(bytes)
  {
    PathEncodeKept(bytes);
    if PathSafe(bytes) {
      PathEncodeSafe(bytes);
    }
  }

  // ----- dot segments

  /** The segments of a path that starts with a slash. */
  function Segments(path: string): seq<string>
    decreases |path|
  {
    var (first, rest) := SplitOnce(path, '/');
    if rest.None? then [first]
    else
      SplitShorter(path, '/');
      [first] + Segments(rest.value)
  }

  function JoinSegments(segments: seq<string>): string {
    if segments == [] then "" else "/" + segments[0] + JoinSegments(segments[1..])
  }

  /** A dot, escaped. */
  predicate IsEscapedDot(s: string) {
    |s| == 3 && s[0] == '%' && s[1] == '2' && (s[2] == 'e' || s[2] == 'E')
  }

  predicate IsDot(segment: string) {
    (|segment| == 1 && segment[0] == '.') || IsEscapedDot(segment)
  }

  /** Two dots, each of them escaped or not. */
  predicate IsDoubleDot(segment: string) {
    || (|segment| > 1 && segment[0] == '.' && IsDot(segment[1..]))
    || (|segment| > 3 && IsEscapedDot(segment[..3]) && IsDot(segment[3..]))
  }

  predicate IsLetter(c: char) {
    'A' <= c <= 'Z' || 'a' <= c <= 'z'
  }

  /** A drive letter, written with a bar. */
  predicate IsBarredDrive(segment: string) {
    |segment| == 2 && IsLetter(segment[0]) && segment[1] == '|'
  }

  predicate IsDrive(segment: string) {
    |segment| == 2 && IsLetter(segment[0]) && segment[1] == ':'
  }

  /** Going up; a drive letter that stands alone stays. */
  function Up(before: seq<string>, drives: bool): seq<string> {
    if before == [] || (drives && |before| == 1 && IsDrive(before[0])) then before else before[..|before| - 1]
  }

  /** Adding a segment; a drive letter that comes first is written with a colon. */
  function Pushed(before: seq<string>, segment: string, drives: bool): seq<string> {
    before + [if drives && before == [] && IsBarredDrive(segment) then [segment[0], ':'] else segment]
  }

  function NextBefore(before: seq<string>, segments: seq<string>, drives: bool): seq<string>
    requires segments != []
  {
    var last := if |segments| == 1 then [""] else [];
    if IsDoubleDot(segments[0]) then Up(before, drives) + last
    else if IsDot(segments[0]) then before + last
    else Pushed(before, segments[0], drives)
  }

  /** Resolves the remaining segments against those before: a dot stays where it is, two dots go up. Only file URLs have
      drive letters. */
  function Resolve(before: seq<string>, segments: seq<string>, drives: bool): seq<string>
    decreases |segments|
  {
    if segments == [] then before else Resolve(NextBefore(before, segments, drives), segments[1..], drives)
  }

  /** The path as a URL without drive letters stores it. */
  function StoredPath(path: Bytes): string
    requires path != [] && path[0] == '/' as int
  {
    JoinSegments(Resolve([], Segments(PathEncode(path[1..])), false))
  }

  /** The schemes whose URLs take a backslash for a slash. */
  predicate IsSpecial(scheme: string) {
    scheme in ["file", "http", "https", "ws", "wss", "ftp"]
  }

  function Slashed(special: bool, s: string): (r: string)
    ensures |r| == |s|
  {
    seq(|s|, i requires 0 <= i < |s| => if special && s[i] == '\\' then '/' else s[i])
  }

  /** The path that is read from a text: with slashes, encoded and resolved. */
  function ParsedPath(scheme: string, path: string): string
    requires path != ""
  {
    JoinSegments(Resolve([], Segments(PathEncode(AsBytes(Slashed(IsSpecial(scheme), path[1..])))), scheme == "file"))
  }

  ghost predicate DotFree(segments: seq<string>) {
    forall k | 0 <= k < |segments| :: !IsDot(segments[k]) && !IsDoubleDot(segments[k])
  }

  function TotalLength(segments: seq<string>): nat {
    if segments == [] then 0 else TotalLength(segments[..|segments| - 1]) + 1 + |segments[|segments| - 1]|
  }

  lemma {:induction false} JoinConcat(a: seq<string>, b: seq<string>)
    ensures JoinSegments(a + b) == JoinSegments(a) + JoinSegments(b)
  {
    if a == [] {
      assert a + b == b;
    } else {
      JoinConcat(a[1..], b);
      assert (a + b)[1..] == a[1..] + b;
    }
  }

  lemma {:induction false} JoinLength(segments: seq<string>)
    ensures |JoinSegments(segments)| == TotalLength(segments)
  {
    if segments != [] {
      var n := |segments| - 1;
      JoinLength(segments[..n]);
      JoinConcat(segments[..n], [segments[n]]);
      assert segments == segments[..n] + [segments[n]];
      assert JoinSegments([segments[n]]) == "/" + segments[n] + JoinSegments([]);
    }
  }

  lemma {:induction false} JoinSplit(path: string)
    ensures JoinSegments(Segments(path)) == "/" + path
    decreases |path|
  {
    var (first, rest) := SplitOnce(path, '/');
    SplitJoins(path, '/');
    if rest.Some? {
      SplitShorter(path, '/');
      JoinSplit(rest.value);
      assert Segments(path)[1..] == Segments(rest.value);
      assert "/" + first + ("/" + rest.value) == "/" + (first + ['/'] + rest.value);
    } else {
      assert Segments(path)[1..] == [];
      assert "/" + first + "" == "/" + first;
    }
  }

  lemma {:induction false} SplitJoins(s: string, c: char)
    ensures var (before, after) := SplitOnce(s, c);
            s == if after.Some? then before + [c] + after.value else before
  {
    if s != "" && s[0] != c {
      SplitJoins(s[1..], c);
    }
  }

  lemma TotalLengthSnoc(segments: seq<string>, segment: string)
    ensures TotalLength(segments + [segment]) == TotalLength(segments) + 1 + |segment|
  {
    assert (segments + [segment])[..|segments|] == segments;
  }

  lemma {:induction false} TotalLengthFirst(segments: seq<string>)
    requires segments != []
    ensures TotalLength(segments) == TotalLength(segments[1..]) + 1 + |segments[0]|
  {
    var n := |segments| - 1;
    if n > 0 {
      TotalLengthFirst(segments[..n]);
      assert segments[..n][1..] == segments[1..][..n - 1];
    }
  }

  /** There is nothing to resolve. */
  ghost predicate Straight(before: seq<string>, segments: seq<string>, drives: bool) {
    DotFree(segments) && !(drives && before == [] && segments != [] && IsBarredDrive(segments[0]))
  }

  /** Resolving keeps straight segments as they are. */
  lemma {:induction false} ResolveStraight(before: seq<string>, segments: seq<string>, drives: bool)
    requires Straight(before, segments, drives)
    ensures Resolve(before, segments, drives) == before + segments
    decreases |segments|
  {
    if segments == [] {
      assert before + segments == before;
    } else {
      ResolveStraight(before + [segments[0]], segments[1..], drives);
      assert before + [segments[0]] + segments[1..] == before + segments;
    }
  }

  /** Resolving lengthens no segments. */
  lemma {:induction false} ResolveNotLonger(before: seq<string>, segments: seq<string>, drives: bool)
    ensures TotalLength(Resolve(before, segments, drives)) <= TotalLength(before) + TotalLength(segments)
    decreases |segments|
  {
    if segments != [] {
      TotalLengthFirst(segments);
      ResolveOne(before, segments, drives);
      ResolveNotLonger(NextBefore(before, segments, drives), segments[1..], drives);
    }
  }

  /** Resolving shortens segments with dots. */
  lemma {:induction false} ResolveShortens(before: seq<string>, segments: seq<string>, drives: bool)
    requires !DotFree(segments)
    ensures TotalLength(Resolve(before, segments, drives)) < TotalLength(before) + TotalLength(segments)
    decreases |segments|
  {
    TotalLengthFirst(segments);
    ResolveOne(before, segments, drives);
    var next, rest := NextBefore(before, segments, drives), segments[1..];
    if DotFree(rest) {
      ResolveNotLonger(next, rest, drives);
    } else {
      ResolveShortens(next, rest, drives);
    }
  }

  lemma UpShortens(before: seq<string>, drives: bool)
    ensures TotalLength(Up(before, drives)) <= TotalLength(before)
  {
  }

  lemma ResolveOne(before: seq<string>, segments: seq<string>, drives: bool)
    requires segments != []
    ensures TotalLength(NextBefore(before, segments, drives)) <= TotalLength(before) + 1 + |segments[0]|
    ensures IsDot(segments[0]) || IsDoubleDot(segments[0])
            ==> TotalLength(NextBefore(before, segments, drives)) < TotalLength(before) + 1 + |segments[0]|
    ensures !DotFree(segments) ==> IsDot(segments[0]) || IsDoubleDot(segments[0]) || !DotFree(segments[1..])
  {
    var last := if |segments| == 1 then [""] else [];
    UpShortens(before, drives);
    LastAdds(before, last);
    LastAdds(Up(before, drives), last);
    PushedLength(before, segments[0], drives);
  }

  lemma LastAdds(before: seq<string>, last: seq<string>)
    requires last == [""] || last == []
    ensures TotalLength(before + last) <= TotalLength(before) + 1
  {
    if last == [] {
      assert before + last == before;
    } else {
      TotalLengthSnoc(before, last[0]);
    }
  }

  lemma PushedLength(before: seq<string>, segment: string, drives: bool)
    ensures TotalLength(Pushed(before, segment, drives)) == TotalLength(before) + 1 + |segment|
  {
    var last := Pushed(before, segment, drives)[|before|];
    TotalLengthSnoc(before, last);
  }

  /** A drive letter with a bar does not stay. */
  lemma BarChanges(segments: seq<string>)
    requires DotFree(segments) && segments != [] && IsBarredDrive(segments[0])
    ensures Resolve([], segments, true) == [[segments[0][0], ':']] + segments[1..]
  {
    var first := [[segments[0][0], ':']];
    ResolveStraight(first, segments[1..], true);
    assert NextBefore([], segments, true) == first;
  }

  /** A path is stored unchanged exactly if no byte needs encoding and no segment is a dot or two dots. */
  lemma StoredUnchangedIff(path: Bytes)
    requires path != [] && path[0] == '/' as int
    ensures AsBytes(StoredPath(path)) == path
            <==> PathSafe(path[1..]) && DotFree(Segments(PathEncode(path[1..])))
  {
    var encoded := PathEncode(path[1..]);
    var segments := Segments(encoded);
    JoinSplit(encoded);
    JoinLength(segments);
    JoinLength(Resolve([], segments, false));
    PathEncodeKeepsIff(path[1..]);
    assert path == [path[0]] + path[1..];
    assert AsBytes("/" + encoded) == ['/' as int] + AsBytes(encoded);
    if DotFree(segments) {
      ResolveStraight([], segments, false);
      assert [] + segments == segments;
    } else if PathSafe(path[1..]) {
      ResolveShortens([], segments, false);
      assert |StoredPath(path)| < |path|;
    } else {
      StoredKept(path);
    }
  }

  /** What is stored consists of characters that need no encoding. */
  lemma StoredKept(path: Bytes)
    requires path != [] && path[0] == '/' as int
    ensures KeptText(StoredPath(path))
  {
    var encoded := PathEncode(path[1..]);
    PathEncodeKept(path[1..]);
    SegmentsKept(encoded, '?');
    ResolveKept([], Segments(encoded), false, '?');
    JoinKept(Resolve([], Segments(encoded), false), '?');
  }

  ghost predicate KeptText(s: string) {
    forall i | 0 <= i < |s| :: s[i] as int < 0x80 && PathKept(s[i] as int)
  }

  /** The text needs no encoding, and lacks the character. */
  ghost predicate KeptBut(s: string, c: char) {
    forall i | 0 <= i < |s| :: s[i] as int < 0x80 && PathKept(s[i] as int) && s[i] != c
  }

  ghost predicate AllKeptBut(segments: seq<string>, c: char) {
    forall k | 0 <= k < |segments| :: KeptBut(segments[k], c)
  }

  lemma {:induction false} SegmentsKept(path: string, c: char)
    requires KeptBut(path, c)
    ensures AllKeptBut(Segments(path), c)
    decreases |path|
  {
    var (first, rest) := SplitOnce(path, '/');
    SplitJoins(path, '/');
    if rest.Some? {
      SplitShorter(path, '/');
      assert first == path[..|first|] && rest.value == path[|first| + 1..];
      SegmentsKept(rest.value, c);
    }
  }

  lemma {:induction false} ResolveKept(before: seq<string>, segments: seq<string>, drives: bool, c: char)
    requires AllKeptBut(before, c) && AllKeptBut(segments, c) && c != ':'
    ensures AllKeptBut(Resolve(before, segments, drives), c)
    decreases |segments|
  {
    if segments != [] {
      ResolveKept(NextBefore(before, segments, drives), segments[1..], drives, c);
    }
  }

  lemma {:induction false} JoinKept(segments: seq<string>, c: char)
    requires AllKeptBut(segments, c) && c != '/'
    ensures KeptBut(JoinSegments(segments), c)
  {
    if segments != [] {
      JoinKept(segments[1..], c);
    }
  }

  lemma {:induction false} ResolveNotEmpty(before: seq<string>, segments: seq<string>, drives: bool)
    requires segments != []
    ensures Resolve(before, segments, drives) != []
    decreases |segments|
  {
    if |segments| > 1 {
      ResolveNotEmpty(NextBefore(before, segments, drives), segments[1..], drives);
    }
  }

  lemma StoredStarts(path: Bytes)
    requires path != [] && path[0] == '/' as int
    ensures StoredPath(path) != "" && StoredPath(path)[0] == '/'
  {
    ResolveNotEmpty([], Segments(PathEncode(path[1..])), false);
  }

  /** Where nothing needs encoding, storing a path does not lengthen it. */
  lemma StoredNotLonger(path: Bytes)
    requires path != [] && path[0] == '/' as int && PathSafe(path[1..])
    ensures |StoredPath(path)| <= |path|
  {
    var encoded := PathEncode(path[1..]);
    PathEncodeSafe(path[1..]);
    ResolveNotLonger([], Segments(encoded), false);
    JoinSplit(encoded);
    JoinLength(Segments(encoded));
    JoinLength(Resolve([], Segments(encoded), false));
    assert |encoded| == |path[1..]|;
  }

  /** Without dots and percent signs there are no dot segments. */
  lemma {:induction false} NoDotsIsDotFree(path: string)
    requires '.' !in path && '%' !in path
    ensures DotFree(Segments(path))
    decreases |path|
  {
    var (first, rest) := SplitOnce(path, '/');
    SplitJoins(path, '/');
    assert '.' !in first && '%' !in first;
    NoDotsNoDot(first);
    if rest.Some? {
      SplitShorter(path, '/');
      assert '.' !in rest.value && '%' !in rest.value;
      NoDotsIsDotFree(rest.value);
    }
  }

  lemma NoDotsNoDot(segment: string)
    requires '.' !in segment && '%' !in segment
    ensures !IsDot(segment) && !IsDoubleDot(segment)
  {
  }

  // ----- paths that are read

  lemma {:induction false} PathEncodeText(s: string)
    requires KeptText(s)
    ensures PathEncode(AsBytes(s)) == s
  {
    if s != "" {
      assert AsBytes(s)[1..] == AsBytes(s[1..]);
      PathEncodeText(s[1..]);
      assert AsBytes(s)[0] as char == s[0];
    }
  }

  lemma NoBackslash(special: bool, s: string)
    requires special ==> '\\' !in s
    ensures Slashed(special, s) == s
  {
  }

  lemma SlashedKept(special: bool, s: string)
    requires KeptText(s)
    ensures KeptText(Slashed(special, s)) && (special ==> KeptBut(Slashed(special, s), '\\'))
  {
  }

  /** A path is read unchanged. */
  ghost predicate Unread(scheme: string, path: string)
    requires path != ""
  {
    && (IsSpecial(scheme) ==> '\\' !in path)
    && Straight([], Segments(path[1..]), scheme == "file")
  }

  /** What needs no encoding is read as it is written if and only if there is no backslash that counts as a slash, no dot
      segment, and no drive letter with a bar. */
  lemma ParsedUnchangedIff(scheme: string, path: string)
    requires path != "" && path[0] == '/' && KeptText(path)
    ensures ParsedPath(scheme, path) == path <==> Unread(scheme, path)
  {
    var special, drives := IsSpecial(scheme), scheme == "file";
    var text := Slashed(special, path[1..]);
    SlashedKept(special, path[1..]);
    PathEncodeText(text);
    assert path == "/" + path[1..];
    if special && '\\' in path {
      var k :| 0 <= k < |path| && path[k] == '\\';
      SegmentsKept(text, '\\');
      ResolveKept([], Segments(text), drives, '\\');
      JoinKept(Resolve([], Segments(text), drives), '\\');
    } else {
      NoBackslash(special, path[1..]);
      StraightIff(path[1..], drives);
    }
  }

  lemma StraightIff(text: string, drives: bool)
    ensures JoinSegments(Resolve([], Segments(text), drives)) == "/" + text <==> Straight([], Segments(text), drives)
  {
    var segments := Segments(text);
    JoinSplit(text);
    JoinLength(segments);
    JoinLength(Resolve([], segments, drives));
    if Straight([], segments, drives) {
      ResolveStraight([], segments, drives);
      assert [] + segments == segments;
    } else if !DotFree(segments) {
      ResolveShortens([], segments, drives);
    } else {
      BarChanges(segments);
      SegmentsStart(text);
      assert JoinSegments([[segments[0][0], ':']] + segments[1..])[2] == ':';
    }
  }

  lemma SegmentsStart(text: string)
    ensures Segments(text) != [] && Segments(text)[0] <= text
  {
    SplitJoins(text, '/');
    if SplitOnce(text, '/').1.Some? {
      SplitShorter(text, '/');
    }
  }

  /** A stored path is read as it is written, unless its scheme is special. */
  lemma StoredIsRead(scheme: string, path: Bytes)
    requires path != [] && path[0] == '/' as int && !IsSpecial(scheme)
    ensures StoredPath(path) != "" && ParsedPath(scheme, StoredPath(path)) == StoredPath(path)
  {
    var encoded := PathEncode(path[1..]);
    StoredKept(path);
    StoredStarts(path);
    SegmentsHaveNoSlash(encoded);
    ResolveNotEmpty([], Segments(encoded), false);
    ResolveNoSlash([], Segments(encoded));
    SegmentsJoin(Resolve([], Segments(encoded), false));
    ParsedUnchangedIff(scheme, StoredPath(path));
  }

  /** Segments without slashes, and without dots. */
  ghost predicate Resolved(segments: seq<string>) {
    DotFree(segments) && forall k | 0 <= k < |segments| :: '/' !in segments[k]
  }

  lemma {:induction false} SegmentsHaveNoSlash(path: string)
    ensures forall k | 0 <= k < |Segments(path)| :: '/' !in Segments(path)[k]
    decreases |path|
  {
    FirstHasNoSlash(path);
    if SplitOnce(path, '/').1.Some? {
      SplitShorter(path, '/');
      SegmentsHaveNoSlash(SplitOnce(path, '/').1.value);
    }
  }

  lemma {:induction false} FirstHasNoSlash(s: string)
    ensures '/' !in SplitOnce(s, '/').0
  {
    if s != "" && s[0] != '/' {
      FirstHasNoSlash(s[1..]);
    }
  }

  lemma {:induction false} ResolveNoSlash(before: seq<string>, segments: seq<string>)
    requires Resolved(before) && forall k | 0 <= k < |segments| :: '/' !in segments[k]
    ensures Resolved(Resolve(before, segments, false))
    decreases |segments|
  {
    if segments != [] {
      ResolveNoSlash(NextBefore(before, segments, false), segments[1..]);
    }
  }

  /** Joined segments split into the same segments. */
  lemma {:induction false} SegmentsJoin(segments: seq<string>)
    requires segments != [] && forall k | 0 <= k < |segments| :: '/' !in segments[k]
    ensures JoinSegments(segments) != "" && Segments(JoinSegments(segments)[1..]) == segments
  {
    var text := JoinSegments(segments)[1..];
    LacksIff(segments[0], '/');
    if |segments| == 1 {
      assert JoinSegments(segments) == "/" + segments[0] + "";
      assert text == segments[0];
      SplitOnceNone(segments[0], '/');
    } else {
      SegmentsJoin(segments[1..]);
      var rest := JoinSegments(segments[1..]);
      assert rest == ['/'] + rest[1..];
      assert text == segments[0] + ['/'] + rest[1..];
      SplitOnceAt(segments[0], '/', rest[1..]);
      SplitShorter(text, '/');
    }
  }
}
