/** Mentions as URIs: printing, parsing, and when the one undoes the other. */
module Mentions {
  import opened Options
  import opened Utf8Text
  import opened UrlPaths
  import opened Urls

  const U32_LIMIT := 0x1_0000_0000

  type U32 = n: int | 0 <= n < U32_LIMIT

  /** Zero-based lines, both inclusive. */
  datatype LineRange = LineRange(start: U32, end: U32)

  datatype Mention =
    | File(path: Bytes)
    | PastedImage
    | Directory(path: Bytes)
    | Symbol(path: Bytes, name: Bytes, lines: LineRange)
    | Thread(id: Bytes, name: Bytes)
    | TextThread(path: Bytes, name: Bytes)
    | Rule(uuid: string, name: Bytes)
    | Selection(file: Option<Bytes>, lines: LineRange)
    | Fetch(url: Url)

  // ----- line numbers

  function Digit(n: int): char
    requires 0 <= n < 10
  {
    '0' + n as char
  }

  predicate IsDigit(c: char) {
    '0' <= c <= '9'
  }

  function Decimal(n: nat): string {
    if n < 10 then [Digit(n)] else Decimal(n / 10) + [Digit(n % 10)]
  }

  predicate AllDigits(s: string) {
    forall k | 0 <= k < |s| :: IsDigit(s[k])
  }

  function DecimalValue(s: string): nat
    requires AllDigits(s)
  {
    if s == "" then 0 else 10 * DecimalValue(s[..|s| - 1]) + (s[|s| - 1] as int - '0' as int)
  }

  /** A sign may precede the digits; numbers that do not fit are refused. */
  function ParseU32(s: string): Option<U32> {
    var digits := if s != "" && s[0] == '+' then s[1..] else s;
    if digits != "" && AllDigits(digits) && DecimalValue(digits) < U32_LIMIT then Some(DecimalValue(digits)) else None
  }

  lemma {:induction false} DecimalReads(n: nat)
    ensures Decimal(n) != "" && AllDigits(Decimal(n)) && DecimalValue(Decimal(n)) == n
  {
    if n >= 10 {
      DecimalReads(n / 10);
      assert Decimal(n)[..|Decimal(n)| - 1] == Decimal(n / 10);
    } else {
      assert Decimal(n)[..0] == "";
    }
  }

  /** A line number as it is printed, one-based; the addition wraps around. */
  function OneBased(line: U32): U32 {
    (line + 1) % U32_LIMIT
  }

  function LineText(lines: LineRange): string {
    "L" + Decimal(OneBased(lines.start)) + ":" + Decimal(OneBased(lines.end))
  }

  function ZeroBased(number: Option<U32>): Option<U32> {
    if number.Some? && number.value > 0 then Some(number.value - 1) else None
  }

  function ParseLineRange(fragment: string): Option<LineRange> {
    if !("L" <= fragment) then None
    else
      var (first, second) := SplitOnce(fragment[1..], ':');
      if second.None? then None
      else
        var start, end := ZeroBased(ParseU32(first)), ZeroBased(ParseU32(second.value));
        if start.Some? && end.Some? then Some(LineRange(start.value, end.value)) else None
  }

  lemma DecimalParses(n: U32)
    ensures ParseU32(Decimal(n)) == Some(n) && Lacks(Decimal(n), ':')
  {
    DecimalReads(n);
    LacksIff(Decimal(n), ':');
  }

  lemma ZeroOfOne(line: U32)
    ensures ZeroBased(Some(OneBased(line))) == if line < U32_LIMIT - 1 then Some(line) else None
  {
    if line == U32_LIMIT - 1 {
      assert OneBased(line) == 0;
    } else {
      assert OneBased(line) == line + 1;
    }
  }

  lemma LineTextParses(m: U32, n: U32)
    ensures var text := "L" + Decimal(m) + ":" + Decimal(n);
            ParseLineRange(text)
               == if ZeroBased(Some(m)).Some? && ZeroBased(Some(n)).Some?
                  then Some(LineRange(ZeroBased(Some(m)).value, ZeroBased(Some(n)).value)) else None
  {
    var text := "L" + Decimal(m) + ":" + Decimal(n);
    DecimalParses(m);
    DecimalParses(n);
    LineTextSplits(Decimal(m), Decimal(n));
  }

  lemma LineTextSplits(first: string, second: string)
    requires Lacks(first, ':')
    ensures var text := "L" + first + ":" + second; "L" <= text && SplitOnce(text[1..], ':') == (first, Some(second))
  {
    assert ("L" + first + ":" + second)[1..] == first + [':'] + second;
    SplitOnceAt(first, ':', second);
  }

  /** A line range comes back exactly if neither line is the last one that 32 bits can number. */
  lemma LineRangeRoundTrip(lines: LineRange)
    ensures ParseLineRange(LineText(lines)) == Some(lines) <==> lines.start < U32_LIMIT - 1 && lines.end < U32_LIMIT - 1
    ensures ParseLineRange(LineText(lines)) in {None, Some(lines)}
  {
    LineTextParses(OneBased(lines.start), OneBased(lines.end));
    ZeroOfOne(lines.start);
    ZeroOfOne(lines.end);
  }

  // ----- places of the application's own URIs

  const THREAD := "/agent/thread/"
  const TEXT_THREAD := "/agent/text-thread/"
  const RULE := "/agent/rule/"
  const PASTED_IMAGE := "/agent/pasted-image"
  const UNTITLED := "/agent/untitled-buffer"
  const SYMBOL := "/agent/symbol/"
  const FILE := "/agent/file"
  const DIRECTORY := "/agent/directory"
  const SELECTION := "/agent/selection"

  datatype Place =
    | ThreadPlace(rest: string)
    | TextThreadPlace(rest: string)
    | RulePlace(rest: string)
    | PastedImagePlace
    | UntitledPlace
    | SymbolPlace(rest: string)
    | FilePlace
    | DirectoryPlace
    | SelectionPlace
    | NoPlace

  function PlaceOf(path: string): Place {
    if THREAD <= path then ThreadPlace(path[|THREAD|..])
    else if TEXT_THREAD <= path then TextThreadPlace(path[|TEXT_THREAD|..])
    else if RULE <= path then RulePlace(path[|RULE|..])
    else if PASTED_IMAGE <= path then PastedImagePlace
    else if UNTITLED <= path then UntitledPlace
    else if SYMBOL <= path then SymbolPlace(path[|SYMBOL|..])
    else if FILE <= path then FilePlace
    else if DIRECTORY <= path then DirectoryPlace
    else if SELECTION <= path then SelectionPlace
    else NoPlace
  }

  // ----- parsing

  datatype Param = Absent | Value(value: Bytes) | Rejected

  /** The only pair of the query, which must have the given name. */
  function SingleQueryParam(url: Url, name: string): Param {
    var pairs := QueryPairs(url);
    if pairs == [] then Absent
    else if |pairs| == 1 && pairs[0].0 == AsBytes(name) then Value(pairs[0].1)
    else Rejected
  }

  function Lower(c: char): char {
    if 'A' <= c <= 'Z' then c + ('a' - 'A') else c
  }

  /** A UUID with hyphens, in lower case. */
  function ParseUuid(s: string): Option<string> {
    if |s| == 36 && forall k | 0 <= k < 36 :: if k in [8, 13, 18, 23] then s[k] == '-' else HexValue(s[k]) >= 0
    then Some(seq(36, k requires 0 <= k < 36 => Lower(s[k])))
    else None
  }

  function ParseFragment(url: Url): Option<LineRange> {
    if url.fragment.Some? then ParseLineRange(url.fragment.value) else None
  }

  /** The mention that a URL stands for, if any. `endsWithSlash` is whether the text that was read ends with one. */
  function Parse(url: Url, endsWithSlash: bool): Option<Mention> {
    if url.scheme == "file" then ParseFile(url, endsWithSlash)
    else if url.scheme == "zed" then ParseOwn(url, PlaceOf(url.path))
    else if url.scheme == "http" || url.scheme == "https" then Some(Fetch(url))
    else None
  }

  /** The path that a file URL stands for: decoded, and with a slash behind a drive letter. */
  function FilePathOf(text: string): Bytes {
    var path := PercentDecode(text);
    if EndsInDrive(path) then path + ['/' as int] else path
  }

  predicate EndsInDrive(path: Bytes) {
    var n := |path|;
    n > 2 && path[n - 2] < 0x80 && IsLetter(path[n - 2] as char) && (path[n - 1] == ':' as int || path[n - 1] == '|' as int)
  }

  function ParseFile(url: Url, endsWithSlash: bool): Option<Mention> {
    var path := FilePathOf(url.path);
    if url.host != "" && url.host != "localhost" then None
    else if url.fragment.Some? then
      var lines := ParseFragment(url);
      if lines.None? then None
      else match SingleQueryParam(url, "symbol")
        case Absent => Some(Selection(Some(path), lines.value))
        case Value(name) => Some(Symbol(path, name, lines.value))
        case Rejected => None
    else if endsWithSlash then Some(Directory(path))
    else Some(File(path))
  }

  function ParseOwn(url: Url, place: Place): Option<Mention> {
    var name, path, lines := SingleQueryParam(url, "name"), SingleQueryParam(url, "path"), ParseFragment(url);
    match place
    case ThreadPlace(rest) => if name.Value? then Some(Thread(AsBytes(rest), name.value)) else None
    case TextThreadPlace(rest) => if name.Value? then Some(TextThread(AsBytes(rest), name.value)) else None
    case RulePlace(rest) => if name.Value? && ParseUuid(rest).Some? then Some(Rule(ParseUuid(rest).value, name.value)) else None
    case PastedImagePlace => Some(PastedImage)
    case UntitledPlace => if lines.Some? then Some(Selection(None, lines.value)) else None
    case SymbolPlace(rest) => if lines.Some? && path.Value? then Some(Symbol(path.value, AsBytes(rest), lines.value)) else None
    case FilePlace => if path.Value? then Some(File(path.value)) else None
    case DirectoryPlace => if path.Value? then Some(Directory(path.value)) else None
    case SelectionPlace => if lines.Some? && path.Value? then Some(Selection(Some(path.value), lines.value)) else None
    case NoPlace => None
  }

  function ParseText(text: string): Option<Mention> {
    var url := Read(text);
    if url.Some? then Parse(url.value, text != "" && text[|text| - 1] == '/') else None
  }

  // ----- printing

  function Own(path: string): Url {
    Url("zed", "", path, None, None)
  }

  /** An own URL whose path ends with bytes from outside. */
  function OwnWith(place: string, rest: Bytes): Url
    requires place != "" && place[0] == '/'
  {
    Own(StoredPath(AsBytes(place) + rest))
  }

  function TrimSlashes(path: Bytes): Bytes {
    if path != [] && path[0] == '/' as int then TrimSlashes(path[1..]) else path
  }

  function WithPath(url: Url, path: Bytes): Url {
    url.AppendPair(AsBytes("path"), Lossy(path))
  }

  function WithName(url: Url, name: Bytes): Url {
    url.AppendPair(AsBytes("name"), name)
  }

  function WithLines(url: Url, lines: LineRange): Url {
    url.SetFragment(LineText(lines))
  }

  function OwnTextThread(path: Bytes): Url {
    OwnWith(TEXT_THREAD, TrimSlashes(Lossy(path)))
  }

  function SelectionUrl(): Url {
    Own(SELECTION)
  }

  function SelectedIn(file: Option<Bytes>): Url {
    if file.Some? then WithPath(SelectionUrl(), file.value) else Own(UNTITLED)
  }

  function ToUri(m: Mention): Url {
    match m
    case File(path) => WithPath(Own(FILE), path)
    case PastedImage => Own(PASTED_IMAGE)
    case Directory(path) => WithPath(Own(DIRECTORY), path)
    case Symbol(path, name, lines) => WithLines(WithPath(OwnWith(SYMBOL, name), path), lines)
    case Selection(file, lines) => WithLines(SelectedIn(file), lines)
    case Thread(id, name) => WithName(OwnWith(THREAD, id), name)
    case TextThread(path, name) => WithName(OwnTextThread(path), name)
    case Rule(uuid, name) => WithName(OwnWith(RULE, AsBytes(uuid)), name)
    case Fetch(url) => url
  }

  /** Printing a mention and parsing the text gives the mention back. */
  predicate RoundTrips(m: Mention) {
    ParseText(Written(ToUri(m))) == Some(m)
  }

  // ----- own URLs read back

  /** No two of the places have a common beginning of nine characters. */
  lemma PlacesDiffer()
    ensures THREAD[7..9] == "th" && TEXT_THREAD[7..9] == "te" && RULE[7..9] == "ru" && PASTED_IMAGE[7..9] == "pa"
    ensures UNTITLED[7..9] == "un" && SYMBOL[7..9] == "sy" && FILE[7..9] == "fi" && DIRECTORY[7..9] == "di"
    ensures SELECTION[7..9] == "se"
  {
  }

  lemma MarkOf(place: string, path: string)
    requires |place| >= 9 && place <= path
    ensures path[7..9] == place[7..9]
  {
  }

  /** The characters in the middle tell which place a path can be in. */
  lemma OnlyPlace(path: string, mark: string)
    requires |path| >= 9 && path[7..9] == mark
    ensures mark != "th" ==> !(THREAD <= path)
    ensures mark != "te" ==> !(TEXT_THREAD <= path)
    ensures mark != "ru" ==> !(RULE <= path)
    ensures mark != "pa" ==> !(PASTED_IMAGE <= path)
    ensures mark != "un" ==> !(UNTITLED <= path)
    ensures mark != "sy" ==> !(SYMBOL <= path)
    ensures mark != "fi" ==> !(FILE <= path)
    ensures mark != "di" ==> !(DIRECTORY <= path)
  {
    PlacesDiffer();
    forall place | place in [THREAD, TEXT_THREAD, RULE, PASTED_IMAGE, UNTITLED, SYMBOL, FILE, DIRECTORY] && place <= path
      ensures path[7..9] == place[7..9]
    {
      MarkOf(place, path);
    }
  }

  /** A path without special characters is stored and read as it is. */
  lemma PlainPath(path: string)
    requires path != "" && path[0] == '/' && KeptText(path) && '.' !in path && '%' !in path
    ensures Own(path).WellFormed()
  {
    KeptIsPath(path);
    NoDotsIsDotFree(path[1..]);
    ParsedUnchangedIff("zed", path);
    OwnSchemeLacks();
  }

  lemma OwnSchemeLacks()
    ensures Lacks("zed", ':') && Lacks("zed", '?') && Lacks("zed", '#') && !IsSpecial("zed")
    ensures Lacks("", '/') && Lacks("", '?') && Lacks("", '#')
  {
    LacksIff("zed", ':');
    LacksIff("zed", '?');
    LacksIff("zed", '#');
    LacksIff("", '/');
    LacksIff("", '?');
    LacksIff("", '#');
  }

  lemma FilePathPlain()
    ensures KeptText(FILE) && '.' !in FILE && '%' !in FILE
  {
  }

  lemma FilePath()
    ensures Own(FILE).WellFormed() && PlaceOf(FILE) == FilePlace
  {
    FilePathPlain();
    PlainPath(FILE);
    PlacesDiffer();
    OnlyPlace(FILE, "fi");
  }

  lemma DirectoryPathPlain()
    ensures KeptText(DIRECTORY) && '.' !in DIRECTORY && '%' !in DIRECTORY
  {
  }

  lemma DirectoryPath()
    ensures Own(DIRECTORY).WellFormed() && PlaceOf(DIRECTORY) == DirectoryPlace
  {
    DirectoryPathPlain();
    PlainPath(DIRECTORY);
    PlacesDiffer();
    OnlyPlace(DIRECTORY, "di");
  }

  lemma SelectionPathPlain()
    ensures KeptText(SELECTION) && '.' !in SELECTION && '%' !in SELECTION
  {
  }

  lemma SelectionPath()
    ensures Own(SELECTION).WellFormed() && PlaceOf(SELECTION) == SelectionPlace
  {
    SelectionPathPlain();
    PlainPath(SELECTION);
    PlacesDiffer();
    OnlyPlace(SELECTION, "se");
  }

  lemma UntitledPathPlain()
    ensures KeptText(UNTITLED) && '.' !in UNTITLED && '%' !in UNTITLED
  {
  }

  lemma UntitledPath()
    ensures Own(UNTITLED).WellFormed() && PlaceOf(UNTITLED) == UntitledPlace
  {
    UntitledPathPlain();
    PlainPath(UNTITLED);
    PlacesDiffer();
    OnlyPlace(UNTITLED, "un");
  }

  lemma PastedImagePathPlain()
    ensures KeptText(PASTED_IMAGE) && '.' !in PASTED_IMAGE && '%' !in PASTED_IMAGE
  {
  }

  lemma PastedImagePath()
    ensures Own(PASTED_IMAGE).WellFormed() && PlaceOf(PASTED_IMAGE) == PastedImagePlace
  {
    PastedImagePathPlain();
    PlainPath(PASTED_IMAGE);
    PlacesDiffer();
    OnlyPlace(PASTED_IMAGE, "pa");
  }

  lemma PlaceWithRest(place: string, rest: string)
    requires place in [THREAD, TEXT_THREAD, RULE, SYMBOL]
    ensures place == THREAD ==> PlaceOf(place + rest) == ThreadPlace(rest)
    ensures place == TEXT_THREAD ==> PlaceOf(place + rest) == TextThreadPlace(rest)
    ensures place == RULE ==> PlaceOf(place + rest) == RulePlace(rest)
    ensures place == SYMBOL ==> PlaceOf(place + rest) == SymbolPlace(rest)
  {
    var path := place + rest;
    PlacesDiffer();
    assert path[7..9] == place[7..9] && path[|place|..] == rest && place <= path;
    OnlyPlace(path, place[7..9]);
  }

  // ----- queries and fragments of printed URLs

  /** The text of a printed URL reads back as that URL. */
  lemma ParseWritten(url: Url)
    requires url.WellFormed() && url.scheme == "zed"
    ensures ParseText(Written(url)) == ParseOwn(url, PlaceOf(url.path))
  {
    ReadWritten(url);
  }

  /** The query of a URL with one pair. */
  lemma PairParam(url: Url, key: string, value: Bytes)
    requires url.query.None? && Utf8(AsBytes(key)) && Utf8(value)
    ensures var u := url.AppendPair(AsBytes(key), value);
            && SingleQueryParam(u, key) == Value(value)
            && (url.WellFormed() ==> u.WellFormed())
  {
    AppendedPairReads(url, AsBytes(key), value);
    LossyKeepsText(AsBytes(key));
    LossyKeepsText(value);
  }

  lemma NamesAreText()
    ensures Utf8(AsBytes("path")) && Utf8(AsBytes("name"))
  {
    AsciiIsText(AsBytes("path"));
    AsciiIsText(AsBytes("name"));
  }

  lemma {:induction false} AsciiIsText(s: Bytes)
    requires forall k | 0 <= k < |s| :: s[k] < 0x80
    ensures Utf8(s)
  {
    if s != [] {
      AsciiIsText(s[1..]);
    }
  }

  lemma SameParam(url: Url, other: Url, name: string)
    requires url.query == other.query
    ensures SingleQueryParam(url, name) == SingleQueryParam(other, name)
  {
  }

  // ----- round trips

  /** A URL of the application itself, without parameters. */
  ghost predicate IsOwn(url: Url) {
    url.WellFormed() && url.scheme == "zed" && url.query.None? && url.fragment.None?
  }

  lemma OwnRoundTrips(m: Mention, url: Url)
    requires url == ToUri(m) && url.WellFormed() && url.scheme == "zed"
    ensures RoundTrips(m) <==> ParseOwn(url, PlaceOf(url.path)) == Some(m)
  {
    ParseWritten(url);
  }

  lemma FileUri(path: Bytes) returns (base: Url)
    ensures ToUri(File(path)) == WithPath(base, path) && IsOwn(base) && PlaceOf(base.path) == FilePlace
  {
    FilePath();
    base := Own(FILE);
    FileIs(File(path), base);
  }

  lemma FileIs(m: Mention, base: Url)
    requires m.File? && base == Own(FILE)
    ensures ToUri(m) == WithPath(base, m.path)
  {
  }

  lemma DirectoryUri(path: Bytes) returns (base: Url)
    ensures ToUri(Directory(path)) == WithPath(base, path) && IsOwn(base) && PlaceOf(base.path) == DirectoryPlace
  {
    DirectoryPath();
    base := Own(DIRECTORY);
    DirectoryIs(Directory(path), base);
  }

  lemma DirectoryIs(m: Mention, base: Url)
    requires m.Directory? && base == Own(DIRECTORY)
    ensures ToUri(m) == WithPath(base, m.path)
  {
  }

  lemma PastedImageUri() returns (base: Url)
    ensures ToUri(PastedImage) == base && IsOwn(base) && PlaceOf(base.path) == PastedImagePlace
  {
    PastedImagePath();
    base := Own(PASTED_IMAGE);
  }

  lemma SelectionUri(path: Bytes, lines: LineRange) returns (base: Url)
    ensures ToUri(Selection(Some(path), lines)) == WithLines(WithPath(base, path), lines)
    ensures IsOwn(base) && PlaceOf(base.path) == SelectionPlace
  {
    base := SelectionBase();
    SelectedInFile(base, path);
    SelectionIs(Selection(Some(path), lines), WithPath(base, path));
  }

  lemma UntitledUri(lines: LineRange) returns (base: Url)
    ensures ToUri(Selection(None, lines)) == WithLines(base, lines)
    ensures IsOwn(base) && PlaceOf(base.path) == UntitledPlace
  {
    base := UntitledBase();
    SelectionIs(Selection(None, lines), base);
  }

  lemma SelectionBase() returns (base: Url)
    ensures base == SelectionUrl() && IsOwn(base) && PlaceOf(base.path) == SelectionPlace
  {
    SelectionPath();
    base := Own(SELECTION);
  }

  lemma UntitledBase() returns (base: Url)
    ensures base == SelectedIn(None) && IsOwn(base) && PlaceOf(base.path) == UntitledPlace
  {
    UntitledPath();
    base := Own(UNTITLED);
  }

  lemma SelectedInFile(base: Url, path: Bytes)
    requires base == SelectionUrl()
    ensures SelectedIn(Some(path)) == WithPath(base, path)
  {
  }

  lemma SelectionIs(m: Mention, base: Url)
    requires m.Selection? && SelectedIn(m.file) == base
    ensures ToUri(m) == WithLines(base, m.lines)
  {
  }

  /** A file or directory comes back exactly if its path is text. */
  lemma FileRoundTrip(path: Bytes)
    ensures RoundTrips(File(path)) <==> Utf8(path)
  {
    var base := FileUri(path);
    var url := PathParam(base, path);
    OwnRoundTrips(File(path), url);
    FileIn(url, path);
  }

  lemma FileIn(url: Url, path: Bytes)
    requires PlaceOf(url.path) == FilePlace && SingleQueryParam(url, "path") == Value(Lossy(path))
    ensures ParseOwn(url, PlaceOf(url.path)) == Some(File(path)) <==> Utf8(path)
  {
    LossyKeepsText(path);
  }

  lemma DirectoryRoundTrip(path: Bytes)
    ensures RoundTrips(Directory(path)) <==> Utf8(path)
  {
    var base := DirectoryUri(path);
    var url := PathParam(base, path);
    OwnRoundTrips(Directory(path), url);
    DirectoryIn(url, path);
  }

  lemma DirectoryIn(url: Url, path: Bytes)
    requires PlaceOf(url.path) == DirectoryPlace && SingleQueryParam(url, "path") == Value(Lossy(path))
    ensures ParseOwn(url, PlaceOf(url.path)) == Some(Directory(path)) <==> Utf8(path)
  {
    LossyKeepsText(path);
  }

  lemma PastedImageRoundTrip()
    ensures RoundTrips(PastedImage)
  {
    var url := PastedImageUri();
    OwnRoundTrips(PastedImage, url);
    PastedImageIn(url);
  }

  lemma PastedImageIn(url: Url)
    requires PlaceOf(url.path) == PastedImagePlace
    ensures ParseOwn(url, PlaceOf(url.path)) == Some(PastedImage)
  {
  }

  predicate Printable(lines: LineRange) {
    lines.start < U32_LIMIT - 1 && lines.end < U32_LIMIT - 1
  }

  /** A URL with a path parameter has it to read. */
  lemma PathParam(base: Url, path: Bytes) returns (url: Url)
    requires base.query.None? && base.WellFormed()
    ensures url == WithPath(base, path) && url.WellFormed() && url.scheme == base.scheme && url.path == base.path
    ensures SingleQueryParam(url, "path") == Value(Lossy(path))
  {
    NamesAreText();
    LossyIsText(path);
    PairParam(base, "path", Lossy(path));
    url := WithPath(base, path);
  }

  /** A URL with a path parameter and lines has both to read. */
  lemma PathAndLines(base: Url, path: Bytes, lines: LineRange) returns (url: Url)
    requires base.query.None? && base.WellFormed()
    ensures url == WithLines(WithPath(base, path), lines)
    ensures url.WellFormed() && url.scheme == base.scheme && url.path == base.path
    ensures SingleQueryParam(url, "path") == Value(Lossy(path)) && ParseFragment(url) == ParseLineRange(LineText(lines))
  {
    var paired := PathParam(base, path);
    url := WithLines(paired, lines);
    SameParam(url, paired, "path");
  }

  /** A URL with a name has it to read. */
  lemma NameParam(base: Url, name: Bytes) returns (url: Url)
    requires base.query.None? && base.WellFormed() && Utf8(name)
    ensures url == WithName(base, name) && url.WellFormed() && url.scheme == base.scheme && url.path == base.path
    ensures SingleQueryParam(url, "name") == Value(name)
  {
    NamesAreText();
    PairParam(base, "name", name);
    url := WithName(base, name);
  }

  /** A selection comes back exactly if its lines can be printed and its path, if it has one, is text. */
  lemma SelectionRoundTrip(path: Bytes, lines: LineRange)
    ensures RoundTrips(Selection(Some(path), lines)) <==> Utf8(path) && Printable(lines)
  {
    var base := SelectionUri(path, lines);
    var url := PathAndLines(base, path, lines);
    OwnRoundTrips(Selection(Some(path), lines), url);
    SelectionIn(url, path, lines);
  }

  lemma SelectionIn(url: Url, path: Bytes, lines: LineRange)
    requires PlaceOf(url.path) == SelectionPlace && SingleQueryParam(url, "path") == Value(Lossy(path))
    requires ParseFragment(url) == ParseLineRange(LineText(lines))
    ensures ParseOwn(url, PlaceOf(url.path)) == Some(Selection(Some(path), lines)) <==> Utf8(path) && Printable(lines)
  {
    LossyKeepsText(path);
    LineRangeRoundTrip(lines);
    OwnSelection(url, Lossy(path), ParseLineRange(LineText(lines)));
  }

  lemma OwnSelection(url: Url, path: Bytes, lines: Option<LineRange>)
    requires SingleQueryParam(url, "path") == Value(path) && ParseFragment(url) == lines
    ensures ParseOwn(url, SelectionPlace) == if lines.Some? then Some(Selection(Some(path), lines.value)) else None
  {
  }

  lemma UntitledSelectionRoundTrip(lines: LineRange)
    ensures RoundTrips(Selection(None, lines)) <==> Printable(lines)
  {
    var base := UntitledUri(lines);
    var url := WithLines(base, lines);
    OwnRoundTrips(Selection(None, lines), url);
    UntitledIn(url, lines);
  }

  lemma UntitledIn(url: Url, lines: LineRange)
    requires PlaceOf(url.path) == UntitledPlace && ParseFragment(url) == ParseLineRange(LineText(lines))
    ensures ParseOwn(url, PlaceOf(url.path)) == Some(Selection(None, lines)) <==> Printable(lines)
  {
    LineRangeRoundTrip(lines);
  }

  /** A fetched URL comes back if it is one for the web. */
  lemma FetchRoundTrip(url: Url)
    requires url.WellFormed()
    ensures RoundTrips(Fetch(url)) <==> url.scheme == "http" || url.scheme == "https"
  {
    var text := FetchText(url);
    FetchParses(url, text != "" && text[|text| - 1] == '/');
  }

  lemma FetchText(url: Url) returns (text: string)
    requires url.WellFormed()
    ensures text == Written(ToUri(Fetch(url))) && Read(text) == Some(url)
  {
    ReadWritten(url);
    text := Written(url);
  }

  lemma FetchParses(url: Url, endsWithSlash: bool)
    ensures Parse(url, endsWithSlash) == Some(Fetch(url)) <==> url.scheme == "http" || url.scheme == "https"
  {
    assert "file"[0] != "http"[0] && |"zed"| == 3 && |"https"| == 5;
    if url.scheme == "zed" {
      OwnIsNoFetch(url);
    }
  }

  lemma OwnIsNoFetch(url: Url)
    ensures ParseOwn(url, PlaceOf(url.path)) != Some(Fetch(url))
  {
  }

  // ----- names that become part of the path

  /** Bytes that a path takes unchanged behind the place: none needs encoding, and no segment is a dot or two dots. */
  ghost predicate Unchanged(place: string, rest: Bytes)
    requires place in [THREAD, TEXT_THREAD, RULE, SYMBOL]
  {
    PathSafe(rest) && DotFree(Segments(PathEncode(AsBytes(place)[1..] + rest)))
  }

  lemma ThreadPlaceIsKept()
    ensures KeptText(THREAD) && '.' !in THREAD && '%' !in THREAD
  {
  }

  lemma TextThreadPlaceIsKept()
    ensures KeptText(TEXT_THREAD) && '.' !in TEXT_THREAD && '%' !in TEXT_THREAD
  {
  }

  lemma RulePlaceIsKept()
    ensures KeptText(RULE) && '.' !in RULE && '%' !in RULE
  {
  }

  lemma SymbolPlaceIsKept()
    ensures KeptText(SYMBOL) && '.' !in SYMBOL && '%' !in SYMBOL
  {
  }

  lemma PlaceIsKept(place: string)
    requires place in [THREAD, TEXT_THREAD, RULE, SYMBOL]
    ensures place != "" && place[0] == '/' && KeptText(place) && '.' !in place && '%' !in place
  {
    ThreadPlaceIsKept();
    TextThreadPlaceIsKept();
    RulePlaceIsKept();
    SymbolPlaceIsKept();
  }

  lemma PlaceIsSafe(place: string)
    requires place in [THREAD, TEXT_THREAD, RULE, SYMBOL]
    ensures place != "" && place[0] == '/' && KeptText(place) && PathSafe(AsBytes(place))
  {
    PlaceIsKept(place);
    KeptIsSafe(place);
  }

  lemma KeptIsSafe(s: string)
    requires KeptText(s)
    ensures PathSafe(AsBytes(s))
  {
  }

  lemma StoredIsWellFormed(place: string, rest: Bytes)
    requires place in [THREAD, TEXT_THREAD, RULE, SYMBOL]
    ensures place != "" && place[0] == '/' && OwnWith(place, rest).WellFormed() && KeptText(OwnWith(place, rest).path)
  {
    PlaceIsSafe(place);
    StoredKept(AsBytes(place) + rest);
    StoredStarts(AsBytes(place) + rest);
    KeptIsPath(OwnWith(place, rest).path);
    OwnSchemeLacks();
    StoredIsRead("zed", AsBytes(place) + rest);
  }

  lemma StoredBase(place: string, rest: Bytes) returns (base: Url)
    requires place in [THREAD, TEXT_THREAD, RULE, SYMBOL]
    ensures place != "" && place[0] == '/' && base == OwnWith(place, rest) && IsOwn(base)
  {
    StoredIsWellFormed(place, rest);
    base := OwnWith(place, rest);
  }

  lemma KeptIsPath(s: string)
    requires KeptText(s)
    ensures Lacks(s, '?') && Lacks(s, '#')
  {
    LacksIff(s, '?');
    LacksIff(s, '#');
    assert !PathKept('?' as int) && !PathKept('#' as int);
  }

  lemma SameBytes(s: string, t: string)
    requires KeptText(s) && (forall k | 0 <= k < |t| :: t[k] as int < 0x80) && AsBytes(t) <= AsBytes(s)
    ensures t <= s
  {
    assert |t| <= |s|;
    forall k | 0 <= k < |t| ensures t[k] == s[k] {
      assert AsBytes(t)[k] == AsBytes(s)[k];
    }
  }

  /** What is behind the place comes back exactly if the path takes it unchanged. */
  lemma RestComesBackIff(place: string, rest: Bytes)
    requires place in [THREAD, TEXT_THREAD, RULE, SYMBOL]
    ensures place != "" && place[0] == '/'
    ensures var p := OwnWith(place, rest).path; (place <= p && AsBytes(p[|place|..]) == rest) <==> Unchanged(place, rest)
  {
    PlaceIsSafe(place);
    StoredIsWellFormed(place, rest);
    var path := AsBytes(place) + rest;
    var p := OwnWith(place, rest).path;
    StoredUnchangedIff(path);
    assert path[1..] == AsBytes(place)[1..] + rest;
    SafeParts(AsBytes(place)[1..], rest);
    if place <= p {
      BehindPlace(place, p, rest);
    } else if AsBytes(p) == path {
      SameBytes(p, place);
    }
  }

  lemma BehindPlace(place: string, p: string, rest: Bytes)
    requires place <= p
    ensures AsBytes(place) + rest == AsBytes(p) <==> rest == AsBytes(p[|place|..])
  {
    assert p == place + p[|place|..];
    assert AsBytes(p) == AsBytes(place) + AsBytes(p[|place|..]);
    SameFront(AsBytes(place), rest, AsBytes(p[|place|..]));
  }

  lemma SafeParts(a: Bytes, b: Bytes)
    requires PathSafe(a)
    ensures PathSafe(a + b) <==> PathSafe(b)
  {
    if PathSafe(a + b) {
      forall k | 0 <= k < |b| ensures PathKept(b[k]) {
        assert (a + b)[|a| + k] == b[k];
      }
    }
  }

  lemma SameFront(a: Bytes, b: Bytes, c: Bytes)
    ensures a + b == a + c <==> b == c
  {
    if a + b == a + c {
      assert b == (a + b)[|a|..] == (a + c)[|a|..] == c;
    }
  }

  /** A path is in one of the four places exactly if it starts with it. */
  lemma InPlace(place: string, p: string)
    requires place in [THREAD, TEXT_THREAD, RULE, SYMBOL]
    ensures place <= p ==> (place == THREAD ==> PlaceOf(p) == ThreadPlace(p[|place|..]))
    ensures place <= p ==> (place == TEXT_THREAD ==> PlaceOf(p) == TextThreadPlace(p[|place|..]))
    ensures place <= p ==> (place == RULE ==> PlaceOf(p) == RulePlace(p[|place|..]))
    ensures place <= p ==> (place == SYMBOL ==> PlaceOf(p) == SymbolPlace(p[|place|..]))
  {
    if place <= p {
      assert p == place + p[|place|..];
      PlaceWithRest(place, p[|place|..]);
    }
  }

  lemma SymbolIs(m: Mention, base: Url)
    requires m.Symbol? && base == OwnWith(SYMBOL, m.name)
    ensures ToUri(m) == WithLines(WithPath(base, m.path), m.lines)
  {
  }

  /** A symbol comes back exactly if its file and lines do and its name can stand in a path as it is. */
  lemma SymbolRoundTrip(path: Bytes, name: Bytes, lines: LineRange)
    ensures RoundTrips(Symbol(path, name, lines)) <==> Utf8(path) && Printable(lines) && Unchanged(SYMBOL, name)
  {
    LossyKeepsText(path);
    LineRangeRoundTrip(lines);
    var base := StoredBase(SYMBOL, name);
    SymbolIs(Symbol(path, name, lines), base);
    var url := PathAndLines(base, path, lines);
    OwnRoundTrips(Symbol(path, name, lines), url);
    RestComesBackIff(SYMBOL, name);
    SymbolIn(url, path, name, lines);
  }

  lemma SymbolIn(url: Url, path: Bytes, name: Bytes, lines: LineRange)
    ensures ParseOwn(url, PlaceOf(url.path)) == Some(Symbol(path, name, lines))
            <==> SYMBOL <= url.path && AsBytes(url.path[|SYMBOL|..]) == name
                 && ParseFragment(url) == Some(lines) && SingleQueryParam(url, "path") == Value(path)
  {
    var place := SymbolPlaceIff(url.path);
  }

  lemma SymbolPlaceIff(p: string) returns (place: Place)
    ensures place == PlaceOf(p) && (place.SymbolPlace? <==> SYMBOL <= p) && (SYMBOL <= p ==> place.rest == p[|SYMBOL|..])
  {
    place := PlaceOf(p);
    InPlace(SYMBOL, p);
  }

  lemma ThreadIs(m: Mention, base: Url)
    requires m.Thread? && base == OwnWith(THREAD, m.id)
    ensures ToUri(m) == WithName(base, m.name)
  {
  }

  /** A thread comes back exactly if its identifier can stand in a path as it is. */
  lemma ThreadRoundTrip(id: Bytes, name: Bytes)
    requires Utf8(name)
    ensures RoundTrips(Thread(id, name)) <==> Unchanged(THREAD, id)
  {
    var base := StoredBase(THREAD, id);
    ThreadIs(Thread(id, name), base);
    var url := NameParam(base, name);
    OwnRoundTrips(Thread(id, name), url);
    RestComesBackIff(THREAD, id);
    ThreadIn(url, id, name);
  }

  lemma ThreadIn(url: Url, id: Bytes, name: Bytes)
    ensures ParseOwn(url, PlaceOf(url.path)) == Some(Thread(id, name))
            <==> THREAD <= url.path && AsBytes(url.path[|THREAD|..]) == id && SingleQueryParam(url, "name") == Value(name)
  {
    InPlace(THREAD, url.path);
  }

  lemma {:induction false} TrimmedIsShorter(path: Bytes)
    ensures |TrimSlashes(path)| <= |path|
    ensures TrimSlashes(path) == path <==> path == [] || path[0] != '/' as int
    ensures TrimSlashes(path) != path ==> |TrimSlashes(path)| < |path|
    ensures PathSafe(path) ==> PathSafe(TrimSlashes(path))
  {
    if path != [] && path[0] == '/' as int {
      TrimmedIsShorter(path[1..]);
    }
  }

  lemma SafeIsText(bytes: Bytes)
    requires PathSafe(bytes)
    ensures Lossy(bytes) == bytes
  {
    AsciiIsText(bytes);
    LossyKeepsText(bytes);
  }

  /** What comes back from a text thread's path is never the path with its leading slashes. */
  lemma TextThreadRest(path: Bytes)
    ensures var p := OwnWith(TEXT_THREAD, TrimSlashes(Lossy(path))).path;
            (TEXT_THREAD <= p && AsBytes(p[|TEXT_THREAD|..]) == path)
            <==> Unchanged(TEXT_THREAD, path) && (path == [] || path[0] != '/' as int)
  {
    var rest := TrimSlashes(Lossy(path));
    var p := OwnWith(TEXT_THREAD, rest).path;
    RestComesBackIff(TEXT_THREAD, rest);
    if TEXT_THREAD <= p && AsBytes(p[|TEXT_THREAD|..]) == path {
      StoredIsWellFormed(TEXT_THREAD, rest);
      KeptTail(p, |TEXT_THREAD|);
      SafeIsText(path);
      TrimmedIsShorter(path);
      PlaceIsSafe(TEXT_THREAD);
      TailOfConcat(AsBytes(TEXT_THREAD), rest);
      SafeParts(AsBytes(TEXT_THREAD)[1..], rest);
      StoredNotLonger(AsBytes(TEXT_THREAD) + rest);
    } else if Unchanged(TEXT_THREAD, path) {
      SafeIsText(path);
      TrimmedIsShorter(path);
    }
  }

  lemma TailOfConcat(a: Bytes, b: Bytes)
    requires a != []
    ensures (a + b)[1..] == a[1..] + b
  {
  }

  lemma KeptTail(p: string, n: nat)
    requires KeptText(p) && n <= |p|
    ensures PathSafe(AsBytes(p[n..]))
  {
  }

  lemma TextThreadIs(m: Mention, base: Url)
    requires m.TextThread? && base == OwnTextThread(m.path)
    ensures ToUri(m) == WithName(base, m.name)
  {
  }

  /** A text thread comes back exactly if its path is relative and can stand in a path as it is. */
  lemma TextThreadRoundTrip(path: Bytes, name: Bytes)
    requires Utf8(name)
    ensures RoundTrips(TextThread(path, name)) <==> Unchanged(TEXT_THREAD, path) && (path == [] || path[0] != '/' as int)
  {
    var rest := TrimSlashes(Lossy(path));
    var base := StoredBase(TEXT_THREAD, rest);
    TextThreadIs(TextThread(path, name), base);
    var url := NameParam(base, name);
    OwnRoundTrips(TextThread(path, name), url);
    TextThreadRest(path);
    TextThreadIn(url, path, name);
  }

  lemma TextThreadIn(url: Url, path: Bytes, name: Bytes)
    ensures ParseOwn(url, PlaceOf(url.path)) == Some(TextThread(path, name))
            <==> TEXT_THREAD <= url.path && AsBytes(url.path[|TEXT_THREAD|..]) == path && SingleQueryParam(url, "name") == Value(name)
  {
    InPlace(TEXT_THREAD, url.path);
  }

  /** A name without special characters can stand in a path as it is. */
  lemma PlainIsUnchanged(place: string, rest: string)
    requires place in [THREAD, TEXT_THREAD, RULE, SYMBOL]
    requires KeptText(rest) && '.' !in rest && '%' !in rest
    ensures Unchanged(place, AsBytes(rest))
  {
    PlaceIsKept(place);
    PlainBehind(place, rest);
  }

  lemma PlainBehind(place: string, rest: string)
    requires place != "" && KeptText(place) && '.' !in place && '%' !in place
    requires KeptText(rest) && '.' !in rest && '%' !in rest
    ensures PathSafe(AsBytes(rest)) && DotFree(Segments(PathEncode(AsBytes(place)[1..] + AsBytes(rest))))
  {
    var tail := place[1..] + rest;
    KeptTail(rest, 0);
    assert rest[0..] == rest;
    assert AsBytes(place)[1..] + AsBytes(rest) == AsBytes(tail);
    PathEncodeText(tail);
    NoDotsIsDotFree(tail);
  }

  lemma RuleIs(m: Mention, base: Url)
    requires m.Rule? && base == OwnWith(RULE, AsBytes(m.uuid))
    ensures ToUri(m) == WithName(base, m.name)
  {
  }

  /** A rule comes back. */
  lemma RuleRoundTrip(uuid: string, name: Bytes)
    requires Utf8(name) && ParseUuid(uuid) == Some(uuid)
    ensures RoundTrips(Rule(uuid, name))
  {
    UuidIsPlain(uuid);
    PlainIsUnchanged(RULE, uuid);
    var base := StoredBase(RULE, AsBytes(uuid));
    RuleIs(Rule(uuid, name), base);
    var url := NameParam(base, name);
    OwnRoundTrips(Rule(uuid, name), url);
    RestComesBackIff(RULE, AsBytes(uuid));
    SameText(url.path[|RULE|..], uuid);
    RuleIn(url, uuid, name);
  }

  lemma RuleIn(url: Url, uuid: string, name: Bytes)
    requires RULE <= url.path && url.path[|RULE|..] == uuid && ParseUuid(uuid) == Some(uuid)
    requires SingleQueryParam(url, "name") == Value(name)
    ensures ParseOwn(url, PlaceOf(url.path)) == Some(Rule(uuid, name))
  {
    InPlace(RULE, url.path);
  }

  lemma UuidIsPlain(uuid: string)
    requires ParseUuid(uuid).Some?
    ensures KeptText(uuid) && '.' !in uuid && '%' !in uuid
  {
    forall k | 0 <= k < |uuid| ensures PathKept(CharByte(uuid[k])) && uuid[k] != '.' && uuid[k] != '%' {
      assert if k in [8, 13, 18, 23] then uuid[k] == '-' else HexValue(uuid[k]) >= 0;
    }
  }

  lemma SameText(s: string, t: string)
    requires KeptText(t) && AsBytes(s) == AsBytes(t)
    ensures s == t
  {
    assert |s| == |t|;
    forall k | 0 <= k < |t| ensures s[k] == t[k] {
      assert AsBytes(s)[k] == AsBytes(t)[k];
    }
  }
}
