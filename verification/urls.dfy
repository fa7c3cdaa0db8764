/** URLs: their parts, how they are written and read, and form-encoded queries (section 5 of the WHATWG URL Standard). */
module Urls {
  import opened Options
  import opened Utf8Text
  import opened UrlPaths

  // ----- form encoding

  predicate FormKept(b: Byte) {
    || '0' as int <= b <= '9' as int || 'A' as int <= b <= 'Z' as int || 'a' as int <= b <= 'z' as int
    || b == '*' as int || b == '-' as int || b == '.' as int || b == '_' as int
  }

  function FormByte(b: Byte): string {
    if FormKept(b) then [b as char] else if b == ' ' as int then "+" else Escape(b)
  }

  function FormEncode(bytes: Bytes): string {
    if bytes == [] then "" else FormByte(bytes[0]) + FormEncode(bytes[1..])
  }

  function PlusToSpace(s: string): (r: string)
    ensures |r| == |s|
  {
    seq(|s|, i requires 0 <= i < |s| => if s[i] == '+' then ' ' else s[i])
  }

  function FormDecode(s: string): Bytes {
    Lossy(PercentDecode(PlusToSpace(s)))
  }

  /** What a form-encoded text consists of. */
  predicate FormChar(c: char) {
    c as int < 0x80 && (FormKept(c as int) || c == '+' || c == '%')
  }

  lemma EscapeIsForm(b: Byte)
    ensures forall i | 0 <= i < 3 :: FormChar(Escape(b)[i]) && Escape(b)[i] != '+'
  {
  }

  lemma FormByteDecodes(b: Byte, rest: string)
    ensures PercentDecode(PlusToSpace(FormByte(b) + rest)) == [b] + PercentDecode(PlusToSpace(rest))
    ensures forall i | 0 <= i < |FormByte(b)| :: FormChar(FormByte(b)[i])
  {
    var s := FormByte(b) + rest;
    if FormKept(b) || b == ' ' as int {
      assert PlusToSpace(s)[1..] == PlusToSpace(rest);
    } else {
      EscapeDecodes(b, PlusToSpace(rest));
      EscapeIsForm(b);
      assert PlusToSpace(s) == Escape(b) + PlusToSpace(rest);
    }
  }

  lemma {:induction false} FormEncodeDecodes(bytes: Bytes)
    ensures PercentDecode(PlusToSpace(FormEncode(bytes))) == bytes
    ensures forall i | 0 <= i < |FormEncode(bytes)| :: FormChar(FormEncode(bytes)[i])
  {
    if bytes != [] {
      FormEncodeDecodes(bytes[1..]);
      FormByteDecodes(bytes[0], FormEncode(bytes[1..]));
    }
  }

  // ----- URLs

  /** A URL with its parts as they are written. */
  datatype Url = Url(scheme: string, host: string, path: string, query: Option<string>, fragment: Option<string>) {

    /** The parts can be told apart once written. */
    ghost predicate Splits() {
      && Lacks(scheme, ':') && Lacks(scheme, '?') && Lacks(scheme, '#')
      && Lacks(host, '/') && Lacks(host, '?') && Lacks(host, '#')
      && path != "" && path[0] == '/' && Lacks(path, '?') && Lacks(path, '#')
      && (query.Some? ==> Lacks(query.value, '#'))
    }

    /** The URL is one that reading gives: its parts can be told apart, and its path is resolved. */
    ghost predicate WellFormed() {
      Splits() && ParsedPath(scheme, path) == path
    }

    function SetFragment(text: string): Url {
      this.(fragment := Some(text))
    }

    function AppendPair(key: Bytes, value: Bytes): Url {
      var pair := FormEncode(key) + "=" + FormEncode(value);
      this.(query := Some(if query.Some? && query.value != "" then query.value + "&" + pair else pair))
    }
  }

  function Optional(mark: char, part: Option<string>): string {
    if part.Some? then [mark] + part.value else ""
  }

  function Written(url: Url): string {
    url.scheme + ":" + ("//" + url.host + url.path) + Optional('?', url.query) + Optional('#', url.fragment)
  }

  /** Splits a written URL into its parts, and resolves its path. */
  function Read(text: string): Option<Url> {
    var (rest, fragment) := SplitOnce(text, '#');
    var (head, query) := SplitOnce(rest, '?');
    var (scheme, place) := SplitOnce(head, ':');
    if place.None? || !("//" <= place.value) then None
    else
      var (host, path) := SplitOnce(place.value[2..], '/');
      if path.None? then None else Some(Url(scheme, host, ParsedPath(scheme, ['/'] + path.value), query, fragment))
  }

  lemma SplitOptional(a: string, mark: char, part: Option<string>)
    requires Lacks(a, mark)
    ensures SplitOnce(a + Optional(mark, part), mark) == (a, part)
  {
    if part.Some? {
      SplitOnceAt(a, mark, part.value);
      assert a + [mark] + part.value == a + Optional(mark, part);
    } else {
      SplitOnceNone(a, mark);
      assert a + "" == a;
    }
  }

  lemma WrittenPlaceReads(url: Url)
    requires url.Splits()
    ensures var place := "//" + url.host + url.path;
            && SplitOnce(url.scheme + ":" + place, ':') == (url.scheme, Some(place))
            && "//" <= place && SplitOnce(place[2..], '/') == (url.host, Some(url.path[1..]))
  {
    var place := "//" + url.host + url.path;
    SplitOnceAt(url.scheme, ':', place);
    assert place[2..] == url.host + ['/'] + url.path[1..];
    SplitOnceAt(url.host, '/', url.path[1..]);
  }

  lemma HeadLacks(url: Url, c: char)
    requires Lacks(url.scheme, c) && Lacks(url.host, c) && Lacks(url.path, c) && c != ':' && c != '/'
    ensures Lacks(url.scheme + ":" + ("//" + url.host + url.path), c)
  {
    LacksConcat("//", url.host, c);
    LacksConcat("//" + url.host, url.path, c);
    LacksConcat(url.scheme, ":", c);
    LacksConcat(url.scheme + ":", "//" + url.host + url.path, c);
    LacksIff("//", c);
    LacksIff(":", c);
  }

  lemma OptionalLacks(query: Option<string>)
    requires query.Some? ==> Lacks(query.value, '#')
    ensures Lacks(Optional('?', query), '#')
  {
    LacksIff("", '#');
    LacksIff(['?'], '#');
    if query.Some? {
      LacksConcat(['?'], query.value, '#');
    }
  }

  /** Reading what was written gives the same parts, with the path resolved. */
  lemma ReadResolves(url: Url)
    requires url.Splits()
    ensures Read(Written(url)) == Some(url.(path := ParsedPath(url.scheme, url.path)))
  {
    var place := "//" + url.host + url.path;
    var head := url.scheme + ":" + place;
    var rest := head + Optional('?', url.query);
    WrittenPlaceReads(url);
    HeadLacks(url, '?');
    HeadLacks(url, '#');
    LacksConcat(head, Optional('?', url.query), '#');
    OptionalLacks(url.query);
    SplitOptional(head, '?', url.query);
    SplitOptional(rest, '#', url.fragment);
    assert url.path == ['/'] + url.path[1..];
  }

  lemma ReadWritten(url: Url)
    requires url.WellFormed()
    ensures Read(Written(url)) == Some(url)
  {
    ReadResolves(url);
  }

  // ----- queries

  function SplitPairs(query: string): seq<string>
    decreases |query|
  {
    var (first, rest) := SplitOnce(query, '&');
    if rest.None? then [first]
    else
      SplitShorter(query, '&');
      [first] + SplitPairs(rest.value)
  }

  function DecodePair(pair: string): (Bytes, Bytes) {
    var (key, value) := SplitOnce(pair, '=');
    (FormDecode(key), if value.Some? then FormDecode(value.value) else [])
  }

  function DecodePairs(pairs: seq<string>): seq<(Bytes, Bytes)> {
    if pairs == [] then []
    else (if pairs[0] == "" then [] else [DecodePair(pairs[0])]) + DecodePairs(pairs[1..])
  }

  function QueryPairs(url: Url): seq<(Bytes, Bytes)> {
    DecodePairs(SplitPairs(if url.query.Some? then url.query.value else ""))
  }

  lemma FormEncodeLacks(bytes: Bytes, c: char)
    requires !FormChar(c)
    ensures Lacks(FormEncode(bytes), c)
  {
    FormEncodeDecodes(bytes);
    LacksIff(FormEncode(bytes), c);
  }

  lemma PairLacks(key: Bytes, value: Bytes, c: char)
    requires !FormChar(c) && c != '='
    ensures Lacks(FormEncode(key) + "=" + FormEncode(value), c)
  {
    FormEncodeLacks(key, c);
    FormEncodeLacks(value, c);
    LacksIff("=", c);
    LacksConcat(FormEncode(key), "=", c);
    LacksConcat(FormEncode(key) + "=", FormEncode(value), c);
  }

  lemma PairReads(key: Bytes, value: Bytes)
    ensures var pair := FormEncode(key) + "=" + FormEncode(value);
            && Lacks(pair, '&') && Lacks(pair, '#') && pair != ""
            && DecodePair(pair) == (Lossy(key), Lossy(value))
  {
    var k, v := FormEncode(key), FormEncode(value);
    PairLacks(key, value, '&');
    PairLacks(key, value, '#');
    FormEncodeLacks(key, '=');
    SplitOnceAt(k, '=', v);
    assert k + ['='] + v == k + "=" + v;
    DecodesLossy(key);
    DecodesLossy(value);
  }

  lemma DecodesLossy(bytes: Bytes)
    ensures FormDecode(FormEncode(bytes)) == Lossy(bytes)
  {
    FormEncodeDecodes(bytes);
  }

  /** A single pair reads as it was appended, up to bytes that are no text. */
  lemma AppendedPairReads(url: Url, key: Bytes, value: Bytes)
    requires url.query.None?
    ensures QueryPairs(url.AppendPair(key, value)) == [(Lossy(key), Lossy(value))]
    ensures Lacks(url.AppendPair(key, value).query.value, '#')
  {
    var pair := FormEncode(key) + "=" + FormEncode(value);
    PairReads(key, value);
    SplitOnceNone(pair, '&');
    assert DecodePairs([pair]) == [DecodePair(pair)] + DecodePairs([]);
  }
}
