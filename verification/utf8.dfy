/** UTF-8 text as bytes: which byte sequences are text (sections 3 and 4 of RFC 3629), where characters begin, and how
    bytes that are no text are made text. */
module Utf8Text {

  type Byte = b: int | 0 <= b < 256

  predicate Tail(s: seq<Byte>, i: nat) {
    i < |s| && 0x80 <= s[i] < 0xC0
  }

  predicate InRange(s: seq<Byte>, i: nat, low: int, high: int) {
    i < |s| && low <= s[i] <= high
  }

  /** The length of the character that the bytes start with, or 0 if they start with none. */
  function Width(s: seq<Byte>): (n: nat)
    ensures n <= |s| && n <= 4
  {
    if InRange(s, 0, 0x00, 0x7F) then 1
    else if InRange(s, 0, 0xC2, 0xDF) && Tail(s, 1) then 2
    else if InRange(s, 0, 0xE0, 0xE0) && InRange(s, 1, 0xA0, 0xBF) && Tail(s, 2) then 3
    else if (InRange(s, 0, 0xE1, 0xEC) || InRange(s, 0, 0xEE, 0xEF)) && Tail(s, 1) && Tail(s, 2) then 3
    else if InRange(s, 0, 0xED, 0xED) && InRange(s, 1, 0x80, 0x9F) && Tail(s, 2) then 3
    else if InRange(s, 0, 0xF0, 0xF0) && InRange(s, 1, 0x90, 0xBF) && Tail(s, 2) && Tail(s, 3) then 4
    else if InRange(s, 0, 0xF1, 0xF3) && Tail(s, 1) && Tail(s, 2) && Tail(s, 3) then 4
    else if InRange(s, 0, 0xF4, 0xF4) && InRange(s, 1, 0x80, 0x8F) && Tail(s, 2) && Tail(s, 3) then 4
    else 0
  }

  predicate Utf8(s: seq<Byte>) {
    s == [] || (Width(s) > 0 && Utf8(s[Width(s)..]))
  }

  /** The test on one byte that stands for a character boundary. */
  predicate IsCharBoundary(s: seq<Byte>, i: nat) {
    i == 0 || i == |s| || (i < |s| && !Tail(s, i))
  }

  /** Within a character the bytes are tails, and a part of it is no character. */
  lemma WithinCharacter(s: seq<Byte>, i: nat)
    requires 0 < i < Width(s)
    ensures Tail(s, i) && Width(s[..i]) == 0
  {
    assert s[..i][0] == s[0];
    assert i > 1 ==> s[..i][1] == s[1];
    assert i > 2 ==> s[..i][2] == s[2];
  }

  lemma WidthOfPrefix(s: seq<Byte>, i: nat)
    requires 0 < Width(s) <= i <= |s|
    ensures Width(s[..i]) == Width(s)
  {
    assert s[..i][0] == s[0];
    assert i > 1 ==> s[..i][1] == s[1];
    assert i > 2 ==> s[..i][2] == s[2];
    assert i > 3 ==> s[..i][3] == s[3];
  }

  lemma SplitSlices(s: seq<Byte>, w: nat, i: nat)
    requires w <= i <= |s|
    ensures s[w..][..i - w] == s[..i][w..] && s[w..][i - w..] == s[i..]
    ensures i < |s| ==> s[w..][i - w] == s[i]
  {
  }

  /** The byte test finds exactly the places that split valid text into valid text. */
  lemma {:induction false} BoundaryIsValidPrefix(s: seq<Byte>, i: nat)
    requires Utf8(s) && i <= |s|
    ensures IsCharBoundary(s, i) <==> Utf8(s[..i])
    ensures IsCharBoundary(s, i) ==> Utf8(s[i..])
    decreases |s|
  {
    var w := Width(s);
    if i == 0 {
      assert s[i..] == s;
    } else if i < w {
      WithinCharacter(s, i);
    } else {
      BoundaryIsValidPrefix(s[w..], i - w);
      WidthOfPrefix(s, i);
      SplitSlices(s, w, i);
      if i == w && i < |s| {
        assert s[w..][0] == s[i];
      }
    }
  }

  // ----- replacing what is not text

  const REPLACEMENT: seq<Byte> := [0xEF, 0xBF, 0xBD]

  /** How many bytes, none of which starts a character here, are replaced together: the longest start of a character. */
  function BrokenLength(s: seq<Byte>): (n: nat)
    requires s != [] && Width(s) == 0
    ensures 1 <= n <= |s|
  {
    if || (InRange(s, 0, 0xE0, 0xE0) && InRange(s, 1, 0xA0, 0xBF)) || (InRange(s, 0, 0xED, 0xED) && InRange(s, 1, 0x80, 0x9F))
       || ((InRange(s, 0, 0xE1, 0xEC) || InRange(s, 0, 0xEE, 0xEF)) && Tail(s, 1))
    then 2
    else if || (InRange(s, 0, 0xF0, 0xF0) && InRange(s, 1, 0x90, 0xBF)) || (InRange(s, 0, 0xF4, 0xF4) && InRange(s, 1, 0x80, 0x8F))
            || (InRange(s, 0, 0xF1, 0xF3) && Tail(s, 1))
    then if Tail(s, 2) then 3 else 2
    else 1
  }

  /** The bytes as text, with the replacement character for what is no character. */
  function Lossy(s: seq<Byte>): seq<Byte> {
    if s == [] then []
    else if Width(s) > 0 then s[..Width(s)] + Lossy(s[Width(s)..])
    else REPLACEMENT + Lossy(s[BrokenLength(s)..])
  }

  lemma WidthOfLonger(s: seq<Byte>, rest: seq<Byte>)
    requires Width(s) == |s| > 0
    ensures Width(s + rest) == |s|
  {
  }

  lemma Utf8Cons(s: seq<Byte>, rest: seq<Byte>)
    requires Width(s) == |s| > 0 && Utf8(rest)
    ensures Utf8(s + rest)
  {
    WidthOfLonger(s, rest);
    assert (s + rest)[|s|..] == rest;
  }

  lemma {:induction false} LossyIsText(s: seq<Byte>)
    ensures Utf8(Lossy(s))
    decreases |s|
  {
    if s != [] {
      if Width(s) > 0 {
        LossyIsText(s[Width(s)..]);
        WidthOfPrefix(s, Width(s));
        Utf8Cons(s[..Width(s)], Lossy(s[Width(s)..]));
      } else {
        LossyIsText(s[BrokenLength(s)..]);
        Utf8Cons(REPLACEMENT, Lossy(s[BrokenLength(s)..]));
      }
    }
  }

  /** Nothing is replaced in text, and something in everything else. */
  lemma {:induction false} LossyKeepsText(s: seq<Byte>)
    ensures Lossy(s) == s <==> Utf8(s)
    decreases |s|
  {
    if Utf8(s) && s != [] {
      LossyKeepsText(s[Width(s)..]);
    }
    LossyIsText(s);
  }
}
