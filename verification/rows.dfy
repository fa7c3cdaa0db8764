/** Texts as sequences of rows, and what editing whole rows does to the characters.

    A text of `n` line breaks has `n + 1` rows. Every row but the last carries its line
    break; the last row carries the mark `End` instead, so that rows are never empty,
    every row boundary is a distinct position, and a last row differs from an inner row
    with the same characters.
 */
module Rows {
  import opened Patching

  datatype Cell = Ch(c: char) | End

  type Doc = seq<Cell>
  type Row = seq<Cell>
  type Text = seq<Row>

  predicate Terminator(cell: Cell) {
    cell == End || cell == Ch('\n')
  }

  /** Nothing, or a number of whole rows. */
  predicate Complete(doc: Doc) {
    doc == [] || Terminator(doc[|doc| - 1])
  }

  predicate IsRow(row: Row) {
    row != [] && Terminator(row[|row| - 1]) && forall i | 0 <= i < |row| - 1 :: !Terminator(row[i])
  }

  predicate EndsText(row: Row) {
    row != [] && row[|row| - 1] == End
  }

  /** At least one row; the last row, and no other, ends the text. */
  predicate IsText(text: Text) {
    text != [] && forall i | 0 <= i < |text| :: IsRow(text[i]) && (EndsText(text[i]) <==> i == |text| - 1)
  }

  // ----- rows and documents

  function Join(text: Text): Doc {
    if text == [] then [] else text[0] + Join(text[1..])
  }

  function FirstTerminator(doc: Doc): (n: nat)
    requires doc != [] && Complete(doc)
    ensures n < |doc|
  {
    if Terminator(doc[0]) then 0 else 1 + FirstTerminator(doc[1..])
  }

  /** The first terminator closes a row, and whole rows follow it. */
  lemma {:induction false} FirstTerminatorCloses(doc: Doc)
    requires doc != [] && Complete(doc)
    ensures IsRow(doc[..FirstTerminator(doc) + 1]) && Complete(doc[FirstTerminator(doc) + 1..])
    decreases |doc|
  {
    if !Terminator(doc[0]) {
      FirstTerminatorCloses(doc[1..]);
      var n := FirstTerminator(doc[1..]);
      assert doc[..n + 2] == [doc[0]] + doc[1..][..n + 1];
      assert doc[n + 2..] == doc[1..][n + 1..];
    }
  }

  function Lines(doc: Doc): Text
    requires Complete(doc)
    decreases |doc|
  {
    if doc == [] then []
    else
      FirstTerminatorCloses(doc);
      var n := FirstTerminator(doc);
      [doc[..n + 1]] + Lines(doc[n + 1..])
  }

  lemma {:induction false} FirstTerminatorOfRow(row: Row, rest: Doc)
    requires IsRow(row) && Complete(rest)
    ensures Complete(row + rest) && FirstTerminator(row + rest) == |row| - 1
    decreases |row|
  {
    if !Terminator(row[0]) {
      FirstTerminatorOfRow(row[1..], rest);
      assert (row + rest)[1..] == row[1..] + rest;
    }
  }

  lemma LinesCons(row: Row, rest: Doc)
    requires IsRow(row) && Complete(rest)
    ensures Complete(row + rest) && Lines(row + rest) == [row] + Lines(rest)
  {
    FirstTerminatorOfRow(row, rest);
    assert (row + rest)[..|row|] == row && (row + rest)[|row|..] == rest;
  }

  lemma JoinCons(row: Row, rest: Text)
    ensures Join([row] + rest) == row + Join(rest)
  {
    assert ([row] + rest)[1..] == rest;
  }

  /** Every document is its first row and the rest. */
  lemma FirstRow(doc: Doc) returns (row: Row, rest: Doc)
    requires doc != [] && Complete(doc)
    ensures IsRow(row) && Complete(rest) && doc == row + rest && |rest| < |doc|
    ensures Lines(doc) == [row] + Lines(rest)
  {
    FirstTerminatorCloses(doc);
    var n := FirstTerminator(doc);
    row, rest := doc[..n + 1], doc[n + 1..];
  }

  ghost predicate AllRows(text: Text) {
    forall i | 0 <= i < |text| :: IsRow(text[i])
  }

  /** Splitting what has been joined gives the rows back. */
  lemma {:induction false} LinesJoin(text: Text)
    requires AllRows(text)
    ensures Complete(Join(text)) && Lines(Join(text)) == text
    decreases |text|
  {
    if text != [] {
      assert text == [text[0]] + text[1..];
      LinesJoin(text[1..]);
      JoinCons(text[0], text[1..]);
      LinesCons(text[0], Join(text[1..]));
    }
  }

  lemma {:induction false} JoinLines(doc: Doc)
    requires Complete(doc)
    ensures Join(Lines(doc)) == doc && AllRows(Lines(doc))
    decreases |doc|
  {
    if doc != [] {
      var row, rest := FirstRow(doc);
      JoinLines(rest);
      JoinCons(row, Lines(rest));
      AllRowsCons(row, Lines(rest));
    }
  }

  lemma AllRowsCons(row: Row, rest: Text)
    requires IsRow(row) && AllRows(rest)
    ensures AllRows([row] + rest)
  {
  }

  lemma {:induction false} JoinConcat(a: Text, b: Text)
    ensures Join(a + b) == Join(a) + Join(b)
    decreases |a|
  {
    if a == [] {
      assert a + b == b;
    } else {
      JoinConcat(a[1..], b);
      assert (a + b)[1..] == a[1..] + b;
    }
  }

  lemma Associate<T>(a: seq<T>, b: seq<T>, c: seq<T>)
    ensures a + b + c == a + (b + c)
  {
  }

  /** Whole rows split the same wherever the document is cut between them. */
  lemma {:induction false} LinesConcat(a: Doc, b: Doc)
    requires Complete(a) && Complete(b)
    ensures Complete(a + b) && Lines(a + b) == Lines(a) + Lines(b)
    decreases |a|
  {
    if a == [] {
      assert a + b == b;
    } else {
      var row, rest := FirstRow(a);
      LinesConcat(rest, b);
      LinesCons(row, rest + b);
      Associate(row, rest, b);
      Associate([row], Lines(rest), Lines(b));
    }
  }

  // ----- characters

  function Chars(doc: Doc): string {
    if doc == [] then [] else (if doc[0].Ch? then [doc[0].c] else []) + Chars(doc[1..])
  }

  /** The string with its end marked. */
  function Closed(s: string): (doc: Doc)
    ensures Complete(doc) && doc != [] && doc[|doc| - 1] == End && |doc| == |s| + 1
    ensures forall i | 0 <= i < |s| :: doc[i] == Ch(s[i])
  {
    if s == [] then [End] else [Ch(s[0])] + Closed(s[1..])
  }

  function StringOf(text: Text): string { Chars(Join(text)) }

  function TextOf(s: string): Text { Lines(Closed(s)) }

  lemma {:induction false} CharsConcat(a: Doc, b: Doc)
    ensures Chars(a + b) == Chars(a) + Chars(b)
    decreases |a|
  {
    if a == [] {
      assert a + b == b;
    } else {
      CharsConcat(a[1..], b);
      assert (a + b)[1..] == a[1..] + b;
    }
  }

  lemma {:induction false} CharsClosed(s: string)
    ensures Chars(Closed(s)) == s
    decreases |s|
  {
    if s != [] {
      CharsClosed(s[1..]);
      assert Closed(s)[1..] == Closed(s[1..]);
    } else {
      assert Chars([End]) == Chars([]);
    }
  }

  lemma {:induction false} ClosedChars(doc: Doc)
    requires EndsOnce(doc)
    ensures Closed(Chars(doc)) == doc
    decreases |doc|
  {
    assert doc == [doc[0]] + doc[1..];
    if |doc| == 1 {
      assert doc[1..] == [];
    } else {
      ClosedChars(doc[1..]);
      assert Chars(doc)[1..] == Chars(doc[1..]);
    }
  }

  lemma {:induction false} EndInText(text: Text)
    requires IsText(text)
    ensures EndsOnce(Join(text))
    decreases |text|
  {
    var row := text[0];
    assert IsRow(row);
    assert EndsText(row) <==> |text| == 1;
    assert forall i | 0 <= i < |row| :: row[i] == End ==> i == |row| - 1;
    if |text| == 1 {
      assert Join(text) == row;
    } else {
      var rest := text[1..];
      assert forall i | 0 <= i < |rest| :: rest[i] == text[i + 1];
      EndInText(rest);
      assert Join(text) == row + Join(rest);
    }
  }

  /** Texts and strings are in one-to-one correspondence. */
  lemma TextOfString(text: Text)
    requires IsText(text)
    ensures TextOf(StringOf(text)) == text
  {
    EndInText(text);
    ClosedChars(Join(text));
    LinesJoin(text);
  }

  lemma StringOfText(s: string)
    ensures IsText(TextOf(s)) && StringOf(TextOf(s)) == s
  {
    var doc := Closed(s);
    JoinLines(doc);
    CharsClosed(s);
    RowsOfClosed(doc);
  }

  /** `End` is the last cell and no other. */
  ghost predicate EndsOnce(doc: Doc) {
    doc != [] && forall i | 0 <= i < |doc| :: (doc[i] == End <==> i == |doc| - 1)
  }

  lemma EndsOnceRest(row: Row, rest: Doc)
    requires IsRow(row) && EndsOnce(row + rest)
    ensures EndsText(row) <==> rest == []
    ensures rest != [] ==> EndsOnce(rest)
  {
    var doc := row + rest;
    assert row[|row| - 1] == doc[|row| - 1];
    assert forall i | 0 <= i < |rest| :: rest[i] == doc[|row| + i];
  }

  lemma {:induction false} RowsOfClosed(doc: Doc)
    requires EndsOnce(doc) && Complete(doc)
    ensures IsText(Lines(doc))
    decreases |doc|
  {
    var row, rest := FirstRow(doc);
    EndsOnceRest(row, rest);
    if rest == [] {
      assert Lines(doc) == [row];
    } else {
      RowsOfClosed(rest);
      IsTextCons(row, Lines(rest));
    }
  }

  lemma IsTextCons(row: Row, rest: Text)
    requires IsRow(row) && !EndsText(row) && IsText(rest)
    ensures IsText([row] + rest)
  {
    var text := [row] + rest;
    forall i | 0 <= i < |text| ensures IsRow(text[i]) && (EndsText(text[i]) <==> i == |text| - 1) {
      if i > 0 {
        assert text[i] == rest[i - 1];
      }
    }
  }

  /** The character position at which a row starts; the end of the text for the row count. */
  function RowOffset(text: Text, row: int): int
    requires 0 <= row <= |text|
  {
    |StringOf(text[..row])|
  }

  /** Replacing whole rows of a text is replacing the characters between the row offsets,
      provided the result is a text again. */
  lemma ReplaceRowsIsReplaceChars(text: Text, a: int, b: int, ins: Text)
    requires 0 <= a <= b <= |text| && IsText(text) && IsText(Splice(text, a, b, ins))
    ensures 0 <= RowOffset(text, a) <= RowOffset(text, b) <= |StringOf(text)|
    ensures TextOf(Splice(StringOf(text), RowOffset(text, a), RowOffset(text, b), StringOf(ins))) == Splice(text, a, b, ins)
  {
    StringConcat(text[..a], text[a..]);
    StringConcat(text[..b], text[b..]);
    StringConcat(text[..a], text[a..b]);
    StringConcat(text[..a] + ins, text[b..]);
    StringConcat(text[..a], ins);
    assert text == text[..a] + text[a..] && text == text[..b] + text[b..] && text[..b] == text[..a] + text[a..b];
    assert Splice(text, a, b, ins) == text[..a] + ins + text[b..];
    TextOfString(Splice(text, a, b, ins));
    assert StringOf(text)[..RowOffset(text, a)] == StringOf(text[..a]);
    assert StringOf(text)[RowOffset(text, b)..] == StringOf(text[b..]);
  }

  lemma StringConcat(a: Text, b: Text)
    ensures StringOf(a + b) == StringOf(a) + StringOf(b)
  {
    JoinConcat(a, b);
    CharsConcat(Join(a), Join(b));
  }
}
