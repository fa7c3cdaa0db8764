/** The update that follows a rejection: when the diff base takes in what the rejection has done. */
module RejectUpdates {
  import opened ActionLog
  import opened Merging
  import opened NonConflictingEdits
  import opened Options
  import opened Patching
  import opened Rebasing
  import opened Recovery
  import opened Reverting
  import opened Review
  import opened RowEdits
  import opened Rows
  import opened Selection
  import opened TextPatches
  import opened Widening

  // ----- the row edits found for a reversal

  /** What stands, after the reversal, where the hunk was. */
  lemma RevertedStart(base: Text, hunks: seq<Edit>, text: Text, reverted: set<Edit>, selected: seq<Edit>, rows: seq<Edit>,
                      result: Text, k: int)
    requires Reverts(base, hunks, text, reverted, selected, rows, result) && 0 <= k < |selected|
    ensures |rows| == |selected| && Fits(selected[k], base, text) && 0 <= rows[k].newStart < |result|
    ensures var h := selected[k];
            if h.OldLen() > 0 then result[rows[k].newStart] == base[h.oldStart]
            else h.newEnd < |text| && result[rows[k].newStart] == text[h.newEnd]
  {
    var h, s := selected[k], rows[k];
    RevertedAt(base, hunks, text, reverted, selected, rows, result, k);
    RevertedRows(base, hunks, text, reverted, selected, rows, result);
    WholeRowsIn(text, rows, result, k);
    if h.OldLen() > 0 {
      LandedRows(text, UndoAll(selected), base, k);
      assert result[s.newStart..s.newEnd][0] == base[h.oldStart..h.oldEnd][0];
    } else {
      assert GapSame(text, rows, result, k + 1);
      if k + 1 < |rows| {
        RevertedAt(base, hunks, text, reverted, selected, rows, result, k + 1);
        SelectedApart(hunks, reverted);
        assert selected[k].newEnd < selected[k + 1].newStart;
      }
      assert text[OldGapStart(rows, k + 1)..OldGapEnd(rows, |text|, k + 1)][0]
          == result[NewGapStart(rows, k + 1)..NewGapEnd(rows, |result|, k + 1)][0];
    }
  }

  /** A hunk at the end of the text gives the base's last row back. */
  lemma RevertedEnd(base: Text, hunks: seq<Edit>, text: Text, reverted: set<Edit>, selected: seq<Edit>, rows: seq<Edit>,
                    result: Text, k: int)
    requires Reverts(base, hunks, text, reverted, selected, rows, result) && 0 <= k < |selected|
    requires selected[k].newEnd == |text|
    ensures result != [] && base != [] && result[|result| - 1] == base[|base| - 1]
  {
    var h, s := selected[k], rows[k];
    RevertedAt(base, hunks, text, reverted, selected, rows, result, k);
    RevertedRows(base, hunks, text, reverted, selected, rows, result);
    WholeRowsIn(text, rows, result, k);
    LandedRows(text, UndoAll(selected), base, k);
    assert result[s.newStart..s.newEnd][s.NewLen() - 1] == base[h.oldStart..h.oldEnd][h.OldLen() - 1];
  }

  /** The row edit found for one reverted hunk. */
  lemma FoundForHunk(base: Text, hunks: seq<Edit>, text: Text, reverted: set<Edit>, selected: seq<Edit>, rows: seq<Edit>,
                     result: Text, k: int)
    requires Reverts(base, hunks, text, reverted, selected, rows, result) && 0 <= k < |selected|
    ensures |rows| == |selected| && InTexts(rows[k], text, result) && rows[k].oldStart < |text| && rows[k].newStart < |result|
    ensures rows[k].oldEnd == |text| <==> rows[k].newEnd == |result|
    ensures FoundFor(FoundRows(rows[k], text, result), selected[k], base, text)
  {
    RevertedAt(base, hunks, text, reverted, selected, rows, result, k);
    RevertedRows(base, hunks, text, reverted, selected, rows, result);
    WholeRowsIn(text, rows, result, k);
    RevertedStart(base, hunks, text, reverted, selected, rows, result, k);
    if selected[k].newEnd == |text| {
      RevertedEnd(base, hunks, text, reverted, selected, rows, result, k);
    }
  }

  /** Between two row edits lies as much on both sides. */
  lemma FoundGap(base: Text, hunks: seq<Edit>, text: Text, reverted: set<Edit>, selected: seq<Edit>, rows: seq<Edit>,
                 result: Text, i: int)
    requires Reverts(base, hunks, text, reverted, selected, rows, result) && 0 < i < |selected|
    ensures |rows| == |selected| && rows[i - 1].oldStart < |text| && rows[i - 1].newStart < |result|
    ensures 0 <= rows[i - 1].oldStart && 0 <= rows[i - 1].newStart && 0 <= rows[i].oldStart && 0 <= rows[i].newStart
    ensures rows[i].oldStart < |text| && rows[i].newStart < |result|
    ensures var e, f := FoundRows(rows[i - 1], text, result), FoundRows(rows[i], text, result);
            f.newStart - e.newEnd == f.oldStart - e.oldEnd
  {
    RevertedRows(base, hunks, text, reverted, selected, rows, result);
    WholeRowsIn(text, rows, result, i - 1);
    WholeRowsIn(text, rows, result, i);
    GapLength(text, rows, result, i);
    assert rows[i - 1].newEnd < rows[i].newStart;
  }

  /** The row edits that the diff between a text and its reversal finds, before they are merged. */
  ghost predicate IsFound(edits: seq<Edit>, rows: seq<Edit>, text: Text, result: Text) {
    && |edits| == |rows|
    && forall k | 0 <= k < |rows| ::
         && 0 <= rows[k].oldStart < |text| && 0 <= rows[k].newStart < |result|
         && edits[k] == FoundRows(rows[k], text, result)
  }

  /** The characters that the rejection replaces, and the row edits found for them. */
  lemma RevertedEdits(base: Text, hunks: seq<Edit>, text: Text, reverted: set<Edit>, selected: seq<Edit>, rows: seq<Edit>,
                      result: Text)
    returns (chars: seq<Edit>, edits: seq<Edit>)
    requires Reverts(base, hunks, text, reverted, selected, rows, result)
    ensures forall k | 0 <= k < |rows| :: InTexts(rows[k], text, result)
    ensures chars == AllRowChars(rows, text, result) && CharPatch(Join(text), chars, Join(result))
    ensures edits == MappedEdits(Join(text), chars, Join(result), |chars|) && IsFound(edits, rows, text, result)
  {
    RevertedRows(base, hunks, text, reverted, selected, rows, result);
    chars := RowCharsPatch(text, rows, result);
    edits := MappedEdits(Join(text), chars, Join(result), |chars|);
    forall k | 0 <= k < |rows|
      ensures 0 <= rows[k].oldStart < |text| && 0 <= rows[k].newStart < |result| && edits[k] == FoundRows(rows[k], text, result)
    {
      FoundForHunk(base, hunks, text, reverted, selected, rows, result, k);
      WidenedRowChars(rows[k], text, result);
      MappedAt(Join(text), chars, Join(result), |chars|, k);
    }
  }

  lemma FoundGaps(base: Text, hunks: seq<Edit>, text: Text, reverted: set<Edit>, selected: seq<Edit>, rows: seq<Edit>,
                  result: Text, edits: seq<Edit>)
    requires Reverts(base, hunks, text, reverted, selected, rows, result) && IsFound(edits, rows, text, result)
    ensures forall i, j | 0 <= i < j < |edits| && j == i + 1 ::
              edits[j].newStart - edits[i].newEnd == edits[j].oldStart - edits[i].oldEnd
  {
    forall i, j | 0 <= i < j < |edits| && j == i + 1
      ensures edits[j].newStart - edits[i].newEnd == edits[j].oldStart - edits[i].oldEnd
    {
      FoundGap(base, hunks, text, reverted, selected, rows, result, j);
    }
  }

  lemma ReversalFound(base: Text, hunks: seq<Edit>, text: Text, reverted: set<Edit>, selected: seq<Edit>, rows: seq<Edit>,
                      result: Text, edits: seq<Edit>)
    requires Reverts(base, hunks, text, reverted, selected, rows, result) && IsFound(edits, rows, text, result)
    ensures Reversal(base, hunks, text, reverted, selected, edits)
  {
    forall k | 0 <= k < |edits| ensures FoundFor(edits[k], selected[k], base, text) {
      FoundForHunk(base, hunks, text, reverted, selected, rows, result, k);
    }
    FoundGaps(base, hunks, text, reverted, selected, rows, result, edits);
  }

  // ----- the update

  /** The hunks that the rejection reverts, but for one that it leaves as it is. */
  ghost function RevertedHunks(t: Tracked, ranges: seq<RowRange>): set<Edit> {
    Effective(ScannedHunks(t.unreviewed, ranges), t.diffBase, t.snapshot.text)
  }

  ghost function SlippingHunks(t: Tracked, ranges: seq<RowRange>): set<Edit> {
    Slipping(t.diffBase, t.unreviewed, t.snapshot.text, RevertedHunks(t, ranges))
  }

  /** The rows that the rejection replaces, and the rows that it puts there. */
  ghost function ReplacedRows(t: Tracked, ranges: seq<RowRange>): seq<Edit> {
    Landed(UndoAll(Selected(t.unreviewed, RevertedHunks(t, ranges))))
  }

  lemma RejectOnce(log: Log, ranges: seq<RowRange>) returns (after: Log)
    requires Quiet(log) && Selected(log.tracked.value.unreviewed, ScannedHunks(log.tracked.value.unreviewed, ranges)) != []
    ensures var event := Reject(ranges, Reverted(log.tracked.value, ranges)); Enabled(log, event) && after == Step(log, event)
    ensures var t, text := log.tracked.value, log.buffer.text;
            && text == t.snapshot.text && Hunks(t.diffBase, t.unreviewed, text)
            && after.tracked == Some(t.Schedule(User, after.buffer)) && after.buffer.version == t.snapshot.version + 1
            && Reverts(t.diffBase, t.unreviewed, text, RevertedHunks(t, ranges),
                       Selected(t.unreviewed, RevertedHunks(t, ranges)), ReplacedRows(t, ranges), after.buffer.text)
  {
    var t := log.tracked.value;
    var chosen := ScannedHunks(t.unreviewed, ranges);
    ActionLog.RevertedText(t, ranges);
    EffectiveOnly(t.diffBase, t.unreviewed, t.snapshot.text, chosen);
    assert |UndoAll(Selected(t.unreviewed, chosen))| > 0;
    after := Step(log, Reject(ranges, Reverted(t, ranges)));
  }

  /** The diff base that an update computes is as much longer as the edits that it takes in. */
  lemma AbsorbedLength(base: Text, hunks: seq<Edit>, text: Text, edits: seq<Edit>, result: Text)
    requires Patches(base, hunks, text) && Patches(text, edits, result)
    ensures |Absorbed(base, hunks, edits, result)| == |base| + TotalGrowth(FreeEdits(edits, hunks))
    ensures FreeEdits(edits, hunks) == [] ==> Absorbed(base, hunks, edits, result) == base
  {
    PatchesPlaced(text, edits, result);
    AbsorbedApplies(base, hunks, text, edits, result);
    ApplyLength(base, AllToBase(hunks, FreeEdits(edits, hunks)), result);
    ToBaseGrowth(hunks, FreeEdits(edits, hunks));
    if FreeEdits(edits, hunks) == [] {
      assert AllToBase(hunks, []) == [];
    }
  }

  /** The hunk changes rows. */
  ghost predicate ChangesRows(h: Edit, base: Text, text: Text) {
    Fits(h, base, text) ==> base[h.oldStart..h.oldEnd] != text[h.newStart..h.newEnd]
  }

  /** Every hunk changes rows, and no two of the slipping ones change the number of rows in opposite directions. */
  ghost predicate OneWay(t: Tracked, slipping: set<Edit>) {
    && (forall h | h in t.unreviewed :: ChangesRows(h, t.diffBase, t.snapshot.text))
    && forall g, h | g in slipping && h in slipping :: !(g.Growth() > 0 && h.Growth() < 0)
  }

  /** A loose hunk with as many rows on both sides has the same rows. */
  lemma LooseGrows(h: Edit, base: Text, text: Text)
    requires Fits(h, base, text) && Loose(h, base, text) && ChangesRows(h, base, text)
    ensures h.Growth() != 0
  {
    assert h.OldLen() == 1 ==> base[h.oldStart..h.oldEnd] == [base[h.oldStart]];
    assert h.NewLen() == 1 ==> text[h.newStart..h.newEnd] == [text[h.newStart]];
  }

  lemma {:induction false} SameSign(hunks: seq<Edit>, sign: int)
    requires sign == 1 || sign == -1
    requires forall h | h in hunks :: h.Growth() * sign > 0
    ensures TotalGrowth(hunks) * sign >= |hunks|
    decreases |hunks|
  {
    if hunks != [] {
      assert Last(hunks) in hunks && forall h | h in Init(hunks) :: h in hunks;
      SameSign(Init(hunks), sign);
    }
  }

  /** Slipping hunks that go one way change the length. */
  lemma SlipsChange(t: Tracked, slipping: set<Edit>, reverted: set<Edit>)
    requires Hunks(t.diffBase, t.unreviewed, t.snapshot.text) && OneWay(t, slipping)
    requires slipping == Slipping(t.diffBase, t.unreviewed, t.snapshot.text, reverted)
    ensures TotalGrowth(Selected(t.unreviewed, slipping)) == 0 <==> slipping == {}
  {
    var slips := Selected(t.unreviewed, slipping);
    SelectedIn(t.unreviewed, slipping);
    forall h | h in slipping ensures h.Growth() != 0 {
      var k :| 0 <= k < |t.unreviewed| && t.unreviewed[k] == h;
      HunkFits(t.diffBase, t.unreviewed, t.snapshot.text, k);
      LooseGrows(h, t.diffBase, t.snapshot.text);
    }
    NoneChosen(t.unreviewed);
    if slipping != {} {
      var g :| g in slipping;
      SameSign(slips, if g.Growth() > 0 then 1 else -1);
      assert g in slips;
    }
  }

  /** The diff base after the update. */
  lemma NewBase(t: Tracked, ranges: seq<RowRange>, found: seq<Edit>, edits: seq<Edit>, result: Text) returns (newBase: Text)
    requires Reversal(t.diffBase, t.unreviewed, t.snapshot.text, RevertedHunks(t, ranges),
                      Selected(t.unreviewed, RevertedHunks(t, ranges)), found)
    requires edits == Runs(found) && Patches(t.snapshot.text, edits, result)
    ensures newBase == Absorbed(t.diffBase, t.unreviewed, edits, result)
    ensures FreeEdits(edits, t.unreviewed) == [] <==> SlippingHunks(t, ranges) == {}
    ensures SlippingHunks(t, ranges) == {} ==> newBase == t.diffBase
    ensures |newBase| == |t.diffBase| - TotalGrowth(Selected(t.unreviewed, SlippingHunks(t, ranges)))
    ensures OneWay(t, SlippingHunks(t, ranges)) ==> (newBase == t.diffBase <==> SlippingHunks(t, ranges) == {})
  {
    var slipping := SlippingHunks(t, ranges);
    newBase := Absorbed(t.diffBase, t.unreviewed, edits, result);
    FreeRunsAreSlips(t.diffBase, t.unreviewed, t.snapshot.text, RevertedHunks(t, ranges),
                     Selected(t.unreviewed, RevertedHunks(t, ranges)), found);
    AbsorbedLength(t.diffBase, t.unreviewed, t.snapshot.text, edits, result);
    if OneWay(t, slipping) {
      SlipsChange(t, slipping, RevertedHunks(t, ranges));
    }
  }

  /** After a rejection, the update with the row edits found for exactly the characters that it has replaced. The diff base
      takes in none of them if and only if no reverted hunk slips; otherwise it gets back, once more, as many rows as the
      slipping hunks have taken away. So it stays as it is if and only if no hunk slips, unless slips in opposite directions
      cancel out. */
  lemma RejectNotAbsorbedIff(log: Log, ranges: seq<RowRange>)
    returns (after: Log, chars: seq<Edit>, edits: seq<Edit>, begun: Log)
    requires Quiet(log) && Selected(log.tracked.value.unreviewed, ScannedHunks(log.tracked.value.unreviewed, ranges)) != []
    ensures var event := Reject(ranges, Reverted(log.tracked.value, ranges)); Enabled(log, event) && after == Step(log, event)
    ensures var rows := ReplacedRows(log.tracked.value, ranges);
            && (forall k | 0 <= k < |rows| :: InTexts(rows[k], log.buffer.text, after.buffer.text))
            && chars == AllRowChars(rows, log.buffer.text, after.buffer.text)
    ensures CharPatch(Join(log.buffer.text), chars, Join(after.buffer.text))
    ensures edits == Runs(MappedEdits(Join(log.buffer.text), chars, Join(after.buffer.text), |chars|))
    ensures Enabled(after, BeginTrack(edits)) && begun == Step(after, BeginTrack(edits))
    ensures var t, slipping := log.tracked.value, SlippingHunks(log.tracked.value, ranges);
            var newBase := begun.tracked.value.job.value.newBase;
            && (FreeEdits(edits, t.unreviewed) == [] <==> slipping == {})
            && (slipping == {} ==> newBase == t.diffBase)
            && |newBase| == |t.diffBase| - TotalGrowth(Selected(t.unreviewed, slipping))
            && (OneWay(t, slipping) ==> (newBase == t.diffBase <==> slipping == {}))
  {
    var t, text := log.tracked.value, log.buffer.text;
    var reverted, rows := RevertedHunks(t, ranges), ReplacedRows(t, ranges);
    var selected := Selected(t.unreviewed, reverted);
    after := RejectOnce(log, ranges);
    var result := after.buffer.text;
    var found;
    chars, found := RevertedEdits(t.diffBase, t.unreviewed, text, reverted, selected, rows, result);
    ReversalFound(t.diffBase, t.unreviewed, text, reverted, selected, rows, result, found);
    edits := UpdateEdits(text, chars, result, found);
    begun := Step(after, BeginTrack(edits));
    var newBase := NewBase(t, ranges, found, edits, result);
  }

  lemma UpdateEdits(text: Text, chars: seq<Edit>, result: Text, found: seq<Edit>) returns (edits: seq<Edit>)
    requires IsText(text) && IsText(result) && CharPatch(Join(text), chars, Join(result))
    requires found == MappedEdits(Join(text), chars, Join(result), |chars|)
    ensures edits == Runs(found) && Patches(text, edits, result) && NewApart(edits)
  {
    LinesJoin(text);
    LinesJoin(result);
    RunsPatchAll(Join(text), chars, Join(result), found);
    edits := Runs(found);
  }

  // ----- rejections that the diff base takes in

  /** A text that is being reviewed, with nothing pending. */
  function Reviewed(base: Text, hunks: seq<Edit>, text: Text): Log {
    Log(Snapshot(text, 0), Some(Tracked(base, hunks, Snapshot(text, 0), Modified, [], None)))
  }

  lemma ReviewedIsQuiet(base: Text, hunks: seq<Edit>, text: Text)
    requires IsText(base) && IsText(text) && IsReview(base, hunks, text)
    ensures Quiet(Reviewed(base, hunks, text))
  {
  }

  function CharRow(c: char): Row {
    [Ch(c), Ch('\n')]
  }

  /** The agent has deleted a blank row and the row behind it, in front of another blank row. */
  function BlankDeleted(): Log {
    Reviewed([CharRow('a'), BLANK, CharRow('x'), BLANK, [Ch('c'), End]], [Edit(1, 3, 1, 1)], [CharRow('a'), BLANK, [Ch('c'), End]])
  }

  lemma BlankDeletedIsQuiet() returns (log: Log, base: Text, h: Edit, text: Text)
    ensures log == BlankDeleted() && log == Reviewed(base, [h], text) && Quiet(log)
    ensures h == Edit(1, 3, 1, 1) && Fits(h, base, text) && Shifted(h, base, text)
  {
    base, text := [CharRow('a'), BLANK, CharRow('x'), BLANK, [Ch('c'), End]], [CharRow('a'), BLANK, [Ch('c'), End]];
    h := Edit(1, 3, 1, 1);
    log := Reviewed(base, [h], text);
    OneHunk(base, h, text);
    ReviewedIsQuiet(base, [h], text);
  }

  lemma BlankDeletionSlips(log: Log, base: Text, h: Edit, text: Text, ranges: seq<RowRange>)
    requires log == Reviewed(base, [h], text) && h == Edit(1, 3, 1, 1) && Shifted(h, base, text) && ranges == [RowRange(0, 2)]
    ensures Selected([h], ScannedHunks([h], ranges)) == [h]
    ensures TotalGrowth(Selected([h], SlippingHunks(log.tracked.value, ranges))) == -2
  {
    assert FirstReaching(ranges, 1) == 0;
    OneSelected(h, ScannedHunks([h], ranges));
    OneSelected(h, SlippingHunks(log.tracked.value, ranges));
  }

  /** Rejecting that deletion gives both rows back, and the update takes two rows into the diff base, which then has them
      twice. */
  lemma RejectionAbsorbed(ranges: seq<RowRange>) returns (log: Log, after: Log, chars: seq<Edit>, edits: seq<Edit>, begun: Log)
    requires ranges == [RowRange(0, 2)]
    ensures log == BlankDeleted() && Quiet(log)
    ensures var event := Reject(ranges, Reverted(log.tracked.value, ranges)); Enabled(log, event) && after == Step(log, event)
    ensures CharPatch(Join(log.buffer.text), chars, Join(after.buffer.text))
    ensures edits == Runs(MappedEdits(Join(log.buffer.text), chars, Join(after.buffer.text), |chars|))
    ensures Enabled(after, BeginTrack(edits)) && begun == Step(after, BeginTrack(edits))
    ensures |begun.tracked.value.job.value.newBase| == |log.tracked.value.diffBase| + 2
  {
    var base, h, text;
    log, base, h, text := BlankDeletedIsQuiet();
    BlankDeletionSlips(log, base, h, text, ranges);
    after, chars, edits, begun := RejectNotAbsorbedIff(log, ranges);
  }

  lemma OneHunk(base: Text, h: Edit, text: Text)
    requires Fits(h, base, text) && base[..h.oldStart] == text[..h.newStart] && base[h.oldEnd..] == text[h.newEnd..]
    ensures IsReview(base, [h], text)
  {
    assert base[0..h.oldStart] == text[0..h.newStart];
    assert base[h.oldEnd..|base|] == text[h.newEnd..|text|];
    assert |base[..h.oldStart]| == |text[..h.newStart]|;
    forall i | 0 <= i <= 1 ensures GapSame(base, [h], text, i) {
    }
  }

  lemma OneSelected(h: Edit, chosen: set<Edit>)
    ensures Selected([h], chosen) == if h in chosen then [h] else []
    ensures TotalGrowth([h]) == h.Growth()
  {
    assert Init([h]) == [] && Last([h]) == h;
  }

  // ----- slips that cancel out

  ghost predicate IsBlank(text: Text) {
    forall row | row in text :: row == BLANK || row == NOTHING
  }

  lemma {:induction false} ApplyRows(base: Text, edits: seq<Edit>, source: Text)
    requires Placed(edits, |base|, |source|) && IsBlank(base) && IsBlank(source)
    ensures IsBlank(Apply(base, edits, source))
    decreases |edits|
  {
    if edits != [] {
      var e := Last(edits);
      ApplyLast(base, edits, source);
      BlankPart(base, 0, e.oldStart);
      BlankPart(base, e.oldEnd, |base|);
      BlankPart(source, 0, e.newStart);
      BlankPart(source, e.newStart, e.newEnd);
      ApplyRows(base[..e.oldStart], Init(edits), source[..e.newStart]);
    }
  }

  lemma BlankPart(text: Text, a: int, b: int)
    requires IsBlank(text) && 0 <= a <= b <= |text|
    ensures IsBlank(text[a..b]) && IsBlank(text[..b]) && IsBlank(text[a..])
  {
    assert forall row | row in text[..b] :: row in text;
    assert forall row | row in text[a..] :: row in text;
    assert forall row | row in text[a..b] :: row in text;
  }

  /** Blank texts of the same length are the same. */
  lemma BlankIsBlank(s: Text, t: Text)
    requires IsText(s) && IsText(t) && IsBlank(s) && IsBlank(t) && |s| == |t|
    ensures s == t
  {
    forall i | 0 <= i < |s| ensures s[i] == t[i] {
      RowAt(s, i);
      RowAt(t, i);
      assert s[i] in s && t[i] in t;
      assert !EndsText(BLANK) && EndsText(NOTHING);
    }
  }

  /** One blank row deleted and another inserted, among blank rows. */
  lemma TwoBlankHunks() returns (log: Log, base: Text, g: Edit, h: Edit)
    ensures base == [BLANK, BLANK, BLANK, BLANK, NOTHING] && IsBlank(base)
    ensures g == Edit(1, 2, 1, 1) && h == Edit(3, 3, 2, 3)
    ensures log == Reviewed(base, [g, h], base) && Quiet(log)
    ensures Fits(g, base, base) && Fits(h, base, base) && Shifted(g, base, base) && Shifted(h, base, base)
  {
    base, g, h := [BLANK, BLANK, BLANK, BLANK, NOTHING], Edit(1, 2, 1, 1), Edit(3, 3, 2, 3);
    log := Reviewed(base, [g, h], base);
    TwoHunks(base, g, h);
    ReviewedIsQuiet(base, [g, h], base);
  }

  lemma TwoHunks(base: Text, g: Edit, h: Edit)
    requires base == [BLANK, BLANK, BLANK, BLANK, NOTHING] && g == Edit(1, 2, 1, 1) && h == Edit(3, 3, 2, 3)
    ensures IsReview(base, [g, h], base)
  {
    assert base[0..1] == [BLANK] && base[2..3] == [BLANK] && base[1..2] == [BLANK] && base[3..5] == [BLANK, NOTHING];
    forall i | 0 <= i <= 2 ensures GapSame(base, [g, h], base, i) {
    }
  }

  lemma TwoSelected(g: Edit, h: Edit, chosen: set<Edit>)
    requires g in chosen && h in chosen
    ensures Selected([g, h], chosen) == [g, h] && TotalGrowth([g, h]) == g.Growth() + h.Growth()
  {
    assert Init([g, h]) == [g] && Last([g, h]) == h;
    OneSelected(g, chosen);
  }

  lemma TwoSlip(log: Log, base: Text, g: Edit, h: Edit, ranges: seq<RowRange>)
    requires log == Reviewed(base, [g, h], base) && g == Edit(1, 2, 1, 1) && h == Edit(3, 3, 2, 3) && |base| == 5
    requires Shifted(g, base, base) && Shifted(h, base, base) && ranges == [RowRange(0, 4)]
    ensures Selected([g, h], ScannedHunks([g, h], ranges)) == [g, h]
    ensures g in SlippingHunks(log.tracked.value, ranges) && h in SlippingHunks(log.tracked.value, ranges)
    ensures TotalGrowth(Selected([g, h], SlippingHunks(log.tracked.value, ranges))) == 0
  {
    assert FirstReaching(ranges, 1) == 0 && FirstReaching(ranges, 2) == 0;
    TwoSelected(g, h, ScannedHunks([g, h], ranges));
    TwoSelected(g, h, SlippingHunks(log.tracked.value, ranges));
  }

  /** Slips in opposite directions may cancel out: the diff base takes in both edits, and is the same. */
  lemma SlipsCancelOut(ranges: seq<RowRange>) returns (log: Log, after: Log, chars: seq<Edit>, edits: seq<Edit>, begun: Log)
    requires ranges == [RowRange(0, 4)]
    ensures Quiet(log) && SlippingHunks(log.tracked.value, ranges) != {}
    ensures var event := Reject(ranges, Reverted(log.tracked.value, ranges)); Enabled(log, event) && after == Step(log, event)
    ensures CharPatch(Join(log.buffer.text), chars, Join(after.buffer.text))
    ensures edits == Runs(MappedEdits(Join(log.buffer.text), chars, Join(after.buffer.text), |chars|))
    ensures Enabled(after, BeginTrack(edits)) && begun == Step(after, BeginTrack(edits))
    ensures begun.tracked.value.job.value.newBase == log.tracked.value.diffBase
  {
    var base, g, h;
    log, base, g, h := TwoBlankHunks();
    TwoSlip(log, base, g, h, ranges);
    after, chars, edits, begun := RejectNotAbsorbedIff(log, ranges);
    StepValid(log, Reject(ranges, Reverted(log.tracked.value, ranges)));
    StepValid(after, BeginTrack(edits));
    BlankUpdate(log.tracked.value, ranges, after, edits, begun);
    BlankIsBlank(begun.tracked.value.job.value.newBase, base);
  }

  /** Where all rows are blank, the update brings in only blank rows. */
  lemma BlankUpdate(t: Tracked, ranges: seq<RowRange>, after: Log, edits: seq<Edit>, begun: Log)
    requires IsBlank(t.diffBase) && IsBlank(t.snapshot.text) && IsReview(t.diffBase, t.unreviewed, t.snapshot.text)
    requires Reverted(t, ranges).Some? && after.buffer.text == Reverted(t, ranges).value
    requires after.tracked == Some(t.Schedule(User, after.buffer)) && t.queue == []
    requires Enabled(after, BeginTrack(edits)) && begun == Step(after, BeginTrack(edits))
    ensures IsBlank(begun.tracked.value.job.value.newBase)
  {
    ApplyRows(t.snapshot.text, UndoAll(Selected(t.unreviewed, ScannedHunks(t.unreviewed, ranges))), t.diffBase);
    PatchesPlaced(t.snapshot.text, edits, after.buffer.text);
    AbsorbedApplies(t.diffBase, t.unreviewed, t.snapshot.text, edits, after.buffer.text);
    ApplyRows(t.diffBase, AllToBase(t.unreviewed, FreeEdits(edits, t.unreviewed)), after.buffer.text);
  }
}
