/** What the update after a rejection makes of it: the row edits that are found for reverted hunks, and which of them the
    diff base takes in. */
module Reverting {
  import opened Merging
  import opened NonConflictingEdits
  import opened Patching
  import opened Rebasing
  import opened RowEdits
  import opened Rows
  import opened Selection
  import opened TextPatches
  import opened Widening

  // ----- edits with the place they have in the result

  /** The edits with their new ranges in the edited sequence. */
  function Landed(edits: seq<Edit>): (landed: seq<Edit>)
    ensures |landed| == |edits|
    decreases |edits|
  {
    if edits == [] then []
    else
      var e, d := Last(edits), TotalGrowth(Init(edits));
      Landed(Init(edits)) + [Edit(e.oldStart, e.oldEnd, e.oldStart + d, e.oldStart + d + e.NewLen())]
  }

  lemma {:induction false} LandedAt(edits: seq<Edit>, k: int)
    requires 0 <= k < |edits|
    ensures Landed(edits)[k].oldStart == edits[k].oldStart && Landed(edits)[k].oldEnd == edits[k].oldEnd
    ensures Landed(edits)[k].NewLen() == edits[k].NewLen()
    decreases |edits|
  {
    if k < |edits| - 1 {
      LandedAt(Init(edits), k);
    }
  }

  /** Applied edits are a patch to the result. */
  lemma {:induction false} LandedPatches<T>(base: seq<T>, edits: seq<Edit>, source: seq<T>)
    requires Placed(edits, |base|, |source|)
    ensures Patches(base, Landed(edits), Apply(base, edits, source))
    decreases |edits|
  {
    if edits == [] {
      assert GapSame(base, [], base, 0);
    } else {
      var e := Last(edits);
      ApplyLast(base, edits, source);
      PlacedNonNegative(Init(edits), e.oldStart, e.newStart);
      var head := Apply(base[..e.oldStart], Init(edits), source[..e.newStart]);
      LandedPatches(base[..e.oldStart], Init(edits), source[..e.newStart]);
      SnocAt(base[..e.oldStart], Landed(Init(edits)), head, base[e.oldStart..e.oldEnd], source[e.newStart..e.newEnd], base[e.oldEnd..],
             base, Last(Landed(edits)), Landed(edits), Apply(base, edits, source));
    }
  }

  /** The new ranges hold the rows of the source. */
  lemma {:induction false} LandedRows<T>(base: seq<T>, edits: seq<Edit>, source: seq<T>, k: int)
    requires Placed(edits, |base|, |source|) && 0 <= k < |edits|
    ensures var result, e, s := Apply(base, edits, source), edits[k], Landed(edits)[k];
            && 0 <= s.newStart <= s.newEnd <= |result| && 0 <= e.newStart <= e.newEnd <= |source|
            && result[s.newStart..s.newEnd] == source[e.newStart..e.newEnd]
    decreases |edits|
  {
    var e := Last(edits);
    ApplyLast(base, edits, source);
    PlacedNonNegative(Init(edits), e.oldStart, e.newStart);
    var head := Apply(base[..e.oldStart], Init(edits), source[..e.newStart]);
    var result := Apply(base, edits, source);
    if k < |edits| - 1 {
      LandedRows(base[..e.oldStart], Init(edits), source[..e.newStart], k);
      var s, f := Landed(edits)[k], edits[k];
      assert Landed(Init(edits))[k] == s && Init(edits)[k] == f;
      assert result[..|head|] == head;
      SliceOfTake(result, |head|, s.newStart, s.newEnd);
      SliceOfTake(source, e.newStart, f.newStart, f.newEnd);
    } else {
      var ins := source[e.newStart..e.newEnd];
      assert result == head + ins + base[e.oldEnd..];
      assert result[|head|..|head| + |ins|] == ins;
    }
  }

  // ----- joined edits

  /** The second edit starts where the first ends, or before, and does not end before it. */
  predicate Overlaps(first: Edit, second: Edit) {
    && first.oldStart <= first.oldEnd && second.oldStart <= second.oldEnd
    && first.oldStart <= second.oldStart <= first.oldEnd <= second.oldEnd
  }

  /** A joined edit touches a hunk exactly if one of its parts does. */
  lemma JoinedTouches(first: Edit, second: Edit, hunk: Edit)
    requires Overlaps(first, second) && hunk.Ordered()
    ensures Touches(Joined(first, second), hunk) <==> Touches(first, hunk) || Touches(second, hunk)
  {
  }

  lemma JoinedFree(first: Edit, second: Edit, hunks: seq<Edit>)
    requires Overlaps(first, second) && forall k | 0 <= k < |hunks| :: hunks[k].Ordered()
    ensures Free(Joined(first, second), hunks) <==> Free(first, hunks) && Free(second, hunks)
  {
    forall k | 0 <= k < |hunks|
      ensures Touches(Joined(first, second), hunks[k]) <==> Touches(first, hunks[k]) || Touches(second, hunks[k])
    {
      JoinedTouches(first, second, hunks[k]);
    }
  }

  // ----- hunks whose reversal slips off them

  predicate BlankAt(text: Text, row: int) {
    0 <= row < |text| && text[row] == BLANK
  }

  predicate EndsInNothing(text: Text) {
    text != [] && text[|text| - 1] == NOTHING
  }

  /** Before and after the hunk has been reverted, a blank row stands where it starts. */
  predicate Shifted(h: Edit, base: Text, text: Text) {
    BlankAt(text, h.newStart) && if h.OldLen() > 0 then BlankAt(base, h.oldStart) else BlankAt(text, h.newEnd)
  }

  /** The hunk ends with the text, and before and after it has been reverted, the last row holds nothing. */
  predicate AtEmptyEnd(h: Edit, base: Text, text: Text) {
    h.newEnd == |text| && EndsInNothing(text) && EndsInNothing(base)
  }

  /** The row edit found for the reversal lies beside the hunk. */
  predicate Loose(h: Edit, base: Text, text: Text) {
    h.NewLen() <= 1 && (Shifted(h, base, text) || AtEmptyEnd(h, base, text))
  }

  /** Reverting the hunk replaces an empty last row by another. */
  predicate OnlyLastRow(h: Edit, base: Text, text: Text) {
    AtEmptyEnd(h, base, text) && h.OldLen() == 1 && h.NewLen() == 1
  }

  /** Reverting a neighbouring hunk, or a neighbour without rows, keeps the loose edit from the diff base. */
  predicate Held(h: Edit, base: Text, hunks: seq<Edit>, text: Text, reverted: set<Edit>) {
    if Shifted(h, base, text)
    then exists g | g in hunks ::
      g.newStart == h.newEnd + 1 && (g.NewLen() == 0 || (g in reverted && !Shifted(g, base, text) && !Loose(g, base, text)))
    else exists g | g in hunks ::
      h.newStart == g.newEnd + 1 && g in reverted && Shifted(g, base, text) && g.NewLen() > 1
  }

  /** The reverted hunks whose reversal the diff base takes in. */
  function Slipping(base: Text, hunks: seq<Edit>, text: Text, reverted: set<Edit>): set<Edit> {
    set h | h in hunks && h in reverted && Loose(h, base, text) && !Held(h, base, hunks, text, reverted)
  }

  /** Hunks between two texts: a patch, apart, none of them empty. */
  ghost predicate Hunks(base: Text, hunks: seq<Edit>, text: Text) {
    && IsText(base) && IsText(text) && Patches(base, hunks, text) && NewApart(hunks)
    && forall k | 0 <= k < |hunks| :: hunks[k].OldLen() > 0 || hunks[k].NewLen() > 0
  }

  /** Where the row edit found for reverting the hunk lies in the text, and how it grows. */
  ghost predicate FoundFor(e: Edit, h: Edit, base: Text, text: Text) {
    && e.oldStart == (if Shifted(h, base, text) then h.newStart + 1 else h.newStart)
    && e.oldEnd == (if Shifted(h, base, text) then UpTo(text, h.newEnd) else if AtEmptyEnd(h, base, text) then h.newEnd - 1 else h.newEnd)
    && e.Growth() == -h.Growth()
  }

  /** What is known of one hunk. */
  ghost predicate Fits(h: Edit, base: Text, text: Text) {
    && 0 <= h.oldStart <= h.oldEnd <= |base| && 0 <= h.newStart <= h.newEnd <= |text|
    && h.oldStart < |base| && h.newStart < |text| && (h.oldEnd == |base| <==> h.newEnd == |text|)
    && (h.OldLen() > 0 || h.NewLen() > 0)
  }

  lemma HunkFits(base: Text, hunks: seq<Edit>, text: Text, k: int)
    requires Hunks(base, hunks, text) && 0 <= k < |hunks|
    ensures Fits(hunks[k], base, text)
  {
    WholeRowsIn(base, hunks, text, k);
  }

  /** A hunk that starts blank does not end with the text, unless it has more rows. */
  lemma ShiftedInside(h: Edit, base: Text, text: Text)
    requires IsText(text) && Fits(h, base, text) && Shifted(h, base, text) && h.NewLen() <= 1
    ensures h.newEnd < |text| && UpTo(text, h.newEnd) == h.newEnd + 1
  {
    RowAt(text, h.newStart);
    assert BLANK[0] != End;
  }

  ghost predicate EmptyNext(h: Edit, hunks: seq<Edit>) {
    exists g | g in hunks :: g.newStart == h.newEnd + 1 && g.NewLen() == 0
  }

  /** The row edit found for reverting a hunk touches no hunk exactly if it is loose and no hunk without rows stands where
      it has been shifted to. */
  lemma FoundFree(e: Edit, base: Text, hunks: seq<Edit>, text: Text, k: int)
    requires Hunks(base, hunks, text) && 0 <= k < |hunks| && FoundFor(e, hunks[k], base, text)
    ensures Free(e, hunks) <==> Loose(hunks[k], base, text) && !(Shifted(hunks[k], base, text) && EmptyNext(hunks[k], hunks))
  {
    var h := hunks[k];
    HunkFits(base, hunks, text, k);
    if Loose(h, base, text) {
      if Shifted(h, base, text) {
        ShiftedInside(h, base, text);
      }
      forall n | 0 <= n < |hunks|
        ensures Touches(e, hunks[n]) <==> Shifted(h, base, text) && hunks[n].newStart == h.newEnd + 1 && hunks[n].NewLen() == 0
      {
        HunkFits(base, hunks, text, n);
        LooseTouches(e, base, hunks, text, k, n);
      }
      if EmptyNext(h, hunks) {
        var g :| g in hunks && g.newStart == h.newEnd + 1 && g.NewLen() == 0;
        var n :| 0 <= n < |hunks| && hunks[n] == g;
      }
    } else {
      TightTouches(e, base, text, h);
    }
  }

  lemma TightTouches(e: Edit, base: Text, text: Text, h: Edit)
    requires Fits(h, base, text) && FoundFor(e, h, base, text) && !Loose(h, base, text)
    ensures Touches(e, h)
  {
  }

  lemma LooseTouches(e: Edit, base: Text, hunks: seq<Edit>, text: Text, k: int, n: int)
    requires NewApart(hunks) && 0 <= k < |hunks| && 0 <= n < |hunks| && FoundFor(e, hunks[k], base, text)
    requires Fits(hunks[k], base, text) && Fits(hunks[n], base, text) && Loose(hunks[k], base, text)
    requires Shifted(hunks[k], base, text) ==> UpTo(text, hunks[k].newEnd) == hunks[k].newEnd + 1
    ensures Touches(e, hunks[n])
            <==> Shifted(hunks[k], base, text) && hunks[n].newStart == hunks[k].newEnd + 1 && hunks[n].NewLen() == 0
  {
    if n < k {
      assert hunks[n].newEnd < hunks[k].newStart;
    } else if k < n {
      assert hunks[k].newEnd < hunks[n].newStart;
    }
  }

  // ----- the hunks that are reverted

  lemma {:induction false} SelectedIn(hunks: seq<Edit>, chosen: set<Edit>)
    ensures forall h :: h in Selected(hunks, chosen) <==> h in hunks && h in chosen
    decreases |hunks|
  {
    if hunks != [] {
      SelectedIn(Init(hunks), chosen);
      assert hunks == Init(hunks) + [Last(hunks)];
    }
  }

  lemma {:induction false} SelectedApart(hunks: seq<Edit>, chosen: set<Edit>)
    requires NewApart(hunks)
    ensures NewApart(Selected(hunks, chosen))
    decreases |hunks|
  {
    if hunks != [] {
      SelectedApart(Init(hunks), chosen);
      SelectedIn(Init(hunks), chosen);
      var rest := Selected(Init(hunks), chosen);
      forall k | 0 <= k < |rest| ensures rest[k].newEnd < Last(hunks).newStart {
        assert rest[k] in rest;
        var n :| 0 <= n < |Init(hunks)| && Init(hunks)[n] == rest[k];
      }
    }
  }

  /** The row edits found for reverting the selected hunks; between any two lies as much on both sides. */
  ghost predicate Found(edits: seq<Edit>, selected: seq<Edit>, base: Text, text: Text) {
    && |edits| == |selected|
    && (forall k | 0 <= k < |edits| :: FoundFor(edits[k], selected[k], base, text))
    && (forall i, j | 0 <= i < j < |edits| && j == i + 1 ::
          edits[j].newStart - edits[i].newEnd == edits[j].oldStart - edits[i].oldEnd)
  }

  /** Reverted hunks of a text, and the row edits found for them. */
  ghost predicate Reversal(base: Text, hunks: seq<Edit>, text: Text, reverted: set<Edit>, selected: seq<Edit>, edits: seq<Edit>) {
    && Hunks(base, hunks, text) && selected == Selected(hunks, reverted) && Found(edits, selected, base, text)
  }

  lemma SelectedIs(base: Text, hunks: seq<Edit>, text: Text, reverted: set<Edit>, selected: seq<Edit>, edits: seq<Edit>, i: int)
    returns (k: int)
    requires Reversal(base, hunks, text, reverted, selected, edits) && 0 <= i < |selected|
    ensures 0 <= k < |hunks| && hunks[k] == selected[i] && selected[i] in reverted && Fits(selected[i], base, text)
    ensures FoundFor(edits[i], hunks[k], base, text)
  {
    SelectedIn(hunks, reverted);
    assert selected[i] in selected;
    k :| 0 <= k < |hunks| && hunks[k] == selected[i];
    HunkFits(base, hunks, text, k);
  }

  /** Two neighbouring row edits meet exactly if the first is shifted to where the second starts. */
  predicate Linked(first: Edit, second: Edit, base: Text, text: Text) {
    Shifted(first, base, text) && !Shifted(second, base, text) && second.newStart == first.newEnd + 1
  }

  lemma LinkedIff(base: Text, hunks: seq<Edit>, text: Text, reverted: set<Edit>, selected: seq<Edit>, edits: seq<Edit>, i: int)
    requires Reversal(base, hunks, text, reverted, selected, edits) && 0 < i < |selected|
    ensures edits[i - 1].oldEnd >= edits[i].oldStart <==> Linked(selected[i - 1], selected[i], base, text)
    ensures Linked(selected[i - 1], selected[i], base, text)
            ==> Overlaps(edits[i - 1], edits[i]) && Joined(edits[i - 1], edits[i]).Growth() == edits[i - 1].Growth() + edits[i].Growth()
  {
    var k := SelectedIs(base, hunks, text, reverted, selected, edits, i - 1);
    var n := SelectedIs(base, hunks, text, reverted, selected, edits, i);
    SelectedApart(hunks, reverted);
    assert selected[i - 1].newEnd < selected[i].newStart;
  }

  lemma ApartAt(hunks: seq<Edit>, i: int, j: int)
    requires NewApart(hunks) && 0 <= i < |hunks| && 0 <= j < |hunks|
    ensures i < j ==> hunks[i].newEnd < hunks[j].newStart
    ensures j < i ==> hunks[j].newEnd < hunks[i].newStart
  {
  }

  /** The hunk that stands directly behind a reverted one is the next one reverted, if it is reverted at all. */
  lemma NextSelected(base: Text, hunks: seq<Edit>, text: Text, reverted: set<Edit>, selected: seq<Edit>, edits: seq<Edit>,
                     i: int, g: Edit)
    requires Reversal(base, hunks, text, reverted, selected, edits) && 0 <= i < |selected|
    requires g in hunks && g in reverted && g.newStart == selected[i].newEnd + 1
    ensures i + 1 < |selected| && selected[i + 1] == g
  {
    SelectedIn(hunks, reverted);
    SelectedApart(hunks, reverted);
    var j :| 0 <= j < |selected| && selected[j] == g;
    var k := SelectedIs(base, hunks, text, reverted, selected, edits, i);
    var n := SelectedIs(base, hunks, text, reverted, selected, edits, j);
    ApartAt(selected, i, j);
    if i + 1 < j {
      var m := SelectedIs(base, hunks, text, reverted, selected, edits, i + 1);
      ApartAt(selected, i, i + 1);
      ApartAt(selected, i + 1, j);
    }
  }

  /** So is the hunk that stands directly before one the previous one reverted. */
  lemma PreviousSelected(base: Text, hunks: seq<Edit>, text: Text, reverted: set<Edit>, selected: seq<Edit>, edits: seq<Edit>,
                     i: int, g: Edit)
    requires Reversal(base, hunks, text, reverted, selected, edits) && 0 <= i < |selected|
    requires g in hunks && g in reverted && selected[i].newStart == g.newEnd + 1
    ensures 0 < i && selected[i - 1] == g
  {
    SelectedIn(hunks, reverted);
    SelectedApart(hunks, reverted);
    var j :| 0 <= j < |selected| && selected[j] == g;
    var k := SelectedIs(base, hunks, text, reverted, selected, edits, i);
    var n := SelectedIs(base, hunks, text, reverted, selected, edits, j);
    ApartAt(selected, i, j);
    if j + 1 < i {
      var m := SelectedIs(base, hunks, text, reverted, selected, edits, i - 1);
      ApartAt(selected, i, i - 1);
      ApartAt(selected, i - 1, j);
    }
  }

  /** All row edits that are merged with the `i`th touch no hunk. */
  ghost predicate RunFree(edits: seq<Edit>, hunks: seq<Edit>, selected: seq<Edit>, base: Text, text: Text, i: int)
    requires 0 <= i < |edits| == |selected|
  {
    && Free(edits[i], hunks)
    && (0 < i && Linked(selected[i - 1], selected[i], base, text) ==> Free(edits[i - 1], hunks))
    && (i + 1 < |edits| && Linked(selected[i], selected[i + 1], base, text) ==> Free(edits[i + 1], hunks))
  }

  /** A reverted hunk slips exactly if all row edits merged with its own touch no hunk. */
  lemma SlipsIff(base: Text, hunks: seq<Edit>, text: Text, reverted: set<Edit>, selected: seq<Edit>, edits: seq<Edit>, i: int)
    requires Reversal(base, hunks, text, reverted, selected, edits) && 0 <= i < |selected|
    ensures selected[i] in Slipping(base, hunks, text, reverted) <==> RunFree(edits, hunks, selected, base, text, i)
  {
    var h := selected[i];
    var k := SelectedIs(base, hunks, text, reverted, selected, edits, i);
    FoundFree(edits[i], base, hunks, text, k);
    if Shifted(h, base, text) {
      ShiftedSlips(base, hunks, text, reverted, selected, edits, i);
    } else {
      EndSlips(base, hunks, text, reverted, selected, edits, i);
    }
  }

  lemma ShiftedSlips(base: Text, hunks: seq<Edit>, text: Text, reverted: set<Edit>, selected: seq<Edit>, edits: seq<Edit>, i: int)
    requires Reversal(base, hunks, text, reverted, selected, edits) && 0 <= i < |selected|
    requires Shifted(selected[i], base, text)
    ensures selected[i] in Slipping(base, hunks, text, reverted) <==> RunFree(edits, hunks, selected, base, text, i)
  {
    var h := selected[i];
    var k := SelectedIs(base, hunks, text, reverted, selected, edits, i);
    FoundFree(edits[i], base, hunks, text, k);
    if i + 1 < |selected| && Linked(h, selected[i + 1], base, text) {
      var n := SelectedIs(base, hunks, text, reverted, selected, edits, i + 1);
      FoundFree(edits[i + 1], base, hunks, text, n);
    }
    forall g | g in hunks && g in reverted && g.newStart == h.newEnd + 1
      ensures i + 1 < |selected| && selected[i + 1] == g
    {
      NextSelected(base, hunks, text, reverted, selected, edits, i, g);
    }
  }

  /** Hunks that start at the same row are the same. */
  lemma SameStart(base: Text, hunks: seq<Edit>, text: Text, g: Edit, h: Edit)
    requires Hunks(base, hunks, text) && g in hunks && h in hunks && g.newStart == h.newStart
    ensures g == h
  {
    var i :| 0 <= i < |hunks| && hunks[i] == g;
    var j :| 0 <= j < |hunks| && hunks[j] == h;
    HunkFits(base, hunks, text, i);
    HunkFits(base, hunks, text, j);
    assert forall a, b | 0 <= a < b < |hunks| :: hunks[a].newEnd < hunks[b].newStart;
  }

  lemma EndSlips(base: Text, hunks: seq<Edit>, text: Text, reverted: set<Edit>, selected: seq<Edit>, edits: seq<Edit>, i: int)
    requires Reversal(base, hunks, text, reverted, selected, edits) && 0 <= i < |selected|
    requires !Shifted(selected[i], base, text)
    ensures selected[i] in Slipping(base, hunks, text, reverted) <==> RunFree(edits, hunks, selected, base, text, i)
  {
    var h := selected[i];
    var k := SelectedIs(base, hunks, text, reverted, selected, edits, i);
    FoundFree(edits[i], base, hunks, text, k);
    if 0 < i && Linked(selected[i - 1], h, base, text) && Loose(h, base, text) {
      var n := SelectedIs(base, hunks, text, reverted, selected, edits, i - 1);
      FoundFree(edits[i - 1], base, hunks, text, n);
      forall g | g in hunks && g.newStart == h.newStart ensures g == h {
        SameStart(base, hunks, text, g, h);
      }
    }
    forall g | g in hunks && g in reverted && h.newStart == g.newEnd + 1
      ensures 0 < i && selected[i - 1] == g
    {
      PreviousSelected(base, hunks, text, reverted, selected, edits, i, g);
    }
  }

  // ----- what is absorbed

  lemma FreeSnoc(edits: seq<Edit>, e: Edit, hunks: seq<Edit>)
    ensures FreeEdits(edits + [e], hunks) == FreeEdits(edits, hunks) + if Free(e, hunks) then [e] else []
  {
    assert Init(edits + [e]) == edits && Last(edits + [e]) == e;
  }

  lemma SelectedNext(hunks: seq<Edit>, chosen: set<Edit>, n: int)
    requires 0 <= n < |hunks|
    ensures Selected(hunks[..n + 1], chosen) == Selected(hunks[..n], chosen) + if hunks[n] in chosen then [hunks[n]] else []
  {
    assert Init(hunks[..n + 1]) == hunks[..n] && Last(hunks[..n + 1]) == hunks[n];
  }

  /** Edits and hunks that bring the same growth, the other way round; there are none of the ones if there are none of the
      others. */
  ghost predicate Opposite(edits: seq<Edit>, hunks: seq<Edit>) {
    TotalGrowth(edits) == -TotalGrowth(hunks) && (edits == [] <==> hunks == [])
  }

  lemma OppositeOne(edits: seq<Edit>, hunks: seq<Edit>, e: Edit, h: Edit, edits': seq<Edit>, hunks': seq<Edit>, both: bool)
    requires Opposite(edits, hunks) && e.Growth() == -h.Growth()
    requires edits' == edits + (if both then [e] else []) && hunks' == hunks + (if both then [h] else [])
    ensures Opposite(edits', hunks')
  {
    if both {
      GrowthSnoc(edits, e);
      GrowthSnoc(hunks, h);
    } else {
      assert edits' == edits && hunks' == hunks;
    }
  }

  lemma OppositeTwo(edits: seq<Edit>, hunks: seq<Edit>, e: Edit, g: Edit, h: Edit, edits': seq<Edit>, hunks': seq<Edit>, both: bool)
    requires Opposite(edits, hunks) && e.Growth() == -g.Growth() - h.Growth()
    requires edits' == edits + (if both then [e] else [])
    requires hunks' == hunks + (if both then [g] else []) + (if both then [h] else [])
    ensures Opposite(edits', hunks')
  {
    if both {
      GrowthSnoc(edits, e);
      GrowthSnoc(hunks, g);
      GrowthSnoc(hunks + [g], h);
    } else {
      assert edits' == edits && hunks' == hunks;
    }
  }

  /** The free ones among the runs of the first `n` row edits. */
  ghost function FreeRuns(edits: seq<Edit>, hunks: seq<Edit>, n: int): seq<Edit>
    requires 0 <= n <= |edits|
  {
    FreeEdits(Runs(edits[..n]), hunks)
  }

  /** The slipping ones among the first `n` reverted hunks. */
  ghost function Slips(base: Text, hunks: seq<Edit>, text: Text, reverted: set<Edit>, selected: seq<Edit>, n: int): seq<Edit>
    requires 0 <= n <= |selected|
  {
    Selected(selected[..n], Slipping(base, hunks, text, reverted))
  }

  lemma SlipsNext(base: Text, hunks: seq<Edit>, text: Text, reverted: set<Edit>, selected: seq<Edit>, edits: seq<Edit>, n: int)
    requires Reversal(base, hunks, text, reverted, selected, edits) && 0 <= n < |selected|
    ensures Slips(base, hunks, text, reverted, selected, n + 1)
            == Slips(base, hunks, text, reverted, selected, n)
               + if RunFree(edits, hunks, selected, base, text, n) then [selected[n]] else []
  {
    SelectedNext(selected, Slipping(base, hunks, text, reverted), n);
    SlipsIff(base, hunks, text, reverted, selected, edits, n);
  }

  lemma AloneFree(base: Text, hunks: seq<Edit>, text: Text, reverted: set<Edit>, selected: seq<Edit>, edits: seq<Edit>, n: int)
    requires Reversal(base, hunks, text, reverted, selected, edits) && 0 <= n < |edits| && Cut(edits, n) && Cut(edits, n + 1)
    ensures RunFree(edits, hunks, selected, base, text, n) <==> Free(edits[n], hunks)
  {
    if 0 < n {
      LinkedIff(base, hunks, text, reverted, selected, edits, n);
    }
    if n + 1 < |edits| {
      LinkedIff(base, hunks, text, reverted, selected, edits, n + 1);
    }
  }

  /** A run of one row edit. */
  lemma OppositeRun(base: Text, hunks: seq<Edit>, text: Text, reverted: set<Edit>, selected: seq<Edit>, edits: seq<Edit>, n: int)
    requires Reversal(base, hunks, text, reverted, selected, edits) && 0 <= n < |edits| && Cut(edits, n) && Cut(edits, n + 1)
    requires Opposite(FreeRuns(edits, hunks, n), Slips(base, hunks, text, reverted, selected, n))
    ensures Opposite(FreeRuns(edits, hunks, n + 1), Slips(base, hunks, text, reverted, selected, n + 1))
  {
    var e := edits[n];
    AloneFree(base, hunks, text, reverted, selected, edits, n);
    RunsGroup(edits, n, n + 1);
    assert Joined(e, e) == e;
    FreeSnoc(Runs(edits[..n]), e, hunks);
    SlipsNext(base, hunks, text, reverted, selected, edits, n);
    assert FoundFor(e, selected[n], base, text);
    OppositeOne(FreeRuns(edits, hunks, n), Slips(base, hunks, text, reverted, selected, n), e, selected[n],
                FreeRuns(edits, hunks, n + 1), Slips(base, hunks, text, reverted, selected, n + 1), Free(e, hunks));
  }

  lemma FreeRunOfTwo(base: Text, hunks: seq<Edit>, text: Text, reverted: set<Edit>, selected: seq<Edit>, edits: seq<Edit>,
                     n: int)
    requires Reversal(base, hunks, text, reverted, selected, edits) && 0 <= n < |edits| - 1 && Cut(edits, n)
    requires Linked(selected[n], selected[n + 1], base, text)
    ensures FreeRuns(edits, hunks, n + 2)
            == FreeRuns(edits, hunks, n)
               + if Free(edits[n], hunks) && Free(edits[n + 1], hunks) then [Joined(edits[n], edits[n + 1])] else []
  {
    LinkedIff(base, hunks, text, reverted, selected, edits, n + 1);
    RunsGroup(edits, n, n + 2);
    FreeSnoc(Runs(edits[..n]), Joined(edits[n], edits[n + 1]), hunks);
    AllOrdered(base, hunks, text);
    JoinedFree(edits[n], edits[n + 1], hunks);
  }

  lemma SlipsOfTwo(base: Text, hunks: seq<Edit>, text: Text, reverted: set<Edit>, selected: seq<Edit>, edits: seq<Edit>, n: int)
    requires Reversal(base, hunks, text, reverted, selected, edits) && 0 <= n < |edits| - 1
    requires Linked(selected[n], selected[n + 1], base, text)
    ensures var both := Free(edits[n], hunks) && Free(edits[n + 1], hunks);
            Slips(base, hunks, text, reverted, selected, n + 2)
            == Slips(base, hunks, text, reverted, selected, n) + (if both then [selected[n]] else [])
               + (if both then [selected[n + 1]] else [])
  {
    SlipsNext(base, hunks, text, reverted, selected, edits, n);
    SlipsNext(base, hunks, text, reverted, selected, edits, n + 1);
  }

  /** A run of two. */
  lemma OppositeRunOfTwo(base: Text, hunks: seq<Edit>, text: Text, reverted: set<Edit>, selected: seq<Edit>, edits: seq<Edit>,
                         n: int)
    requires Reversal(base, hunks, text, reverted, selected, edits) && 0 <= n < |edits| - 1 && Cut(edits, n)
    requires Linked(selected[n], selected[n + 1], base, text)
    requires Opposite(FreeRuns(edits, hunks, n), Slips(base, hunks, text, reverted, selected, n))
    ensures Opposite(FreeRuns(edits, hunks, n + 2), Slips(base, hunks, text, reverted, selected, n + 2))
  {
    var e, f, g, h := edits[n], edits[n + 1], selected[n], selected[n + 1];
    var both := Free(e, hunks) && Free(f, hunks);
    LinkedIff(base, hunks, text, reverted, selected, edits, n + 1);
    FreeRunOfTwo(base, hunks, text, reverted, selected, edits, n);
    SlipsOfTwo(base, hunks, text, reverted, selected, edits, n);
    assert FoundFor(e, g, base, text) && FoundFor(f, h, base, text);
    OppositeTwo(FreeRuns(edits, hunks, n), Slips(base, hunks, text, reverted, selected, n), Joined(e, f), g, h,
                FreeRuns(edits, hunks, n + 2), Slips(base, hunks, text, reverted, selected, n + 2), both);
  }

  lemma AllOrdered(base: Text, hunks: seq<Edit>, text: Text)
    requires Hunks(base, hunks, text)
    ensures forall k | 0 <= k < |hunks| :: hunks[k].Ordered()
  {
  }

  /** No three row edits are merged into one. */
  lemma RunsAreShort(base: Text, hunks: seq<Edit>, text: Text, reverted: set<Edit>, selected: seq<Edit>, edits: seq<Edit>, i: int)
    requires Reversal(base, hunks, text, reverted, selected, edits) && 0 < i < |edits| - 1
    ensures edits[i - 1].oldEnd < edits[i].oldStart || edits[i].oldEnd < edits[i + 1].oldStart
  {
    LinkedIff(base, hunks, text, reverted, selected, edits, i);
    LinkedIff(base, hunks, text, reverted, selected, edits, i + 1);
  }

  lemma GroupIsShort(base: Text, hunks: seq<Edit>, text: Text, reverted: set<Edit>, selected: seq<Edit>, edits: seq<Edit>,
                     first: int, n: int)
    requires Reversal(base, hunks, text, reverted, selected, edits) && 0 <= first < n <= |edits|
    requires forall k | first < k < n :: edits[k - 1].oldEnd >= edits[k].oldStart
    ensures n <= first + 2
    ensures n == first + 2 ==> Linked(selected[first], selected[first + 1], base, text)
  {
    if n > first + 2 {
      RunsAreShort(base, hunks, text, reverted, selected, edits, first + 1);
    } else if n == first + 2 {
      LinkedIff(base, hunks, text, reverted, selected, edits, first + 1);
    }
  }

  lemma {:induction false} AllOpposite(base: Text, hunks: seq<Edit>, text: Text, reverted: set<Edit>, selected: seq<Edit>,
                                       edits: seq<Edit>, n: int)
    requires Reversal(base, hunks, text, reverted, selected, edits) && 0 <= n <= |edits| && Cut(edits, n)
    ensures Opposite(FreeRuns(edits, hunks, n), Slips(base, hunks, text, reverted, selected, n))
    decreases n
  {
    if n > 0 {
      var first := GroupStart(edits, n);
      AllOpposite(base, hunks, text, reverted, selected, edits, first);
      GroupIsShort(base, hunks, text, reverted, selected, edits, first, n);
      if first == n - 1 {
        OppositeRun(base, hunks, text, reverted, selected, edits, first);
      } else {
        OppositeRunOfTwo(base, hunks, text, reverted, selected, edits, first);
      }
    }
  }

  /** The row edits found for reverting hunks, once merged, touch hunks in all their runs if and only if no hunk slips; if some
      do, the free runs bring back as many rows as the slipping hunks have taken away. */
  lemma FreeRunsAreSlips(base: Text, hunks: seq<Edit>, text: Text, reverted: set<Edit>, selected: seq<Edit>, edits: seq<Edit>)
    requires Reversal(base, hunks, text, reverted, selected, edits)
    ensures FreeEdits(Runs(edits), hunks) == [] <==> Slipping(base, hunks, text, reverted) == {}
    ensures TotalGrowth(FreeEdits(Runs(edits), hunks)) == -TotalGrowth(Selected(hunks, Slipping(base, hunks, text, reverted)))
  {
    var n, slipping := |edits|, Slipping(base, hunks, text, reverted);
    assert edits[..n] == edits && selected[..n] == selected;
    AllOpposite(base, hunks, text, reverted, selected, edits, n);
    SelectedTwice(hunks, reverted, slipping);
    SelectedIn(hunks, slipping);
    assert Selected(hunks, slipping) == [] ==> forall h :: h !in slipping;
    assert Selected(hunks, slipping) != [] ==> Selected(hunks, slipping)[0] in Selected(hunks, slipping);
  }

  lemma {:induction false} SelectedTwice(hunks: seq<Edit>, chosen: set<Edit>, among: set<Edit>)
    requires among <= chosen
    ensures Selected(Selected(hunks, chosen), among) == Selected(hunks, among)
    decreases |hunks|
  {
    if hunks != [] {
      SelectedTwice(Init(hunks), chosen, among);
      var rest := Selected(Init(hunks), chosen);
      assert Init(rest + [Last(hunks)]) == rest && Last(rest + [Last(hunks)]) == Last(hunks);
    }
  }

  // ----- from reverted hunks to row edits

  /** The hunks whose reversal changes anything. */
  function Effective(chosen: set<Edit>, base: Text, text: Text): set<Edit> {
    set h | h in chosen && !OnlyLastRow(h, base, text)
  }

  lemma {:induction false} SelectedSame(hunks: seq<Edit>, chosen: set<Edit>, other: set<Edit>)
    requires forall k | 0 <= k < |hunks| :: hunks[k] in chosen <==> hunks[k] in other
    ensures Selected(hunks, chosen) == Selected(hunks, other)
    decreases |hunks|
  {
    if hunks != [] {
      SelectedSame(Init(hunks), chosen, other);
    }
  }

  /** Replacing an empty last row by another changes nothing. */
  lemma LastRowReplaced(text: Text, edits: seq<Edit>, e: Edit, base: Text)
    requires Placed(edits + [e], |text|, |base|) && EndsInNothing(text) && EndsInNothing(base)
    requires e == Edit(|text| - 1, |text|, |base| - 1, |base|)
    ensures Placed(edits, |text|, |base|) && Apply(text, edits + [e], base) == Apply(text, edits, base)
  {
    assert Init(edits + [e]) == edits && Last(edits + [e]) == e;
    ApplyLast(text, edits + [e], base);
    ApplyPrefix(text, edits, base, |text| - 1, |base| - 1);
    assert text[|text| - 1..] == [NOTHING] && base[|base| - 1..|base|] == [NOTHING] && text[|text|..] == [];
  }

  lemma RevertedPlaced(base: Text, hunks: seq<Edit>, text: Text, chosen: set<Edit>)
    requires Hunks(base, hunks, text)
    ensures Placed(UndoAll(Selected(hunks, chosen)), |text|, |base|)
  {
    PatchesPlaced(base, hunks, text);
    SelectedPlaced(hunks, chosen, |base|, |text|);
    UndoPlaced(Selected(hunks, chosen), |base|, |text|);
  }

  lemma {:induction false} UndoPlaced(edits: seq<Edit>, oldLen: int, newLen: int)
    requires Placed(edits, oldLen, newLen)
    ensures Placed(UndoAll(edits), newLen, oldLen)
    decreases |edits|
  {
    if edits != [] {
      UndoPlaced(Init(edits), Last(edits).oldStart, Last(edits).newStart);
      assert Init(UndoAll(edits)) == UndoAll(Init(edits)) && Last(UndoAll(edits)) == Last(edits).Undo();
    }
  }

  /** Hunks whose reversal changes nothing need not be reverted. */
  lemma EffectiveOnly(base: Text, hunks: seq<Edit>, text: Text, chosen: set<Edit>)
    requires Hunks(base, hunks, text)
    ensures Placed(UndoAll(Selected(hunks, chosen)), |text|, |base|)
    ensures Placed(UndoAll(Selected(hunks, Effective(chosen, base, text))), |text|, |base|)
    ensures Apply(text, UndoAll(Selected(hunks, chosen)), base)
            == Apply(text, UndoAll(Selected(hunks, Effective(chosen, base, text))), base)
  {
    var effective := Effective(chosen, base, text);
    RevertedPlaced(base, hunks, text, chosen);
    RevertedPlaced(base, hunks, text, effective);
    forall k | 0 <= k < |hunks| - 1 ensures hunks[k].newEnd < |text| {
      HunkFits(base, hunks, text, |hunks| - 1);
      assert hunks[k].newEnd < hunks[|hunks| - 1].newStart;
    }
    if hunks != [] && Last(hunks) in chosen && OnlyLastRow(Last(hunks), base, text) {
      HunkFits(base, hunks, text, |hunks| - 1);
      SelectedSame(Init(hunks), chosen, effective);
      var rest := Selected(Init(hunks), chosen);
      assert UndoAll(rest + [Last(hunks)]) == UndoAll(rest) + [Last(hunks).Undo()];
      LastRowReplaced(text, UndoAll(rest), Last(hunks).Undo(), base);
    } else {
      SelectedSame(hunks, chosen, effective);
    }
  }

  /** Reverted hunks, as row edits of the text and its reversal. */
  ghost predicate Reverts(base: Text, hunks: seq<Edit>, text: Text, reverted: set<Edit>, selected: seq<Edit>, rows: seq<Edit>,
                          result: Text) {
    && Hunks(base, hunks, text) && selected == Selected(hunks, reverted) && rows == Landed(UndoAll(selected))
    && Placed(UndoAll(selected), |text|, |base|) && result == Apply(text, UndoAll(selected), base)
  }

  lemma RevertedText(base: Text, hunks: seq<Edit>, text: Text, reverted: set<Edit>, selected: seq<Edit>, rows: seq<Edit>, result: Text)
    requires Reverts(base, hunks, text, reverted, selected, rows, result)
    ensures IsText(result)
  {
    PatchFlush(base, hunks, text);
    SelectedFlush(hunks, reverted, |base|, |text|);
    forall k | 0 <= k < |selected| ensures Flush(UndoAll(selected)[k], |text|, |base|) {
      assert Flush(selected[k], |base|, |text|);
    }
    ApplyText(text, UndoAll(selected), base);
  }

  lemma RevertedAt(base: Text, hunks: seq<Edit>, text: Text, reverted: set<Edit>, selected: seq<Edit>, rows: seq<Edit>,
                   result: Text, k: int)
    requires Reverts(base, hunks, text, reverted, selected, rows, result) && 0 <= k < |selected|
    ensures Fits(selected[k], base, text)
    ensures |rows| == |selected| && rows[k].oldStart == selected[k].newStart && rows[k].oldEnd == selected[k].newEnd
    ensures rows[k].NewLen() == selected[k].OldLen()
  {
    SelectedIn(hunks, reverted);
    assert selected[k] in selected;
    var n :| 0 <= n < |hunks| && hunks[n] == selected[k];
    HunkFits(base, hunks, text, n);
    LandedAt(UndoAll(selected), k);
  }

  /** Reverting whole rows is an edit of whole rows. */
  lemma RevertedRows(base: Text, hunks: seq<Edit>, text: Text, reverted: set<Edit>, selected: seq<Edit>, rows: seq<Edit>, result: Text)
    requires Reverts(base, hunks, text, reverted, selected, rows, result)
    ensures WholeRowPatch(text, rows, result)
  {
    RevertedText(base, hunks, text, reverted, selected, rows, result);
    LandedPatches(text, UndoAll(selected), base);
    SelectedApart(hunks, reverted);
    forall k | 0 <= k < |rows| ensures rows[k].OldLen() > 0 || rows[k].NewLen() > 0 {
      RevertedAt(base, hunks, text, reverted, selected, rows, result, k);
    }
    forall i, j | 0 <= i < j < |rows| ensures rows[i].oldEnd < rows[j].oldStart {
      RevertedAt(base, hunks, text, reverted, selected, rows, result, i);
      RevertedAt(base, hunks, text, reverted, selected, rows, result, j);
      assert selected[i].newEnd < selected[j].newStart;
    }
    ApartBothSides(text, rows, result);
  }
}
