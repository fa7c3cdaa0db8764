/** Patches between texts: when an edited sequence of rows is again a text. */
module TextPatches {
  import opened Patching
  import opened Rebasing
  import opened NonConflictingEdits
  import opened Selection
  import opened Rows

  /** The edit reaches the end of the text on both sides or on neither, at either of its ends. */
  ghost predicate Flush(e: Edit, oldLen: int, newLen: int) {
    (e.oldStart == oldLen <==> e.newStart == newLen) && (e.oldEnd == oldLen <==> e.newEnd == newLen)
  }

  ghost predicate AllFlush(edits: seq<Edit>, oldLen: int, newLen: int) {
    forall k | 0 <= k < |edits| :: Flush(edits[k], oldLen, newLen)
  }

  lemma RowAt(text: Text, i: int)
    requires IsText(text) && 0 <= i < |text|
    ensures IsRow(text[i]) && (EndsText(text[i]) <==> i == |text| - 1)
  {
  }

  lemma SpliceText(base: Text, source: Text, e: Edit)
    requires IsText(base) && IsText(source) && Flush(e, |base|, |source|)
    requires 0 <= e.oldStart <= e.oldEnd <= |base| && 0 <= e.newStart <= e.newEnd <= |source|
    ensures IsText(Splice(base, e.oldStart, e.oldEnd, source[e.newStart..e.newEnd]))
  {
    var ins := source[e.newStart..e.newEnd];
    var text := Splice(base, e.oldStart, e.oldEnd, ins);
    forall i | 0 <= i < |text| ensures IsRow(text[i]) && (EndsText(text[i]) <==> i == |text| - 1) {
      if i < e.oldStart {
        RowAt(base, i);
      } else if i < e.oldStart + |ins| {
        assert text[i] == source[e.newStart + (i - e.oldStart)];
        RowAt(source, e.newStart + (i - e.oldStart));
      } else {
        assert text[i] == base[i - e.Growth()];
        RowAt(base, i - e.Growth());
      }
    }
  }

  /** Applying edits that are flush to a text gives a text. */
  lemma {:induction false} ApplyText(base: Text, edits: seq<Edit>, source: Text)
    requires IsText(base) && IsText(source)
    requires Placed(edits, |base|, |source|) && AllFlush(edits, |base|, |source|)
    ensures IsText(Apply(base, edits, source))
    decreases |edits|
  {
    if edits != [] {
      var e := Last(edits);
      PlacedAt(edits, |base|, |source|, |edits| - 1);
      assert Flush(edits[|edits| - 1], |base|, |source|);
      SpliceText(base, source, e);
      var spliced := ApplyLastFirst(base, edits, source);
      forall k | 0 <= k < |edits| - 1 ensures Flush(edits[k], |spliced|, |source|) {
        PlacedOrder(edits, |base|, |source|, k, |edits| - 1);
        PlacedAt(edits, |base|, |source|, k);
        assert Flush(edits[k], |base|, |source|);
      }
      ApplyText(spliced, Init(edits), source);
    }
  }

  /** Between two texts, every edit of a patch whose edits are apart is flush. */
  lemma PatchFlush(base: Text, hunks: seq<Edit>, result: Text)
    requires IsText(base) && IsText(result) && Patches(base, hunks, result) && NewApart(hunks)
    ensures AllFlush(hunks, |base|, |result|)
  {
    forall k | 0 <= k < |hunks| ensures Flush(hunks[k], |base|, |result|) {
      PatchFlushAt(base, hunks, result, k);
    }
  }

  lemma PatchFlushAt(base: Text, hunks: seq<Edit>, result: Text, k: int)
    requires IsText(base) && IsText(result) && Patches(base, hunks, result) && NewApart(hunks)
    requires 0 <= k < |hunks|
    ensures Flush(hunks[k], |base|, |result|)
  {
    var e := hunks[k];
    PatchesPlaced(base, hunks, result);
    PlacedAt(hunks, |base|, |result|, k);
    GapLength(base, hunks, result, k + 1);
    if k + 1 < |hunks| {
      PlacedAt(hunks, |base|, |result|, k + 1);
      assert hunks[k].newEnd < hunks[k + 1].newStart;
    } else if e.oldEnd == |base| {
      RowBefore(base, hunks, result, k);
    }
  }

  /** If only one side of the last edit were empty at the end, the row before it would end
      one of the texts but not the other. */
  lemma RowBefore(base: Text, hunks: seq<Edit>, result: Text, k: int)
    requires IsText(base) && IsText(result) && Patches(base, hunks, result) && NewApart(hunks)
    requires k == |hunks| - 1 && 0 <= k && hunks[k].oldEnd == |base|
    ensures hunks[k].newEnd == |result|
    ensures hunks[k].oldStart == |base| <==> hunks[k].newStart == |result|
  {
    var e := hunks[k];
    GapLength(base, hunks, result, k + 1);
    GapLength(base, hunks, result, k);
    assert GapSame(base, hunks, result, k);
    if 0 < k {
      assert hunks[k - 1].newEnd < hunks[k].newStart;
    }
    if e.oldStart == |base| || e.newStart == |result| {
      var x, u := OldGapStart(hunks, k), NewGapStart(hunks, k);
      var n := e.oldStart - x;
      assert base[e.oldStart - 1] == base[x..e.oldStart][n - 1];
      assert result[e.newStart - 1] == result[u..e.newStart][n - 1];
      RowAt(base, e.oldStart - 1);
      RowAt(result, e.newStart - 1);
    }
  }

  lemma {:induction false} SelectedFlush(hunks: seq<Edit>, chosen: set<Edit>, oldLen: int, newLen: int)
    requires AllFlush(hunks, oldLen, newLen)
    ensures AllFlush(Selected(hunks, chosen), oldLen, newLen)
    ensures AllFlush(UndoAll(Others(hunks, chosen)), newLen, oldLen)
    decreases |hunks|
  {
    if hunks != [] {
      SelectedFlush(Init(hunks), chosen, oldLen, newLen);
      assert Flush(Last(hunks), oldLen, newLen);
      assert Flush(Last(hunks).Undo(), newLen, oldLen);
      var others := Others(Init(hunks), chosen);
      forall k | 0 <= k < |Others(hunks, chosen)| ensures Flush(UndoAll(Others(hunks, chosen))[k], newLen, oldLen) {
        if k < |others| {
          assert UndoAll(others)[k] == UndoAll(Others(hunks, chosen))[k];
        }
      }
    }
  }

  /** A base into which hunks have been taken is a text. */
  lemma KeptText(base: Text, hunks: seq<Edit>, result: Text, chosen: set<Edit>)
    requires IsText(base) && IsText(result) && Patches(base, hunks, result) && NewApart(hunks)
    ensures Placed(Selected(hunks, chosen), |base|, |result|)
    ensures IsText(Apply(base, Selected(hunks, chosen), result))
  {
    PatchesPlaced(base, hunks, result);
    PatchFlush(base, hunks, result);
    SelectedPlaced(hunks, chosen, |base|, |result|);
    SelectedFlush(hunks, chosen, |base|, |result|);
    ApplyText(base, Selected(hunks, chosen), result);
  }

  // ----- rebasing

  lemma {:induction false} FreeFlush(edits: seq<Edit>, hunks: seq<Edit>, oldLen: int, newLen: int)
    requires AllFlush(edits, oldLen, newLen)
    ensures AllFlush(FreeEdits(edits, hunks), oldLen, newLen)
    decreases |edits|
  {
    if edits != [] {
      FreeFlush(Init(edits), hunks, oldLen, newLen);
      assert Flush(Last(edits), oldLen, newLen);
    }
  }

  /** A free edit reaches the end of the base exactly if it reaches the end of the buffer. */
  lemma ToBaseFlush(base: Text, hunks: seq<Edit>, buffer: Text, edit: Edit, newLen: int)
    requires IsText(base) && IsText(buffer) && Patches(base, hunks, buffer) && NewApart(hunks)
    requires Free(edit, hunks) && 0 <= edit.oldStart <= edit.oldEnd <= |buffer| && Flush(edit, |buffer|, newLen)
    ensures Flush(ToBase(hunks, edit), |base|, newLen)
  {
    EndOfBase(base, hunks, buffer, edit, edit.oldStart);
    EndOfBase(base, hunks, buffer, edit, edit.oldEnd);
  }

  lemma EndOfBase(base: Text, hunks: seq<Edit>, buffer: Text, edit: Edit, row: int)
    requires IsText(base) && IsText(buffer) && Patches(base, hunks, buffer) && NewApart(hunks)
    requires Free(edit, hunks) && 0 <= edit.oldStart <= edit.oldEnd <= |buffer|
    requires edit.oldStart <= row <= edit.oldEnd
    ensures row - TotalGrowth(hunks[..Passed(hunks, edit)]) == |base| <==> row == |buffer|
  {
    var i := Passed(hunks, edit);
    FreeGap(base, hunks, buffer, edit);
    GapLength(base, hunks, buffer, i);
    PatchesPlaced(base, hunks, buffer);
    if i == |hunks| {
      assert hunks[..i] == hunks;
    } else {
      FreeSide(hunks, |base|, |buffer|, edit, i);
      PlacedAt(hunks, |base|, |buffer|, i);
      PatchFlushAt(base, hunks, buffer, i);
    }
  }

  /** The rebased diff base is a text. */
  lemma AbsorbedText(base: Text, hunks: seq<Edit>, buffer: Text, edits: seq<Edit>, result: Text)
    requires IsText(base) && IsText(buffer) && IsText(result)
    requires Patches(base, hunks, buffer) && Patches(buffer, edits, result) && NewApart(hunks) && NewApart(edits)
    ensures IsText(Absorbed(base, hunks, edits, result))
  {
    PatchesPlaced(buffer, edits, result);
    AbsorbedApplies(base, hunks, buffer, edits, result);
    PatchFlush(buffer, edits, result);
    var free := FreeEdits(edits, hunks);
    FreeFlush(edits, hunks, |buffer|, |result|);
    forall k | 0 <= k < |free| ensures Flush(AllToBase(hunks, free)[k], |base|, |result|) {
      PlacedAt(free, |buffer|, |result|, k);
      assert Flush(free[k], |buffer|, |result|);
      ToBaseFlush(base, hunks, buffer, free[k], |result|);
    }
    ApplyText(base, AllToBase(hunks, free), result);
  }
}
