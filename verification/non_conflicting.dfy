/** `apply_non_conflicting_edits`: one walk over the unreviewed hunks and the user's edits
    that makes the user's conflict-free edits in the diff base, in place. */
module NonConflictingEdits {
  import opened Patching
  import opened Rebasing
  import opened Ropes

  /** Neighbouring edits do not touch on the old side, as the merged row edits of a buffer diff. */
  ghost predicate Apart(edits: seq<Edit>)
    decreases |edits|
  {
    |edits| > 1 ==> Last(Init(edits)).oldEnd < Last(edits).oldStart && Apart(Init(edits))
  }

  lemma {:induction false} ApartAt(edits: seq<Edit>, j: int)
    requires Apart(edits) && 0 < j < |edits|
    ensures edits[j - 1].oldEnd < edits[j].oldStart
    decreases |edits|
  {
    if j < |edits| - 1 {
      ApartAt(Init(edits), j);
    }
  }

  lemma {:induction false} ApartFrom(edits: seq<Edit>)
    requires forall i, j | 0 <= i < j < |edits| :: edits[i].oldEnd < edits[j].oldStart
    ensures Apart(edits)
    decreases |edits|
  {
    if |edits| > 1 {
      ApartFrom(Init(edits));
    }
  }

  /** `edit.old.overlaps(hunk.new)`: strict overlap of half-open ranges. */
  predicate Overlaps(edit: Edit, hunk: Edit) {
    edit.oldStart < hunk.newEnd && hunk.newStart < edit.oldEnd
  }

  // ----- what the walk knows

  /** The `j`th edit, if there is one, starts after the last of the first `i` hunks. */
  ghost predicate Reached(edits: seq<Edit>, j: int, hunks: seq<Edit>, i: int)
    requires 0 <= j <= |edits| && 0 <= i <= |hunks|
  {
    0 < i && j < |edits| ==> After(edits[j], hunks[i - 1])
  }

  /** Hunk `i` is before the current edit, or conflicts with it but not with the next edit:
      either way the next edit starts after it. */
  lemma PassHunk(edits: seq<Edit>, j: int, hunks: seq<Edit>, i: int, oldLen: int, midLen: int, newLen: int)
    requires 0 < j <= |edits| && 0 <= i < |hunks|
    requires Placed(hunks, oldLen, midLen) && Placed(edits, midLen, newLen) && Apart(edits)
    requires !Before(edits[j - 1], hunks[i])
    requires After(edits[j - 1], hunks[i]) || (j < |edits| ==> !Overlaps(edits[j], hunks[i]))
    ensures Reached(edits, j, hunks, i + 1)
    ensures TotalGrowth(hunks[..i + 1]) == TotalGrowth(hunks[..i]) + hunks[i].Growth()
  {
    assert Init(hunks[..i + 1]) == hunks[..i];
    PlacedAt(hunks, oldLen, midLen, i);
    PlacedAt(edits, midLen, newLen, j - 1);
    if j < |edits| {
      PlacedAt(edits, midLen, newLen, j);
      ApartAt(edits, j);
    }
  }

  lemma ReachedNext(edits: seq<Edit>, j: int, hunks: seq<Edit>, i: int, oldLen: int, newLen: int)
    requires 0 < j <= |edits| && 0 <= i <= |hunks| && Placed(edits, oldLen, newLen) && Apart(edits)
    requires Reached(edits, j - 1, hunks, i)
    ensures Reached(edits, j, hunks, i)
  {
    if j < |edits| {
      PlacedAt(edits, oldLen, newLen, j - 1);
      ApartAt(edits, j);
    }
  }

  /** When the next edit overlaps the hunk too, it takes the place of the current one. */
  lemma NextConflicts(edits: seq<Edit>, j: int, hunks: seq<Edit>, i: int, oldLen: int, newLen: int)
    requires 0 <= j < |edits| && 0 <= i < |hunks| && Placed(edits, oldLen, newLen)
    requires Overlaps(edits[j], hunks[i])
    ensures !Free(edits[j], hunks)
  {
    PlacedAt(edits, oldLen, newLen, j);
    assert Touches(edits[j], hunks[i]);
  }

  /** The walk stops at the first hunk that lies behind the current edit: the edit is free. */
  lemma StopFree(edit: Edit, hunks: seq<Edit>, i: int, oldLen: int, newLen: int)
    requires edit.oldStart <= edit.oldEnd && Placed(hunks, oldLen, newLen) && 0 <= i <= |hunks|
    requires 0 < i ==> After(edit, hunks[i - 1])
    requires i < |hunks| ==> Before(edit, hunks[i])
    ensures Free(edit, hunks) && Passed(hunks, edit) == i
  {
    forall k | 0 <= k < i ensures After(edit, hunks[k]) {
      PlacedAt(hunks, oldLen, newLen, k);
      PlacedAt(hunks, oldLen, newLen, i - 1);
      if k < i - 1 {
        PlacedOrder(hunks, oldLen, newLen, k, i - 1);
      }
    }
    forall k | i <= k < |hunks| ensures Before(edit, hunks[k]) && !After(edit, hunks[k]) {
      PlacedAt(hunks, oldLen, newLen, k);
      PlacedAt(hunks, oldLen, newLen, i);
      if i < k {
        PlacedOrder(hunks, oldLen, newLen, i, k);
      }
    }
    PassedIsLast(hunks, edit);
  }

  lemma {:induction false} FreePlaced(edits: seq<Edit>, hunks: seq<Edit>, oldLen: int, newLen: int)
    requires Placed(edits, oldLen, newLen)
    ensures Placed(FreeEdits(edits, hunks), oldLen, newLen)
    decreases |edits|
  {
    if edits != [] {
      var e := Last(edits);
      FreePlaced(Init(edits), hunks, e.oldStart, e.newStart);
      if Free(e, hunks) {
        assert Init(FreeEdits(edits, hunks)) == FreeEdits(Init(edits), hunks);
      } else {
        PlacedNonNegative(edits, oldLen, newLen);
        PlacedWider(FreeEdits(Init(edits), hunks), e.oldStart, e.newStart, oldLen, newLen);
      }
    }
  }

  lemma {:induction false} PlacedTake(edits: seq<Edit>, oldLen: int, newLen: int, n: int)
    requires Placed(edits, oldLen, newLen) && 0 <= n < |edits|
    ensures Placed(edits[..n], edits[n].oldStart, edits[n].newStart)
    ensures Placed(edits[..n + 1], oldLen, newLen)
    decreases |edits|
  {
    var e := Last(edits);
    if n < |edits| - 1 {
      PlacedTake(Init(edits), e.oldStart, e.newStart, n);
      assert Init(edits)[..n] == edits[..n] && Init(edits)[..n + 1] == edits[..n + 1];
      PlacedNonNegative(Init(edits), e.oldStart, e.newStart);
      PlacedWider(edits[..n + 1], e.oldStart, e.newStart, oldLen, newLen);
    } else {
      assert edits[..n + 1] == edits;
    }
  }

  /** The base once the free ones among the edits have been made in it. */
  ghost function Absorbed<T>(base: seq<T>, hunks: seq<Edit>, edits: seq<Edit>, source: seq<T>): seq<T> {
    var moved := AllToBase(hunks, FreeEdits(edits, hunks));
    if Placed(moved, |base|, |source|) then Apply(base, moved, source) else base
  }

  /** Free edits always find their place in the base. */
  lemma AbsorbedApplies<T>(base: seq<T>, hunks: seq<Edit>, buffer: seq<T>, edits: seq<Edit>, source: seq<T>)
    requires Patches(base, hunks, buffer) && Placed(edits, |buffer|, |source|)
    ensures Placed(FreeEdits(edits, hunks), |buffer|, |source|)
    ensures Placed(AllToBase(hunks, FreeEdits(edits, hunks)), |base|, |source|)
    ensures Absorbed(base, hunks, edits, source) == Apply(base, AllToBase(hunks, FreeEdits(edits, hunks)), source)
  {
    var free := FreeEdits(edits, hunks);
    FreePlaced(edits, hunks, |buffer|, |source|);
    if free != [] {
      PlacedAt(free, |buffer|, |source|, |free| - 1);
      FreeRows(base, hunks, buffer, Last(free));
    }
    RebasedPlaced(base, hunks, buffer, free, |source|, |base|);
  }

  lemma SkipEdit(edits: seq<Edit>, j: int, hunks: seq<Edit>)
    requires 0 < j <= |edits| && !Free(edits[j - 1], hunks)
    ensures FreeEdits(edits[..j], hunks) == FreeEdits(edits[..j - 1], hunks)
  {
    assert Init(edits[..j]) == edits[..j - 1];
  }

  lemma SameAbsorbed<T>(base: seq<T>, hunks: seq<Edit>, edits: seq<Edit>, more: seq<Edit>, source: seq<T>)
    requires FreeEdits(more, hunks) == FreeEdits(edits, hunks)
    ensures Absorbed(base, hunks, more, source) == Absorbed(base, hunks, edits, source)
  {
  }

  lemma ToBaseSnoc(hunks: seq<Edit>, edits: seq<Edit>, e: Edit)
    ensures AllToBase(hunks, edits + [e]) == AllToBase(hunks, edits) + [ToBase(hunks, e)]
  {
  }

  /** Where one more free edit goes in the partly rebased base, and what making it there gives. */
  lemma MakeNext<T>(base: seq<T>, hunks: seq<Edit>, buffer: seq<T>, edits: seq<Edit>, j: int, source: seq<T>)
    returns (text: seq<T>, a: int, b: int)
    requires Patches(base, hunks, buffer) && Placed(edits, |buffer|, |source|)
    requires 0 <= j < |edits| && Free(edits[j], hunks)
    ensures var d := TotalGrowth(FreeEdits(edits[..j], hunks)) - TotalGrowth(hunks[..Passed(hunks, edits[j])]);
            a == edits[j].oldStart + d && b == edits[j].oldEnd + d
    ensures text == Absorbed(base, hunks, edits[..j], source) && 0 <= a <= b <= |text|
    ensures 0 <= edits[j].newStart <= edits[j].newEnd <= |source|
    ensures Absorbed(base, hunks, edits[..j + 1], source)
            == text[..a] + source[edits[j].newStart..edits[j].newEnd] + text[b..]
  {
    var free := FreeEdits(edits[..j], hunks);
    var e, m := edits[j], ToBase(hunks, edits[j]);
    FreeSnoc(edits, j, hunks);
    PlacedTake(edits, |buffer|, |source|, j);
    AbsorbedApplies(base, hunks, buffer, edits[..j + 1], source);
    ToBaseSnoc(hunks, free, e);
    ApplySnoc(base, AllToBase(hunks, free), m, source);
    ToBaseGrowth(hunks, free);
    text := Absorbed(base, hunks, edits[..j], source);
    a, b := m.oldStart + TotalGrowth(free), m.oldEnd + TotalGrowth(free);
  }

  lemma FreeSnoc(edits: seq<Edit>, j: int, hunks: seq<Edit>)
    requires 0 <= j < |edits| && Free(edits[j], hunks)
    ensures FreeEdits(edits[..j + 1], hunks) == FreeEdits(edits[..j], hunks) + [edits[j]]
    ensures TotalGrowth(FreeEdits(edits[..j + 1], hunks)) == TotalGrowth(FreeEdits(edits[..j], hunks)) + edits[j].Growth()
  {
    assert Init(edits[..j + 1]) == edits[..j] && Last(edits[..j + 1]) == edits[j];
    assert Init(FreeEdits(edits[..j], hunks) + [edits[j]]) == FreeEdits(edits[..j], hunks);
  }

  // ----- the walk

  /** The inner loop: passes the hunks before or at the current edit. Edits that share a
      conflicting hunk with the current one are taken along with it. */
  method PassHunks(patch: seq<Edit>, edits: seq<Edit>, i0: int, j0: int, rebasedDelta0: int,
                   ghost oldLen: int, ghost midLen: int, ghost newLen: int)
    returns (i: int, j: int, rebasedDelta: int, conflict: bool)
    requires Placed(patch, oldLen, midLen) && Placed(edits, midLen, newLen) && Apart(edits)
    requires 0 <= i0 <= |patch| && 0 < j0 <= |edits|
    requires Reached(edits, j0 - 1, patch, i0)
    requires rebasedDelta0 == TotalGrowth(patch[..i0])
    ensures i0 <= i <= |patch| && j0 <= j <= |edits|
    ensures Reached(edits, j, patch, i)
    ensures rebasedDelta == TotalGrowth(patch[..i])
    ensures FreeEdits(edits[..j - 1], patch) == FreeEdits(edits[..j0 - 1], patch)
    ensures conflict <==> !Free(edits[j - 1], patch)
    ensures !conflict ==> Passed(patch, edits[j - 1]) == i
  {
    i, j, rebasedDelta, conflict := i0, j0, rebasedDelta0, false;
    var newEdit := edits[j - 1];
    while i < |patch| && !Before(newEdit, patch[i])
      invariant i0 <= i <= |patch| && j0 <= j <= |edits| && newEdit == edits[j - 1]
      invariant Reached(edits, if conflict then j else j - 1, patch, i) && (conflict ==> !Free(newEdit, patch))
      invariant rebasedDelta == TotalGrowth(patch[..i])
      invariant FreeEdits(edits[..j - 1], patch) == FreeEdits(edits[..j0 - 1], patch)
      decreases |edits| - j, |patch| - i
    {
      var oldEdit := patch[i];
      if After(newEdit, oldEdit) {
        PassHunk(edits, j, patch, i, oldLen, midLen, newLen);
        i := i + 1;
        rebasedDelta := rebasedDelta + oldEdit.Growth();
      } else {
        if !conflict {
          ReachedNext(edits, j, patch, i, midLen, newLen);
        }
        conflict := true;
        assert Touches(newEdit, patch[i]);
        if j < |edits| && Overlaps(edits[j], oldEdit) {
          SkipEdit(edits, j, patch);
          NextConflicts(edits, j, patch, i, midLen, newLen);
          ReachedNext(edits, j + 1, patch, i, midLen, newLen);
          newEdit := edits[j];
          j := j + 1;
        } else {
          PassHunk(edits, j, patch, i, oldLen, midLen, newLen);
          i := i + 1;
          rebasedDelta := rebasedDelta + oldEdit.Growth();
        }
      }
    }
    PlacedAt(edits, midLen, newLen, j - 1);
    if !conflict {
      StopFree(newEdit, patch, i, oldLen, midLen);
      ReachedNext(edits, j, patch, i, midLen, newLen);
    }
  }

  /** Makes one edit that touches no hunk at its place in the partly rebased base. */
  method MakeEdit<T>(ghost patch: seq<Edit>, edits: seq<Edit>, j: int, appliedDelta: int, rebasedDelta: int,
                     oldText: Rope<T>, newText: Rope<T>, ghost base: seq<T>, ghost buffer: seq<T>)
    returns (newDelta: int)
    requires oldText != newText
    requires Patches(base, patch, buffer) && Placed(edits, |buffer|, |newText.rows|)
    requires 0 <= j < |edits| && Free(edits[j], patch)
    requires appliedDelta == TotalGrowth(FreeEdits(edits[..j], patch))
    requires rebasedDelta == TotalGrowth(patch[..Passed(patch, edits[j])])
    requires oldText.rows == Absorbed(base, patch, edits[..j], newText.rows)
    modifies oldText
    ensures oldText.rows == Absorbed(base, patch, edits[..j + 1], newText.rows)
    ensures newDelta == TotalGrowth(FreeEdits(edits[..j + 1], patch)) && FreeEdits(edits[..j + 1], patch) != []
  {
    ghost var text, a, b := MakeNext(base, patch, buffer, edits, j, newText.rows);
    var newEdit := edits[j];
    var start := newEdit.oldStart + appliedDelta - rebasedDelta;
    var end := newEdit.oldEnd + appliedDelta - rebasedDelta;
    oldText.Replace(start, end, newText.rows[newEdit.newStart..newEdit.newEnd]);
    FreeSnoc(edits, j, patch);
    newDelta := appliedDelta + newEdit.Growth();
  }

  /** Makes in `oldText` every edit that touches no hunk of `patch`, and only those. */
  method ApplyNonConflictingEdits<T>(patch: seq<Edit>, edits: seq<Edit>, oldText: Rope<T>, newText: Rope<T>,
                                     ghost buffer: seq<T>)
    returns (hasMadeChanges: bool)
    requires oldText != newText
    requires Patches(oldText.rows, patch, buffer)
    requires Placed(edits, |buffer|, |newText.rows|) && Apart(edits)
    modifies oldText
    ensures Placed(AllToBase(patch, FreeEdits(edits, patch)), |old(oldText.rows)|, |newText.rows|)
    ensures oldText.rows == Apply(old(oldText.rows), AllToBase(patch, FreeEdits(edits, patch)), newText.rows)
    ensures hasMadeChanges <==> FreeEdits(edits, patch) != []
  {
    ghost var base, source := oldText.rows, newText.rows;
    PatchesPlaced(base, patch, buffer);

    var i, j := 0, 0;
    var appliedDelta, rebasedDelta := 0, 0;
    hasMadeChanges := false;
    while j < |edits|
      invariant 0 <= i <= |patch| && 0 <= j <= |edits|
      invariant Reached(edits, j, patch, i)
      invariant rebasedDelta == TotalGrowth(patch[..i])
      invariant appliedDelta == TotalGrowth(FreeEdits(edits[..j], patch))
      invariant oldText.rows == Absorbed(base, patch, edits[..j], source)
      invariant hasMadeChanges <==> FreeEdits(edits[..j], patch) != []
      decreases |edits| - j
    {
      ghost var first := j;
      var conflict;
      i, j, rebasedDelta, conflict := PassHunks(patch, edits, i, j + 1, rebasedDelta, |base|, |buffer|, |source|);
      SameAbsorbed(base, patch, edits[..first], edits[..j - 1], source);
      if conflict {
        SkipEdit(edits, j, patch);
        SameAbsorbed(base, patch, edits[..j - 1], edits[..j], source);
      } else {
        appliedDelta := MakeEdit(patch, edits, j - 1, appliedDelta, rebasedDelta, oldText, newText, base, buffer);
        hasMadeChanges := true;
      }
    }
    assert edits[..j] == edits;
    AbsorbedApplies(base, patch, buffer, edits, source);
  }
}
