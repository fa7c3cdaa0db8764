/** Some of the hunks of a patch taken into the base, or undone in the result.

    Keeping hunks moves them into the diff base; rejecting hunks undoes them in the
    buffer. Both act on a selection of the unreviewed hunks.
 */
module Selection {
  import opened Patching

  /** The hunks of the list that are in `chosen`. */
  function Selected(hunks: seq<Edit>, chosen: set<Edit>): (selected: seq<Edit>)
    decreases |hunks|
  {
    if hunks == [] then []
    else
      var rest := Selected(Init(hunks), chosen);
      if Last(hunks) in chosen then rest + [Last(hunks)] else rest
  }

  /** The hunks of the list that are not in `chosen`. */
  function Others(hunks: seq<Edit>, chosen: set<Edit>): (others: seq<Edit>)
    decreases |hunks|
  {
    if hunks == [] then []
    else
      var rest := Others(Init(hunks), chosen);
      if Last(hunks) in chosen then rest else rest + [Last(hunks)]
  }

  /** The hunks not in `chosen`, for a base into which the chosen ones have been taken. */
  function Remaining(hunks: seq<Edit>, chosen: set<Edit>): (remaining: seq<Edit>)
    decreases |hunks|
  {
    if hunks == [] then []
    else
      var rest := Remaining(Init(hunks), chosen);
      if Last(hunks) in chosen then rest
      else rest + [Last(hunks).Moved(TotalGrowth(Selected(Init(hunks), chosen)), 0)]
  }

  ghost predicate NewApart(hunks: seq<Edit>) {
    forall i, j | 0 <= i < j < |hunks| :: hunks[i].newEnd < hunks[j].newStart
  }

  ghost predicate OldApart(hunks: seq<Edit>) {
    forall i, j | 0 <= i < j < |hunks| :: hunks[i].oldEnd < hunks[j].oldStart
  }

  lemma {:induction false} NoneChosen(hunks: seq<Edit>)
    ensures Selected(hunks, {}) == [] && Remaining(hunks, {}) == hunks
    decreases |hunks|
  {
    if hunks != [] {
      NoneChosen(Init(hunks));
      assert Last(hunks).Moved(0, 0) == Last(hunks) && hunks == Init(hunks) + [Last(hunks)];
    }
  }

  // ----- selections are placed

  lemma {:induction false} SelectedPlaced(hunks: seq<Edit>, chosen: set<Edit>, oldLen: int, newLen: int)
    requires Placed(hunks, oldLen, newLen)
    ensures Placed(Selected(hunks, chosen), oldLen, newLen)
    ensures Placed(UndoAll(Others(hunks, chosen)), newLen, oldLen)
    decreases |hunks|
  {
    if hunks != [] {
      var e := Last(hunks);
      SelectedPlaced(Init(hunks), chosen, e.oldStart, e.newStart);
      PlacedNonNegative(Init(hunks), e.oldStart, e.newStart);
      if e in chosen {
        assert Init(Selected(hunks, chosen)) == Selected(Init(hunks), chosen);
        PlacedWider(UndoAll(Others(Init(hunks), chosen)), e.newStart, e.oldStart, newLen, oldLen);
      } else {
        var others := Others(hunks, chosen);
        assert Init(UndoAll(others)) == UndoAll(Others(Init(hunks), chosen)) && Last(UndoAll(others)) == e.Undo();
        PlacedWider(Selected(Init(hunks), chosen), e.oldStart, e.newStart, oldLen, newLen);
      }
    }
  }

  // ----- keeping

  /** Remaining hunks of the first `n`, followed by the other hunks, all moved for the kept ones. */
  ghost function KeptUpTo(hunks: seq<Edit>, chosen: set<Edit>, n: int): seq<Edit>
    requires 0 <= n <= |hunks|
  {
    Remaining(hunks[..n], chosen) + MoveAll(hunks[n..], TotalGrowth(Selected(hunks[..n], chosen)), 0)
  }

  /** Taking the chosen hunks into the base leaves a patch of the remaining ones. */
  lemma KeepPatches<T>(base: seq<T>, hunks: seq<Edit>, result: seq<T>, chosen: set<Edit>)
    requires Patches(base, hunks, result)
    ensures Placed(Selected(hunks, chosen), |base|, |result|)
    ensures Patches(Apply(base, Selected(hunks, chosen), result), Remaining(hunks, chosen), result)
  {
    KeepFirst(base, hunks, result, chosen, |hunks|);
    assert hunks[..|hunks|] == hunks;
    assert KeptUpTo(hunks, chosen, |hunks|) == Remaining(hunks, chosen);
  }

  lemma {:induction false} KeepFirst<T>(base: seq<T>, hunks: seq<Edit>, result: seq<T>, chosen: set<Edit>, n: int)
    requires Patches(base, hunks, result) && 0 <= n <= |hunks|
    ensures Placed(Selected(hunks[..n], chosen), |base|, |result|)
    ensures Patches(Apply(base, Selected(hunks[..n], chosen), result), KeptUpTo(hunks, chosen, n), result)
    decreases n
  {
    if n == 0 {
      assert MoveAll(hunks, 0, 0) == hunks;
      assert KeptUpTo(hunks, chosen, n) == hunks;
    } else {
      var e := hunks[n - 1];
      assert Init(hunks[..n]) == hunks[..n - 1] && Last(hunks[..n]) == e;
      if e in chosen {
        KeepOneMore(base, hunks, result, chosen, n);
      } else {
        KeepFirst(base, hunks, result, chosen, n - 1);
        KeptUpToSkip(hunks, chosen, n);
      }
    }
  }

  /** The `n`th hunk is chosen: take it first, then the chosen ones before it. */
  lemma {:induction false} KeepOneMore<T>(base: seq<T>, hunks: seq<Edit>, result: seq<T>, chosen: set<Edit>, n: int)
    requires Patches(base, hunks, result) && 0 < n <= |hunks| && hunks[n - 1] in chosen
    ensures Placed(Selected(hunks[..n], chosen), |base|, |result|)
    ensures Patches(Apply(base, Selected(hunks[..n], chosen), result), KeptUpTo(hunks, chosen, n), result)
    decreases n, 0
  {
    var without := Without(hunks, n - 1);
    var selected := Selected(hunks[..n], chosen);
    SelectedFirst(base, hunks, result, chosen, n);
    SelectedSnoc(hunks, chosen, n);
    var base' := ApplyLastFirst(base, selected, result);
    PatchesTake(base, hunks, result, n - 1);
    assert without[..n - 1] == hunks[..n - 1];
    KeepFirst(base', without, result, chosen, n - 1);
    KeptUpToTake(hunks, chosen, n);
  }

  lemma SelectedFirst<T>(base: seq<T>, hunks: seq<Edit>, result: seq<T>, chosen: set<Edit>, n: int)
    requires Patches(base, hunks, result) && 0 <= n <= |hunks|
    ensures Placed(Selected(hunks[..n], chosen), |base|, |result|)
  {
    PatchesPrefix(base, hunks, result, n);
    PlacedWider(hunks[..n], OldGapEnd(hunks, |base|, n), NewGapEnd(hunks, |result|, n), |base|, |result|);
    SelectedPlaced(hunks[..n], chosen, |base|, |result|);
  }

  lemma SelectedSnoc(hunks: seq<Edit>, chosen: set<Edit>, n: int)
    requires 0 < n <= |hunks| && hunks[n - 1] in chosen
    ensures Selected(hunks[..n], chosen) == Selected(hunks[..n - 1], chosen) + [hunks[n - 1]]
    ensures Init(Selected(hunks[..n], chosen)) == Selected(hunks[..n - 1], chosen)
    ensures Remaining(hunks[..n], chosen) == Remaining(hunks[..n - 1], chosen)
    ensures TotalGrowth(Selected(hunks[..n], chosen))
            == TotalGrowth(Selected(hunks[..n - 1], chosen)) + hunks[n - 1].Growth()
  {
    assert Init(hunks[..n]) == hunks[..n - 1] && Last(hunks[..n]) == hunks[n - 1];
    var rest := Selected(hunks[..n - 1], chosen);
    assert Init(rest + [hunks[n - 1]]) == rest;
  }

  lemma KeptUpToTake(hunks: seq<Edit>, chosen: set<Edit>, n: int)
    requires 0 < n <= |hunks| && hunks[n - 1] in chosen
    ensures KeptUpTo(Without(hunks, n - 1), chosen, n - 1) == KeptUpTo(hunks, chosen, n)
  {
    var without := Without(hunks, n - 1);
    SelectedSnoc(hunks, chosen, n);
    assert without[..n - 1] == hunks[..n - 1];
    var d := TotalGrowth(Selected(hunks[..n - 1], chosen));
    assert MoveAll(without[n - 1..], d, 0) == MoveAll(hunks[n..], d + hunks[n - 1].Growth(), 0);
  }

  lemma KeptUpToSkip(hunks: seq<Edit>, chosen: set<Edit>, n: int)
    requires 0 < n <= |hunks| && hunks[n - 1] !in chosen
    ensures KeptUpTo(hunks, chosen, n - 1) == KeptUpTo(hunks, chosen, n)
    ensures Selected(hunks[..n], chosen) == Selected(hunks[..n - 1], chosen)
  {
    assert Init(hunks[..n]) == hunks[..n - 1] && Last(hunks[..n]) == hunks[n - 1];
    var d := TotalGrowth(Selected(hunks[..n - 1], chosen));
    assert MoveAll(hunks[n - 1..], d, 0) == [hunks[n - 1].Moved(d, 0)] + MoveAll(hunks[n..], d, 0);
  }

  /** The remaining hunks stay apart from one another. */
  lemma {:induction false} RemainingApart(hunks: seq<Edit>, chosen: set<Edit>, limit: int)
    requires NewApart(hunks) && forall k | 0 <= k < |hunks| :: hunks[k].newEnd < limit
    ensures var remaining := Remaining(hunks, chosen);
            NewApart(remaining) && forall k | 0 <= k < |remaining| :: remaining[k].newEnd < limit
    decreases |hunks|
  {
    if hunks != [] {
      RemainingApart(Init(hunks), chosen, Last(hunks).newStart);
      RemainingApart(Init(hunks), chosen, limit);
    }
  }

  /** Edits that are apart in the result are apart in the base: the gaps are equal. */
  lemma ApartBothSides<T>(base: seq<T>, hunks: seq<Edit>, result: seq<T>)
    requires Patches(base, hunks, result)
    ensures NewApart(hunks) <==> OldApart(hunks)
  {
    if NewApart(hunks) {
      forall i, j | 0 <= i < j < |hunks| ensures hunks[i].oldEnd < hunks[j].oldStart {
        ApartAtGap(base, hunks, result, i, j);
      }
    }
    if OldApart(hunks) {
      forall i, j | 0 <= i < j < |hunks| ensures hunks[i].newEnd < hunks[j].newStart {
        ApartAtGap(base, hunks, result, i, j);
      }
    }
  }

  lemma ApartAtGap<T>(base: seq<T>, hunks: seq<Edit>, result: seq<T>, i: int, j: int)
    requires Patches(base, hunks, result) && 0 <= i < j < |hunks|
    ensures hunks[i].newEnd < hunks[i + 1].newStart ==> hunks[i].oldEnd < hunks[j].oldStart
    ensures hunks[i].oldEnd < hunks[i + 1].oldStart ==> hunks[i].newEnd < hunks[j].newStart
  {
    GapLength(base, hunks, result, i + 1);
    if i + 1 < j {
      PatchesPlaced(base, hunks, result);
      PlacedOrder(hunks, |base|, |result|, i + 1, j);
      PlacedAt(hunks, |base|, |result|, i + 1);
    }
  }

  lemma GapLength<T>(base: seq<T>, hunks: seq<Edit>, result: seq<T>, i: int)
    requires Patches(base, hunks, result) && 0 <= i <= |hunks|
    ensures OldGapEnd(hunks, |base|, i) - OldGapStart(hunks, i) == NewGapEnd(hunks, |result|, i) - NewGapStart(hunks, i)
  {
    PatchesPrefix(base, hunks, result, i);
  }

  // ----- keeping and rejecting are complementary

  /** Taking the chosen hunks into the base and undoing the others in the result give the same text. */
  lemma KeepIsRejectOthers<T>(base: seq<T>, hunks: seq<Edit>, result: seq<T>, chosen: set<Edit>)
    requires Patches(base, hunks, result)
    ensures Placed(Selected(hunks, chosen), |base|, |result|)
    ensures Placed(UndoAll(Others(hunks, chosen)), |result|, |base|)
    ensures Apply(base, Selected(hunks, chosen), result) == Apply(result, UndoAll(Others(hunks, chosen)), base)
  {
    KeepIsRejectFirst(base, hunks, result, chosen, |hunks|);
    WholeSeq(hunks);
    WholeSeq(base);
    WholeSeq(result);
  }

  lemma WholeSeq<T>(s: seq<T>)
    ensures s[..|s|] == s
  {
  }

  lemma {:induction false} KeepIsRejectFirst<T>(base: seq<T>, hunks: seq<Edit>, result: seq<T>, chosen: set<Edit>, n: int)
    requires Patches(base, hunks, result) && 0 <= n <= |hunks|
    ensures var p, q := OldGapEnd(hunks, |base|, n), NewGapEnd(hunks, |result|, n);
            && 0 <= p <= |base| && 0 <= q <= |result|
            && Placed(Selected(hunks[..n], chosen), p, q)
            && Placed(UndoAll(Others(hunks[..n], chosen)), q, p)
            && Apply(base[..p], Selected(hunks[..n], chosen), result[..q])
               == Apply(result[..q], UndoAll(Others(hunks[..n], chosen)), base[..p])
    decreases n
  {
    PatchesPrefix(base, hunks, result, n);
    var p, q := OldGapEnd(hunks, |base|, n), NewGapEnd(hunks, |result|, n);
    SelectedPlaced(hunks[..n], chosen, p, q);
    if n == 0 {
      assert base[..p] == base[0..p] && result[..q] == result[0..q];
      assert UndoAll(Others(hunks[..n], chosen)) == [];
    } else {
      KeepIsRejectFirst(base, hunks, result, chosen, n - 1);
      PatchesPrefix(base, hunks, result, n - 1);
      KeepIsRejectStep(base, result, hunks[n - 1], p, q, Selected(hunks[..n - 1], chosen),
                       UndoAll(Others(hunks[..n - 1], chosen)), hunks[n - 1] in chosen);
      assert Init(hunks[..n]) == hunks[..n - 1] && Last(hunks[..n]) == hunks[n - 1];
      UndoSnoc(Others(hunks[..n - 1], chosen), hunks[n - 1]);
    }
  }

  lemma UndoSnoc(edits: seq<Edit>, e: Edit)
    ensures UndoAll(edits + [e]) == UndoAll(edits) + [e.Undo()]
  {
  }

  lemma KeepIsRejectStep<T>(base: seq<T>, result: seq<T>, e: Edit, p: int, q: int,
                            kept: seq<Edit>, undone: seq<Edit>, keep: bool)
    requires 0 <= e.oldStart <= e.oldEnd <= p <= |base| && 0 <= e.newStart <= e.newEnd <= q <= |result|
    requires base[e.oldEnd..p] == result[e.newEnd..q]
    requires Placed(kept, e.oldStart, e.newStart) && Placed(undone, e.newStart, e.oldStart)
    requires Apply(base[..e.oldStart], kept, result[..e.newStart]) == Apply(result[..e.newStart], undone, base[..e.oldStart])
    ensures keep ==>
      && Placed(kept + [e], p, q) && Placed(undone, q, p)
      && Apply(base[..p], kept + [e], result[..q]) == Apply(result[..q], undone, base[..p])
    ensures !keep ==>
      && Placed(kept, p, q) && Placed(undone + [e.Undo()], q, p)
      && Apply(base[..p], kept, result[..q]) == Apply(result[..q], undone + [e.Undo()], base[..p])
  {
    var head := Apply(base[..e.oldStart], kept, result[..e.newStart]);
    if keep {
      KeepStep(base, result, e, p, q, kept, undone, head);
    } else {
      assert e.Undo().Undo() == e;
      KeepStep(result, base, e.Undo(), q, p, undone, kept, head);
    }
  }

  lemma KeepStep<T>(base: seq<T>, result: seq<T>, e: Edit, p: int, q: int, kept: seq<Edit>, undone: seq<Edit>, head: seq<T>)
    requires 0 <= e.oldStart <= e.oldEnd <= p <= |base| && 0 <= e.newStart <= e.newEnd <= q <= |result|
    requires base[e.oldEnd..p] == result[e.newEnd..q]
    requires Placed(kept, e.oldStart, e.newStart) && Placed(undone, e.newStart, e.oldStart)
    requires head == Apply(base[..e.oldStart], kept, result[..e.newStart])
    requires head == Apply(result[..e.newStart], undone, base[..e.oldStart])
    ensures Placed(kept + [e], p, q) && Placed(undone, q, p)
    ensures Apply(base[..p], kept + [e], result[..q]) == Apply(result[..q], undone, base[..p])
  {
    var middle, tail := result[e.newStart..e.newEnd], base[e.oldEnd..p];
    KeptSide(base, result, e, p, q, kept, head, middle, tail);
    UndoneSide(base, result, e, p, q, undone, head, middle, tail);
  }

  lemma KeptSide<T>(base: seq<T>, result: seq<T>, e: Edit, p: int, q: int, kept: seq<Edit>,
                    head: seq<T>, middle: seq<T>, tail: seq<T>)
    requires 0 <= e.oldStart <= e.oldEnd <= p <= |base| && 0 <= e.newStart <= e.newEnd <= q <= |result|
    requires Placed(kept, e.oldStart, e.newStart) && head == Apply(base[..e.oldStart], kept, result[..e.newStart])
    requires middle == result[e.newStart..e.newEnd] && tail == base[e.oldEnd..p]
    ensures Placed(kept + [e], p, q) && Apply(base[..p], kept + [e], result[..q]) == head + middle + tail
  {
    assert Init(kept + [e]) == kept && Last(kept + [e]) == e;
    ApplyLast(base[..p], kept + [e], result[..q]);
    SliceOfTake(base, p, 0, e.oldStart);
    SliceOfTake(base, p, e.oldEnd, p);
    SliceOfTake(result, q, 0, e.newStart);
    SliceOfTake(result, q, e.newStart, e.newEnd);
  }

  lemma UndoneSide<T>(base: seq<T>, result: seq<T>, e: Edit, p: int, q: int, undone: seq<Edit>,
                      head: seq<T>, middle: seq<T>, tail: seq<T>)
    requires 0 <= e.oldStart <= e.oldEnd <= p <= |base| && 0 <= e.newStart <= e.newEnd <= q <= |result|
    requires Placed(undone, e.newStart, e.oldStart) && head == Apply(result[..e.newStart], undone, base[..e.oldStart])
    requires middle == result[e.newStart..e.newEnd] && tail == result[e.newEnd..q]
    ensures Placed(undone, q, p) && Apply(result[..q], undone, base[..p]) == head + middle + tail
  {
    ApplyPrefix(result[..q], undone, base[..p], e.newStart, e.oldStart);
    SliceOfTake(base, p, 0, e.oldStart);
    SliceOfTake(result, q, 0, e.newStart);
    SliceOfTake(result, q, e.newStart, q);
    assert result[e.newStart..q] == middle + tail;
    assert head + (middle + tail) == head + middle + tail;
  }
}
