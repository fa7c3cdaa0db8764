/** Rebasing the user's edits onto the diff base, past the agent's unreviewed hunks.

    `hunks` is a patch from the diff base to the old buffer text; `edits` is what the
    user then did to that buffer. An edit that touches no hunk is also made in the
    diff base, so that it will not show up as unreviewed; every other edit is left to
    the next diff.
 */
module Rebasing {
  import opened Patching

  /** The user's edit ends before the hunk: apart from it, or against the start of a hunk that has rows. */
  predicate Before(edit: Edit, hunk: Edit) {
    || edit.oldEnd < hunk.newStart
    || (hunk.newStart < hunk.newEnd && edit.oldEnd == hunk.newStart)
  }

  /** The user's edit starts after the hunk: apart from it, or against the end of a hunk that has rows. */
  predicate After(edit: Edit, hunk: Edit) {
    || edit.oldStart > hunk.newEnd
    || (hunk.newStart < hunk.newEnd && edit.oldStart == hunk.newEnd)
  }

  /** The user's edit overlaps a hunk that has rows, or meets a hunk that has none. */
  predicate Touches(edit: Edit, hunk: Edit) {
    !Before(edit, hunk) && !After(edit, hunk)
  }

  ghost predicate Free(edit: Edit, hunks: seq<Edit>) {
    forall k | 0 <= k < |hunks| :: !Touches(edit, hunks[k])
  }

  ghost predicate AllFree(edits: seq<Edit>, hunks: seq<Edit>) {
    forall k | 0 <= k < |edits| :: Free(edits[k], hunks)
  }

  /** The edits that touch no hunk, in order. */
  ghost function FreeEdits(edits: seq<Edit>, hunks: seq<Edit>): (free: seq<Edit>)
    ensures AllFree(free, hunks)
    decreases |edits|
  {
    if edits == [] then []
    else
      var rest := FreeEdits(Init(edits), hunks);
      if Free(Last(edits), hunks) then rest + [Last(edits)] else rest
  }

  /** How many hunks lie before the edit. */
  function Passed(hunks: seq<Edit>, edit: Edit): (n: nat)
    ensures n <= |hunks|
    decreases |hunks|
  {
    if hunks == [] then 0
    else if After(edit, Last(hunks)) then |hunks|
    else Passed(Init(hunks), edit)
  }

  /** The edit with its old range in rows of the diff base. */
  function ToBase(hunks: seq<Edit>, edit: Edit): Edit {
    edit.Moved(-TotalGrowth(hunks[..Passed(hunks, edit)]), 0)
  }

  function AllToBase(hunks: seq<Edit>, edits: seq<Edit>): (moved: seq<Edit>)
    ensures |moved| == |edits|
    ensures forall k | 0 <= k < |edits| :: moved[k] == ToBase(hunks, edits[k])
  {
    seq(|edits|, k requires 0 <= k < |edits| => ToBase(hunks, edits[k]))
  }

  /** How far the edits before a hunk push it down. */
  function Push(edits: seq<Edit>, hunk: Edit): int
    decreases |edits|
  {
    if edits == [] then 0
    else Push(Init(edits), hunk) + if Before(Last(edits), hunk) then Last(edits).Growth() else 0
  }

  /** The hunks where they stand once the edits have been made on both sides. */
  function Carried(hunks: seq<Edit>, edits: seq<Edit>): (carried: seq<Edit>)
    ensures |carried| == |hunks|
    ensures forall k | 0 <= k < |hunks| ::
      carried[k] == hunks[k].Moved(Push(edits, hunks[k]), Push(edits, hunks[k]))
  {
    seq(|hunks|, k requires 0 <= k < |hunks| => hunks[k].Moved(Push(edits, hunks[k]), Push(edits, hunks[k])))
  }

  // ----- a free edit has every hunk clearly on one side

  /** The hunks a free edit has passed lie before it, the others after it. */
  lemma FreeSide(hunks: seq<Edit>, oldLen: int, newLen: int, edit: Edit, k: int)
    requires Placed(hunks, oldLen, newLen) && edit.oldStart <= edit.oldEnd && Free(edit, hunks)
    requires 0 <= k < |hunks|
    ensures k < Passed(hunks, edit) ==> hunks[k].newEnd <= edit.oldStart && !Before(edit, hunks[k])
    ensures Passed(hunks, edit) <= k ==> edit.oldEnd <= hunks[k].newStart && Before(edit, hunks[k]) && !After(edit, hunks[k])
  {
    var i := Passed(hunks, edit);
    PassedIsLast(hunks, edit);
    PlacedAt(hunks, oldLen, newLen, k);
    assert !Touches(edit, hunks[k]);
    if k + 1 < i {
      PlacedOrder(hunks, oldLen, newLen, k, i - 1);
      PlacedAt(hunks, oldLen, newLen, i - 1);
    }
  }

  lemma FreeBetween(hunks: seq<Edit>, oldLen: int, newLen: int, edit: Edit)
    requires Placed(hunks, oldLen, newLen) && edit.oldStart <= edit.oldEnd && Free(edit, hunks)
    requires 0 <= edit.oldStart && edit.oldEnd <= newLen
    ensures var i := Passed(hunks, edit);
            NewGapStart(hunks, i) <= edit.oldStart && edit.oldEnd <= NewGapEnd(hunks, newLen, i)
  {
    var i := Passed(hunks, edit);
    if 0 < i {
      FreeSide(hunks, oldLen, newLen, edit, i - 1);
    }
    if i < |hunks| {
      FreeSide(hunks, oldLen, newLen, edit, i);
    }
  }

  lemma {:induction false} PassedIsLast(hunks: seq<Edit>, edit: Edit)
    ensures var i := Passed(hunks, edit);
            && (0 < i ==> After(edit, hunks[i - 1]))
            && (forall k | i <= k < |hunks| :: !After(edit, hunks[k]))
    decreases |hunks|
  {
    if hunks != [] && !After(edit, Last(hunks)) {
      PassedIsLast(Init(hunks), edit);
    }
  }

  /** Hunks that the edit is not after do not matter for where it goes. */
  lemma {:induction false} PassedPrefix(hunks: seq<Edit>, i: int, edit: Edit)
    requires 0 <= i <= |hunks| && forall k | i <= k < |hunks| :: !After(edit, hunks[k])
    ensures Passed(hunks, edit) == Passed(hunks[..i], edit)
    ensures ToBase(hunks, edit) == ToBase(hunks[..i], edit)
    decreases |hunks|
  {
    if i == |hunks| {
      assert hunks[..i] == hunks;
    } else {
      PassedPrefix(Init(hunks), i, edit);
      assert Init(hunks)[..i] == hunks[..i];
      var n := Passed(hunks, edit);
      assert Init(hunks)[..n] == hunks[..n];
    }
  }

  lemma {:induction false} ToBaseGrowth(hunks: seq<Edit>, edits: seq<Edit>)
    ensures TotalGrowth(AllToBase(hunks, edits)) == TotalGrowth(edits)
    decreases |edits|
  {
    if edits != [] {
      ToBaseGrowth(hunks, Init(edits));
      assert Init(AllToBase(hunks, edits)) == AllToBase(hunks, Init(edits));
    }
  }

  /** A hunk that all edits precede is pushed by all of them. */
  lemma {:induction false} PushAll(edits: seq<Edit>, hunk: Edit)
    requires forall k | 0 <= k < |edits| :: Before(edits[k], hunk)
    ensures Push(edits, hunk) == TotalGrowth(edits)
    decreases |edits|
  {
    if edits != [] {
      PushAll(Init(edits), hunk);
    }
  }

  // ----- the rebase square

  /** Making the last edit moves the hunks it is before, and no others. */
  lemma CarriedLast(hunks: seq<Edit>, oldLen: int, newLen: int, edits: seq<Edit>, bound: int, source: int)
    requires Placed(hunks, oldLen, newLen) && Placed(edits, bound, source)
    requires edits != [] && AllFree(edits, hunks)
    ensures var d := Last(edits).Growth();
            var hunks' := MoveFrom(hunks, Passed(hunks, Last(edits)), d, d);
            && AllFree(Init(edits), hunks')
            && AllToBase(hunks, Init(edits)) == AllToBase(hunks', Init(edits))
            && Carried(hunks, edits) == Carried(hunks', Init(edits))
  {
    var e := Last(edits);
    var i := Passed(hunks, e);
    var hunks' := MoveFrom(hunks, i, e.Growth(), e.Growth());
    forall j | 0 <= j < |edits| - 1
      ensures Free(edits[j], hunks') && ToBase(hunks, edits[j]) == ToBase(hunks', edits[j])
    {
      EarlierEdit(hunks, oldLen, newLen, edits, bound, source, j);
    }
    forall k | 0 <= k < |hunks|
      ensures Carried(hunks, edits)[k] == Carried(hunks', Init(edits))[k]
    {
      CarriedAt(hunks, oldLen, newLen, edits, bound, source, k);
    }
  }

  /** An earlier edit meets the moved hunks as it met the hunks. */
  lemma EarlierEdit(hunks: seq<Edit>, oldLen: int, newLen: int, edits: seq<Edit>, bound: int, source: int, j: int)
    requires Placed(hunks, oldLen, newLen) && Placed(edits, bound, source)
    requires edits != [] && AllFree(edits, hunks) && 0 <= j < |edits| - 1
    ensures var d := Last(edits).Growth();
            var hunks' := MoveFrom(hunks, Passed(hunks, Last(edits)), d, d);
            Free(edits[j], hunks') && ToBase(hunks, edits[j]) == ToBase(hunks', edits[j])
  {
    var e := Last(edits);
    var i := Passed(hunks, e);
    var hunks' := MoveFrom(hunks, i, e.Growth(), e.Growth());
    PlacedOrder(edits, bound, source, j, |edits| - 1);
    PlacedAt(edits, bound, source, j);
    PlacedAt(edits, bound, source, |edits| - 1);
    forall k | i <= k < |hunks|
      ensures !After(edits[j], hunks[k]) && Before(edits[j], hunks'[k]) && !After(edits[j], hunks'[k])
    {
      FreeSide(hunks, oldLen, newLen, e, k);
      PlacedAt(hunks, oldLen, newLen, k);
    }
    forall k | 0 <= k < i ensures !Touches(edits[j], hunks'[k]) {
      assert !Touches(edits[j], hunks[k]);
    }
    PassedPrefix(hunks, i, edits[j]);
    PassedPrefix(hunks', i, edits[j]);
    assert hunks[..i] == hunks'[..i];
  }

  lemma CarriedAt(hunks: seq<Edit>, oldLen: int, newLen: int, edits: seq<Edit>, bound: int, source: int, k: int)
    requires Placed(hunks, oldLen, newLen) && Placed(edits, bound, source)
    requires edits != [] && AllFree(edits, hunks) && 0 <= k < |hunks|
    ensures var d := Last(edits).Growth();
            var hunk' := MoveFrom(hunks, Passed(hunks, Last(edits)), d, d)[k];
            hunks[k].Moved(Push(edits, hunks[k]), Push(edits, hunks[k]))
            == hunk'.Moved(Push(Init(edits), hunk'), Push(Init(edits), hunk'))
  {
    var e := Last(edits);
    PlacedAt(edits, bound, source, |edits| - 1);
    FreeSide(hunks, oldLen, newLen, e, k);
    if Passed(hunks, e) <= k {
      PlacedAt(hunks, oldLen, newLen, k);
      var hunk' := hunks[k].Moved(e.Growth(), e.Growth());
      forall j | 0 <= j < |edits| - 1 ensures Before(edits[j], hunks[k]) && Before(edits[j], hunk') {
        PlacedOrder(edits, bound, source, j, |edits| - 1);
      }
      PushAll(Init(edits), hunks[k]);
      PushAll(Init(edits), hunk');
    }
  }

  /** A free edit lies in one gap between hunks, and so does its image in the base. */
  lemma FreeGap<T>(base: seq<T>, hunks: seq<Edit>, buffer: seq<T>, edit: Edit)
    requires Patches(base, hunks, buffer) && Free(edit, hunks)
    requires 0 <= edit.oldStart <= edit.oldEnd <= |buffer|
    ensures var i := Passed(hunks, edit);
            && GapSame(base, hunks, buffer, i)
            && NewGapStart(hunks, i) == OldGapStart(hunks, i) + TotalGrowth(hunks[..i])
            && OldGapStart(hunks, i) <= ToBase(hunks, edit).oldStart
            && ToBase(hunks, edit).oldEnd <= OldGapEnd(hunks, |base|, i)
  {
    PatchesPlaced(base, hunks, buffer);
    PatchesPrefix(base, hunks, buffer, Passed(hunks, edit));
    FreeBetween(hunks, |base|, |buffer|, edit);
  }

  /** The rows a free edit replaces are the same rows in the base. */
  lemma FreeRows<T>(base: seq<T>, hunks: seq<Edit>, buffer: seq<T>, edit: Edit)
    requires Patches(base, hunks, buffer) && Free(edit, hunks)
    requires 0 <= edit.oldStart <= edit.oldEnd <= |buffer|
    ensures var m := ToBase(hunks, edit);
            0 <= m.oldStart <= m.oldEnd <= |base| && base[m.oldStart..m.oldEnd] == buffer[edit.oldStart..edit.oldEnd]
  {
    FreeGap(base, hunks, buffer, edit);
    var i := Passed(hunks, edit);
    var m := ToBase(hunks, edit);
    SliceOfSlice(base, OldGapStart(hunks, i), OldGapEnd(hunks, |base|, i), m.oldStart, m.oldEnd);
    SliceOfSlice(buffer, NewGapStart(hunks, i), NewGapEnd(hunks, |buffer|, i), edit.oldStart, edit.oldEnd);
  }

  /** Rebased edits keep their order in the base. */
  lemma {:induction false} RebasedPlaced<T>(base: seq<T>, hunks: seq<Edit>, buffer: seq<T>, edits: seq<Edit>, source: int, p: int)
    requires Patches(base, hunks, buffer) && AllFree(edits, hunks) && Placed(edits, |buffer|, source)
    requires 0 <= p && (edits != [] ==> ToBase(hunks, Last(edits)).oldEnd <= p)
    ensures Placed(AllToBase(hunks, edits), p, source)
    decreases |edits|
  {
    var moved := AllToBase(hunks, edits);
    PlacedNonNegative(edits, |buffer|, source);
    if edits != [] {
      var e := Last(edits);
      PlacedAt(edits, |buffer|, source, |edits| - 1);
      FreeGap(base, hunks, buffer, e);
      PlacedWider(Init(edits), e.oldStart, e.newStart, |buffer|, e.newStart);
      assert Init(moved) == AllToBase(hunks, Init(edits)) && Last(moved) == ToBase(hunks, e);
      if |edits| > 1 {
        PlacedInit(edits, |buffer|, source);
        RebasedOrder(base, hunks, buffer, Last(Init(edits)), e);
      }
      RebasedPlaced(base, hunks, buffer, Init(edits), e.newStart, Last(moved).oldStart);
    }
  }

  lemma RebasedOrder<T>(base: seq<T>, hunks: seq<Edit>, buffer: seq<T>, first: Edit, second: Edit)
    requires Patches(base, hunks, buffer) && Free(first, hunks) && Free(second, hunks)
    requires 0 <= first.oldStart <= first.oldEnd <= second.oldStart <= second.oldEnd <= |buffer|
    ensures ToBase(hunks, first).oldEnd <= ToBase(hunks, second).oldStart
  {
    FreeGap(base, hunks, buffer, first);
    FreeGap(base, hunks, buffer, second);
    var i, j := Passed(hunks, first), Passed(hunks, second);
    if i < j {
      GapOrder(base, hunks, buffer, i, j);
    } else if j < i {
      PatchesPlaced(base, hunks, buffer);
      FreeSide(hunks, |base|, |buffer|, first, j);
      FreeSide(hunks, |base|, |buffer|, second, j);
      PlacedAt(hunks, |base|, |buffer|, j);
    }
  }

  /** Of the rebased edits, too, the last can be made first. */
  lemma RebasedLastFirst<T>(base: seq<T>, hunks: seq<Edit>, buffer: seq<T>, edits: seq<Edit>, source: seq<T>)
    returns (spliced: seq<T>)
    requires Patches(base, hunks, buffer) && edits != []
    requires Placed(edits, |buffer|, |source|) && AllFree(edits, hunks)
    ensures var e := ToBase(hunks, Last(edits));
            && 0 <= e.oldStart <= e.oldEnd <= |base| && 0 <= e.newStart <= e.newEnd <= |source|
            && spliced == Splice(base, e.oldStart, e.oldEnd, source[e.newStart..e.newEnd])
    ensures Placed(AllToBase(hunks, edits), |base|, |source|)
    ensures Placed(AllToBase(hunks, Init(edits)), |spliced|, |source|)
    ensures Apply(base, AllToBase(hunks, edits), source) == Apply(spliced, AllToBase(hunks, Init(edits)), source)
  {
    var e := Last(edits);
    var moved := AllToBase(hunks, edits);
    PlacedAt(edits, |buffer|, |source|, |edits| - 1);
    FreeRows(base, hunks, buffer, e);
    assert Init(moved) == AllToBase(hunks, Init(edits)) && Last(moved) == ToBase(hunks, e);
    RebasedPlaced(base, hunks, buffer, edits, |source|, |base|);
    spliced := ApplyLastFirst(base, moved, source);
  }

  /** A free edit made on both sides moves the hunks behind it and nothing else. */
  lemma MakeBoth<T>(base: seq<T>, hunks: seq<Edit>, buffer: seq<T>, edit: Edit, ins: seq<T>)
    requires Patches(base, hunks, buffer) && Free(edit, hunks) && |ins| == edit.NewLen()
    requires 0 <= edit.oldStart <= edit.oldEnd <= |buffer|
    ensures var m := ToBase(hunks, edit);
            var d := edit.Growth();
            && 0 <= m.oldStart <= m.oldEnd <= |base|
            && Patches(Splice(base, m.oldStart, m.oldEnd, ins), MoveFrom(hunks, Passed(hunks, edit), d, d),
                       Splice(buffer, edit.oldStart, edit.oldEnd, ins))
  {
    var m := ToBase(hunks, edit);
    FreeGap(base, hunks, buffer, edit);
    PatchesSplice(base, hunks, buffer, Passed(hunks, edit), m.oldStart, m.oldEnd, edit.oldStart, edit.oldEnd, ins);
    assert edit.Growth() == |ins| - (m.oldEnd - m.oldStart);
  }

  /** Making free edits on both sides of the hunks keeps the hunks a patch: the square
      from diff base to buffer to edited buffer closes over the rebased diff base. */
  lemma {:induction false} RebaseSquare<T>(base: seq<T>, hunks: seq<Edit>, buffer: seq<T>, edits: seq<Edit>, source: seq<T>)
    requires Patches(base, hunks, buffer)
    requires Placed(edits, |buffer|, |source|) && AllFree(edits, hunks)
    ensures Placed(AllToBase(hunks, edits), |base|, |source|)
    ensures Patches(Apply(base, AllToBase(hunks, edits), source), Carried(hunks, edits), Apply(buffer, edits, source))
    decreases |edits|
  {
    if edits == [] {
      assert AllToBase(hunks, edits) == [] && Carried(hunks, edits) == hunks;
    } else {
      var e := Last(edits);
      PatchesPlaced(base, hunks, buffer);
      var buffer' := ApplyLastFirst(buffer, edits, source);
      var base' := RebasedLastFirst(base, hunks, buffer, edits, source);
      var hunks' := MoveFrom(hunks, Passed(hunks, e), e.Growth(), e.Growth());
      CarriedLast(hunks, |base|, |buffer|, edits, |buffer|, |source|);
      MakeBoth(base, hunks, buffer, e, source[e.newStart..e.newEnd]);
      RebaseSquare(base', hunks', buffer', Init(edits), source);
    }
  }

  /** When no edit touches a hunk, the rebased base and the carried hunks give exactly the
      new buffer: what the user did is no longer part of the unreviewed difference. */
  lemma RebaseWithoutConflict<T>(base: seq<T>, hunks: seq<Edit>, buffer: seq<T>, edits: seq<Edit>, result: seq<T>)
    requires Patches(base, hunks, buffer) && Patches(buffer, edits, result) && AllFree(edits, hunks)
    ensures Placed(AllToBase(hunks, edits), |base|, |result|)
    ensures Patches(Apply(base, AllToBase(hunks, edits), result), Carried(hunks, edits), result)
  {
    ApplyPatch(buffer, edits, result);
    RebaseSquare(base, hunks, buffer, edits, result);
  }

  /** The rows of every hunk survive on both sides, verbatim, where the hunk has been carried to. */
  lemma {:induction false} HunksSurvive<T>(base: seq<T>, hunks: seq<Edit>, buffer: seq<T>, edits: seq<Edit>, source: seq<T>, k: int)
    requires Patches(base, hunks, buffer) && 0 <= k < |hunks|
    requires Placed(edits, |buffer|, |source|) && AllFree(edits, hunks)
    ensures Placed(AllToBase(hunks, edits), |base|, |source|)
    ensures var base' := Apply(base, AllToBase(hunks, edits), source);
            var buffer' := Apply(buffer, edits, source);
            var h, h' := hunks[k], Carried(hunks, edits)[k];
            && SameRows(base, h.oldStart, h.oldEnd, base', h'.oldStart, h'.oldEnd)
            && SameRows(buffer, h.newStart, h.newEnd, buffer', h'.newStart, h'.newEnd)
    decreases |edits|
  {
    PatchesPlaced(base, hunks, buffer);
    PlacedAt(hunks, |base|, |buffer|, k);
    if edits == [] {
      assert AllToBase(hunks, edits) == [];
    } else {
      var e := Last(edits);
      var buffer' := ApplyLastFirst(buffer, edits, source);
      var base' := RebasedLastFirst(base, hunks, buffer, edits, source);
      var hunks' := MoveFrom(hunks, Passed(hunks, e), e.Growth(), e.Growth());
      CarriedLast(hunks, |base|, |buffer|, edits, |buffer|, |source|);
      MakeBoth(base, hunks, buffer, e, source[e.newStart..e.newEnd]);
      HunksSurvive(base', hunks', buffer', Init(edits), source, k);
      HunkSurvivesEdit(base, hunks, buffer, e, source[e.newStart..e.newEnd], k);
    }
  }

  lemma HunkSurvivesEdit<T>(base: seq<T>, hunks: seq<Edit>, buffer: seq<T>, edit: Edit, ins: seq<T>, k: int)
    requires Patches(base, hunks, buffer) && Free(edit, hunks) && |ins| == edit.NewLen()
    requires 0 <= edit.oldStart <= edit.oldEnd <= |buffer| && 0 <= k < |hunks|
    ensures var m := ToBase(hunks, edit);
            var h := hunks[k];
            var h' := MoveFrom(hunks, Passed(hunks, edit), edit.Growth(), edit.Growth())[k];
            && 0 <= m.oldStart <= m.oldEnd <= |base|
            && SameRows(base, h.oldStart, h.oldEnd, Splice(base, m.oldStart, m.oldEnd, ins), h'.oldStart, h'.oldEnd)
            && SameRows(buffer, h.newStart, h.newEnd, Splice(buffer, edit.oldStart, edit.oldEnd, ins), h'.newStart, h'.newEnd)
  {
    var above := Passed(hunks, edit) <= k;
    HunkBeside(base, hunks, buffer, edit, k);
    BesideSurvives(base, buffer, ToBase(hunks, edit), edit, hunks[k], ins, above);
    assert MoveFrom(hunks, Passed(hunks, edit), edit.Growth(), edit.Growth())[k]
           == if above then hunks[k].Moved(edit.Growth(), edit.Growth()) else hunks[k];
  }

  lemma BesideSurvives<T>(base: seq<T>, buffer: seq<T>, m: Edit, edit: Edit, h: Edit, ins: seq<T>, above: bool)
    requires 0 <= m.oldStart <= m.oldEnd <= |base| && 0 <= edit.oldStart <= edit.oldEnd <= |buffer|
    requires 0 <= h.oldStart <= h.oldEnd <= |base| && 0 <= h.newStart <= h.newEnd <= |buffer|
    requires m.OldLen() == edit.OldLen() && |ins| == edit.NewLen()
    requires if above then m.oldEnd <= h.oldStart && edit.oldEnd <= h.newStart else h.oldEnd <= m.oldStart && h.newEnd <= edit.oldStart
    ensures var h' := if above then h.Moved(edit.Growth(), edit.Growth()) else h;
            && SameRows(base, h.oldStart, h.oldEnd, Splice(base, m.oldStart, m.oldEnd, ins), h'.oldStart, h'.oldEnd)
            && SameRows(buffer, h.newStart, h.newEnd, Splice(buffer, edit.oldStart, edit.oldEnd, ins), h'.newStart, h'.newEnd)
  {
    RowsKept(base, m.oldStart, m.oldEnd, ins, h.oldStart, h.oldEnd, above);
    RowsKept(buffer, edit.oldStart, edit.oldEnd, ins, h.newStart, h.newEnd, above);
  }

  /** A hunk lies beside a free edit in the base just as in the buffer. */
  lemma HunkBeside<T>(base: seq<T>, hunks: seq<Edit>, buffer: seq<T>, edit: Edit, k: int)
    requires Patches(base, hunks, buffer) && Free(edit, hunks)
    requires 0 <= edit.oldStart <= edit.oldEnd <= |buffer| && 0 <= k < |hunks|
    ensures 0 <= ToBase(hunks, edit).oldStart && ToBase(hunks, edit).oldEnd <= |base|
    ensures 0 <= hunks[k].oldStart <= hunks[k].oldEnd <= |base| && 0 <= hunks[k].newStart <= hunks[k].newEnd <= |buffer|
    ensures if Passed(hunks, edit) <= k
            then ToBase(hunks, edit).oldEnd <= hunks[k].oldStart && edit.oldEnd <= hunks[k].newStart
            else hunks[k].oldEnd <= ToBase(hunks, edit).oldStart && hunks[k].newEnd <= edit.oldStart
  {
    var i := Passed(hunks, edit);
    PatchesPlaced(base, hunks, buffer);
    PlacedAt(hunks, |base|, |buffer|, k);
    FreeRows(base, hunks, buffer, edit);
    FreeGap(base, hunks, buffer, edit);
    FreeSide(hunks, |base|, |buffer|, edit, k);
    if k + 1 < i {
      GapOrder(base, hunks, buffer, k + 1, i);
      assert GapSame(base, hunks, buffer, k + 1);
    } else if i < k {
      GapOrder(base, hunks, buffer, i, k);
      assert GapSame(base, hunks, buffer, k);
    }
  }

  /** The rows from `x` to `y` of one text are those from `u` to `v` of another. */
  ghost predicate SameRows<T>(s: seq<T>, x: int, y: int, t: seq<T>, u: int, v: int) {
    0 <= x <= y <= |s| && 0 <= u <= v <= |t| && s[x..y] == t[u..v]
  }

  lemma RowsKept<T>(s: seq<T>, a: int, b: int, ins: seq<T>, x: int, y: int, above: bool)
    requires 0 <= a <= b <= |s| && 0 <= x <= y <= |s|
    requires if above then b <= x else y <= a
    ensures var d := if above then |ins| - (b - a) else 0;
            SameRows(s, x, y, Splice(s, a, b, ins), x + d, y + d)
  {
    if above {
      SpliceAbove(s, a, b, ins, x, y);
    } else {
      SpliceBelow(s, a, b, ins, x, y);
    }
  }
}
