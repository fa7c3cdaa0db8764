/** Rebasing any list of user edits: those that touch no hunk are absorbed by the diff base, the others are joined with
    the hunks that they touch. */
module MixedRebasing {
  import opened NonConflictingEdits
  import opened Patching
  import opened Rebasing
  import opened Selection

  // ----- hunks that an edit touches

  /** How many hunks the edit does not end before. */
  function Reached(hunks: seq<Edit>, edit: Edit): (n: nat)
    ensures n <= |hunks|
    ensures forall k | n <= k < |hunks| :: Before(edit, hunks[k])
    ensures n > 0 ==> !Before(edit, hunks[n - 1])
    decreases |hunks|
  {
    if hunks == [] then 0
    else if Before(edit, Last(hunks)) then Reached(Init(hunks), edit)
    else |hunks|
  }

  /** The hunks that the edit has passed lie before it, those that it reaches touch it, and the others lie behind it. */
  lemma TouchedAt(hunks: seq<Edit>, oldLen: int, newLen: int, edit: Edit, k: int)
    requires Placed(hunks, oldLen, newLen) && edit.oldStart <= edit.oldEnd && 0 <= k < |hunks|
    ensures k < Passed(hunks, edit) ==> After(edit, hunks[k]) && hunks[k].newEnd <= edit.oldStart
    ensures Passed(hunks, edit) <= k < Reached(hunks, edit) ==> Touches(edit, hunks[k])
    ensures Reached(hunks, edit) <= k ==> Before(edit, hunks[k]) && edit.oldEnd <= hunks[k].newStart
  {
    var i, j := Passed(hunks, edit), Reached(hunks, edit);
    PassedIsLast(hunks, edit);
    PlacedAt(hunks, oldLen, newLen, k);
    if k + 1 < i {
      PlacedOrder(hunks, oldLen, newLen, k, i - 1);
      PlacedAt(hunks, oldLen, newLen, i - 1);
    }
    if k + 1 < j {
      PlacedOrder(hunks, oldLen, newLen, k, j - 1);
      PlacedAt(hunks, oldLen, newLen, j - 1);
    }
  }

  /** An edit that is not free touches the hunks from the ones it has passed up to the ones it reaches, and only those. */
  lemma ConflictReaches(hunks: seq<Edit>, oldLen: int, newLen: int, edit: Edit)
    requires Placed(hunks, oldLen, newLen) && edit.oldStart <= edit.oldEnd && !Free(edit, hunks)
    ensures Passed(hunks, edit) < Reached(hunks, edit)
  {
    var k :| 0 <= k < |hunks| && Touches(edit, hunks[k]);
    TouchedAt(hunks, oldLen, newLen, edit, k);
  }

  function Min(a: int, b: int): int {
    if a <= b then a else b
  }

  function Max(a: int, b: int): int {
    if a <= b then b else a
  }

  /** The hunk from the start of the first to the end of the last, and at least as far as the edit. */
  function Joint(first: Edit, last: Edit, edit: Edit): Edit {
    var before, behind := first.newStart - Min(first.newStart, edit.oldStart), Max(last.newEnd, edit.oldEnd) - last.newEnd;
    Edit(first.oldStart - before, last.oldEnd + behind, first.newStart - before, last.newEnd + behind)
  }

  /** The hunks with those from the `i`th up to the `j`th replaced by one. */
  function Replaced(hunks: seq<Edit>, i: int, j: int, joint: Edit): (r: seq<Edit>)
    requires 0 <= i < j <= |hunks|
    ensures |r| == |hunks| - (j - i) + 1
    ensures forall k | 0 <= k < |r| :: r[k] == if k < i then hunks[k] else if k == i then joint else hunks[k + (j - i) - 1]
  {
    hunks[..i] + [joint] + hunks[j..]
  }

  /** Joining hunks, with some of the rows around them, leaves a patch. */
  lemma JoinPatches<T>(base: seq<T>, hunks: seq<Edit>, buffer: seq<T>, i: int, j: int, before: int, behind: int, joint: Edit)
    requires Patches(base, hunks, buffer) && 0 <= i < j <= |hunks| && 0 <= before && 0 <= behind
    requires NewGapStart(hunks, i) <= hunks[i].newStart - before && hunks[j - 1].newEnd + behind <= NewGapEnd(hunks, |buffer|, j)
    requires joint == Edit(hunks[i].oldStart - before, hunks[j - 1].oldEnd + behind, hunks[i].newStart - before, hunks[j - 1].newEnd + behind)
    ensures Patches(base, Replaced(hunks, i, j, joint), buffer)
  {
    var r := Replaced(hunks, i, j, joint);
    PatchesPlaced(base, hunks, buffer);
    PlacedAt(hunks, |base|, |buffer|, i);
    PlacedAt(hunks, |base|, |buffer|, j - 1);
    if i < j - 1 {
      PlacedOrder(hunks, |base|, |buffer|, i, j - 1);
    }
    forall k | 0 <= k <= |r| ensures GapSame(base, r, buffer, k) {
      JoinGap(base, hunks, buffer, i, j, before, behind, joint, k);
    }
    forall k | 0 <= k < |r| ensures r[k].Ordered() {
      assert k != i ==> (if k < i then hunks[k] else hunks[k + (j - i) - 1]).Ordered();
    }
  }

  lemma JoinGap<T>(base: seq<T>, hunks: seq<Edit>, buffer: seq<T>, i: int, j: int, before: int, behind: int, joint: Edit, k: int)
    requires Patches(base, hunks, buffer) && 0 <= i < j <= |hunks| && 0 <= before && 0 <= behind
    requires NewGapStart(hunks, i) <= hunks[i].newStart - before && hunks[j - 1].newEnd + behind <= NewGapEnd(hunks, |buffer|, j)
    requires joint == Edit(hunks[i].oldStart - before, hunks[j - 1].oldEnd + behind, hunks[i].newStart - before, hunks[j - 1].newEnd + behind)
    requires 0 <= k <= |hunks| - (j - i) + 1
    ensures GapSame(base, Replaced(hunks, i, j, joint), buffer, k)
  {
    var r := Replaced(hunks, i, j, joint);
    var n := if k <= i then k else k + (j - i) - 1;
    var front, back := if k == i + 1 then behind else 0, if k == i then before else 0;
    var x, y, u, v := OldGapStart(hunks, n), OldGapEnd(hunks, |base|, n), NewGapStart(hunks, n), NewGapEnd(hunks, |buffer|, n);
    JointGap(hunks, i, j, joint, |base|, |buffer|, k, n);
    assert GapSame(base, hunks, buffer, n);
    GapLength(base, hunks, buffer, n);
    PartOfSame(base, buffer, x, y, u, v, x + front, y - back, u + front, v - back);
    GapFrom(base, r, buffer, k, x + front, y - back, u + front, v - back);
  }

  /** Where the gaps around joined hunks lie. */
  lemma JointGap(hunks: seq<Edit>, i: int, j: int, joint: Edit, oldLen: int, newLen: int, k: int, n: int)
    requires 0 <= i < j <= |hunks| && 0 <= k <= |hunks| - (j - i) + 1 && n == if k <= i then k else k + (j - i) - 1
    ensures var r := Replaced(hunks, i, j, joint);
            && OldGapStart(r, k) == (if k == i + 1 then joint.oldEnd else OldGapStart(hunks, n))
            && NewGapStart(r, k) == (if k == i + 1 then joint.newEnd else NewGapStart(hunks, n))
            && OldGapEnd(r, oldLen, k) == (if k == i then joint.oldStart else OldGapEnd(hunks, oldLen, n))
            && NewGapEnd(r, newLen, k) == (if k == i then joint.newStart else NewGapEnd(hunks, newLen, n))
  {
  }

  lemma PartOfSame<T>(s: seq<T>, t: seq<T>, x: int, y: int, u: int, v: int, x': int, y': int, u': int, v': int)
    requires 0 <= x <= x' <= y' <= y <= |s| && 0 <= u <= u' <= v' <= v <= |t| && s[x..y] == t[u..v]
    requires x' - x == u' - u && y' - x == v' - u
    ensures s[x'..y'] == t[u'..v']
  {
    SliceOfSlice(s, x, y, x', y');
    SliceOfSlice(t, u, v, u', v');
  }

  /** The hunks with the `i`th grown by an edit within it. */
  function Grown(hunks: seq<Edit>, i: int, d: int): (r: seq<Edit>)
    requires 0 <= i < |hunks|
    ensures |r| == |hunks|
    ensures forall k | 0 <= k < |r| ::
              r[k] == if k < i then hunks[k]
                      else if k == i then Edit(hunks[i].oldStart, hunks[i].oldEnd, hunks[i].newStart, hunks[i].newEnd + d)
                      else hunks[k].Moved(0, d)
  {
    hunks[..i] + [Edit(hunks[i].oldStart, hunks[i].oldEnd, hunks[i].newStart, hunks[i].newEnd + d)] + MoveAll(hunks[i + 1..], 0, d)
  }

  /** An edit within a hunk changes that hunk, and moves those behind it. */
  lemma EditWithin<T>(base: seq<T>, hunks: seq<Edit>, buffer: seq<T>, i: int, a: int, b: int, ins: seq<T>)
    returns (grown: seq<Edit>, spliced: seq<T>)
    requires Patches(base, hunks, buffer) && 0 <= i < |hunks| && hunks[i].newStart <= a <= b <= hunks[i].newEnd
    ensures 0 <= a && b <= |buffer| && spliced == Splice(buffer, a, b, ins)
    ensures grown == Grown(hunks, i, |ins| - (b - a)) && Patches(base, grown, spliced)
  {
    PatchesPlaced(base, hunks, buffer);
    PlacedAt(hunks, |base|, |buffer|, i);
    grown, spliced := Grown(hunks, i, |ins| - (b - a)), Splice(buffer, a, b, ins);
    forall k | 0 <= k <= |grown| ensures GapSame(base, grown, spliced, k) {
      if k <= i {
        GapBefore(base, hunks, buffer, i, a, b, ins, k, grown, spliced);
      } else {
        GapBehind(base, hunks, buffer, i, a, b, ins, k, grown, spliced);
      }
    }
    forall k | 0 <= k < |grown| ensures grown[k].Ordered() {
      assert hunks[k].Ordered();
    }
  }

  lemma GapBefore<T>(base: seq<T>, hunks: seq<Edit>, buffer: seq<T>, i: int, a: int, b: int, ins: seq<T>, k: int,
                     grown: seq<Edit>, spliced: seq<T>)
    requires Patches(base, hunks, buffer) && 0 <= k <= i < |hunks| && 0 <= hunks[i].newStart <= a <= b <= hunks[i].newEnd <= |buffer|
    requires grown == Grown(hunks, i, |ins| - (b - a)) && spliced == Splice(buffer, a, b, ins)
    ensures GapSame(base, grown, spliced, k)
  {
    assert GapSame(base, hunks, buffer, k);
    var x, y, u, v := OldGapStart(hunks, k), OldGapEnd(hunks, |base|, k), NewGapStart(hunks, k), NewGapEnd(hunks, |buffer|, k);
    if k < i {
      GapOrder(base, hunks, buffer, k, i);
      assert GapSame(base, hunks, buffer, i);
    }
    SpliceBelow(buffer, a, b, ins, u, v);
    GapFrom(base, grown, spliced, k, x, y, u, v);
  }

  lemma GapBehind<T>(base: seq<T>, hunks: seq<Edit>, buffer: seq<T>, i: int, a: int, b: int, ins: seq<T>, k: int,
                     grown: seq<Edit>, spliced: seq<T>)
    requires Patches(base, hunks, buffer) && 0 <= i < k <= |hunks| && 0 <= hunks[i].newStart <= a <= b <= hunks[i].newEnd <= |buffer|
    requires grown == Grown(hunks, i, |ins| - (b - a)) && spliced == Splice(buffer, a, b, ins)
    ensures GapSame(base, grown, spliced, k)
  {
    var d := |ins| - (b - a);
    assert GapSame(base, hunks, buffer, k);
    var x, y, u, v := OldGapStart(hunks, k), OldGapEnd(hunks, |base|, k), NewGapStart(hunks, k), NewGapEnd(hunks, |buffer|, k);
    if i + 1 < k {
      GapOrder(base, hunks, buffer, i + 1, k);
      assert GapSame(base, hunks, buffer, i + 1);
    }
    SpliceAbove(buffer, a, b, ins, u, v);
    GapFrom(base, grown, spliced, k, x, y, u + d, v + d);
  }

  // ----- one edit

  /** The hunks from the `i`th up to the `j`th as one, together with the edit. */
  function JoinSpan(hunks: seq<Edit>, edit: Edit, i: int, j: int): (r: seq<Edit>)
    requires 0 <= i < j <= |hunks|
    ensures |r| == |hunks| - (j - i) + 1
    ensures forall k | 0 <= k < i :: r[k] == hunks[k]
    ensures forall k | i < k < |r| :: r[k] == hunks[k + (j - i) - 1].Moved(0, edit.Growth())
    ensures var joint := Joint(hunks[i], hunks[j - 1], edit);
            r[i] == Edit(joint.oldStart, joint.oldEnd, joint.newStart, joint.newEnd + edit.Growth())
  {
    Grown(Replaced(hunks, i, j, Joint(hunks[i], hunks[j - 1], edit)), i, edit.Growth())
  }

  /** The hunks once the edit has been made: those that it touches joined with it, and the ones behind it moved. */
  function Next(hunks: seq<Edit>, edit: Edit): seq<Edit> {
    var i, j := Passed(hunks, edit), Reached(hunks, edit);
    if i < j then JoinSpan(hunks, edit, i, j) else MoveFrom(hunks, i, edit.Growth(), edit.Growth())
  }

  lemma FreeIff(hunks: seq<Edit>, oldLen: int, newLen: int, edit: Edit)
    requires Placed(hunks, oldLen, newLen) && edit.oldStart <= edit.oldEnd
    ensures Free(edit, hunks) <==> Reached(hunks, edit) <= Passed(hunks, edit)
  {
    if Passed(hunks, edit) < Reached(hunks, edit) {
      TouchedAt(hunks, oldLen, newLen, edit, Passed(hunks, edit));
    }
    if !Free(edit, hunks) {
      ConflictReaches(hunks, oldLen, newLen, edit);
    }
  }

  /** The hunks up to the `i`th lie before the edit, those from there up to the `j`th touch it, the others lie behind it. */
  ghost predicate Span(hunks: seq<Edit>, edit: Edit, i: int, j: int) {
    && 0 <= i <= |hunks| && 0 <= j <= |hunks|
    && forall k | 0 <= k < |hunks| :: SpanAt(edit, hunks[k], i, j, k)
  }

  predicate SpanAt(edit: Edit, hunk: Edit, i: int, j: int, k: int) {
    && (k < i ==> After(edit, hunk) && hunk.newEnd <= edit.oldStart)
    && (i <= k < j ==> Touches(edit, hunk))
    && (j <= k ==> Before(edit, hunk) && edit.oldEnd <= hunk.newStart)
  }

  lemma SpanOf(hunks: seq<Edit>, oldLen: int, newLen: int, edit: Edit) returns (i: int, j: int)
    requires Placed(hunks, oldLen, newLen) && edit.oldStart <= edit.oldEnd
    ensures i == Passed(hunks, edit) && j == Reached(hunks, edit) && Span(hunks, edit, i, j)
    ensures Next(hunks, edit) == if i < j then JoinSpan(hunks, edit, i, j) else MoveFrom(hunks, i, edit.Growth(), edit.Growth())
    ensures Free(edit, hunks) <==> j <= i
  {
    i, j := Passed(hunks, edit), Reached(hunks, edit);
    FreeIff(hunks, oldLen, newLen, edit);
    forall k | 0 <= k < |hunks|
      ensures k < i ==> After(edit, hunks[k]) && hunks[k].newEnd <= edit.oldStart
      ensures i <= k < j ==> Touches(edit, hunks[k])
      ensures j <= k ==> Before(edit, hunks[k]) && edit.oldEnd <= hunks[k].newStart
    {
      TouchedAt(hunks, oldLen, newLen, edit, k);
    }
  }

  lemma JointFits(hunks: seq<Edit>, oldLen: int, newLen: int, edit: Edit, i: int, j: int) returns (joint: Edit)
    requires Placed(hunks, oldLen, newLen) && Span(hunks, edit, i, j) && i < j && 0 <= edit.oldStart <= edit.oldEnd <= newLen
    ensures joint == Joint(hunks[i], hunks[j - 1], edit)
    ensures NewGapStart(hunks, i) <= joint.newStart <= hunks[i].newStart
    ensures hunks[j - 1].newEnd <= joint.newEnd <= NewGapEnd(hunks, newLen, j)
    ensures joint.newStart <= edit.oldStart && edit.oldEnd <= joint.newEnd
  {
    joint := Joint(hunks[i], hunks[j - 1], edit);
    PlacedAt(hunks, oldLen, newLen, i);
    PlacedAt(hunks, oldLen, newLen, j - 1);
    if 0 < i {
      PlacedOrder(hunks, oldLen, newLen, i - 1, i);
    }
    if j < |hunks| {
      PlacedOrder(hunks, oldLen, newLen, j - 1, j);
    }
  }

  /** Hunks joined so that the edit lies within the joint one, and then the edit made. */
  lemma JointStep<T>(base: seq<T>, hunks: seq<Edit>, buffer: seq<T>, a: int, b: int, ins: seq<T>, i: int, j: int,
                     before: int, behind: int, joint: Edit, joined: seq<Edit>, d: int)
    returns (grown: seq<Edit>, spliced: seq<T>)
    requires Patches(base, hunks, buffer) && 0 <= i < j <= |hunks| && 0 <= before && 0 <= behind
    requires NewGapStart(hunks, i) <= hunks[i].newStart - before && hunks[j - 1].newEnd + behind <= NewGapEnd(hunks, |buffer|, j)
    requires joint == Edit(hunks[i].oldStart - before, hunks[j - 1].oldEnd + behind, hunks[i].newStart - before, hunks[j - 1].newEnd + behind)
    requires joint.newStart <= a <= b <= joint.newEnd && joined == Replaced(hunks, i, j, joint) && d == |ins| - (b - a)
    ensures 0 <= a && b <= |buffer| && spliced == Splice(buffer, a, b, ins)
    ensures grown == Grown(joined, i, d) && Patches(base, grown, spliced)
  {
    JoinPatches(base, hunks, buffer, i, j, before, behind, joint);
    grown, spliced := EditWithin(base, joined, buffer, i, a, b, ins);
  }

  /** An edit that touches hunks leaves a patch from the same base. */
  lemma ConflictStep<T>(base: seq<T>, hunks: seq<Edit>, buffer: seq<T>, edit: Edit, ins: seq<T>, i: int, j: int)
    returns (next: seq<Edit>, buffer': seq<T>)
    requires Patches(base, hunks, buffer) && Span(hunks, edit, i, j) && i < j && |ins| == edit.NewLen()
    requires 0 <= edit.oldStart <= edit.oldEnd <= |buffer|
    ensures buffer' == Splice(buffer, edit.oldStart, edit.oldEnd, ins)
    ensures next == JoinSpan(hunks, edit, i, j) && Patches(base, next, buffer')
  {
    PatchesPlaced(base, hunks, buffer);
    var joint := JointFits(hunks, |base|, |buffer|, edit, i, j);
    var before, behind, joined := hunks[i].newStart - joint.newStart, joint.newEnd - hunks[j - 1].newEnd, Replaced(hunks, i, j, joint);
    next, buffer' := JointStep(base, hunks, buffer, edit.oldStart, edit.oldEnd, ins, i, j, before, behind, joint, joined, edit.Growth());
  }

  // ----- an earlier edit meets the hunks after this edit as it met them before

  /** The edit `f` ends before the edit `e` starts. */
  predicate Earlier(f: Edit, e: Edit) {
    f.oldStart <= f.oldEnd < e.oldStart <= e.oldEnd && 0 <= e.NewLen()
  }

  predicate Behind(f: Edit, hunk: Edit) {
    !Touches(f, hunk) && !After(f, hunk)
  }

  lemma MovedMeets(hunks: seq<Edit>, oldLen: int, newLen: int, e: Edit, f: Edit, i: int, j: int, k: int)
    requires Placed(hunks, oldLen, newLen) && Span(hunks, e, i, j) && j <= i && Earlier(f, e) && 0 <= k < |hunks|
    ensures var moved := if k < i then hunks[k] else hunks[k].Moved(e.Growth(), e.Growth());
            (Touches(f, moved) <==> Touches(f, hunks[k])) && (i <= k ==> !After(f, moved) && !After(f, hunks[k]))
  {
    PlacedAt(hunks, oldLen, newLen, k);
  }

  /** The joint hunk is touched by an earlier edit exactly if the first of its hunks is. */
  lemma JointMeets(hunks: seq<Edit>, oldLen: int, newLen: int, e: Edit, f: Edit, i: int, j: int)
    requires Placed(hunks, oldLen, newLen) && Span(hunks, e, i, j) && i < j && Earlier(f, e)
    ensures var joint := JoinSpan(hunks, e, i, j)[i];
            (Touches(f, joint) <==> Touches(f, hunks[i])) && !After(f, joint) && !After(f, hunks[i])
  {
    PlacedAt(hunks, oldLen, newLen, i);
    PlacedAt(hunks, oldLen, newLen, j - 1);
    assert Touches(e, hunks[i]) && Touches(e, hunks[j - 1]);
    if i < j - 1 {
      PlacedOrder(hunks, oldLen, newLen, i, j - 1);
    }
  }

  /** The other hunks that the edit touches, and those behind it, lie behind the earlier edit. */
  lemma BehindEarlier(hunks: seq<Edit>, oldLen: int, newLen: int, e: Edit, f: Edit, i: int, j: int, k: int)
    requires Placed(hunks, oldLen, newLen) && Span(hunks, e, i, j) && i < j && Earlier(f, e) && i < k < |hunks|
    ensures Behind(f, hunks[k])
    ensures j <= k ==> Behind(f, hunks[k].Moved(0, e.Growth()))
  {
    PlacedAt(hunks, oldLen, newLen, i);
    PlacedAt(hunks, oldLen, newLen, k);
    PlacedOrder(hunks, oldLen, newLen, i, k);
    assert Touches(e, hunks[i]);
    assert k < j ==> Touches(e, hunks[k]);
  }

  lemma HunksBehind(hunks: seq<Edit>, oldLen: int, newLen: int, e: Edit, f: Edit, i: int, j: int)
    requires Placed(hunks, oldLen, newLen) && Span(hunks, e, i, j) && i < j && Earlier(f, e)
    ensures forall k | i < k < |hunks| :: Behind(f, hunks[k])
  {
    forall k | i < k < |hunks| ensures Behind(f, hunks[k]) {
      BehindEarlier(hunks, oldLen, newLen, e, f, i, j, k);
    }
  }

  lemma JoinedBehindAt(hunks: seq<Edit>, oldLen: int, newLen: int, e: Edit, f: Edit, i: int, j: int, n: int, moved: Edit)
    requires Placed(hunks, oldLen, newLen) && Span(hunks, e, i, j) && i < j <= n < |hunks| && Earlier(f, e)
    requires moved == hunks[n].Moved(0, e.Growth())
    ensures Behind(f, moved)
  {
    BehindEarlier(hunks, oldLen, newLen, e, f, i, j, n);
  }

  lemma JoinedBehind(hunks: seq<Edit>, oldLen: int, newLen: int, e: Edit, f: Edit, i: int, j: int, next: seq<Edit>)
    requires Placed(hunks, oldLen, newLen) && Span(hunks, e, i, j) && i < j && Earlier(f, e)
    requires |next| == |hunks| - (j - i) + 1 && forall k | i < k < |next| :: next[k] == hunks[k + (j - i) - 1].Moved(0, e.Growth())
    ensures forall k | i < k < |next| :: Behind(f, next[k])
  {
    forall k | i < k < |next| ensures Behind(f, next[k]) {
      JoinedBehindAt(hunks, oldLen, newLen, e, f, i, j, k + (j - i) - 1, next[k]);
    }
  }

  lemma EarlierJoined(hunks: seq<Edit>, oldLen: int, newLen: int, e: Edit, f: Edit, i: int, j: int, next: seq<Edit>)
    requires Placed(hunks, oldLen, newLen) && Span(hunks, e, i, j) && i < j && Earlier(f, e) && next == JoinSpan(hunks, e, i, j)
    ensures Free(f, next) <==> Free(f, hunks)
    ensures ToBase(next, f) == ToBase(hunks, f)
  {
    JointMeets(hunks, oldLen, newLen, e, f, i, j);
    HunksBehind(hunks, oldLen, newLen, e, f, i, j);
    JoinedBehind(hunks, oldLen, newLen, e, f, i, j, next);
    FrontFree(f, hunks, next, i);
    FrontPlace(f, hunks, next, i);
  }

  /** Whether an edit is free depends on the first hunks only, if it lies before the others. */
  lemma FrontFree(f: Edit, hunks: seq<Edit>, next: seq<Edit>, i: int)
    requires 0 <= i < |hunks| && i < |next| && (forall k | 0 <= k < i :: hunks[k] == next[k])
    requires Touches(f, next[i]) <==> Touches(f, hunks[i])
    requires forall k | i < k < |hunks| :: Behind(f, hunks[k])
    requires forall k | i < k < |next| :: Behind(f, next[k])
    ensures Free(f, next) <==> Free(f, hunks)
  {
    if Free(f, hunks) {
      forall k | 0 <= k < |next| ensures !Touches(f, next[k]) {
        assert k <= i ==> !Touches(f, hunks[k]);
      }
    }
    if Free(f, next) {
      forall k | 0 <= k < |hunks| ensures !Touches(f, hunks[k]) {
        assert k <= i ==> !Touches(f, next[k]);
      }
    }
  }

  lemma SamePlace(hunks: seq<Edit>, next: seq<Edit>, f: Edit, i: int)
    requires 0 <= i <= |hunks| && i <= |next| && (forall k | 0 <= k < i :: hunks[k] == next[k])
    requires forall k | i <= k < |hunks| :: !After(f, hunks[k])
    requires forall k | i <= k < |next| :: !After(f, next[k])
    ensures ToBase(next, f) == ToBase(hunks, f)
  {
    PassedPrefix(hunks, i, f);
    PassedPrefix(next, i, f);
    assert hunks[..i] == next[..i];
  }

  lemma FrontPlace(f: Edit, hunks: seq<Edit>, next: seq<Edit>, i: int)
    requires 0 <= i < |hunks| && i < |next| && (forall k | 0 <= k < i :: hunks[k] == next[k])
    requires !After(f, next[i]) && !After(f, hunks[i])
    requires forall k | i < k < |hunks| :: Behind(f, hunks[k])
    requires forall k | i < k < |next| :: Behind(f, next[k])
    ensures ToBase(next, f) == ToBase(hunks, f)
  {
    SamePlace(hunks, next, f, i);
  }

  lemma EarlierMoved(hunks: seq<Edit>, oldLen: int, newLen: int, e: Edit, f: Edit, i: int, j: int, next: seq<Edit>)
    requires Placed(hunks, oldLen, newLen) && Span(hunks, e, i, j) && j <= i && Earlier(f, e)
    requires next == MoveFrom(hunks, i, e.Growth(), e.Growth())
    ensures Free(f, next) <==> Free(f, hunks)
    ensures ToBase(next, f) == ToBase(hunks, f)
  {
    forall k | 0 <= k < |hunks|
      ensures (Touches(f, next[k]) <==> Touches(f, hunks[k])) && (i <= k ==> !After(f, next[k]) && !After(f, hunks[k]))
    {
      MovedMeets(hunks, oldLen, newLen, e, f, i, j, k);
    }
    SamePlace(hunks, next, f, i);
  }

  /** An earlier edit is free after the edit exactly if it was before it, and has the same place in the base. */
  lemma EarlierSame(hunks: seq<Edit>, oldLen: int, newLen: int, e: Edit, f: Edit)
    requires Placed(hunks, oldLen, newLen) && Earlier(f, e)
    ensures Free(f, Next(hunks, e)) <==> Free(f, hunks)
    ensures ToBase(Next(hunks, e), f) == ToBase(hunks, f)
  {
    var i, j := SpanOf(hunks, oldLen, newLen, e);
    var next := Next(hunks, e);
    if i < j {
      EarlierJoined(hunks, oldLen, newLen, e, f, i, j, next);
    } else {
      EarlierMoved(hunks, oldLen, newLen, e, f, i, j, next);
    }
  }

  // ----- all edits

  /** The hunks once all edits have been made. */
  function JoinedHunks(hunks: seq<Edit>, edits: seq<Edit>): seq<Edit>
    decreases |edits|
  {
    if edits == [] then hunks else JoinedHunks(Next(hunks, Last(edits)), Init(edits))
  }

  lemma {:induction false} FreeSame(edits: seq<Edit>, hunks: seq<Edit>, next: seq<Edit>)
    requires forall k | 0 <= k < |edits| :: Free(edits[k], next) <==> Free(edits[k], hunks)
    requires forall k | 0 <= k < |edits| :: ToBase(next, edits[k]) == ToBase(hunks, edits[k])
    ensures FreeEdits(edits, next) == FreeEdits(edits, hunks)
    ensures AllToBase(next, FreeEdits(edits, next)) == AllToBase(hunks, FreeEdits(edits, hunks))
    decreases |edits|
  {
    if edits != [] {
      FreeSame(Init(edits), hunks, next);
      var e, rest := Last(edits), FreeEdits(Init(edits), hunks);
      assert edits[|edits| - 1] == e;
      assert AllToBase(next, rest + [e]) == AllToBase(next, rest) + [ToBase(next, e)];
      assert AllToBase(hunks, rest + [e]) == AllToBase(hunks, rest) + [ToBase(hunks, e)];
    }
  }

  lemma EarlierEdits(edits: seq<Edit>, bound: int, source: int, k: int)
    requires Placed(edits, bound, source) && OldApart(edits) && 0 <= k < |edits| - 1
    ensures Earlier(Init(edits)[k], Last(edits)) && 0 <= Init(edits)[k].oldStart
  {
    PlacedAt(edits, bound, source, k);
    PlacedAt(edits, bound, source, |edits| - 1);
    assert edits[k].oldEnd < edits[|edits| - 1].oldStart;
  }

  /** After the last edit, the others meet the hunks as before. */
  lemma InitSame<T>(base: seq<T>, hunks: seq<Edit>, buffer: seq<T>, edits: seq<Edit>, source: int)
    requires Patches(base, hunks, buffer) && Placed(edits, |buffer|, source) && OldApart(edits) && edits != []
    ensures var next := Next(hunks, Last(edits));
            && FreeEdits(Init(edits), next) == FreeEdits(Init(edits), hunks)
            && AllToBase(next, FreeEdits(Init(edits), next)) == AllToBase(hunks, FreeEdits(Init(edits), hunks))
  {
    var next := Next(hunks, Last(edits));
    PatchesPlaced(base, hunks, buffer);
    forall k | 0 <= k < |Init(edits)|
      ensures (Free(Init(edits)[k], next) <==> Free(Init(edits)[k], hunks)) && ToBase(next, Init(edits)[k]) == ToBase(hunks, Init(edits)[k])
    {
      EarlierEdits(edits, |buffer|, source, k);
      EarlierSame(hunks, |base|, |buffer|, Last(edits), Init(edits)[k]);
    }
    FreeSame(Init(edits), hunks, next);
  }

  /** The last edit made first: what becomes of the base, the buffer and the hunks. */
  lemma LastStep<T>(base: seq<T>, hunks: seq<Edit>, buffer: seq<T>, edits: seq<Edit>, source: seq<T>)
    returns (base': seq<T>, buffer': seq<T>)
    requires Patches(base, hunks, buffer) && Placed(edits, |buffer|, |source|) && OldApart(edits) && edits != []
    ensures Patches(base', Next(hunks, Last(edits)), buffer') && Placed(Init(edits), |buffer'|, |source|)
    ensures Apply(buffer, edits, source) == Apply(buffer', Init(edits), source)
    ensures Absorbed(base, hunks, edits, source) == Absorbed(base', Next(hunks, Last(edits)), Init(edits), source)
  {
    var e := Last(edits);
    PatchesPlaced(base, hunks, buffer);
    PlacedAt(edits, |buffer|, |source|, |edits| - 1);
    var i, j := SpanOf(hunks, |base|, |buffer|, e);
    buffer' := ApplyLastFirst(buffer, edits, source);
    InitSame(base, hunks, buffer, edits, |source|);
    AbsorbedApplies(base, hunks, buffer, edits, source);
    if i < j {
      base' := base;
      var next, spliced := ConflictStep(base, hunks, buffer, e, source[e.newStart..e.newEnd], i, j);
    } else {
      base' := FreeStep(base, hunks, buffer, edits, source);
    }
    AbsorbedApplies(base', Next(hunks, e), buffer', Init(edits), source);
  }

  lemma FreeStep<T>(base: seq<T>, hunks: seq<Edit>, buffer: seq<T>, edits: seq<Edit>, source: seq<T>) returns (base': seq<T>)
    requires Patches(base, hunks, buffer) && Placed(edits, |buffer|, |source|) && edits != [] && Free(Last(edits), hunks)
    requires Placed(FreeEdits(edits, hunks), |buffer|, |source|)
    ensures var e := Last(edits);
            && 0 <= e.oldStart <= e.oldEnd <= |buffer| && 0 <= e.newStart <= e.newEnd <= |source|
            && Patches(base', MoveFrom(hunks, Passed(hunks, e), e.Growth(), e.Growth()),
                       Splice(buffer, e.oldStart, e.oldEnd, source[e.newStart..e.newEnd]))
    ensures var rest := AllToBase(hunks, FreeEdits(Init(edits), hunks));
            && Placed(AllToBase(hunks, FreeEdits(edits, hunks)), |base|, |source|) && Placed(rest, |base'|, |source|)
            && Apply(base, AllToBase(hunks, FreeEdits(edits, hunks)), source) == Apply(base', rest, source)
  {
    var e := Last(edits);
    PlacedAt(edits, |buffer|, |source|, |edits| - 1);
    var free := FreeEdits(edits, hunks);
    assert Init(free) == FreeEdits(Init(edits), hunks) && Last(free) == e;
    MakeBoth(base, hunks, buffer, e, source[e.newStart..e.newEnd]);
    base' := RebasedLastFirst(base, hunks, buffer, free, source);
  }

  /** For any list of edits, the joined hunks take the rebased base to the edited buffer. */
  lemma {:induction false} RebaseMixed<T>(base: seq<T>, hunks: seq<Edit>, buffer: seq<T>, edits: seq<Edit>, source: seq<T>)
    requires Patches(base, hunks, buffer) && Placed(edits, |buffer|, |source|) && OldApart(edits)
    ensures Patches(Absorbed(base, hunks, edits, source), JoinedHunks(hunks, edits), Apply(buffer, edits, source))
    decreases |edits|
  {
    if edits == [] {
      assert AllToBase(hunks, FreeEdits(edits, hunks)) == [];
    } else {
      var next, rest := Next(hunks, Last(edits)), Init(edits);
      var base', buffer' := LastStep(base, hunks, buffer, edits, source);
      assert OldApart(rest);
      RebaseMixed(base', next, buffer', rest, source);
    }
  }

  /** Whatever the user has edited, the base that absorbs the edits that touch no hunk is taken to the new buffer by the old
      hunks, each joined with the edits that touch it. */
  lemma RebaseWithConflicts<T>(base: seq<T>, hunks: seq<Edit>, buffer: seq<T>, edits: seq<Edit>, result: seq<T>)
    requires Patches(base, hunks, buffer) && Patches(buffer, edits, result) && NewApart(edits)
    ensures Patches(Absorbed(base, hunks, edits, result), JoinedHunks(hunks, edits), result)
  {
    ApplyPatch(buffer, edits, result);
    ApartBothSides(buffer, edits, result);
    RebaseMixed(base, hunks, buffer, edits, result);
  }

  // ----- how far the joined hunks reach

  /** Every hunk lies at least `margin` rows away from those from `s` to `t`. */
  ghost predicate Clear(hunks: seq<Edit>, s: int, t: int, margin: int) {
    forall k | 0 <= k < |hunks| :: ClearOf(hunks[k], s, t, margin)
  }

  predicate ClearOf(hunk: Edit, s: int, t: int, margin: int) {
    hunk.newEnd + margin <= s || t + margin <= hunk.newStart
  }

  /** A free edit that lies away from the hunks. With no margin, every free edit does. */
  ghost predicate FreeBy(e: Edit, hunks: seq<Edit>, margin: int) {
    Free(e, hunks) && (margin == 1 ==> Clear(hunks, e.oldStart, e.oldEnd, 1))
  }

  /** The rows of a free edit are in no hunk. */
  lemma FreeIsClear(hunks: seq<Edit>, oldLen: int, newLen: int, e: Edit, margin: int)
    requires Placed(hunks, oldLen, newLen) && e.oldStart <= e.oldEnd && FreeBy(e, hunks, margin) && 0 <= margin <= 1
    ensures Clear(Next(hunks, e), e.oldStart, e.oldStart + e.NewLen(), margin)
  {
    var i, j := SpanOf(hunks, oldLen, newLen, e);
    var next := Next(hunks, e);
    forall k | 0 <= k < |next| ensures ClearOf(next[k], e.oldStart, e.oldStart + e.NewLen(), margin) {
      assert SpanAt(e, hunks[k], i, j, k);
      PlacedAt(hunks, oldLen, newLen, k);
      assert margin == 1 ==> ClearOf(hunks[k], e.oldStart, e.oldEnd, 1);
    }
  }

  lemma JointIsClear(hunks: seq<Edit>, oldLen: int, newLen: int, e: Edit, i: int, j: int, s: int, t: int, margin: int)
    requires Placed(hunks, oldLen, newLen) && Span(hunks, e, i, j) && i < j && 0 <= margin <= 1
    requires e.oldStart <= e.oldEnd < s <= t && 0 <= e.NewLen() && Clear(hunks, s, t, margin)
    ensures JoinSpan(hunks, e, i, j)[i].newEnd + margin <= s + e.Growth()
  {
    PlacedAt(hunks, oldLen, newLen, j - 1);
    assert SpanAt(e, hunks[j - 1], i, j, j - 1) && ClearOf(hunks[j - 1], s, t, margin);
  }

  lemma JoinSpanAt(hunks: seq<Edit>, e: Edit, i: int, j: int, next: seq<Edit>, k: int) returns (n: int)
    requires 0 <= i < j <= |hunks| && next == JoinSpan(hunks, e, i, j) && 0 <= k < |next|
    ensures 0 <= n < |hunks|
    ensures k < i ==> n == k && next[k] == hunks[n]
    ensures k == i ==> n == i
    ensures i < k ==> j <= n && next[k] == hunks[n].Moved(0, e.Growth())
  {
    n := if k <= i then k else k + (j - i) - 1;
  }

  /** Where the `k`th of the next hunks comes from. */
  lemma NextAt(hunks: seq<Edit>, oldLen: int, newLen: int, e: Edit, next: seq<Edit>, k: int) returns (i: int, j: int, n: int)
    requires Placed(hunks, oldLen, newLen) && e.oldStart <= e.oldEnd && next == Next(hunks, e) && 0 <= k < |next|
    ensures i == Passed(hunks, e) && j == Reached(hunks, e) && 0 <= n < |hunks| && SpanAt(e, hunks[n], i, j, n)
    ensures if k < i then n == k && next[k] == hunks[n]
            else if i < j && k == i then n == i && next == JoinSpan(hunks, e, i, j)
            else j <= n && next[k].newStart == hunks[n].newStart + e.Growth() && next[k].newEnd == hunks[n].newEnd + e.Growth()
  {
    i, j := SpanOf(hunks, oldLen, newLen, e);
    if i < j {
      n := JoinSpanAt(hunks, e, i, j, next, k);
    } else {
      n := k;
    }
    assert SpanAt(e, hunks[n], i, j, n);
  }

  lemma StaysClearAt(hunks: seq<Edit>, oldLen: int, newLen: int, e: Edit, next: seq<Edit>, k: int, s: int, t: int, margin: int)
    requires Placed(hunks, oldLen, newLen) && next == Next(hunks, e) && 0 <= k < |next|
    requires e.oldStart <= e.oldEnd < s <= t && 0 <= e.NewLen() && 0 <= margin <= 1 && Clear(hunks, s, t, margin)
    ensures ClearOf(next[k], s + e.Growth(), t + e.Growth(), margin)
  {
    var i, j, n := NextAt(hunks, oldLen, newLen, e, next, k);
    assert ClearOf(hunks[n], s, t, margin);
    if i < j && k == i {
      var i', j' := SpanOf(hunks, oldLen, newLen, e);
      JointIsClear(hunks, oldLen, newLen, e, i, j, s, t, margin);
    }
  }

  /** Rows behind the edit that were in no hunk still are in none. */
  lemma StaysClear(hunks: seq<Edit>, oldLen: int, newLen: int, e: Edit, s: int, t: int, margin: int)
    requires Placed(hunks, oldLen, newLen) && e.oldStart <= e.oldEnd < s <= t && 0 <= e.NewLen() && 0 <= margin <= 1
    requires Clear(hunks, s, t, margin)
    ensures Clear(Next(hunks, e), s + e.Growth(), t + e.Growth(), margin)
  {
    var next := Next(hunks, e);
    forall k | 0 <= k < |next| ensures ClearOf(next[k], s + e.Growth(), t + e.Growth(), margin) {
      StaysClearAt(hunks, oldLen, newLen, e, next, k, s, t, margin);
    }
  }

  lemma EarlierClearAt(hunks: seq<Edit>, oldLen: int, newLen: int, e: Edit, f: Edit, next: seq<Edit>, k: int)
    requires Placed(hunks, oldLen, newLen) && Earlier(f, e) && Clear(hunks, f.oldStart, f.oldEnd, 1)
    requires next == Next(hunks, e) && 0 <= k < |next|
    ensures ClearOf(next[k], f.oldStart, f.oldEnd, 1)
  {
    var i, j, n := NextAt(hunks, oldLen, newLen, e, next, k);
    PlacedAt(hunks, oldLen, newLen, n);
    assert ClearOf(hunks[n], f.oldStart, f.oldEnd, 1);
  }

  /** An earlier edit that lies away from the hunks lies away from the next ones. */
  lemma EarlierClear(hunks: seq<Edit>, oldLen: int, newLen: int, e: Edit, f: Edit)
    requires Placed(hunks, oldLen, newLen) && Earlier(f, e) && Clear(hunks, f.oldStart, f.oldEnd, 1)
    ensures Clear(Next(hunks, e), f.oldStart, f.oldEnd, 1)
  {
    var next := Next(hunks, e);
    forall k | 0 <= k < |next| ensures ClearOf(next[k], f.oldStart, f.oldEnd, 1) {
      EarlierClearAt(hunks, oldLen, newLen, e, f, next, k);
    }
  }

  lemma RestBefore(edits: seq<Edit>, bound: int, source: int)
    requires Placed(edits, bound, source) && OldApart(edits) && edits != []
    ensures OldApart(Init(edits)) && (Init(edits) != [] ==> Last(Init(edits)).oldEnd < Last(edits).oldStart)
    ensures Last(edits).oldStart <= Last(edits).oldEnd && 0 <= Last(edits).NewLen()
  {
    PlacedAt(edits, bound, source, |edits| - 1);
  }

  lemma {:induction false} StaysClearThrough<T>(base: seq<T>, hunks: seq<Edit>, buffer: seq<T>, edits: seq<Edit>, source: seq<T>,
                                                s: int, t: int, margin: int)
    requires Patches(base, hunks, buffer) && Placed(edits, |buffer|, |source|) && OldApart(edits)
    requires Clear(hunks, s, t, margin) && s <= t && 0 <= margin <= 1 && (edits != [] ==> Last(edits).oldEnd < s)
    ensures Clear(JoinedHunks(hunks, edits), s + TotalGrowth(edits), t + TotalGrowth(edits), margin)
    decreases |edits|
  {
    if edits != [] {
      var e, rest := Last(edits), Init(edits);
      var next := Next(hunks, e);
      RestBefore(edits, |buffer|, |source|);
      PatchesPlaced(base, hunks, buffer);
      StaysClear(hunks, |base|, |buffer|, e, s, t, margin);
      var base', buffer' := LastStep(base, hunks, buffer, edits, source);
      StaysClearThrough(base', next, buffer', rest, source, s + e.Growth(), t + e.Growth(), margin);
    }
  }

  lemma LastIsClear<T>(base: seq<T>, hunks: seq<Edit>, buffer: seq<T>, edits: seq<Edit>, source: seq<T>, s: int, t: int, margin: int)
    requires Patches(base, hunks, buffer) && Placed(edits, |buffer|, |source|) && OldApart(edits)
    requires edits != [] && FreeBy(Last(edits), hunks, margin) && 0 <= margin <= 1
    requires s == Last(edits).oldStart && t == s + Last(edits).NewLen()
    ensures Clear(JoinedHunks(hunks, edits), s + TotalGrowth(Init(edits)), t + TotalGrowth(Init(edits)), margin)
  {
    var e, rest := Last(edits), Init(edits);
    var next := Next(hunks, e);
    RestBefore(edits, |buffer|, |source|);
    PatchesPlaced(base, hunks, buffer);
    FreeIsClear(hunks, |base|, |buffer|, e, margin);
    var base', buffer' := LastStep(base, hunks, buffer, edits, source);
    StaysClearThrough(base', next, buffer', rest, source, s, t, margin);
  }

  /** The last edit made first: what becomes of an earlier one that is free. */
  lemma EarlierStep<T>(base: seq<T>, hunks: seq<Edit>, buffer: seq<T>, edits: seq<Edit>, source: seq<T>, k: int, margin: int)
    returns (base': seq<T>, next: seq<Edit>, buffer': seq<T>, rest: seq<Edit>)
    requires Patches(base, hunks, buffer) && Placed(edits, |buffer|, |source|) && OldApart(edits)
    requires 0 <= k < |edits| - 1 && FreeBy(edits[k], hunks, margin)
    ensures next == Next(hunks, Last(edits)) && rest == Init(edits)
    ensures Patches(base', next, buffer') && Placed(rest, |buffer'|, |source|) && OldApart(rest) && FreeBy(rest[k], next, margin)
  {
    next, rest := Next(hunks, Last(edits)), Init(edits);
    base', buffer' := LastStep(base, hunks, buffer, edits, source);
    PatchesPlaced(base, hunks, buffer);
    EarlierEdits(edits, |buffer|, |source|, k);
    EarlierSame(hunks, |base|, |buffer|, Last(edits), rest[k]);
    if margin == 1 {
      EarlierClear(hunks, |base|, |buffer|, Last(edits), rest[k]);
    }
  }

  lemma {:induction false} AbsorbedThrough<T>(base: seq<T>, hunks: seq<Edit>, buffer: seq<T>, edits: seq<Edit>, source: seq<T>,
                                              k: int, s: int, t: int, margin: int)
    requires Patches(base, hunks, buffer) && Placed(edits, |buffer|, |source|) && OldApart(edits)
    requires 0 <= k < |edits| && FreeBy(edits[k], hunks, margin) && 0 <= margin <= 1
    requires s == edits[k].oldStart + TotalGrowth(edits[..k]) && t == s + edits[k].NewLen()
    ensures Clear(JoinedHunks(hunks, edits), s, t, margin)
    decreases |edits|
  {
    if k == |edits| - 1 {
      LastIsClear(base, hunks, buffer, edits, source, edits[k].oldStart, edits[k].oldStart + edits[k].NewLen(), margin);
    } else {
      var base', next, buffer', rest := EarlierStep(base, hunks, buffer, edits, source, k, margin);
      assert rest[..k] == edits[..k];
      AbsorbedThrough(base', next, buffer', rest, source, k, s, t, margin);
    }
  }

  /** What the user has written apart from the hunks is in none of the joined hunks: it is never shown for review. If it
      was written at least one row away from them, it stays so. */
  lemma AbsorbedIsNotReviewed<T>(base: seq<T>, hunks: seq<Edit>, buffer: seq<T>, edits: seq<Edit>, result: seq<T>, k: int, margin: int)
    requires Patches(base, hunks, buffer) && Patches(buffer, edits, result) && NewApart(edits)
    requires 0 <= k < |edits| && FreeBy(edits[k], hunks, margin) && 0 <= margin <= 1
    ensures Clear(JoinedHunks(hunks, edits), edits[k].newStart, edits[k].newEnd, margin)
  {
    ApplyPatch(buffer, edits, result);
    ApartBothSides(buffer, edits, result);
    PatchesPrefix(buffer, edits, result, k);
    AbsorbedThrough(base, hunks, buffer, edits, result, k, edits[k].newStart, edits[k].newEnd, margin);
  }

  /** Where no edit touches a hunk, the joined hunks are the carried ones. */
  lemma {:induction false} JoinedAreCarried<T>(base: seq<T>, hunks: seq<Edit>, buffer: seq<T>, edits: seq<Edit>, source: seq<T>)
    requires Patches(base, hunks, buffer) && Placed(edits, |buffer|, |source|) && AllFree(edits, hunks)
    ensures JoinedHunks(hunks, edits) == Carried(hunks, edits)
    decreases |edits|
  {
    if edits == [] {
      assert Carried(hunks, edits) == hunks;
    } else {
      var e := Last(edits);
      PatchesPlaced(base, hunks, buffer);
      PlacedAt(edits, |buffer|, |source|, |edits| - 1);
      var i, j := SpanOf(hunks, |base|, |buffer|, e);
      var buffer' := ApplyLastFirst(buffer, edits, source);
      CarriedLast(hunks, |base|, |buffer|, edits, |buffer|, |source|);
      MakeBoth(base, hunks, buffer, e, source[e.newStart..e.newEnd]);
      JoinedAreCarried(Splice(base, ToBase(hunks, e).oldStart, ToBase(hunks, e).oldEnd, source[e.newStart..e.newEnd]),
                       Next(hunks, e), buffer', Init(edits), source);
    }
  }
}
