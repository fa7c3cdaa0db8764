/** Edit lists that turn one sequence into another.

    The action log keeps its unreviewed hunks as a sorted list of edits, each a range
    of rows in the diff base and a range of rows in the buffer. The same list shape,
    over character positions, is what a text buffer reports as its edits. Everything
    here is therefore generic in the element type.

    Lists are taken apart at their last edit: everything before that edit is again an
    edit list, between a prefix of the old sequence and a prefix of the new one, in
    unchanged coordinates.
 */
module Patching {

  /** One edit: the range `oldStart..oldEnd` of the old side becomes `newStart..newEnd` of the new side. */
  datatype Edit = Edit(oldStart: int, oldEnd: int, newStart: int, newEnd: int) {
    predicate Ordered() { oldStart <= oldEnd && newStart <= newEnd }

    function OldLen(): int { oldEnd - oldStart }

    function NewLen(): int { newEnd - newStart }

    /** How many elements longer the sequence gets by this edit. */
    function Growth(): int { NewLen() - OldLen() }

    /** The same edit with its two sides moved. */
    function Moved(dOld: int, dNew: int): Edit {
      Edit(oldStart + dOld, oldEnd + dOld, newStart + dNew, newEnd + dNew)
    }

    /** The edit that undoes this one. */
    function Undo(): Edit { Edit(newStart, newEnd, oldStart, oldEnd) }
  }

  function Last(edits: seq<Edit>): Edit
    requires edits != []
  {
    edits[|edits| - 1]
  }

  function Init(edits: seq<Edit>): seq<Edit>
    requires edits != []
  {
    edits[..|edits| - 1]
  }

  /** The edits are in order, do not overlap on either side, and lie within sequences of these lengths. */
  ghost predicate Placed(edits: seq<Edit>, oldLen: int, newLen: int)
    decreases |edits|
  {
    if edits == [] then 0 <= oldLen && 0 <= newLen
    else
      var e := Last(edits);
      && e.oldStart <= e.oldEnd <= oldLen
      && e.newStart <= e.newEnd <= newLen
      && Placed(Init(edits), e.oldStart, e.newStart)
  }

  /** `base` with each edit's old range replaced by that edit's new range of `source`. */
  function Apply<T>(base: seq<T>, edits: seq<Edit>, source: seq<T>): (result: seq<T>)
    requires Placed(edits, |base|, |source|)
    decreases |edits|
  {
    if edits == [] then base
    else
      var e := Last(edits);
      PlacedNonNegative(Init(edits), e.oldStart, e.newStart);
      Apply(base[..e.oldStart], Init(edits), source[..e.newStart])
      + source[e.newStart..e.newEnd] + base[e.oldEnd..]
  }

  // The `i`th gap is what lies before the `i`th edit and after the edit preceding it;
  // the gap numbered `|edits|` is what follows the last edit.

  function OldGapStart(edits: seq<Edit>, i: int): int
    requires 0 <= i <= |edits|
  {
    if i == 0 then 0 else edits[i - 1].oldEnd
  }

  function NewGapStart(edits: seq<Edit>, i: int): int
    requires 0 <= i <= |edits|
  {
    if i == 0 then 0 else edits[i - 1].newEnd
  }

  function OldGapEnd(edits: seq<Edit>, oldLen: int, i: int): int
    requires 0 <= i <= |edits|
  {
    if i == |edits| then oldLen else edits[i].oldStart
  }

  function NewGapEnd(edits: seq<Edit>, newLen: int, i: int): int
    requires 0 <= i <= |edits|
  {
    if i == |edits| then newLen else edits[i].newStart
  }

  /** The `i`th gap lies within both sequences and is the same in both. */
  ghost predicate GapSame<T>(base: seq<T>, edits: seq<Edit>, result: seq<T>, i: int)
    requires 0 <= i <= |edits|
  {
    && 0 <= OldGapStart(edits, i) <= OldGapEnd(edits, |base|, i) <= |base|
    && 0 <= NewGapStart(edits, i) <= NewGapEnd(edits, |result|, i) <= |result|
    && base[OldGapStart(edits, i)..OldGapEnd(edits, |base|, i)]
       == result[NewGapStart(edits, i)..NewGapEnd(edits, |result|, i)]
  }

  /** The edits take `base` to `result`: whatever lies between edits is the same on both sides. */
  ghost predicate Patches<T>(base: seq<T>, edits: seq<Edit>, result: seq<T>) {
    && (forall k | 0 <= k < |edits| :: edits[k].Ordered())
    && (forall i | 0 <= i <= |edits| :: GapSame(base, edits, result, i))
  }

  function TotalGrowth(edits: seq<Edit>): int
    decreases |edits|
  {
    if edits == [] then 0 else TotalGrowth(Init(edits)) + Last(edits).Growth()
  }

  lemma GrowthSnoc(edits: seq<Edit>, e: Edit)
    ensures TotalGrowth(edits + [e]) == TotalGrowth(edits) + e.Growth()
  {
    assert Init(edits + [e]) == edits && Last(edits + [e]) == e;
  }

  function MoveAll(edits: seq<Edit>, dOld: int, dNew: int): (moved: seq<Edit>)
    ensures |moved| == |edits|
    ensures forall k | 0 <= k < |edits| :: moved[k] == edits[k].Moved(dOld, dNew)
  {
    seq(|edits|, k requires 0 <= k < |edits| => edits[k].Moved(dOld, dNew))
  }

  function UndoAll(edits: seq<Edit>): (undone: seq<Edit>)
    ensures |undone| == |edits|
    ensures forall k | 0 <= k < |edits| :: undone[k] == edits[k].Undo()
  {
    seq(|edits|, k requires 0 <= k < |edits| => edits[k].Undo())
  }

  // ----- where edits may lie

  lemma {:induction false} PlacedNonNegative(edits: seq<Edit>, oldLen: int, newLen: int)
    requires Placed(edits, oldLen, newLen)
    ensures 0 <= oldLen && 0 <= newLen
    decreases |edits|
  {
    if edits != [] {
      PlacedNonNegative(Init(edits), Last(edits).oldStart, Last(edits).newStart);
    }
  }

  lemma {:induction false} PlacedWider(edits: seq<Edit>, oldLen: int, newLen: int, oldLen': int, newLen': int)
    requires Placed(edits, oldLen, newLen) && oldLen <= oldLen' && newLen <= newLen'
    ensures Placed(edits, oldLen', newLen')
  {
  }

  /** Each edit of a placed list is within bounds. */
  lemma {:induction false} PlacedAt(edits: seq<Edit>, oldLen: int, newLen: int, k: int)
    requires Placed(edits, oldLen, newLen) && 0 <= k < |edits|
    ensures 0 <= edits[k].oldStart <= edits[k].oldEnd <= oldLen
    ensures 0 <= edits[k].newStart <= edits[k].newEnd <= newLen
    decreases |edits|
  {
    var e := Last(edits);
    PlacedNonNegative(Init(edits), e.oldStart, e.newStart);
    if k < |edits| - 1 {
      PlacedAt(Init(edits), e.oldStart, e.newStart, k);
    }
  }

  /** An earlier edit of a placed list ends before a later one starts. */
  lemma {:induction false} PlacedOrder(edits: seq<Edit>, oldLen: int, newLen: int, i: int, j: int)
    requires Placed(edits, oldLen, newLen) && 0 <= i < j < |edits|
    ensures edits[i].oldEnd <= edits[j].oldStart && edits[i].newEnd <= edits[j].newStart
    decreases |edits|
  {
    var e := Last(edits);
    if j < |edits| - 1 {
      PlacedOrder(Init(edits), e.oldStart, e.newStart, i, j);
    } else {
      PlacedAt(Init(edits), e.oldStart, e.newStart, i);
    }
  }

  lemma PlacedInit(edits: seq<Edit>, oldLen: int, newLen: int)
    requires Placed(edits, oldLen, newLen) && |edits| > 1
    ensures 0 <= Last(Init(edits)).oldStart <= Last(Init(edits)).oldEnd <= Last(edits).oldStart
    ensures 0 <= Last(Init(edits)).newStart <= Last(Init(edits)).newEnd <= Last(edits).newStart
  {
    PlacedAt(Init(edits), Last(edits).oldStart, Last(edits).newStart, |edits| - 2);
  }

  // ----- applying

  lemma {:induction false} ApplyLength<T>(base: seq<T>, edits: seq<Edit>, source: seq<T>)
    requires Placed(edits, |base|, |source|)
    ensures |Apply(base, edits, source)| == |base| + TotalGrowth(edits)
    decreases |edits|
  {
    if edits != [] {
      var e := Last(edits);
      PlacedNonNegative(Init(edits), e.oldStart, e.newStart);
      ApplyLength(base[..e.oldStart], Init(edits), source[..e.newStart]);
    }
  }

  /** Rows after the last edit are carried over unchanged. */
  lemma {:induction false} ApplyPrefix<T>(base: seq<T>, edits: seq<Edit>, source: seq<T>, p: int, q: int)
    requires Placed(edits, p, q) && p <= |base| && q <= |source|
    ensures 0 <= p && 0 <= q && Placed(edits, |base|, |source|)
    ensures Apply(base, edits, source) == Apply(base[..p], edits, source[..q]) + base[p..]
    ensures |Apply(base[..p], edits, source[..q])| == p + TotalGrowth(edits)
  {
    PlacedNonNegative(edits, p, q);
    PlacedWider(edits, p, q, |base|, |source|);
    ApplyLength(base[..p], edits, source[..q]);
    if edits == [] {
      assert base == base[..p] + base[p..];
    } else {
      var e := Last(edits);
      PlacedNonNegative(Init(edits), e.oldStart, e.newStart);
      assert base[..p][..e.oldStart] == base[..e.oldStart];
      assert source[..q][..e.newStart] == source[..e.newStart];
      assert base[e.oldEnd..] == base[..p][e.oldEnd..] + base[p..];
      assert source[..q][e.newStart..e.newEnd] == source[e.newStart..e.newEnd];
    }
  }

  /** One more edit at the end is one more replacement in the partly edited sequence. */
  lemma ApplySnoc<T>(base: seq<T>, edits: seq<Edit>, e: Edit, source: seq<T>)
    requires Placed(edits + [e], |base|, |source|)
    ensures 0 <= e.oldStart <= e.oldEnd <= |base| && 0 <= e.newStart <= e.newEnd <= |source|
    ensures Placed(edits, |base|, |source|) && Placed(edits, e.oldStart, e.newStart)
    ensures var text := Apply(base, edits, source);
            var d := TotalGrowth(edits);
            && 0 <= e.oldStart + d <= e.oldEnd + d <= |text|
            && Apply(base, edits + [e], source)
               == text[..e.oldStart + d] + source[e.newStart..e.newEnd] + text[e.oldEnd + d..]
  {
    assert Init(edits + [e]) == edits && Last(edits + [e]) == e;
    ApplyPrefix(base, edits, source, e.oldStart, e.newStart);
    var head := Apply(base[..e.oldStart], edits, source[..e.newStart]);
    var text := Apply(base, edits, source);
    assert text[..|head|] == head;
    assert text[e.oldEnd + TotalGrowth(edits)..] == base[e.oldEnd..];
  }

  lemma ApplyLast<T>(base: seq<T>, edits: seq<Edit>, source: seq<T>)
    requires Placed(edits, |base|, |source|) && edits != []
    ensures var e := Last(edits);
            && 0 <= e.oldStart <= e.oldEnd <= |base| && 0 <= e.newStart <= e.newEnd <= |source|
            && Placed(Init(edits), e.oldStart, e.newStart)
            && Apply(base, edits, source)
               == Apply(base[..e.oldStart], Init(edits), source[..e.newStart])
                  + source[e.newStart..e.newEnd] + base[e.oldEnd..]
            && |Apply(base[..e.oldStart], Init(edits), source[..e.newStart])| == e.oldStart + TotalGrowth(Init(edits))
  {
    var e := Last(edits);
    PlacedNonNegative(Init(edits), e.oldStart, e.newStart);
    ApplyLength(base[..e.oldStart], Init(edits), source[..e.newStart]);
  }

  /** Making the last edit first changes nothing for the others. */
  lemma ApplyLastFirst<T>(base: seq<T>, edits: seq<Edit>, source: seq<T>) returns (spliced: seq<T>)
    requires Placed(edits, |base|, |source|) && edits != []
    ensures var e := Last(edits);
            && 0 <= e.oldStart <= e.oldEnd <= |base| && 0 <= e.newStart <= e.newEnd <= |source|
            && spliced == Splice(base, e.oldStart, e.oldEnd, source[e.newStart..e.newEnd])
    ensures Placed(Init(edits), |spliced|, |source|)
    ensures Apply(base, edits, source) == Apply(spliced, Init(edits), source)
  {
    var e := Last(edits);
    ApplyLast(base, edits, source);
    spliced := Splice(base, e.oldStart, e.oldEnd, source[e.newStart..e.newEnd]);
    ApplyPrefix(spliced, Init(edits), source, e.oldStart, e.newStart);
    assert spliced[..e.oldStart] == base[..e.oldStart];
    assert spliced[e.oldStart..] == source[e.newStart..e.newEnd] + base[e.oldEnd..];
  }

  // ----- patches

  /** A prefix of a patch ends at a gap. */
  lemma {:induction false} PatchesPrefix<T>(base: seq<T>, edits: seq<Edit>, result: seq<T>, n: int)
    requires Patches(base, edits, result) && 0 <= n <= |edits|
    ensures GapSame(base, edits, result, n)
    ensures Placed(edits[..n], OldGapEnd(edits, |base|, n), NewGapEnd(edits, |result|, n))
    ensures NewGapStart(edits, n) == OldGapStart(edits, n) + TotalGrowth(edits[..n])
    ensures NewGapEnd(edits, |result|, n) == OldGapEnd(edits, |base|, n) + TotalGrowth(edits[..n])
    decreases n
  {
    assert GapSame(base, edits, result, n);
    assert |base[OldGapStart(edits, n)..OldGapEnd(edits, |base|, n)]|
        == |result[NewGapStart(edits, n)..NewGapEnd(edits, |result|, n)]|;
    if n != 0 {
      PatchesPrefix(base, edits, result, n - 1);
      assert Init(edits[..n]) == edits[..n - 1] && Last(edits[..n]) == edits[n - 1];
      assert edits[n - 1].Ordered();
    }
  }

  lemma PatchesPlaced<T>(base: seq<T>, edits: seq<Edit>, result: seq<T>)
    requires Patches(base, edits, result)
    ensures Placed(edits, |base|, |result|)
    ensures |result| == |base| + TotalGrowth(edits)
  {
    PatchesPrefix(base, edits, result, |edits|);
    assert edits[..|edits|] == edits;
  }

  /** Applying the first edits of a patch gives the result up to the next gap's end. */
  lemma {:induction false} ApplyFirst<T>(base: seq<T>, edits: seq<Edit>, result: seq<T>, n: int)
    requires Patches(base, edits, result) && 0 <= n <= |edits|
    ensures var p, q := OldGapEnd(edits, |base|, n), NewGapEnd(edits, |result|, n);
            && 0 <= p <= |base| && 0 <= q <= |result| && Placed(edits[..n], p, q)
            && Apply(base[..p], edits[..n], result[..q]) == result[..q]
    decreases n
  {
    PatchesPrefix(base, edits, result, n);
    var p, q := OldGapEnd(edits, |base|, n), NewGapEnd(edits, |result|, n);
    if n == 0 {
      assert base[..p] == base[0..p] && result[..q] == result[0..q];
    } else {
      var e := edits[n - 1];
      ApplyFirst(base, edits, result, n - 1);
      assert Init(edits[..n]) == edits[..n - 1] && Last(edits[..n]) == e;
      ApplyLast(base[..p], edits[..n], result[..q]);
      SliceOfTake(base, p, 0, e.oldStart);
      SliceOfTake(result, q, 0, e.newStart);
      SliceOfTake(base, p, e.oldEnd, p);
      SliceOfTake(result, q, e.newStart, e.newEnd);
      assert result[..q] == result[..e.newStart] + result[e.newStart..e.newEnd] + result[e.newEnd..q];
    }
  }

  /** Applying all edits of a patch to the old side gives the new side. */
  lemma ApplyPatch<T>(base: seq<T>, edits: seq<Edit>, result: seq<T>)
    requires Patches(base, edits, result)
    ensures Placed(edits, |base|, |result|) && Apply(base, edits, result) == result
  {
    ApplyFirst(base, edits, result, |edits|);
    assert edits[..|edits|] == edits && base[..|base|] == base && result[..|result|] == result;
  }

  /** A patch read backwards is a patch. */
  lemma PatchesUndo<T>(base: seq<T>, edits: seq<Edit>, result: seq<T>)
    requires Patches(base, edits, result)
    ensures Patches(result, UndoAll(edits), base)
  {
    forall i | 0 <= i <= |edits| ensures GapSame(result, UndoAll(edits), base, i) {
      assert GapSame(base, edits, result, i);
    }
    forall k | 0 <= k < |edits| ensures UndoAll(edits)[k].Ordered() {
      assert edits[k].Ordered();
    }
  }

  // ----- changing one place on both sides of a patch, or on one

  /** `s` with the range from `a` to `b` replaced. */
  function Splice<T>(s: seq<T>, a: int, b: int, ins: seq<T>): seq<T>
    requires 0 <= a <= b <= |s|
  {
    s[..a] + ins + s[b..]
  }

  lemma SpliceBelow<T>(s: seq<T>, a: int, b: int, ins: seq<T>, x: int, y: int)
    requires 0 <= x <= y <= a <= b <= |s|
    ensures Splice(s, a, b, ins)[x..y] == s[x..y]
  {
  }

  lemma SpliceAbove<T>(s: seq<T>, a: int, b: int, ins: seq<T>, x: int, y: int)
    requires 0 <= a <= b <= x <= y <= |s|
    ensures var d := |ins| - (b - a);
            a <= x + d && Splice(s, a, b, ins)[x + d..y + d] == s[x..y]
  {
  }

  lemma SpliceAcross<T>(s: seq<T>, a: int, b: int, ins: seq<T>, x: int, y: int)
    requires 0 <= x <= a <= b <= y <= |s|
    ensures var d := |ins| - (b - a);
            a <= y + d && Splice(s, a, b, ins)[x..y + d] == s[x..a] + ins + s[b..y]
  {
  }

  lemma SliceOfTake<T>(s: seq<T>, n: int, a: int, b: int)
    requires 0 <= a <= b <= n <= |s|
    ensures s[..n][a..b] == s[a..b]
    ensures a == 0 ==> s[..n][..b] == s[..b]
    ensures b == n ==> s[..n][a..] == s[a..b]
  {
  }

  lemma SliceOfSlice<T>(s: seq<T>, x: int, y: int, a: int, b: int)
    requires 0 <= x <= a <= b <= y <= |s|
    ensures s[x..y][a - x..b - x] == s[a..b]
  {
    var t := s[x..y][a - x..b - x];
    assert |t| == b - a;
    forall k | 0 <= k < b - a ensures t[k] == s[a..b][k] {
      assert t[k] == s[x..y][a - x + k] == s[a + k];
    }
  }

  /** Edits from the `i`th on moved. */
  function MoveFrom(edits: seq<Edit>, i: int, dOld: int, dNew: int): (moved: seq<Edit>)
    requires 0 <= i <= |edits|
    ensures |moved| == |edits|
    ensures forall k | 0 <= k < |edits| :: moved[k] == if k < i then edits[k] else edits[k].Moved(dOld, dNew)
  {
    seq(|edits|, k requires 0 <= k < |edits| => if k < i then edits[k] else edits[k].Moved(dOld, dNew))
  }

  /** The gaps come in order on both sides. */
  lemma GapOrder<T>(base: seq<T>, edits: seq<Edit>, result: seq<T>, i: int, j: int)
    requires Patches(base, edits, result) && 0 <= i < j <= |edits|
    ensures OldGapEnd(edits, |base|, i) <= OldGapStart(edits, j)
    ensures NewGapEnd(edits, |result|, i) <= NewGapStart(edits, j)
  {
    PatchesPlaced(base, edits, result);
    if i < j - 1 {
      PlacedOrder(edits, |base|, |result|, i, j - 1);
      PlacedAt(edits, |base|, |result|, i);
    }
    PlacedAt(edits, |base|, |result|, j - 1);
  }

  /** Where the gaps of a list lie once its edits from the `i`th on have moved. */
  lemma GapsMoved(edits: seq<Edit>, i: int, dOld: int, dNew: int, oldLen: int, newLen: int, j: int)
    requires 0 <= i <= |edits| && 0 <= j <= |edits|
    ensures var moved := MoveFrom(edits, i, dOld, dNew);
            && OldGapStart(moved, j) == OldGapStart(edits, j) + (if i < j then dOld else 0)
            && NewGapStart(moved, j) == NewGapStart(edits, j) + (if i < j then dNew else 0)
            && OldGapEnd(moved, oldLen + dOld, j) == OldGapEnd(edits, oldLen, j) + (if i <= j then dOld else 0)
            && NewGapEnd(moved, newLen + dNew, j) == NewGapEnd(edits, newLen, j) + (if i <= j then dNew else 0)
  {
  }

  /** A stretch that is the same in two sequences stays so when both are spliced inside it. */
  lemma SpliceBoth<T>(s: seq<T>, x: int, y: int, t: seq<T>, u: int, v: int, a: int, b: int, c: int, ins: seq<T>)
    requires 0 <= x <= a <= b <= y <= |s| && 0 <= u <= v <= |t|
    requires s[x..y] == t[u..v] && c - u == a - x
    ensures c + (b - a) <= v
    ensures var d := |ins| - (b - a);
            0 <= y + d && 0 <= v + d && Splice(s, a, b, ins)[x..y + d] == Splice(t, c, c + (b - a), ins)[u..v + d]
  {
    var same := s[x..y];
    assert |same| == |t[u..v]|;
    SpliceAcross(s, a, b, ins, x, y);
    SpliceAcross(t, c, c + (b - a), ins, u, v);
    assert s[x..a] == same[..a - x] && s[b..y] == same[b - x..];
    assert t[u..c] == t[u..v][..a - x] && t[c + (b - a)..v] == t[u..v][b - x..];
  }

  lemma GapFrom<T>(base: seq<T>, edits: seq<Edit>, result: seq<T>, i: int, x: int, y: int, u: int, v: int)
    requires 0 <= i <= |edits|
    requires OldGapStart(edits, i) == x && OldGapEnd(edits, |base|, i) == y
    requires NewGapStart(edits, i) == u && NewGapEnd(edits, |result|, i) == v
    requires 0 <= x <= y <= |base| && 0 <= u <= v <= |result| && base[x..y] == result[u..v]
    ensures GapSame(base, edits, result, i)
  {
  }

  lemma GapBelow<T>(base: seq<T>, edits: seq<Edit>, result: seq<T>, i: int, a: int, b: int, c: int, ins: seq<T>, j: int)
    requires 0 <= j < i <= |edits| && GapSame(base, edits, result, j)
    requires OldGapEnd(edits, |base|, j) <= a <= b <= |base|
    requires NewGapEnd(edits, |result|, j) <= c && c + (b - a) <= |result|
    ensures var d := |ins| - (b - a);
            GapSame(Splice(base, a, b, ins), MoveFrom(edits, i, d, d), Splice(result, c, c + (b - a), ins), j)
  {
    var d := |ins| - (b - a);
    var x, y := OldGapStart(edits, j), OldGapEnd(edits, |base|, j);
    var u, v := NewGapStart(edits, j), NewGapEnd(edits, |result|, j);
    GapsMoved(edits, i, d, d, |base|, |result|, j);
    SpliceBelow(base, a, b, ins, x, y);
    SpliceBelow(result, c, c + (b - a), ins, u, v);
    GapFrom(Splice(base, a, b, ins), MoveFrom(edits, i, d, d), Splice(result, c, c + (b - a), ins), j, x, y, u, v);
  }

  lemma GapAbove<T>(base: seq<T>, edits: seq<Edit>, result: seq<T>, i: int, a: int, b: int, c: int, ins: seq<T>, j: int)
    requires 0 <= i < j <= |edits| && GapSame(base, edits, result, j)
    requires 0 <= a <= b <= OldGapStart(edits, j)
    requires 0 <= c && c + (b - a) <= NewGapStart(edits, j)
    ensures var d := |ins| - (b - a);
            && c + (b - a) <= |result|
            && GapSame(Splice(base, a, b, ins), MoveFrom(edits, i, d, d), Splice(result, c, c + (b - a), ins), j)
  {
    var d := |ins| - (b - a);
    var x, y := OldGapStart(edits, j), OldGapEnd(edits, |base|, j);
    var u, v := NewGapStart(edits, j), NewGapEnd(edits, |result|, j);
    GapsMoved(edits, i, d, d, |base|, |result|, j);
    SpliceAbove(base, a, b, ins, x, y);
    SpliceAbove(result, c, c + (b - a), ins, u, v);
    GapFrom(Splice(base, a, b, ins), MoveFrom(edits, i, d, d), Splice(result, c, c + (b - a), ins), j,
            x + d, y + d, u + d, v + d);
  }

  lemma GapAcross<T>(base: seq<T>, edits: seq<Edit>, result: seq<T>, i: int, a: int, b: int, c: int, ins: seq<T>)
    requires 0 <= i <= |edits| && GapSame(base, edits, result, i)
    requires OldGapStart(edits, i) <= a <= b <= OldGapEnd(edits, |base|, i)
    requires c - NewGapStart(edits, i) == a - OldGapStart(edits, i)
    ensures var d := |ins| - (b - a);
            && 0 <= a && b <= |base| && 0 <= c && c + (b - a) <= |result|
            && GapSame(Splice(base, a, b, ins), MoveFrom(edits, i, d, d), Splice(result, c, c + (b - a), ins), i)
  {
    var d := |ins| - (b - a);
    var x, y := OldGapStart(edits, i), OldGapEnd(edits, |base|, i);
    var u, v := NewGapStart(edits, i), NewGapEnd(edits, |result|, i);
    GapsMoved(edits, i, d, d, |base|, |result|, i);
    SpliceBoth(base, x, y, result, u, v, a, b, c, ins);
    GapFrom(Splice(base, a, b, ins), MoveFrom(edits, i, d, d), Splice(result, c, c + (b - a), ins), i, x, y + d, u, v + d);
  }

  lemma SpliceGap<T>(base: seq<T>, edits: seq<Edit>, result: seq<T>, i: int, a: int, b: int, c: int, ins: seq<T>, j: int)
    requires 0 <= i <= |edits| && 0 <= j <= |edits|
    requires GapSame(base, edits, result, i) && GapSame(base, edits, result, j)
    requires OldGapStart(edits, i) <= a <= b <= OldGapEnd(edits, |base|, i)
    requires c - NewGapStart(edits, i) == a - OldGapStart(edits, i)
    requires c + (b - a) <= NewGapEnd(edits, |result|, i)
    requires j < i ==> OldGapEnd(edits, |base|, j) <= OldGapStart(edits, i)
    requires j < i ==> NewGapEnd(edits, |result|, j) <= NewGapStart(edits, i)
    requires i < j ==> OldGapEnd(edits, |base|, i) <= OldGapStart(edits, j)
    requires i < j ==> NewGapEnd(edits, |result|, i) <= NewGapStart(edits, j)
    ensures var d := |ins| - (b - a);
            GapSame(Splice(base, a, b, ins), MoveFrom(edits, i, d, d), Splice(result, c, c + (b - a), ins), j)
  {
    if j < i {
      GapBelow(base, edits, result, i, a, b, c, ins, j);
    } else if i < j {
      GapAbove(base, edits, result, i, a, b, c, ins, j);
    } else {
      GapAcross(base, edits, result, i, a, b, c, ins);
    }
  }

  lemma SpliceGapAt<T>(base: seq<T>, edits: seq<Edit>, result: seq<T>, i: int, a: int, b: int, c: int, e: int, ins: seq<T>,
                       j: int, base': seq<T>, moved: seq<Edit>, result': seq<T>)
    requires Patches(base, edits, result) && 0 <= i <= |edits| && 0 <= j <= |edits|
    requires OldGapStart(edits, i) <= a <= b <= OldGapEnd(edits, |base|, i)
    requires c == a + TotalGrowth(edits[..i]) && e == c + (b - a)
    requires 0 <= a <= b <= |base| && 0 <= c <= e <= |result|
    requires base' == Splice(base, a, b, ins) && result' == Splice(result, c, e, ins)
    requires moved == MoveFrom(edits, i, |ins| - (b - a), |ins| - (b - a))
    ensures GapSame(base', moved, result', j)
  {
    PatchesPrefix(base, edits, result, i);
    assert GapSame(base, edits, result, j);
    if j < i {
      GapOrder(base, edits, result, j, i);
    } else if i < j {
      GapOrder(base, edits, result, i, j);
    }
    SpliceGap(base, edits, result, i, a, b, c, ins, j);
  }

  /** Replacing the same part of one gap on both sides leaves a patch. */
  lemma PatchesSplice<T>(base: seq<T>, edits: seq<Edit>, result: seq<T>, i: int, a: int, b: int, c: int, e: int, ins: seq<T>)
    requires Patches(base, edits, result) && 0 <= i <= |edits|
    requires OldGapStart(edits, i) <= a <= b <= OldGapEnd(edits, |base|, i)
    requires c == a + TotalGrowth(edits[..i]) && e - c == b - a
    ensures 0 <= a <= b <= |base| && 0 <= c <= e <= |result|
    ensures var d := |ins| - (b - a);
            Patches(Splice(base, a, b, ins), MoveFrom(edits, i, d, d), Splice(result, c, e, ins))
  {
    PatchesPrefix(base, edits, result, i);
    var moved := MoveFrom(edits, i, |ins| - (b - a), |ins| - (b - a));
    var base', result' := Splice(base, a, b, ins), Splice(result, c, e, ins);
    forall k | 0 <= k < |moved| ensures moved[k].Ordered() {
      assert edits[k].Ordered();
    }
    forall j | 0 <= j <= |moved| ensures GapSame(base', moved, result', j) {
      SpliceGapAt(base, edits, result, i, a, b, c, e, ins, j, base', moved, result');
    }
  }

  /** A patch followed by one more edit and by rows that both sides share. */
  lemma PatchesSnoc<T>(base: seq<T>, edits: seq<Edit>, result: seq<T>, removed: seq<T>, added: seq<T>, tail: seq<T>)
    requires Patches(base, edits, result)
    ensures Patches(base + removed + tail,
                    edits + [Edit(|base|, |base| + |removed|, |result|, |result| + |added|)],
                    result + added + tail)
  {
    var e := Edit(|base|, |base| + |removed|, |result|, |result| + |added|);
    var base', result' := base + removed + tail, result + added + tail;
    var n := |edits|;
    forall i {:trigger GapSame(base', edits + [e], result', i)} | 0 <= i <= n + 1
      ensures GapSame(base', edits + [e], result', i)
    {
      if i <= n {
        assert GapSame(base, edits, result, i);
        var x, y := OldGapStart(edits, i), OldGapEnd(edits, |base|, i);
        var u, v := NewGapStart(edits, i), NewGapEnd(edits, |result|, i);
        assert base'[x..y] == base[x..y] && result'[u..v] == result[u..v];
      } else {
        assert base'[|base| + |removed|..|base'|] == tail && result'[|result| + |added|..|result'|] == tail;
      }
    }
    forall k | 0 <= k < n + 1 ensures (edits + [e])[k].Ordered() {
      assert k < n ==> edits[k].Ordered();
    }
  }

  /** An edit list without its `k`th edit, for a base in which that edit has been made. */
  function Without(edits: seq<Edit>, k: int): (rest: seq<Edit>)
    requires 0 <= k < |edits|
    ensures |rest| == |edits| - 1
    ensures forall n | 0 <= n < |rest| ::
      rest[n] == if n < k then edits[n] else edits[n + 1].Moved(edits[k].Growth(), 0)
  {
    edits[..k] + MoveAll(edits[k + 1..], edits[k].Growth(), 0)
  }

  lemma TakeBelow<T>(base: seq<T>, edits: seq<Edit>, result: seq<T>, k: int, ins: seq<T>, j: int)
    requires 0 <= j < k < |edits| && GapSame(base, edits, result, j) && |ins| == edits[k].NewLen()
    requires OldGapEnd(edits, |base|, j) <= edits[k].oldStart <= edits[k].oldEnd <= |base|
    ensures GapSame(Splice(base, edits[k].oldStart, edits[k].oldEnd, ins), Without(edits, k), result, j)
  {
    var e := edits[k];
    var x, y := OldGapStart(edits, j), OldGapEnd(edits, |base|, j);
    var u, v := NewGapStart(edits, j), NewGapEnd(edits, |result|, j);
    SpliceBelow(base, e.oldStart, e.oldEnd, ins, x, y);
    GapFrom(Splice(base, e.oldStart, e.oldEnd, ins), Without(edits, k), result, j, x, y, u, v);
  }

  lemma TakeAbove<T>(base: seq<T>, edits: seq<Edit>, result: seq<T>, k: int, ins: seq<T>, j: int)
    requires 0 <= k < j < |edits| && GapSame(base, edits, result, j + 1) && |ins| == edits[k].NewLen()
    requires 0 <= edits[k].oldStart <= edits[k].oldEnd <= OldGapStart(edits, j + 1)
    ensures edits[k].oldEnd <= |base|
    ensures GapSame(Splice(base, edits[k].oldStart, edits[k].oldEnd, ins), Without(edits, k), result, j)
  {
    var e := edits[k];
    var d := e.Growth();
    var x, y := OldGapStart(edits, j + 1), OldGapEnd(edits, |base|, j + 1);
    var u, v := NewGapStart(edits, j + 1), NewGapEnd(edits, |result|, j + 1);
    SpliceAbove(base, e.oldStart, e.oldEnd, ins, x, y);
    GapFrom(Splice(base, e.oldStart, e.oldEnd, ins), Without(edits, k), result, j, x + d, y + d, u, v);
  }

  lemma TakeAcross<T>(base: seq<T>, edits: seq<Edit>, result: seq<T>, k: int)
    requires 0 <= k < |edits| && GapSame(base, edits, result, k) && GapSame(base, edits, result, k + 1)
    requires edits[k].Ordered()
    ensures var e := edits[k];
            && 0 <= e.oldStart <= e.oldEnd <= |base| && 0 <= e.newStart <= e.newEnd <= |result|
            && GapSame(Splice(base, e.oldStart, e.oldEnd, result[e.newStart..e.newEnd]), Without(edits, k), result, k)
  {
    var e := edits[k];
    var ins := result[e.newStart..e.newEnd];
    var x, y := OldGapStart(edits, k), OldGapEnd(edits, |base|, k + 1);
    var u, v := NewGapStart(edits, k), NewGapEnd(edits, |result|, k + 1);
    SpliceAcross(base, e.oldStart, e.oldEnd, ins, x, y);
    assert result[u..v] == result[u..e.newStart] + ins + result[e.newEnd..v];
    GapFrom(Splice(base, e.oldStart, e.oldEnd, ins), Without(edits, k), result, k, x, y + e.Growth(), u, v);
  }

  /** Taking one edit into the base leaves a patch of the other edits. */
  lemma PatchesTake<T>(base: seq<T>, edits: seq<Edit>, result: seq<T>, k: int)
    requires Patches(base, edits, result) && 0 <= k < |edits|
    ensures var e := edits[k];
            && 0 <= e.oldStart <= e.oldEnd <= |base| && 0 <= e.newStart <= e.newEnd <= |result|
            && Patches(Splice(base, e.oldStart, e.oldEnd, result[e.newStart..e.newEnd]), Without(edits, k), result)
  {
    var e := edits[k];
    assert GapSame(base, edits, result, k) && GapSame(base, edits, result, k + 1) && e.Ordered();
    var rest := Without(edits, k);
    var ins := result[e.newStart..e.newEnd];
    forall n | 0 <= n < |rest| ensures rest[n].Ordered() {
      assert edits[if n < k then n else n + 1].Ordered();
    }
    forall j {:trigger GapSame(Splice(base, e.oldStart, e.oldEnd, ins), rest, result, j)} | 0 <= j <= |rest|
      ensures GapSame(Splice(base, e.oldStart, e.oldEnd, ins), rest, result, j)
    {
      if j < k {
        assert GapSame(base, edits, result, j);
        GapOrder(base, edits, result, j, k);
        TakeBelow(base, edits, result, k, ins, j);
      } else if k < j {
        assert GapSame(base, edits, result, j + 1);
        GapOrder(base, edits, result, k + 1, j + 1);
        TakeAbove(base, edits, result, k, ins, j);
      } else {
        TakeAcross(base, edits, result, k);
      }
    }
  }
}
