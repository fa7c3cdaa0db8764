/** The excerpts of a pending diff: the ranges of its hunks and the revealed ranges, sorted and merged. */
module Excerpts {

  datatype Point = Point(row: nat, column: nat)

  datatype Range = Range(start: Point, end: Point)

  predicate Leq(a: Point, b: Point) {
    a.row < b.row || (a.row == b.row && a.column <= b.column)
  }

  function Max(a: Point, b: Point): Point {
    if Leq(a, b) then b else a
  }

  /** The order by start, and for equal starts the longer range first. */
  predicate Before(a: Range, b: Range) {
    if a.start == b.start then Leq(b.end, a.end) else Leq(a.start, b.start)
  }

  /** Ranges run forward. */
  ghost predicate Forward(ranges: seq<Range>) {
    forall k | 0 <= k < |ranges| :: Leq(ranges[k].start, ranges[k].end)
  }

  ghost predicate InOrder(ranges: seq<Range>) {
    forall i, j | 0 <= i < j < |ranges| :: Leq(ranges[i].start, ranges[j].start)
  }

  /** Forward ranges in order, with a gap between any two. */
  ghost predicate Canonical(ranges: seq<Range>) {
    && Forward(ranges)
    && forall i, j | 0 <= i < j < |ranges| :: !Leq(ranges[j].start, ranges[i].end)
  }

  // ----- what ranges cover

  /** A place in the text, between columns too, so that ranges with a gap cover less than one range across it. */
  datatype Place = Place(row: int, column: real)

  ghost predicate Reaches(p: Point, q: Place) {
    p.row < q.row || (p.row == q.row && p.column as real <= q.column)
  }

  ghost predicate NotBefore(p: Point, q: Place) {
    q.row < p.row || (q.row == p.row && q.column <= p.column as real)
  }

  ghost predicate Covers(r: Range, q: Place) {
    Reaches(r.start, q) && NotBefore(r.end, q)
  }

  ghost predicate Covered(ranges: seq<Range>, q: Place) {
    ranges != [] && (Covers(ranges[0], q) || Covered(ranges[1..], q))
  }

  lemma {:induction false} CoveredConcat(a: seq<Range>, b: seq<Range>, q: Place)
    ensures Covered(a + b, q) <==> Covered(a, q) || Covered(b, q)
  {
    if a == [] {
      assert a + b == b;
    } else {
      CoveredConcat(a[1..], b, q);
      assert (a + b)[1..] == a[1..] + b;
    }
  }

  lemma CoveredSnoc(ranges: seq<Range>, r: Range, q: Place)
    ensures Covered(ranges + [r], q) <==> Covered(ranges, q) || Covers(r, q)
  {
    CoveredConcat(ranges, [r], q);
  }

  // ----- sorting

  function Insert(r: Range, ranges: seq<Range>): seq<Range> {
    if ranges == [] || Before(r, ranges[0]) then [r] + ranges else [ranges[0]] + Insert(r, ranges[1..])
  }

  function Sorted(ranges: seq<Range>): seq<Range> {
    if ranges == [] then [] else Insert(ranges[0], Sorted(ranges[1..]))
  }

  lemma {:induction false} InsertCovers(r: Range, ranges: seq<Range>, q: Place)
    ensures Covered(Insert(r, ranges), q) <==> Covers(r, q) || Covered(ranges, q)
  {
    if ranges == [] || Before(r, ranges[0]) {
      assert ([r] + ranges)[1..] == ranges;
    } else {
      InsertCovers(r, ranges[1..], q);
    }
  }

  lemma {:induction false} InsertHolds(r: Range, ranges: seq<Range>)
    ensures multiset(Insert(r, ranges)) == multiset(ranges) + multiset{r}
  {
    if !(ranges == [] || Before(r, ranges[0])) {
      InsertHolds(r, ranges[1..]);
      assert ranges == [ranges[0]] + ranges[1..];
    }
  }

  /** Forward ranges in the order that sorting establishes. */
  ghost predicate Sorts(ranges: seq<Range>) {
    Forward(ranges) && forall i, j | 0 <= i < j < |ranges| :: Before(ranges[i], ranges[j])
  }

  lemma SortsCons(first: Range, rest: seq<Range>)
    requires Sorts(rest) && Leq(first.start, first.end) && forall k | 0 <= k < |rest| :: Before(first, rest[k])
    ensures Sorts([first] + rest)
  {
    var all := [first] + rest;
    forall i, j | 0 <= i < j < |all| ensures Before(all[i], all[j]) {
      assert all[j] == rest[j - 1] && (i > 0 ==> all[i] == rest[i - 1]);
    }
    forall k | 0 <= k < |all| ensures Leq(all[k].start, all[k].end) {
      assert k > 0 ==> all[k] == rest[k - 1];
    }
  }

  lemma SortsTail(ranges: seq<Range>)
    requires Sorts(ranges) && ranges != []
    ensures Sorts(ranges[1..]) && forall r | r in ranges[1..] :: Before(ranges[0], r)
  {
  }

  lemma BeforeTransitive(a: Range, b: Range, c: Range)
    requires Before(a, b) && Before(b, c)
    ensures Before(a, c)
  {
  }

  lemma {:induction false} InsertOrders(r: Range, ranges: seq<Range>)
    requires Sorts(ranges) && Leq(r.start, r.end)
    ensures Sorts(Insert(r, ranges))
  {
    if ranges == [] || Before(r, ranges[0]) {
      forall k | 0 <= k < |ranges| ensures Before(r, ranges[k]) {
        if k > 0 {
          BeforeTransitive(r, ranges[0], ranges[k]);
        }
      }
      SortsCons(r, ranges);
    } else {
      SortsTail(ranges);
      InsertOrders(r, ranges[1..]);
      InsertBehind(r, ranges[1..], ranges[0]);
      SortsCons(ranges[0], Insert(r, ranges[1..]));
    }
  }

  lemma InsertBehind(r: Range, ranges: seq<Range>, first: Range)
    requires !Before(r, first) && forall x | x in ranges :: Before(first, x)
    ensures forall k | 0 <= k < |Insert(r, ranges)| :: Before(first, Insert(r, ranges)[k])
  {
    var inserted := Insert(r, ranges);
    InsertHolds(r, ranges);
    forall k | 0 <= k < |inserted| ensures Before(first, inserted[k]) {
      assert inserted[k] in multiset(inserted);
      assert inserted[k] == r || inserted[k] in ranges;
    }
  }

  lemma {:induction false} SortedOrders(ranges: seq<Range>)
    requires Forward(ranges)
    ensures Sorts(Sorted(ranges)) && multiset(Sorted(ranges)) == multiset(ranges)
  {
    if ranges != [] {
      SortedOrders(ranges[1..]);
      InsertOrders(ranges[0], Sorted(ranges[1..]));
      InsertHolds(ranges[0], Sorted(ranges[1..]));
      assert ranges == [ranges[0]] + ranges[1..];
    }
  }

  lemma {:induction false} SortedCovers(ranges: seq<Range>, q: Place)
    ensures Covered(Sorted(ranges), q) <==> Covered(ranges, q)
  {
    if ranges != [] {
      SortedCovers(ranges[1..], q);
      InsertCovers(ranges[0], Sorted(ranges[1..]), q);
    }
  }

  // ----- merging

  /** Merging a range that starts within another covers what both cover. */
  lemma MergeCovers(r: Range, next: Range, q: Place)
    requires Leq(r.start, next.start) && Leq(next.start, r.end) && Leq(r.start, r.end) && Leq(next.start, next.end)
    ensures Covers(Range(r.start, Max(r.end, next.end)), q) <==> Covers(r, q) || Covers(next, q)
  {
  }

  /** Extends a range by the ranges from `i` on, as long as they start within it. */
  method Extend(ranges: seq<Range>, i: nat) returns (range: Range, next: nat)
    requires i < |ranges| && Forward(ranges) && InOrder(ranges)
    ensures i < next <= |ranges| && range.start == ranges[i].start && Leq(range.start, range.end)
    ensures next < |ranges| ==> !Leq(ranges[next].start, range.end)
    ensures forall q :: Covers(range, q) || Covered(ranges[next..], q) <==> Covered(ranges[i..], q)
  {
    range, next := ranges[i], i + 1;
    while next < |ranges| && Leq(ranges[next].start, range.end)
      invariant i < next <= |ranges| && range.start == ranges[i].start && Leq(range.start, range.end)
      invariant forall q :: Covers(range, q) || Covered(ranges[next..], q) <==> Covered(ranges[i..], q)
    {
      forall q ensures Covers(Range(range.start, Max(range.end, ranges[next].end)), q) <==> Covers(range, q) || Covers(ranges[next], q) {
        MergeCovers(range, ranges[next], q);
      }
      assert ranges[next..][1..] == ranges[next + 1..];
      range := Range(range.start, Max(range.end, ranges[next].end));
      next := next + 1;
    }
  }

  method ExcerptRanges(hunks: seq<Range>, revealed: seq<Range>) returns (merged: seq<Range>)
    requires Forward(hunks) && Forward(revealed)
    ensures Canonical(merged)
    ensures forall q :: Covered(merged, q) <==> Covered(hunks, q) || Covered(revealed, q)
  {
    var ranges := Sorted(hunks + revealed);
    SortedOrders(hunks + revealed);
    forall q ensures Covered(ranges, q) <==> Covered(hunks, q) || Covered(revealed, q) {
      SortedCovers(hunks + revealed, q);
      CoveredConcat(hunks, revealed, q);
    }
    merged := MergeSorted(ranges);
  }

  method MergeSorted(ranges: seq<Range>) returns (merged: seq<Range>)
    requires Forward(ranges) && InOrder(ranges)
    ensures Canonical(merged)
    ensures forall q :: Covered(merged, q) <==> Covered(ranges, q)
  {
    merged := [];
    var i := 0;
    while i < |ranges|
      invariant 0 <= i <= |ranges| && Canonical(merged)
      invariant i < |ranges| ==> forall k | 0 <= k < |merged| :: !Leq(ranges[i].start, merged[k].end)
      invariant forall q :: Covered(merged, q) || Covered(ranges[i..], q) <==> Covered(ranges, q)
    {
      var range, next := Extend(ranges, i);
      forall q ensures Covered(merged + [range], q) <==> Covered(merged, q) || Covers(range, q) {
        CoveredSnoc(merged, range, q);
      }
      merged := merged + [range];
      i := next;
    }
  }

  // ----- the result is determined by what it covers

  /** A place just behind `a`, before `b` and before `c`. */
  ghost function Behind(a: Point, b: Point, c: Point): Place {
    var m := if Leq(b, c) then b else c;
    Place(a.row, if m.row == a.row then (a.column as real + m.column as real) / 2.0 else a.column as real + 1.0)
  }

  lemma {:induction false} NotCoveredBefore(ranges: seq<Range>, q: Place)
    requires forall k | 0 <= k < |ranges| :: !Reaches(ranges[k].start, q)
    ensures !Covered(ranges, q)
  {
    if ranges != [] {
      NotCoveredBefore(ranges[1..], q);
    }
  }

  lemma CanonicalTail(ranges: seq<Range>, q: Place)
    requires Canonical(ranges) && ranges != []
    ensures Canonical(ranges[1..])
    ensures Covered(ranges[1..], q) <==> Covered(ranges, q) && !NotBefore(ranges[0].end, q)
  {
    if NotBefore(ranges[0].end, q) {
      NotCoveredBefore(ranges[1..], q);
    }
  }

  ghost function PlaceOf(p: Point): Place {
    Place(p.row, p.column as real)
  }

  /** A canonical list covers nothing before its first range. */
  lemma FirstStart(xs: seq<Range>, ys: seq<Range>)
    requires Canonical(xs) && Canonical(ys) && xs != []
    requires Covered(xs, PlaceOf(xs[0].start)) ==> Covered(ys, PlaceOf(xs[0].start))
    ensures ys != [] && Leq(ys[0].start, xs[0].start)
  {
    var q := PlaceOf(xs[0].start);
    assert Covers(xs[0], q);
    if ys != [] && !Leq(ys[0].start, xs[0].start) {
      forall k | 0 <= k < |ys| ensures !Reaches(ys[k].start, q) {
        assert Leq(ys[0].start, ys[k].start);
      }
      NotCoveredBefore(ys, q);
    }
  }

  lemma FirstEnd(xs: seq<Range>, ys: seq<Range>)
    requires Canonical(xs) && Canonical(ys) && xs != [] && ys != [] && xs[0].start == ys[0].start
    requires forall q :: Covered(ys, q) ==> Covered(xs, q)
    ensures Leq(ys[0].end, xs[0].end)
  {
    if !Leq(ys[0].end, xs[0].end) {
      var limit := if |xs| > 1 then xs[1].start else ys[0].end;
      var q := Behind(xs[0].end, ys[0].end, limit);
      assert Covered(ys, q);
      forall k | 0 <= k < |xs[1..]| ensures !Reaches(xs[1..][k].start, q) {
        assert Leq(xs[1].start, xs[k + 1].start);
      }
      NotCoveredBefore(xs[1..], q);
    }
  }

  /** Two canonical lists that cover the same places are equal. So the excerpts depend neither on the order of the
      hunks and revealed ranges nor on repetitions among them. */
  lemma {:induction false} CanonicalIsUnique(xs: seq<Range>, ys: seq<Range>)
    requires Canonical(xs) && Canonical(ys)
    requires forall q :: Covered(xs, q) <==> Covered(ys, q)
    ensures xs == ys
  {
    if xs == [] && ys == [] {
    } else if xs == [] {
      FirstStart(ys, xs);
    } else {
      FirstStart(xs, ys);
      FirstStart(ys, xs);
      FirstEnd(xs, ys);
      FirstEnd(ys, xs);
      forall q ensures Covered(xs[1..], q) <==> Covered(ys[1..], q) {
        CanonicalTail(xs, q);
        CanonicalTail(ys, q);
      }
      CanonicalTail(xs, PlaceOf(xs[0].start));
      CanonicalTail(ys, PlaceOf(xs[0].start));
      CanonicalIsUnique(xs[1..], ys[1..]);
    }
  }
}
