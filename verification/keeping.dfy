/** Keeping hunks, one range after the other, and rejecting what is left: the same as rejecting the other hunks at once. */
module Keeping {
  import opened Options
  import opened Patching
  import opened Rebasing
  import opened NonConflictingEdits
  import opened Selection
  import opened Rows
  import opened TextPatches
  import opened Review
  import opened ActionLog
  import opened Recovery

  // ----- taking twice is taking both

  /** The second choice, made among the hunks that the first left, says the same about them as `second`. */
  ghost predicate Follows(hunks: seq<Edit>, first: set<Edit>, second: set<Edit>, second': set<Edit>) {
    forall k | 0 <= k < |hunks| && hunks[k] !in first ::
      hunks[k].Moved(TotalGrowth(Selected(hunks[..k], first)), 0) in second' <==> hunks[k] in second
  }

  lemma FollowsInit(hunks: seq<Edit>, first: set<Edit>, second: set<Edit>, second': set<Edit>)
    requires hunks != [] && Follows(hunks, first, second, second')
    ensures Follows(Init(hunks), first, second, second')
    ensures var e := Last(hunks);
            e !in first ==> (e.Moved(TotalGrowth(Selected(Init(hunks), first)), 0) in second' <==> e in second)
  {
    forall k | 0 <= k < |hunks| - 1 && hunks[k] !in first
      ensures hunks[k].Moved(TotalGrowth(Selected(Init(hunks)[..k], first)), 0) in second' <==> hunks[k] in second
    {
      assert Init(hunks)[..k] == hunks[..k];
    }
    assert hunks[..|hunks| - 1] == Init(hunks);
  }

  /** The hunks taken first, those taken of the rest, and both, but for the last hunk. */
  lemma LastTaken(hunks: seq<Edit>, first: set<Edit>, second: set<Edit>, second': set<Edit>)
    returns (some: seq<Edit>, more: seq<Edit>, both: seq<Edit>, e: Edit, e': Edit)
    requires hunks != [] && Follows(hunks, first, second, second')
    ensures some == Selected(Init(hunks), first) && both == Selected(Init(hunks), first + second)
    ensures more == Selected(Remaining(Init(hunks), first), second')
    ensures e == Last(hunks) && e' == e.Moved(TotalGrowth(some), 0)
    ensures Selected(hunks, first) == if e in first then some + [e] else some
    ensures Selected(hunks, first + second) == if e in first || e in second then both + [e] else both
    ensures Selected(Remaining(hunks, first), second') == if e !in first && e in second then more + [e'] else more
    ensures Remaining(hunks, first) == if e in first then Remaining(Init(hunks), first) else Remaining(Init(hunks), first) + [e']
  {
    e := Last(hunks);
    some, both := Selected(Init(hunks), first), Selected(Init(hunks), first + second);
    more := Selected(Remaining(Init(hunks), first), second');
    e' := e.Moved(TotalGrowth(some), 0);
    FollowsInit(hunks, first, second, second');
    SelectedLast(Remaining(Init(hunks), first), e', second');
  }

  lemma {:induction false} GrowthTwice(hunks: seq<Edit>, first: set<Edit>, second: set<Edit>, second': set<Edit>)
    requires Follows(hunks, first, second, second')
    ensures TotalGrowth(Selected(hunks, first)) + TotalGrowth(Selected(Remaining(hunks, first), second'))
            == TotalGrowth(Selected(hunks, first + second))
    decreases |hunks|
  {
    if hunks != [] {
      FollowsInit(hunks, first, second, second');
      GrowthTwice(Init(hunks), first, second, second');
      var some, more, both, e, e' := LastTaken(hunks, first, second, second');
      GrowthSnoc(some, e);
      GrowthSnoc(both, e);
      GrowthSnoc(more, e');
    }
  }

  /** What is left after taking twice is what is left after taking both at once. */
  lemma {:induction false} RemainingTwice(hunks: seq<Edit>, first: set<Edit>, second: set<Edit>, second': set<Edit>)
    requires Follows(hunks, first, second, second')
    ensures Remaining(Remaining(hunks, first), second') == Remaining(hunks, first + second)
    decreases |hunks|
  {
    if hunks != [] {
      FollowsInit(hunks, first, second, second');
      RemainingTwice(Init(hunks), first, second, second');
      GrowthTwice(Init(hunks), first, second, second');
      var some, more, both, e, e' := LastTaken(hunks, first, second, second');
      var rest := Remaining(Init(hunks), first);
      RemainingSnoc(hunks, first + second);
      SelectedLast(rest, e', second');
      assert e'.Moved(TotalGrowth(more), 0) == e.Moved(TotalGrowth(both), 0);
      FollowsInit(hunks, first, second, second');
      LeftOver(rest, e', second', e in first, Remaining(hunks, first));
    }
  }

  lemma LeftOver(rest: seq<Edit>, e: Edit, chosen: set<Edit>, taken: bool, all: seq<Edit>)
    requires all == if taken then rest else rest + [e]
    ensures Remaining(all, chosen)
            == if taken || e in chosen then Remaining(rest, chosen)
               else Remaining(rest, chosen) + [e.Moved(TotalGrowth(Selected(rest, chosen)), 0)]
  {
    SelectedLast(rest, e, chosen);
  }

  /** Taking some hunks into the base, and then some of those left, is taking both at once. */
  lemma {:induction false} TakeTwice<T>(base: seq<T>, hunks: seq<Edit>, result: seq<T>,
                                        first: set<Edit>, second: set<Edit>, second': set<Edit>)
    requires Placed(hunks, |base|, |result|) && Follows(hunks, first, second, second')
    ensures Placed(Selected(hunks, first), |base|, |result|) && Placed(Selected(hunks, first + second), |base|, |result|)
    ensures var taken := Apply(base, Selected(hunks, first), result);
            var rest := Selected(Remaining(hunks, first), second');
            && Placed(rest, |taken|, |result|)
            && Apply(taken, rest, result) == Apply(base, Selected(hunks, first + second), result)
    decreases |hunks|
  {
    SelectedPlaced(hunks, first, |base|, |result|);
    SelectedPlaced(hunks, first + second, |base|, |result|);
    if hunks != [] {
      var some, more, both, e, e' := LastTaken(hunks, first, second, second');
      PlacedNonNegative(Init(hunks), e.oldStart, e.newStart);
      FollowsInit(hunks, first, second, second');
      TakeTwice(base[..e.oldStart], Init(hunks), result[..e.newStart], first, second, second');
      assert Composes(base, e, result, some, more, both);
      if e in first {
        TakeFirst(base, e, result, some, more, both);
      } else if e in second {
        TakeSecond(base, e, result, some, more, both);
      } else {
        TakeNone(base, e, result, some, more, both);
      }
    }
  }

  lemma RemainingSnoc(hunks: seq<Edit>, chosen: set<Edit>)
    requires hunks != []
    ensures Remaining(hunks, chosen)
            == if Last(hunks) in chosen then Remaining(Init(hunks), chosen)
               else Remaining(Init(hunks), chosen) + [Last(hunks).Moved(TotalGrowth(Selected(Init(hunks), chosen)), 0)]
  {
  }

  lemma SelectedLast(hunks: seq<Edit>, e: Edit, chosen: set<Edit>)
    ensures Selected(hunks + [e], chosen) == if e in chosen then Selected(hunks, chosen) + [e] else Selected(hunks, chosen)
    ensures Remaining(hunks + [e], chosen)
            == if e in chosen then Remaining(hunks, chosen)
               else Remaining(hunks, chosen) + [e.Moved(TotalGrowth(Selected(hunks, chosen)), 0)]
  {
    assert Init(hunks + [e]) == hunks && Last(hunks + [e]) == e;
  }

  /** The edits lie before `e`, and making `some`, then `more`, is making `both`. */
  ghost predicate Composes<T>(base: seq<T>, e: Edit, result: seq<T>, some: seq<Edit>, more: seq<Edit>, both: seq<Edit>) {
    && 0 <= e.oldStart <= e.oldEnd <= |base| && 0 <= e.newStart <= e.newEnd <= |result|
    && Placed(some, e.oldStart, e.newStart) && Placed(both, e.oldStart, e.newStart)
    && var head := Apply(base[..e.oldStart], some, result[..e.newStart]);
    && Placed(more, |head|, e.newStart)
    && Apply(head, more, result[..e.newStart]) == Apply(base[..e.oldStart], both, result[..e.newStart])
  }

  lemma TakeFirst<T>(base: seq<T>, e: Edit, result: seq<T>, some: seq<Edit>, more: seq<Edit>, both: seq<Edit>)
    requires Composes(base, e, result, some, more, both)
    requires Placed(some + [e], |base|, |result|) && Placed(both + [e], |base|, |result|)
    ensures var taken := Apply(base, some + [e], result);
            Placed(more, |taken|, |result|) && Apply(taken, more, result) == Apply(base, both + [e], result)
  {
    var first, all := some + [e], both + [e];
    LastOf(some, e);
    LastOf(both, e);
    ApplyLast(base, first, result);
    ApplyLast(base, all, result);
    var head := Apply(base[..e.oldStart], some, result[..e.newStart]);
    var ins, tail := result[e.newStart..e.newEnd], base[e.oldEnd..];
    var taken := Apply(base, first, result);
    PartsOf(head, ins, tail);
    ApplyPrefix(taken, more, result, |head|, e.newStart);
    PartsOf(Apply(head, more, result[..e.newStart]), ins, tail);
  }

  lemma PartsOf<T>(head: seq<T>, ins: seq<T>, tail: seq<T>)
    ensures (head + ins + tail)[..|head|] == head && (head + ins + tail)[|head|..] == ins + tail
    ensures head + (ins + tail) == head + ins + tail
  {
  }

  lemma LastOf(edits: seq<Edit>, e: Edit)
    ensures Init(edits + [e]) == edits && Last(edits + [e]) == e
  {
  }

  lemma TakeSecond<T>(base: seq<T>, e: Edit, result: seq<T>, some: seq<Edit>, more: seq<Edit>, both: seq<Edit>)
    requires Composes(base, e, result, some, more, both)
    requires Placed(some, |base|, |result|) && Placed(both + [e], |base|, |result|)
    ensures var taken, e' := Apply(base, some, result), e.Moved(TotalGrowth(some), 0);
            && Placed(more + [e'], |taken|, |result|) && Apply(taken, more + [e'], result) == Apply(base, both + [e], result)
  {
    var e' := e.Moved(TotalGrowth(some), 0);
    LastOf(more, e');
    LastOf(both, e);
    ApplyPrefix(base, some, result, e.oldStart, e.newStart);
    ApplyLast(base, both + [e], result);
    var head := Apply(base[..e.oldStart], some, result[..e.newStart]);
    var taken := Apply(base, some, result);
    assert taken == head + base[e.oldStart..];
    assert taken[..|head|] == head && taken[e'.oldEnd..] == base[e.oldEnd..];
    ApplyLast(taken, more + [e'], result);
  }

  lemma TakeNone<T>(base: seq<T>, e: Edit, result: seq<T>, some: seq<Edit>, more: seq<Edit>, both: seq<Edit>)
    requires Composes(base, e, result, some, more, both)
    requires Placed(some, |base|, |result|) && Placed(both, |base|, |result|)
    ensures var taken := Apply(base, some, result);
            Placed(more, |taken|, |result|) && Apply(taken, more, result) == Apply(base, both, result)
  {
    ApplyPrefix(base, some, result, e.oldStart, e.newStart);
    ApplyPrefix(base, both, result, e.oldStart, e.newStart);
    var head := Apply(base[..e.oldStart], some, result[..e.newStart]);
    var taken := Apply(base, some, result);
    assert taken == head + base[e.oldStart..];
    ApplyPrefix(taken, more, result, |head|, e.newStart);
    assert taken[..|head|] == head && taken[|head|..] == base[e.oldStart..];
  }

  // ----- the ranges that are kept

  /** The hunks that some range meets. */
  function KeptBy(hunks: seq<Edit>, ranges: seq<RowRange>): set<Edit> {
    set hunk | hunk in hunks && MeetsSome(hunk, ranges)
  }

  lemma MeetsSomeCons(hunk: Edit, range: RowRange, ranges: seq<RowRange>)
    ensures MeetsSome(hunk, [range] + ranges) <==> Meets(hunk, range) || MeetsSome(hunk, ranges)
  {
    var all := [range] + ranges;
    if MeetsSome(hunk, ranges) {
      var i :| 0 <= i < |ranges| && Meets(hunk, ranges[i]);
      assert all[i + 1] == ranges[i];
    }
    if Meets(hunk, range) {
      assert Meets(hunk, all[0]);
    }
    if MeetsSome(hunk, all) {
      var i :| 0 <= i < |all| && Meets(hunk, all[i]);
      assert i > 0 ==> all[i] == ranges[i - 1];
    }
  }

  lemma KeptByCons(hunks: seq<Edit>, range: RowRange, ranges: seq<RowRange>)
    ensures KeptBy(hunks, [range] + ranges) == HunksMeeting(hunks, range) + KeptBy(hunks, ranges)
  {
    forall hunk | hunk in hunks
      ensures MeetsSome(hunk, [range] + ranges) <==> Meets(hunk, range) || MeetsSome(hunk, ranges)
    {
      MeetsSomeCons(hunk, range, ranges);
    }
  }

  lemma {:induction false} RemainingHas(hunks: seq<Edit>, chosen: set<Edit>, k: int)
    requires 0 <= k < |hunks| && hunks[k] !in chosen
    ensures hunks[k].Moved(TotalGrowth(Selected(hunks[..k], chosen)), 0) in Remaining(hunks, chosen)
    decreases |hunks|
  {
    RemainingSnoc(hunks, chosen);
    if k < |hunks| - 1 {
      RemainingHas(Init(hunks), chosen, k);
      assert Init(hunks)[..k] == hunks[..k];
    } else {
      assert Init(hunks) == hunks[..k];
    }
  }

  /** Where a hunk has moved in the base does not matter for the ranges, which are rows of the buffer. */
  lemma MovedMeets(hunk: Edit, d: int, ranges: seq<RowRange>)
    ensures MeetsSome(hunk.Moved(d, 0), ranges) <==> MeetsSome(hunk, ranges)
  {
    forall i | 0 <= i < |ranges| ensures Meets(hunk.Moved(d, 0), ranges[i]) <==> Meets(hunk, ranges[i]) {
    }
  }

  lemma KeptByFollows(hunks: seq<Edit>, first: set<Edit>, ranges: seq<RowRange>)
    ensures Follows(hunks, first, KeptBy(hunks, ranges), KeptBy(Remaining(hunks, first), ranges))
  {
    forall k | 0 <= k < |hunks| && hunks[k] !in first
      ensures hunks[k].Moved(TotalGrowth(Selected(hunks[..k], first)), 0) in KeptBy(Remaining(hunks, first), ranges)
              <==> hunks[k] in KeptBy(hunks, ranges)
    {
      RemainingHas(hunks, first, k);
      MovedMeets(hunks[k], TotalGrowth(Selected(hunks[..k], first)), ranges);
    }
  }

  // ----- events

  function Keeps(ranges: seq<RowRange>): seq<Event> {
    if ranges == [] then [] else [Keep(ranges[0])] + Keeps(ranges[1..])
  }

  /** One update after the other, none of which brings edits; each finds what hunks it finds. */
  function Updates(found: seq<seq<Edit>>): seq<Event> {
    if found == [] then [] else [BeginTrack([])] + ([Finish(found[0])] + Updates(found[1..]))
  }

  /** The buffer is the reviewed snapshot, and what is scheduled repeats it. */
  ghost predicate Repeating(log: Log) {
    && Valid(log) && log.tracked.Some? && log.tracked.value.status.Modified? && log.tracked.value.job.None?
    && log.tracked.value.snapshot == log.buffer
    && forall i | 0 <= i < |log.tracked.value.queue| :: log.tracked.value.queue[i] == Update(User, log.buffer)
  }

  ghost function TakenBy(t: Tracked, ranges: seq<RowRange>): Text {
    Taken(t.diffBase, t.unreviewed, t.snapshot.text, KeptBy(t.unreviewed, ranges), |t.unreviewed|)
  }

  lemma KeepOnce(log: Log, range: RowRange) returns (log': Log)
    requires Repeating(log)
    ensures log' == Step(log, Keep(range)) && Repeating(log') && log'.buffer == log.buffer
    ensures var t, t' := log.tracked.value, log'.tracked.value;
            && |t'.queue| == |t.queue| + 1 && t'.snapshot == t.snapshot
            && t'.unreviewed == Remaining(t.unreviewed, HunksMeeting(t.unreviewed, range))
            && t'.diffBase == Taken(t.diffBase, t.unreviewed, t.snapshot.text, HunksMeeting(t.unreviewed, range), |t.unreviewed|)
  {
    log' := Step(log, Keep(range));
    StepValid(log, Keep(range));
  }

  lemma TakenCons(t: Tracked, t': Tracked, range: RowRange, ranges: seq<RowRange>)
    requires IsReview(t.diffBase, t.unreviewed, t.snapshot.text) && IsReview(t'.diffBase, t'.unreviewed, t.snapshot.text)
    requires t'.snapshot == t.snapshot && t'.unreviewed == Remaining(t.unreviewed, HunksMeeting(t.unreviewed, range))
    requires t'.diffBase == Taken(t.diffBase, t.unreviewed, t.snapshot.text, HunksMeeting(t.unreviewed, range), |t.unreviewed|)
    ensures TakenBy(t', ranges) == TakenBy(t, [range] + ranges)
    ensures Remaining(t'.unreviewed, KeptBy(t'.unreviewed, ranges)) == Remaining(t.unreviewed, KeptBy(t.unreviewed, [range] + ranges))
  {
    var base, hunks, text := t.diffBase, t.unreviewed, t.snapshot.text;
    var first, second := HunksMeeting(hunks, range), KeptBy(hunks, ranges);
    var second' := KeptBy(t'.unreviewed, ranges);
    KeptByFollows(hunks, first, ranges);
    KeptByCons(hunks, range, ranges);
    PatchesPlaced(base, hunks, text);
    TakeTwice(base, hunks, text, first, second, second');
    RemainingTwice(hunks, first, second, second');
    TakeAll(base, hunks, text, first);
    TakeAll(base, hunks, text, first + second);
    TakeAll(t'.diffBase, t'.unreviewed, text, second');
  }

  lemma NoneKept(t: Tracked)
    requires IsReview(t.diffBase, t.unreviewed, t.snapshot.text)
    ensures TakenBy(t, []) == t.diffBase && Remaining(t.unreviewed, KeptBy(t.unreviewed, [])) == t.unreviewed
  {
    assert KeptBy(t.unreviewed, []) == {};
    NoneChosen(t.unreviewed);
    TakeAll(t.diffBase, t.unreviewed, t.snapshot.text, {});
  }

  /** Keeping range after range takes in all hunks that any of the ranges meets. */
  lemma {:induction false} KeepsRun(log: Log, ranges: seq<RowRange>) returns (log': Log)
    requires Repeating(log)
    ensures CanRun(log, Keeps(ranges)) && log' == Run(log, Keeps(ranges))
    ensures Repeating(log') && log'.buffer == log.buffer
    ensures var t, t' := log.tracked.value, log'.tracked.value;
            && |t'.queue| == |t.queue| + |ranges|
            && t'.diffBase == TakenBy(t, ranges)
            && t'.unreviewed == Remaining(t.unreviewed, KeptBy(t.unreviewed, ranges))
    decreases |ranges|
  {
    var t := log.tracked.value;
    if ranges == [] {
      log' := log;
      NoneKept(t);
    } else {
      var range, rest := ranges[0], ranges[1..];
      var log1 := KeepOnce(log, range);
      log' := KeepsRun(log1, rest);
      TakenCons(t, log1.tracked.value, range, rest);
      KeepsCons(log, log1, range, rest);
      assert [range] + rest == ranges;
    }
  }

  lemma KeepsCons(log: Log, log1: Log, range: RowRange, rest: seq<RowRange>)
    requires log1 == Step(log, Keep(range)) && CanRun(log1, Keeps(rest))
    ensures CanRun(log, Keeps([range] + rest)) && Run(log, Keeps([range] + rest)) == Run(log1, Keeps(rest))
  {
    var events := [Keep(range)] + Keeps(rest);
    assert ([range] + rest)[1..] == rest;
    assert Keeps([range] + rest) == events && events[0] == Keep(range) && events[1..] == Keeps(rest);
  }

  /** An update that brings no edits leaves the diff base and the buffer as they are. */
  lemma UpdateOnce(log: Log, found: seq<Edit>, rest: seq<Event>) returns (log': Log)
    requires Repeating(log) && log.tracked.value.queue != []
    requires CanRun(log, [BeginTrack([])] + ([Finish(found)] + rest))
    ensures Repeating(log') && log'.buffer == log.buffer && log'.tracked.value.diffBase == log.tracked.value.diffBase
    ensures log'.tracked.value.queue == log.tracked.value.queue[1..]
    ensures CanRun(log', rest) && Run(log, [BeginTrack([])] + ([Finish(found)] + rest)) == Run(log', rest)
  {
    var t := log.tracked.value;
    RunCons(log, BeginTrack([]), [Finish(found)] + rest);
    var log1 := Step(log, BeginTrack([]));
    StepValid(log, BeginTrack([]));
    NothingAbsorbed(t.diffBase, t.unreviewed, t.queue[0].snapshot.text);
    RunCons(log1, Finish(found), rest);
    log' := Step(log1, Finish(found));
    StepValid(log1, Finish(found));
  }

  lemma {:induction false} UpdatesRun(log: Log, found: seq<seq<Edit>>) returns (log': Log)
    requires Repeating(log) && |found| == |log.tracked.value.queue| && CanRun(log, Updates(found))
    ensures log' == Run(log, Updates(found)) && Quiet(log') && log'.buffer == log.buffer
    ensures log'.tracked.value.diffBase == log.tracked.value.diffBase
    decreases |found|
  {
    if found == [] {
      log' := log;
    } else {
      var log1 := UpdateOnce(log, found[0], Updates(found[1..]));
      log' := UpdatesRun(log1, found[1..]);
    }
  }

  // ----- rejecting exactly some hunks

  /** One range for each hunk. */
  function RangesOf(hunks: seq<Edit>): (ranges: seq<RowRange>)
    ensures |ranges| == |hunks|
    ensures forall k | 0 <= k < |hunks| :: ranges[k] == RowRange(hunks[k].newStart, hunks[k].newEnd)
  {
    seq(|hunks|, k requires 0 <= k < |hunks| => RowRange(hunks[k].newStart, hunks[k].newEnd))
  }

  lemma {:induction false} OthersIn(hunks: seq<Edit>, chosen: set<Edit>)
    ensures forall hunk :: hunk in Others(hunks, chosen) <==> hunk in hunks && hunk !in chosen
    decreases |hunks|
  {
    if hunks != [] {
      OthersIn(Init(hunks), chosen);
      assert hunks == Init(hunks) + [Last(hunks)];
    }
  }

  /** The hunks that are not chosen lie apart, in the order of the hunks. */
  lemma {:induction false} OthersApart(hunks: seq<Edit>, chosen: set<Edit>)
    requires NewApart(hunks)
    ensures NewApart(Others(hunks, chosen))
    decreases |hunks|
  {
    if hunks != [] {
      OthersApart(Init(hunks), chosen);
      OthersIn(Init(hunks), chosen);
      forall k | 0 <= k < |Others(Init(hunks), chosen)|
        ensures Others(Init(hunks), chosen)[k].newEnd < Last(hunks).newStart
      {
        assert Others(Init(hunks), chosen)[k] in Others(Init(hunks), chosen);
        var n :| 0 <= n < |Init(hunks)| && Init(hunks)[n] == Others(Init(hunks), chosen)[k];
      }
    }
  }

  /** Hunks that lie apart are met by their own ranges only. */
  lemma ScansOwn(hunks: seq<Edit>, others: seq<Edit>, k: int)
    requires NewApart(hunks) && NewApart(others) && 0 <= k < |hunks| && hunks[k].Ordered()
    requires forall hunk | hunk in others :: hunk in hunks && hunk.Ordered()
    ensures Scanned(hunks[k], RangesOf(others)) <==> hunks[k] in others
  {
    var hunk, ranges := hunks[k], RangesOf(others);
    var n := FirstReaching(ranges, hunk.newStart);
    if hunk in others {
      var i :| 0 <= i < |others| && others[i] == hunk;
      assert ranges[i].end >= hunk.newStart;
      assert forall m | 0 <= m < i :: ranges[m].end == others[m].newEnd < hunk.newStart;
    } else if n < |ranges| {
      assert others[n] in hunks;
      var m :| 0 <= m < |hunks| && hunks[m] == others[n];
      assert m != k;
    }
  }

  /** Rejecting the ranges of the hunks that are not chosen undoes exactly those. */
  lemma RejectsOthers(hunks: seq<Edit>, chosen: set<Edit>)
    requires NewApart(hunks) && forall k | 0 <= k < |hunks| :: hunks[k].Ordered()
    ensures ScannedHunks(hunks, RangesOf(Others(hunks, chosen))) == set hunk | hunk in hunks && hunk !in chosen
    ensures Selected(hunks, ScannedHunks(hunks, RangesOf(Others(hunks, chosen)))) == Others(hunks, chosen)
  {
    var others := Others(hunks, chosen);
    OthersIn(hunks, chosen);
    OthersApart(hunks, chosen);
    forall hunk | hunk in hunks ensures Scanned(hunk, RangesOf(others)) <==> hunk !in chosen {
      var k :| 0 <= k < |hunks| && hunks[k] == hunk;
      ScansOwn(hunks, others, k);
    }
    OthersAreSelected(hunks, chosen, ScannedHunks(hunks, RangesOf(others)));
  }

  lemma {:induction false} OthersAreSelected(hunks: seq<Edit>, chosen: set<Edit>, rest: set<Edit>)
    requires forall k | 0 <= k < |hunks| :: hunks[k] in rest <==> hunks[k] !in chosen
    ensures Selected(hunks, rest) == Others(hunks, chosen)
    decreases |hunks|
  {
    if hunks != [] {
      OthersAreSelected(Init(hunks), chosen, rest);
    }
  }

  /** With nothing pending, rejecting the ranges of the hunks that are not chosen gives the base with the chosen ones. */
  lemma RejectOthers(log: Log, chosen: set<Edit>) returns (event: Event)
    requires Quiet(log)
    ensures var t := log.tracked.value;
            var ranges := RangesOf(Others(t.unreviewed, chosen));
            && event == Reject(ranges, Reverted(t, ranges)) && Enabled(log, event)
            && Step(log, event).buffer.text == Taken(t.diffBase, t.unreviewed, t.snapshot.text, chosen, |t.unreviewed|)
  {
    var t := log.tracked.value;
    var base, hunks, text := t.diffBase, t.unreviewed, t.snapshot.text;
    var others := Others(hunks, chosen);
    event := Reject(RangesOf(others), Reverted(t, RangesOf(others)));
    RevertedText(t, RangesOf(others));
    RejectsOthers(hunks, chosen);
    TakeAll(base, hunks, text, chosen);
    KeepIsRejectOthers(base, hunks, text, chosen);
  }

  // ----- keeping, then rejecting the rest

  /** Keeping any ranges one after the other, letting the scheduled updates find whatever hunks they find, and then
      rejecting everything gives the text that rejecting the hunks met by none of the ranges gives at once. */
  lemma KeepThenRejectAll(log: Log, ranges: seq<RowRange>, found: seq<seq<Edit>>, reverted: Option<Text>)
    returns (kept: Log, once: Event)
    requires Quiet(log) && |found| == |ranges| && CanRun(log, Keeps(ranges) + Updates(found))
    requires var kept := Run(log, Keeps(ranges) + Updates(found)); Enabled(kept, Reject(WholeText(kept.buffer.text), reverted))
    ensures kept == Run(log, Keeps(ranges) + Updates(found)) && kept.buffer == log.buffer
    ensures once.Reject? && Enabled(log, once)
    ensures forall hunk | hunk in log.tracked.value.unreviewed ::
              Scanned(hunk, once.ranges) <==> !MeetsSome(hunk, ranges)
    ensures Step(kept, Reject(WholeText(kept.buffer.text), reverted)).buffer.text == Step(log, once).buffer.text
  {
    var t := log.tracked.value;
    var log1 := KeepsRun(log, ranges);
    RunConcat(log, Keeps(ranges), Updates(found));
    kept := UpdatesRun(log1, found);
    RejectAllRestoresBase(kept, reverted);
    once := RejectOthers(log, KeptBy(t.unreviewed, ranges));
    assert forall k | 0 <= k < |t.unreviewed| :: t.unreviewed[k].Ordered();
    RejectsOthers(t.unreviewed, KeptBy(t.unreviewed, ranges));
    forall hunk | hunk in t.unreviewed ensures Scanned(hunk, once.ranges) <==> !MeetsSome(hunk, ranges) {
      assert Scanned(hunk, once.ranges) <==> hunk in ScannedHunks(t.unreviewed, once.ranges);
      assert MeetsSome(hunk, ranges) <==> hunk in KeptBy(t.unreviewed, ranges);
    }
  }

  lemma {:induction false} RunConcat(log: Log, first: seq<Event>, rest: seq<Event>)
    requires CanRun(log, first + rest)
    ensures CanRun(log, first) && CanRun(Run(log, first), rest) && Run(log, first + rest) == Run(Run(log, first), rest)
    decreases |first|
  {
    if first == [] {
      assert first + rest == rest;
    } else {
      assert (first + rest)[1..] == first[1..] + rest;
      RunConcat(Step(log, first[0]), first[1..], rest);
    }
  }
}
