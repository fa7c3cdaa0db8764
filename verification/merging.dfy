/** Merging row edits that touch. Two pieces of code do it: one merges a list group by group, the other pushes edits
    one by one onto a patch. Both compute the same runs. */
module Merging {
  import opened Patching

  /** No edit before the `k`th touches it. */
  predicate Cut(edits: seq<Edit>, k: int)
    requires 0 <= k <= |edits|
  {
    k == 0 || k == |edits| || edits[k - 1].oldEnd < edits[k].oldStart
  }

  function Joined(first: Edit, last: Edit): Edit {
    Edit(first.oldStart, last.oldEnd, first.newStart, last.newEnd)
  }

  /** The edits with each run of touching ones joined. */
  function Runs(edits: seq<Edit>): (runs: seq<Edit>)
    ensures edits != [] ==> runs != [] && Last(runs).oldEnd == Last(edits).oldEnd
    decreases |edits|
  {
    if edits == [] then []
    else
      var runs := Runs(Init(edits));
      if |edits| > 1 && Last(runs).oldEnd >= Last(edits).oldStart
      then Init(runs) + [Joined(Last(runs), Last(edits))]
      else runs + [Last(edits)]
  }

  lemma RunsNext(edits: seq<Edit>, i: int)
    requires 0 <= i < |edits|
    ensures Runs(edits[..i + 1])
            == if i > 0 && edits[i - 1].oldEnd >= edits[i].oldStart
               then Init(Runs(edits[..i])) + [Joined(Last(Runs(edits[..i])), edits[i])]
               else Runs(edits[..i]) + [edits[i]]
  {
    assert Init(edits[..i + 1]) == edits[..i] && Last(edits[..i + 1]) == edits[i];
    if i > 0 {
      assert Last(edits[..i]) == edits[i - 1];
    }
  }

  /** A run from a cut on is the runs before it and one more edit. */
  lemma {:induction false} RunsGroup(edits: seq<Edit>, first: int, i: int)
    requires 0 <= first < i <= |edits| && Cut(edits, first)
    requires forall k | first < k < i :: edits[k - 1].oldEnd >= edits[k].oldStart
    ensures Runs(edits[..i]) == Runs(edits[..first]) + [Joined(edits[first], edits[i - 1])]
    decreases i
  {
    RunsNext(edits, i - 1);
    if first < i - 1 {
      RunsGroup(edits, first, i - 1);
      var runs := Runs(edits[..first]) + [Joined(edits[first], edits[i - 2])];
      assert Init(runs) == Runs(edits[..first]) && Last(runs) == Joined(edits[first], edits[i - 2]);
    }
  }

  /** Where the run that ends with the edit before the `i`th starts. */
  function GroupStart(edits: seq<Edit>, i: int): (first: int)
    requires 0 < i <= |edits|
    ensures 0 <= first < i && Cut(edits, first)
    ensures forall k | first < k < i :: edits[k - 1].oldEnd >= edits[k].oldStart
    decreases i
  {
    if i == 1 || edits[i - 2].oldEnd < edits[i - 1].oldStart then i - 1 else GroupStart(edits, i - 1)
  }

  /** The edit joins those from the `first`th to the `last`th: each touches the next, and none touches the others. */
  ghost predicate IsRun(edits: seq<Edit>, run: Edit, first: int, last: int) {
    && 0 <= first <= last < |edits| && run == Joined(edits[first], edits[last])
    && (forall i | first < i <= last :: edits[i - 1].oldEnd >= edits[i].oldStart)
    && (first > 0 ==> edits[first - 1].oldEnd < edits[first].oldStart)
    && (last < |edits| - 1 ==> edits[last].oldEnd < edits[last + 1].oldStart)
  }

  lemma GroupIsRun(edits: seq<Edit>, i: int) returns (first: int, run: Edit)
    requires 0 < i <= |edits| && Cut(edits, i)
    ensures first == GroupStart(edits, i) && 0 <= first < i && Cut(edits, first) && IsRun(edits, run, first, i - 1)
    ensures Runs(edits[..i]) == Runs(edits[..first]) + [run]
  {
    first := GroupStart(edits, i);
    run := Joined(edits[first], edits[i - 1]);
    RunsGroup(edits, first, i);
  }

  /** Each of the joined edits is a run. */
  lemma {:induction false} RunAt(edits: seq<Edit>, i: int, k: int) returns (first: int, last: int)
    requires 0 <= i <= |edits| && Cut(edits, i) && 0 <= k < |Runs(edits[..i])|
    ensures IsRun(edits, Runs(edits[..i])[k], first, last) && last < i
    decreases i
  {
    if i == 0 {
      assert false;
    } else {
      var start, run := GroupIsRun(edits, i);
      if k < |Runs(edits[..start])| {
        first, last := RunAt(edits, start, k);
      } else {
        first, last := start, i - 1;
      }
    }
  }

  /** Each edit is part of one of them. */
  lemma {:induction false} RunWith(edits: seq<Edit>, i: int, n: int) returns (k: int, first: int, last: int)
    requires 0 <= n < i <= |edits| && Cut(edits, i)
    ensures 0 <= k < |Runs(edits[..i])| && IsRun(edits, Runs(edits[..i])[k], first, last) && first <= n <= last
    decreases i
  {
    var start, run := GroupIsRun(edits, i);
    if n < start {
      k, first, last := RunWith(edits, start, n);
    } else {
      k, first, last := |Runs(edits[..start])|, start, i - 1;
    }
  }

  /** The inner loop: merges the following row edits into one as long as they touch it. */
  method MergeTouching(edits: seq<Edit>, first: int) returns (edit: Edit, last: int)
    requires 0 <= first < |edits|
    ensures first <= last < |edits| && Cut(edits, last + 1)
    ensures edit == Joined(edits[first], edits[last])
    ensures forall k | first < k <= last :: edits[k - 1].oldEnd >= edits[k].oldStart
  {
    edit, last := edits[first], first;
    while last + 1 < |edits|
      invariant first <= last < |edits|
      invariant edit == Joined(edits[first], edits[last])
      invariant forall k | first < k <= last :: edits[k - 1].oldEnd >= edits[k].oldStart
    {
      var nextEdit := edits[last + 1];
      if edit.oldEnd < nextEdit.oldStart {
        return;
      }
      edit := Edit(edit.oldStart, nextEdit.oldEnd, edit.newStart, nextEdit.newEnd);
      last := last + 1;
    }
  }

  /** Merges group by group. */
  method MergeAll(edits: seq<Edit>) returns (merged: seq<Edit>)
    ensures merged == Runs(edits)
  {
    merged := [];
    var i := 0;
    while i < |edits|
      invariant 0 <= i <= |edits| && Cut(edits, i)
      invariant merged == Runs(edits[..i])
    {
      var edit, last := MergeTouching(edits, i);
      RunsGroup(edits, i, last + 1);
      merged := merged + [edit];
      i := last + 1;
    }
    assert edits[..i] == edits;
  }

  predicate IsEmpty(edit: Edit) {
    edit.oldStart == edit.oldEnd && edit.newStart == edit.newEnd
  }

  /** Pushes edits one by one; empty ones are dropped. */
  method PushAll(edits: seq<Edit>) returns (patch: seq<Edit>)
    requires forall k | 0 <= k < |edits| :: !IsEmpty(edits[k])
    ensures patch == Runs(edits)
  {
    patch := [];
    for i := 0 to |edits|
      invariant patch == Runs(edits[..i])
    {
      RunsNext(edits, i);
      var edit := edits[i];
      if !IsEmpty(edit) {
        assert i > 0 ==> Last(edits[..i]) == edits[i - 1];
        if patch != [] && patch[|patch| - 1].oldEnd >= edit.oldStart {
          patch := patch[|patch| - 1 := Joined(patch[|patch| - 1], edit)];
        } else {
          patch := patch + [edit];
        }
      }
    }
    assert edits[..|edits|] == edits;
  }
}
