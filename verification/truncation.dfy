/** Terminal output cut to a byte limit without splitting a character, and where possible at a line break. */
module Truncation {
  import opened Options
  import opened Utf8Text

  const NEWLINE: Byte := 0x0A

  // ----- where the output is cut

  /** The largest character boundary up to the limit. */
  function BoundaryBelow(s: seq<Byte>, limit: nat): (b: nat)
    requires limit <= |s|
    ensures b <= limit && IsCharBoundary(s, b)
    ensures forall i | b < i <= limit :: !IsCharBoundary(s, i)
  {
    if IsCharBoundary(s, limit) then limit else BoundaryBelow(s, limit - 1)
  }

  /** The last line break in the bytes, or -1. */
  function LastNewline(s: seq<Byte>): (k: int)
    ensures -1 <= k < |s|
    ensures k >= 0 ==> s[k] == NEWLINE
    ensures forall i | k < i < |s| :: s[i] != NEWLINE
  {
    if s == [] then -1 else if s[|s| - 1] == NEWLINE then |s| - 1 else LastNewline(s[..|s| - 1])
  }

  function CutAt(s: seq<Byte>, limit: nat): (n: nat)
    requires limit <= |s|
    ensures n <= limit
  {
    var b := BoundaryBelow(s, limit);
    var k := LastNewline(s[..b]);
    if k >= 0 then k else b
  }

  function Truncated(s: seq<Byte>, limit: Option<nat>): seq<Byte> {
    if limit.Some? && |s| > limit.value then s[..CutAt(s, limit.value)] else s
  }

  /** The cut output is valid text again. */
  lemma TruncatedIsValid(s: seq<Byte>, limit: Option<nat>)
    requires Utf8(s)
    ensures Utf8(Truncated(s, limit))
  {
    if limit.Some? && |s| > limit.value {
      var b := BoundaryBelow(s, limit.value);
      var k := LastNewline(s[..b]);
      BoundaryIsValidPrefix(s, b);
      if k >= 0 {
        assert s[k] == NEWLINE;
        BoundaryIsValidPrefix(s, k);
      }
    }
  }

  /** The cut output is a prefix within the limit; what is dropped up to the limit holds no line break and no longer
      valid prefix, unless the cut is at a line break, and then at the last one before the largest valid prefix. */
  lemma TruncatedIsExact(s: seq<Byte>, limit: Option<nat>)
    requires Utf8(s)
    ensures var r := Truncated(s, limit);
            && r <= s && (limit.Some? ==> |r| <= limit.value)
            && (|r| < |s| <==> limit.Some? && |s| > limit.value)
            && (|r| < |s| ==> exists b :: LargestValidPrefix(s, limit.value, b) && CutWithin(s, |r|, b))
  {
    if limit.Some? && |s| > limit.value {
      var b := BoundaryBelow(s, limit.value);
      forall i | 0 <= i <= limit.value ensures Utf8(s[..i]) <==> IsCharBoundary(s, i) {
        BoundaryIsValidPrefix(s, i);
      }
      forall i | CutAt(s, limit.value) < i < b ensures s[i] != NEWLINE {
        assert s[..b][i] == s[i];
      }
      assert LargestValidPrefix(s, limit.value, b);
    }
  }

  ghost predicate LargestValidPrefix(s: seq<Byte>, limit: nat, b: int) {
    0 <= b <= limit <= |s| && Utf8(s[..b]) && forall i | b < i <= limit :: !Utf8(s[..i])
  }

  /** The cut at `n` is at the last line break within the first `b` bytes, or at `b` if they hold none. */
  ghost predicate CutWithin(s: seq<Byte>, n: nat, b: int) {
    && n <= b <= |s| && (n < b ==> s[n] == NEWLINE) && (forall i | n < i < b :: s[i] != NEWLINE)
    && (n == b ==> NEWLINE !in s[..b])
  }

  // ----- the terminal

  datatype Saved = Saved(content: seq<Byte>, originalLength: nat)

  class Terminal {
    /** What the terminal shows now. */
    var content: seq<Byte>
    var outputByteLimit: Option<nat>
    /** What was kept when the command ended. */
    var output: Option<Saved>
    /** What the terminal showed when the command ended. */
    ghost var final: seq<Byte>

    ghost predicate Valid()
      reads this
    {
      output.Some? ==> output.value == Saved(Truncated(final, outputByteLimit), |final|)
    }

    constructor (limit: Option<nat>)
      ensures Valid() && content == [] && outputByteLimit == limit && output == None
    {
      content, outputByteLimit, output := [], limit, None;
    }

    method TruncatedOutput() returns (shown: seq<Byte>, originalLength: nat)
      ensures shown == Truncated(content, outputByteLimit) && originalLength == |content|
    {
      shown, originalLength := content, |content|;
      if outputByteLimit.Some? && |content| > outputByteLimit.value {
        var limit := outputByteLimit.value;
        var end := limit;
        while !IsCharBoundary(content, end)
          invariant 0 <= end <= limit
          invariant BoundaryBelow(content, limit) == BoundaryBelow(content, end)
          decreases end
        {
          end := end - 1;
        }
        var k := end - 1;
        assert content[..end][..k + 1] == content[..end];
        while k >= 0 && content[k] != NEWLINE
          invariant -1 <= k < end
          invariant LastNewline(content[..end]) == LastNewline(content[..k + 1])
          decreases k + 1
        {
          assert content[..k + 1][..k] == content[..k];
          k := k - 1;
        }
        shown := content[..if k >= 0 then k else end];
      }
    }

    /** The command has ended: what it has written is kept. */
    method Finish()
      modifies this
      ensures Valid() && final == content == old(content) && outputByteLimit == old(outputByteLimit) && output.Some?
    {
      var shown, length := TruncatedOutput();
      output, final := Some(Saved(shown, length)), content;
    }

    /** The output so far, or at the end of the command; `truncated` says whether it is all of it. */
    method CurrentOutput() returns (shown: seq<Byte>, truncated: bool)
      requires Valid()
      ensures var all := if output.Some? then final else content;
              && shown == Truncated(all, outputByteLimit)
              && (truncated <==> outputByteLimit.Some? && |all| > outputByteLimit.value)
    {
      if output.Some? {
        shown, truncated := output.value.content, output.value.originalLength > |output.value.content|;
      } else {
        var length;
        shown, length := TruncatedOutput();
        truncated := |shown| < length;
      }
    }
  }
}
