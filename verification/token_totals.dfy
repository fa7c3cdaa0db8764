/** Token usage of a thread. Requests run side by side, and each reports its usage so far, as often as it likes. */
module TokenTotals {

  datatype TokenUsage = TokenUsage(input: nat, output: nat, cacheCreation: nat, cacheRead: nat) {
    function Plus(other: TokenUsage): TokenUsage {
      TokenUsage(input + other.input, output + other.output, cacheCreation + other.cacheCreation, cacheRead + other.cacheRead)
    }

    predicate AtLeast(other: TokenUsage) {
      input >= other.input && output >= other.output && cacheCreation >= other.cacheCreation && cacheRead >= other.cacheRead
    }

    /** Subtraction of unsigned numbers; defined only where no number falls below zero. */
    function Minus(other: TokenUsage): TokenUsage
      requires AtLeast(other)
    {
      TokenUsage(input - other.input, output - other.output, cacheCreation - other.cacheCreation, cacheRead - other.cacheRead)
    }
  }

  const ZERO := TokenUsage(0, 0, 0, 0)

  /** A request, identified by its number, reports its usage so far. */
  datatype Report = Report(request: nat, usage: TokenUsage)

  /** What the request reported last. */
  function Latest(reports: seq<Report>, request: nat): TokenUsage {
    if reports == [] then ZERO
    else if reports[|reports| - 1].request == request then reports[|reports| - 1].usage
    else Latest(reports[..|reports| - 1], request)
  }

  /** The sum of what the requests with numbers below `n` reported last. */
  function Sum(reports: seq<Report>, n: nat): TokenUsage {
    if n == 0 then ZERO else Sum(reports, n - 1).Plus(Latest(reports, n - 1))
  }

  ghost predicate Below(reports: seq<Report>, n: nat) {
    forall k | 0 <= k < |reports| :: reports[k].request < n
  }

  lemma {:induction false} SumSnoc(reports: seq<Report>, report: Report, n: nat)
    ensures var longer := reports + [report];
            if report.request < n
            then Sum(longer, n).Plus(Latest(reports, report.request)) == Sum(reports, n).Plus(report.usage)
            else Sum(longer, n) == Sum(reports, n)
  {
    var longer := reports + [report];
    assert longer[..|reports|] == reports;
    if n > 0 {
      SumSnoc(reports, report, n - 1);
    }
  }

  lemma {:induction false} SumHolds(reports: seq<Report>, n: nat, request: nat)
    requires request < n
    ensures Sum(reports, n).AtLeast(Latest(reports, request))
  {
    if request < n - 1 {
      SumHolds(reports, n - 1, request);
    }
  }

  /** The running total of a thread, and for each request what it reported last. */
  class Totals {
    var cumulative: TokenUsage
    /** Kept by each request on its own. */
    var current: seq<TokenUsage>
    ghost const initial: TokenUsage
    ghost var reports: seq<Report>

    ghost predicate Valid()
      reads this
    {
      && Below(reports, |current|)
      && (forall r | 0 <= r < |current| :: current[r] == Latest(reports, r))
      && cumulative == initial.Plus(Sum(reports, |current|))
    }

    constructor (start: TokenUsage)
      ensures Valid() && initial == start && cumulative == start && current == [] && reports == []
    {
      initial, cumulative, current, reports := start, start, [], [];
    }

    /** Starts a request, which has used nothing yet. */
    method StartRequest() returns (request: nat)
      requires Valid()
      modifies this`current
      ensures Valid() && request == |old(current)| && current == old(current) + [ZERO]
    {
      request := |current|;
      NothingReported(reports, request);
      current := current + [ZERO];
    }

    /** Takes one report. The subtraction never falls below zero. */
    method UsageUpdate(request: nat, usage: TokenUsage)
      requires Valid() && request < |current|
      modifies this`cumulative, this`current, this`reports
      ensures Valid() && reports == old(reports) + [Report(request, usage)]
      ensures current == old(current)[request := usage]
    {
      SumHolds(reports, |current|, request);
      SumSnoc(reports, Report(request, usage), |current|);
      ghost var longer := reports + [Report(request, usage)];
      assert longer[..|reports|] == reports;
      cumulative := cumulative.Plus(usage).Minus(current[request]);
      current := current[request := usage];
      reports := longer;
    }
  }

  lemma {:induction false} NothingReported(reports: seq<Report>, request: nat)
    requires Below(reports, request)
    ensures Latest(reports, request) == ZERO
  {
    if reports != [] {
      NothingReported(reports[..|reports| - 1], request);
    }
  }

  // ----- what a request adds, from its start to its end

  /** No report takes back what the same request reported before. */
  ghost predicate Growing(reports: seq<Report>) {
    forall k | 0 <= k < |reports| :: reports[k].usage.AtLeast(Latest(reports[..k], reports[k].request))
  }

  /** The difference to an earlier total is defined if usage only grows. */
  lemma {:induction false} TotalNeverFalls(reports: seq<Report>, n: nat, k: nat)
    requires Growing(reports) && k <= |reports|
    ensures Sum(reports, n).AtLeast(Sum(reports[..k], n))
  {
    if k < |reports| {
      var last := |reports| - 1;
      var init := reports[..last];
      assert reports == init + [reports[last]];
      forall j | 0 <= j < last ensures init[j].usage.AtLeast(Latest(init[..j], init[j].request)) {
        assert init[..j] == reports[..j];
      }
      assert init[..k] == reports[..k];
      TotalNeverFalls(init, n, k);
      SumSnoc(init, reports[last], n);
    } else {
      assert reports[..k] == reports;
    }
  }

  /** A report lowers the total exactly if it takes back what its request reported before. */
  lemma TotalFallsIff(reports: seq<Report>, report: Report, n: nat)
    requires report.request < n
    ensures Sum(reports + [report], n).AtLeast(Sum(reports, n)) <==> report.usage.AtLeast(Latest(reports, report.request))
  {
    SumSnoc(reports, report, n);
  }

  /** At every moment the difference to every earlier total is defined. */
  ghost predicate NeverFalls(reports: seq<Report>, n: nat) {
    forall j, k | 0 <= j <= k <= |reports| :: Sum(reports[..k], n).AtLeast(Sum(reports[..j], n))
  }

  /** The total never falls if and only if no report takes back what its request reported before. */
  lemma TotalNeverFallsIff(reports: seq<Report>, n: nat)
    requires Below(reports, n)
    ensures NeverFalls(reports, n) <==> Growing(reports)
  {
    if Growing(reports) {
      forall j, k | 0 <= j <= k <= |reports| ensures Sum(reports[..k], n).AtLeast(Sum(reports[..j], n)) {
        GrowingPrefix(reports, k);
        TotalNeverFalls(reports[..k], n, j);
        assert reports[..k][..j] == reports[..j];
      }
    }
    if NeverFalls(reports, n) {
      forall k | 0 <= k < |reports| ensures reports[k].usage.AtLeast(Latest(reports[..k], reports[k].request)) {
        assert Sum(reports[..k + 1], n).AtLeast(Sum(reports[..k], n));
        assert reports[..k + 1] == reports[..k] + [reports[k]];
        TotalFallsIff(reports[..k], reports[k], n);
      }
    }
  }

  lemma GrowingPrefix(reports: seq<Report>, n: nat)
    requires Growing(reports) && n <= |reports|
    ensures Growing(reports[..n])
  {
    forall k | 0 <= k < n ensures reports[k].usage.AtLeast(Latest(reports[..n][..k], reports[k].request)) {
      assert reports[..n][..k] == reports[..k];
    }
  }

  /** Such reports are an input for which another request, started in between, ends up with a negative difference. */
  lemma TotalCanFall()
    ensures var reports, lower := [Report(0, TokenUsage(10, 0, 0, 0))], Report(0, TokenUsage(5, 0, 0, 0));
            !Sum(reports + [lower], 2).AtLeast(Sum(reports, 2))
  {
    TotalFallsIff([Report(0, TokenUsage(10, 0, 0, 0))], Report(0, TokenUsage(5, 0, 0, 0)), 2);
  }
}
