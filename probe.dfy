/**
 * One resolver's benchmark (`DnsTesterWindow._resolve_dns`): one query
 * per domain, latencies of the answered ones, a count of the ones that
 * raised, and the summary line built from them.
 *
 * The DNS library is an oracle: `answers[i]` is what the query for the
 * i-th domain did.
 */
module Probe {
  import opened Wrappers
  import opened Text
  import opened Numbers

  /** The exception classes the loop names; any other `Exception` subclass is `OtherException`. */
  datatype ErrorKind = NoAnswer | NxDomain | Timeout | OtherException

  /** One `resolver.resolve` call: an answer carrying `response.time` (which may be `None`), or an exception. */
  datatype Outcome = Answer(responseTime: Option<real>) | Raised(kind: ErrorKind)

  /** `(answer.response.time or 0) * 1000.0`: the latency in milliseconds. */
  function LatencyMs(responseTime: Option<real>): real {
    responseTime.GetOr(0.0) * 1000.0
  }

  /** The `latencies` list: one entry per answered query, in query order. */
  function Latencies(answers: seq<Outcome>): seq<real> {
    if answers == [] then []
    else
      var last := answers[|answers| - 1];
      Latencies(answers[..|answers| - 1])
      + (if last.Answer? then [LatencyMs(last.responseTime)] else [])
  }

  /** The `errors` counter: one per query that raised, whatever the exception. */
  function ErrorCount(answers: seq<Outcome>): nat {
    if answers == [] then 0
    else ErrorCount(answers[..|answers| - 1]) + (if answers[|answers| - 1].Raised? then 1 else 0)
  }

  /** Every query is counted exactly once: as a latency or as an error. */
  lemma {:induction false} CountsAddUp(answers: seq<Outcome>)
    ensures |Latencies(answers)| + ErrorCount(answers) == |answers|
  {
    if answers != [] {
      CountsAddUp(answers[..|answers| - 1]);
    }
  }

  /** No latency was recorded exactly when every query raised. */
  lemma {:induction false} NoLatenciesIffAllRaised(answers: seq<Outcome>)
    ensures Latencies(answers) == [] <==> forall i :: 0 <= i < |answers| ==> answers[i].Raised?
  {
    if answers != [] {
      var init := answers[..|answers| - 1];
      NoLatenciesIffAllRaised(init);
      assert forall i :: 0 <= i < |init| ==> init[i] == answers[i];
    }
  }

  /** Every recorded latency is the latency of some answered query. */
  lemma {:induction false} LatenciesAreAnswers(answers: seq<Outcome>, l: real)
    requires l in Latencies(answers)
    ensures exists i :: 0 <= i < |answers| && answers[i].Answer? && l == LatencyMs(answers[i].responseTime)
  {
    var init := answers[..|answers| - 1];
    var last := answers[|answers| - 1];
    if l in Latencies(init) {
      LatenciesAreAnswers(init, l);
      var i :| 0 <= i < |init| && init[i].Answer? && l == LatencyMs(init[i].responseTime);
      assert answers[i] == init[i];
    } else {
      assert l == LatencyMs(last.responseTime);
    }
  }

  /** Every answered query's latency is recorded. */
  lemma {:induction false} AnsweredIsRecorded(answers: seq<Outcome>, i: nat)
    requires i < |answers| && answers[i].Answer?
    ensures LatencyMs(answers[i].responseTime) in Latencies(answers)
  {
    var n := |answers| - 1;
    if i < n {
      var init := answers[..n];
      AnsweredIsRecorded(init, i);
      assert init[i] == answers[i];
    }
  }

  /** Python's `sum`. */
  function Sum(s: seq<real>): real {
    if s == [] then 0.0 else Sum(s[..|s| - 1]) + s[|s| - 1]
  }

  /** Python's `min` on a non-empty list: an element no larger than any other. */
  function Min(s: seq<real>): (m: real)
    requires s != []
    ensures m in s
    ensures forall i :: 0 <= i < |s| ==> m <= s[i]
  {
    if |s| == 1 then s[0]
    else
      var m := Min(s[..|s| - 1]);
      assert forall i :: 0 <= i < |s| - 1 ==> s[..|s| - 1][i] == s[i];
      if s[|s| - 1] < m then s[|s| - 1] else m
  }

  /** Python's `max` on a non-empty list: an element no smaller than any other. */
  function Max(s: seq<real>): (m: real)
    requires s != []
    ensures m in s
    ensures forall i :: 0 <= i < |s| ==> s[i] <= m
  {
    if |s| == 1 then s[0]
    else
      var m := Max(s[..|s| - 1]);
      assert forall i :: 0 <= i < |s| - 1 ==> s[..|s| - 1][i] == s[i];
      if s[|s| - 1] > m then s[|s| - 1] else m
  }

  /** A sum lies between |s| times the least element and |s| times the greatest. */
  lemma {:induction false} SumBounds(s: seq<real>, lo: real, hi: real)
    requires forall i :: 0 <= i < |s| ==> lo <= s[i] <= hi
    ensures |s| as real * lo <= Sum(s) <= |s| as real * hi
  {
    if s != [] {
      var init := s[..|s| - 1];
      assert forall i :: 0 <= i < |init| ==> init[i] == s[i];
      SumBounds(init, lo, hi);
      var n := |init| as real;
      assert Sum(s) == Sum(init) + s[|s| - 1];
      assert |s| as real * lo == n * lo + lo;
      assert |s| as real * hi == n * hi + hi;
    }
  }

  /** The mean of a non-empty list lies between its minimum and its maximum. */
  lemma MeanBetweenMinAndMax(s: seq<real>)
    requires s != []
    ensures Min(s) <= Sum(s) / |s| as real <= Max(s)
  {
    var lo, hi := Min(s), Max(s);
    SumBounds(s, lo, hi);
    MeanBounds(s, lo, hi);
  }

  lemma MeanBounds(s: seq<real>, lo: real, hi: real)
    requires s != []
    requires |s| as real * lo <= Sum(s) <= |s| as real * hi
    ensures lo <= Sum(s) / |s| as real <= hi
  {
    DivideBounds(Sum(s), |s| as real, lo, hi);
  }

  lemma DivideBounds(total: real, n: real, lo: real, hi: real)
    requires n > 0.0
    requires n * lo <= total <= n * hi
    ensures lo <= total / n <= hi
  {
    var q := total / n;
    assert total == n * q;
    assert n * lo <= n * q;
    assert n * q <= n * hi;
  }

  /** What a resolver's benchmark found, before it is turned into text. */
  datatype Summary =
    | NoSuccessfulResponses
    | Stats(avg: real, best: real, worst: real, errors: nat)

  /**
   * The statistics of one resolver's answers: no statistics when every
   * query raised; otherwise best <= avg <= worst, best and worst are
   * latencies that were measured and bound all of them, and the errors
   * are the queries that were not answered.
   */
  function Summarize(answers: seq<Outcome>): (s: Summary)
    ensures s.NoSuccessfulResponses? <==> forall i :: 0 <= i < |answers| ==> answers[i].Raised?
    ensures s.Stats? ==> s.best <= s.avg <= s.worst
    ensures s.Stats? ==> s.best in Latencies(answers) && s.worst in Latencies(answers)
    ensures s.Stats? ==> forall l :: l in Latencies(answers) ==> s.best <= l <= s.worst
    ensures s.Stats? ==> s.errors + |Latencies(answers)| == |answers|
  {
    var ls := Latencies(answers);
    NoLatenciesIffAllRaised(answers);
    CountsAddUp(answers);
    if ls == [] then NoSuccessfulResponses
    else
      MeanBetweenMinAndMax(ls);
      Stats(Sum(ls) / |ls| as real, Min(ls), Max(ls), ErrorCount(answers))
  }

  /** The `avg … | best … | worst …` part of a summary line. */
  function StatsText(avg: real, best: real, worst: real): string {
    "avg " + Fmt1(avg) + " ms | best " + Fmt1(best) + " ms | worst " + Fmt1(worst) + " ms"
  }

  /** The `" | errors N"` suffix. */
  function ErrorsText(errors: nat): string {
    " | errors " + Decimal(errors)
  }

  /**
   * The line `_resolve_dns` returns. It is the sentinel
   * `"no successful responses"` exactly when nothing succeeded; otherwise
   * it starts with the statistics and ends with the errors suffix exactly
   * when some query failed.
   */
  function Render(s: Summary): (r: string)
    ensures r == "no successful responses" <==> s.NoSuccessfulResponses?
    ensures s.Stats? ==> StartsWith(r, StatsText(s.avg, s.best, s.worst))
    ensures s.Stats? ==> (EndsWith(r, ErrorsText(s.errors)) <==> s.errors > 0)
  {
    match s
    case NoSuccessfulResponses => "no successful responses"
    case Stats(avg, best, worst, errors) =>
      var head := StatsText(avg, best, worst);
      var r := head + (if errors > 0 then ErrorsText(errors) else "");
      assert r[0] == 'a';
      assert r[..|head|] == head;
      if errors == 0 then
        var e := ErrorsText(0);
        assert r[|r| - 1] == 's' && e[|e| - 1] == '0';
        r
      else
        r
  }

  /**
   * `_resolve_dns`: query every domain once, collect latencies and count
   * errors, then build the summary line.
   */
  method ResolveDns(domains: seq<string>, answers: seq<Outcome>) returns (summary: string)
    requires |answers| == |domains|
    ensures summary == Render(Summarize(answers))
  {
    var latencies: seq<real> := [];
    var errors: nat := 0;
    for i := 0 to |domains|
      invariant latencies == Latencies(answers[..i])
      invariant errors == ErrorCount(answers[..i])
    {
      assert answers[..i + 1][..i] == answers[..i];
      match answers[i]
      case Answer(time) =>
        latencies := latencies + [LatencyMs(time)];
      case Raised(_) =>
        errors := errors + 1;
    }
    assert answers[..|domains|] == answers;
    if latencies == [] {
      return "no successful responses";
    }
    var best := Min(latencies);
    var worst := Max(latencies);
    var avg := Sum(latencies) / |latencies| as real;
    assert Summarize(answers) == Stats(avg, best, worst, errors);
    summary := "avg " + Fmt1(avg) + " ms | best " + Fmt1(best) + " ms | worst " + Fmt1(worst) + " ms";
    assert summary == StatsText(avg, best, worst);
    if errors > 0 {
      summary := summary + " | errors " + Decimal(errors);
      assert summary == StatsText(avg, best, worst) + ErrorsText(errors);
    }
  }

  /** Two runs that succeed and fail at the same queries, with the same response times. */
  predicate SameResults(a: seq<Outcome>, b: seq<Outcome>) {
    |a| == |b|
    && forall i :: 0 <= i < |a| ==>
         a[i].Answer? == b[i].Answer? && (a[i].Answer? ==> a[i] == b[i])
  }

  /** Which exception a failed query raised never shows in the summary. */
  lemma ErrorKindIrrelevant(a: seq<Outcome>, b: seq<Outcome>)
    requires SameResults(a, b)
    ensures Summarize(a) == Summarize(b)
  {
    SameLatenciesAndErrors(a, b);
  }

  lemma {:induction false} SameLatenciesAndErrors(a: seq<Outcome>, b: seq<Outcome>)
    requires SameResults(a, b)
    ensures Latencies(a) == Latencies(b) && ErrorCount(a) == ErrorCount(b)
  {
    if a != [] {
      SameLatenciesAndErrors(a[..|a| - 1], b[..|b| - 1]);
    }
  }
}
