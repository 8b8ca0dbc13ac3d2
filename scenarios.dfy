/**
 * Whole runs of the "check" button on small inputs: the lines each
 * resolver gets and the order they are shown in.
 */
module Scenarios {
  import opened Wrappers
  import opened Numbers
  import opened Probe
  import opened Ranking
  import opened Window

  /** `f"{10.0:.1f}"` is "10.0". */
  lemma TenMilliseconds()
    ensures Fmt1(10.0) == "10.0"
  {
    assert Tenths(10.0) == 100;
    assert Decimal(10) == "10";
  }

  /** One answer in 0.01 s gives a line with 10.0 ms everywhere and no errors suffix. */
  lemma OneAnswerLine()
    ensures Render(Summarize([Answer(Some(0.01))])) == "avg 10.0 ms | best 10.0 ms | worst 10.0 ms"
  {
    OneAnswerSummary();
    TenMillisecondsLine();
  }

  /** One answer in 0.01 s: every statistic is 10 ms, and no query failed. */
  lemma OneAnswerSummary()
    ensures Summarize([Answer(Some(0.01))]) == Stats(10.0, 10.0, 10.0, 0)
  {
    var a := [Answer(Some(0.01))];
    assert a[..0] == [];
    assert Latencies(a) == [10.0];
    assert ErrorCount(a) == 0;
    assert Sum([10.0]) == 10.0 by {
      assert [10.0][..0] == [];
    }
  }

  /** Those statistics, without failed queries, render as 10.0 ms everywhere. */
  lemma TenMillisecondsLine()
    ensures Render(Stats(10.0, 10.0, 10.0, 0)) == "avg 10.0 ms | best 10.0 ms | worst 10.0 ms"
  {
    RenderWithoutErrors(10.0, 10.0, 10.0);
    TenMilliseconds();
    var x := Fmt1(10.0);
    assert StatsText(10.0, 10.0, 10.0) == "avg " + x + " ms | best " + x + " ms | worst " + x + " ms";
    assert "avg " + x == "avg 10.0";
    assert "avg 10.0" + " ms | best " == "avg 10.0 ms | best ";
    assert "avg 10.0 ms | best " + x == "avg 10.0 ms | best 10.0";
    assert "avg 10.0 ms | best 10.0" + " ms | worst " == "avg 10.0 ms | best 10.0 ms | worst ";
    assert "avg 10.0 ms | best 10.0 ms | worst " + x == "avg 10.0 ms | best 10.0 ms | worst 10.0";
  }

  /** Without failed queries the line is the statistics alone. */
  lemma RenderWithoutErrors(avg: real, best: real, worst: real)
    ensures Render(Stats(avg, best, worst, 0)) == StatsText(avg, best, worst)
  {
    assert StatsText(avg, best, worst) + "" == StatsText(avg, best, worst);
  }

  /** Two answers in 0.01 s: every statistic is 10 ms, and no query failed. */
  lemma TwoAnswersSummary()
    ensures Summarize([Answer(Some(0.01)), Answer(Some(0.01))]) == Stats(10.0, 10.0, 10.0, 0)
  {
    var a := [Answer(Some(0.01)), Answer(Some(0.01))];
    assert a[..1] == [Answer(Some(0.01))];
    assert a[..1][..0] == [];
    assert Latencies(a) == [10.0, 10.0];
    assert ErrorCount(a) == 0;
    assert Sum([10.0, 10.0]) == 20.0 by {
      assert [10.0, 10.0][..1] == [10.0];
      assert [10.0][..0] == [];
    }
  }

  /** One answer in 0.05 s and one timeout: every statistic is 50 ms, and one query failed. */
  lemma AnswerAndTimeoutSummary()
    ensures Summarize([Answer(Some(0.05)), Raised(Timeout)]) == Stats(50.0, 50.0, 50.0, 1)
  {
    var a := [Answer(Some(0.05)), Raised(Timeout)];
    assert a[..1] == [Answer(Some(0.05))];
    assert a[..1][..0] == [];
    assert Latencies(a) == [50.0];
    assert ErrorCount(a) == 1;
    assert Sum([50.0]) == 50.0 by {
      assert [50.0][..0] == [];
    }
  }

  /** `f"{50.0:.1f}"` is "50.0". */
  lemma FiftyMilliseconds()
    ensures Fmt1(50.0) == "50.0"
  {
    assert Tenths(50.0) == 500;
    assert Decimal(50) == "50";
  }

  /** With failed queries the line is the statistics followed by the errors suffix. */
  lemma RenderWithErrors(avg: real, best: real, worst: real, errors: nat)
    requires errors > 0
    ensures Render(Stats(avg, best, worst, errors)) == StatsText(avg, best, worst) + ErrorsText(errors)
  {
  }

  /** One failed query gives the suffix `" | errors 1"`. */
  lemma OneErrorText()
    ensures ErrorsText(1) == " | errors 1"
  {
    assert Decimal(1) == "1";
  }

  /** With one failed query the line ends with the errors suffix. */
  lemma FiftyMillisecondsOneErrorLine()
    ensures Render(Stats(50.0, 50.0, 50.0, 1))
            == "avg 50.0 ms | best 50.0 ms | worst 50.0 ms | errors 1"
  {
    RenderWithErrors(50.0, 50.0, 50.0, 1);
    OneErrorText();
    FiftyMillisecondsStats();
    var t, e := StatsText(50.0, 50.0, 50.0), ErrorsText(1);
    assert t + e == "avg 50.0 ms | best 50.0 ms | worst 50.0 ms" + " | errors 1";
  }

  /** The statistics part for 50 ms everywhere. */
  lemma FiftyMillisecondsStats()
    ensures StatsText(50.0, 50.0, 50.0) == "avg 50.0 ms | best 50.0 ms | worst 50.0 ms"
  {
    FiftyMilliseconds();
    var x := Fmt1(50.0);
    assert StatsText(50.0, 50.0, 50.0) == "avg " + x + " ms | best " + x + " ms | worst " + x + " ms";
    assert "avg " + x == "avg 50.0";
    assert "avg 50.0" + " ms | best " == "avg 50.0 ms | best ";
    assert "avg 50.0 ms | best " + x == "avg 50.0 ms | best 50.0";
    assert "avg 50.0 ms | best 50.0" + " ms | worst " == "avg 50.0 ms | best 50.0 ms | worst ";
    assert "avg 50.0 ms | best 50.0 ms | worst " + x == "avg 50.0 ms | best 50.0 ms | worst 50.0";
  }

  /** Sorting a single pair leaves it alone. */
  lemma SortOne<T>(x: T, key: T -> Key)
    ensures StableSort([x], key) == [x]
  {
    assert [x][..0] == [];
  }

  /** Two elements already in key order stay in that order. */
  lemma SortTwo<T>(x: T, y: T, key: T -> Key)
    requires KeyLe(key(x), key(y))
    ensures StableSort([x, y], key) == [x, y]
  {
    assert [x, y][..1] == [x];
    SortOne(x, key);
    assert InsertByKey([x], y, key) == [x] + InsertByKey([], y, key);
  }

  /** Two entry rows give their two pairs, in row order. */
  lemma CollectTwoRows(c0: Child, c1: Child, a0: seq<Outcome>, a1: seq<Outcome>)
    requires c0.ActionRow? && c1.ActionRow?
    ensures Collect([c0, c1], [a0, a1]) == [RowResult(c0, a0), RowResult(c1, a1)]
  {
    var children, answers := [c0, c1], [a0, a1];
    assert children[..1] == [c0] && answers[..1] == [a0];
    assert children[..1][..0] == [] && answers[..1][..0] == [];
    assert Collect(children[..1], answers[..1]) == [RowResult(c0, a0)];
  }

  /** The 10 ms resolver's key is below the 50 ms one's. */
  lemma FasterKeyFirst(c0: Child, c1: Child, a: seq<Outcome>, b: seq<Outcome>)
    requires c0.ActionRow? && Probed(c0) && c1.ActionRow? && Probed(c1)
    requires Summarize(a) == Stats(50.0, 50.0, 50.0, 1) && Summarize(b) == Stats(10.0, 10.0, 10.0, 0)
    ensures KeyLt(KeyOf(RowResult(c1, b)), KeyOf(RowResult(c0, a)))
  {
    RowKey(c0, a);
    RowKey(c1, b);
    assert Tenths(50.0) == 500 && Tenths(10.0) == 100;
  }

  /** Two entry rows whose keys are out of order are shown swapped. */
  lemma RankTwoRows(c0: Child, c1: Child, a0: seq<Outcome>, a1: seq<Outcome>)
    requires c0.ActionRow? && c1.ActionRow?
    requires KeyLt(KeyOf(RowResult(c1, a1)), KeyOf(RowResult(c0, a0)))
    ensures SortedByLatency(Collect([c0, c1], [a0, a1])) == [RowResult(c1, a1), RowResult(c0, a0)]
  {
    CollectTwoRows(c0, c1, a0, a1);
    SortTwoSwapped(RowResult(c0, a0), RowResult(c1, a1), KeyOf);
  }

  /** Two elements out of key order are swapped. */
  lemma SortTwoSwapped<T>(x: T, y: T, key: T -> Key)
    requires KeyLt(key(y), key(x))
    ensures StableSort([x, y], key) == [y, x]
  {
    assert [x, y][..1] == [x];
    SortOne(x, key);
  }

  /**
   * A resolver answering once in 50 ms with one timeout, listed before
   * one answering twice in 10 ms: its line carries the errors suffix,
   * and it is ranked after the faster one.
   */
  lemma SlowerWithErrorRankedSecond()
    ensures var children := [ActionRow(Some("A"), Some("1.1.1.1")), ActionRow(Some("B"), Some("8.8.8.8"))];
            var answers := [[Answer(Some(0.05)), Raised(Timeout)], [Answer(Some(0.01)), Answer(Some(0.01))]];
            SortedByLatency(Collect(children, answers))
            == [("B", "avg 10.0 ms | best 10.0 ms | worst 10.0 ms"),
                ("A", "avg 50.0 ms | best 50.0 ms | worst 50.0 ms | errors 1")]
  {
    var children := [ActionRow(Some("A"), Some("1.1.1.1")), ActionRow(Some("B"), Some("8.8.8.8"))];
    var a, b := [Answer(Some(0.05)), Raised(Timeout)], [Answer(Some(0.01)), Answer(Some(0.01))];
    AnswerAndTimeoutSummary();
    TwoAnswersSummary();
    FasterKeyFirst(children[0], children[1], a, b);
    RankTwoRows(children[0], children[1], a, b);
    FiftyMillisecondsOneErrorLine();
    TenMillisecondsLine();
    assert children == [children[0], children[1]];
  }

  /**
   * One resolver answering in 10 ms and one entry without an address:
   * the first gets its statistics, the second "missing IP", and the
   * answered one is listed first.
   */
  lemma AnsweredAndMissing()
    ensures var children := [ActionRow(Some("A"), Some("8.8.8.8")), ActionRow(Some("B"), Some(""))];
            var answers := [[Answer(Some(0.01))], []];
            SortedByLatency(Collect(children, answers))
            == [("A", "avg 10.0 ms | best 10.0 ms | worst 10.0 ms"), ("B", "missing IP")]
  {
    var children := [ActionRow(Some("A"), Some("8.8.8.8")), ActionRow(Some("B"), Some(""))];
    var answers := [[Answer(Some(0.01))], []];
    var a := [Answer(Some(0.01))];
    OneAnswerLine();
    var rowA, rowB := ("A", "avg 10.0 ms | best 10.0 ms | worst 10.0 ms"), ("B", "missing IP");
    assert RowResult(children[0], a) == rowA;
    assert RowResult(children[1], []) == rowB;
    assert children[..1] == [children[0]] && answers[..1] == [a];
    assert children[..1][..0] == [] && answers[..1][..0] == [];
    assert Collect(children[..1], answers[..1]) == [rowA];
    assert Collect(children, answers) == [rowA, rowB];
    RowKey(children[0], a);
    RowKey(children[1], []);
    assert KeyOf(rowB) == Infinity;
    SortTwo(rowA, rowB, KeyOf);
  }

  /** A resolver whose only query timed out is reported as having no successful responses. */
  lemma OnlyTimeout()
    ensures var children := [ActionRow(Some("A"), Some("1.1.1.1"))];
            var answers := [[Raised(Timeout)]];
            SortedByLatency(Collect(children, answers)) == [("A", "no successful responses")]
  {
    var children := [ActionRow(Some("A"), Some("1.1.1.1"))];
    var answers := [[Raised(Timeout)]];
    assert Summarize(answers[0]).NoSuccessfulResponses?;
    assert children[..0] == [] && answers[..0] == [];
    var row := ("A", "no successful responses");
    assert Collect(children, answers) == [row];
    SortOne(row, KeyOf);
  }
}
