/**
 * The "check" button (`DnsTesterWindow.on_check_button_clicked`): walk
 * the list box's children in order, benchmark every entry row that has
 * an address, and show the `(name, result)` pairs ranked by average.
 */
module Window {
  import opened Wrappers
  import opened Numbers
  import opened Probe
  import opened Ranking

  /** A child of the list box: an entry row with its title and subtitle (the address), or another widget. */
  datatype Child = ActionRow(title: Option<string>, subtitle: Option<string>) | OtherChild

  /** `row.get_title() or "Unknown"`. */
  function RowName(title: Option<string>): string {
    if title.Some? && title.value != [] then title.value else "Unknown"
  }

  /** `row.get_subtitle() or ""`. */
  function RowAddress(subtitle: Option<string>): string {
    subtitle.GetOr("")
  }

  /** An entry row whose address is not empty: the only kind that is benchmarked. */
  predicate Probed(c: Child) {
    c.ActionRow? && RowAddress(c.subtitle) != []
  }

  /** The two lines that carry no statistics. */
  predicate IsSentinel(line: string) {
    line == "missing IP" || line == "no successful responses"
  }

  /**
   * The pair appended for an entry row. The name is never empty and is
   * "Unknown" for a missing or empty title; the line is "missing IP"
   * exactly when the row has no address, and otherwise the resolver's
   * summary line.
   */
  function RowResult(c: Child, answers: seq<Outcome>): (r: NamedResult)
    requires c.ActionRow?
    ensures r.0 != []
    ensures c.title.None? || c.title.value == [] ==> r.0 == "Unknown"
    ensures c.title.Some? && c.title.value != [] ==> r.0 == c.title.value
    ensures r.1 == "missing IP" <==> !Probed(c)
    ensures Probed(c) ==> r.1 == Render(Summarize(answers))
  {
    var line := if RowAddress(c.subtitle) != [] then Render(Summarize(answers)) else "missing IP";
    assert Probed(c) && Summarize(answers).Stats? ==> line[0] == 'a';
    (RowName(c.title), line)
  }

  /** The `results` list once the walk has passed over `children`. */
  function Collect(children: seq<Child>, answers: seq<seq<Outcome>>): seq<NamedResult>
    requires |answers| == |children|
  {
    if children == [] then []
    else
      var n := |children| - 1;
      Collect(children[..n], answers[..n])
      + (if children[n].ActionRow? then [RowResult(children[n], answers[n])] else [])
  }

  /** The positions of the entry rows among the children: each one of them, in increasing order. */
  function ActionRowPositions(children: seq<Child>): (ps: seq<nat>)
    ensures forall k :: 0 <= k < |ps| ==> ps[k] < |children| && children[ps[k]].ActionRow?
    ensures forall k, l :: 0 <= k < l < |ps| ==> ps[k] < ps[l]
    ensures forall i :: 0 <= i < |children| && children[i].ActionRow? ==> i in ps
  {
    if children == [] then []
    else
      var n := |children| - 1;
      var ps := ActionRowPositions(children[..n]);
      assert forall i :: 0 <= i < n ==> children[..n][i] == children[i];
      ps + (if children[n].ActionRow? then [n] else [])
  }

  /** The positions of the entry rows that have an address: each one of them, in increasing order. */
  function ProbedPositions(children: seq<Child>): (ps: seq<nat>)
    ensures forall k :: 0 <= k < |ps| ==> ps[k] < |children| && Probed(children[ps[k]])
    ensures forall k, l :: 0 <= k < l < |ps| ==> ps[k] < ps[l]
    ensures forall i :: 0 <= i < |children| && Probed(children[i]) ==> i in ps
  {
    if children == [] then []
    else
      var n := |children| - 1;
      var ps := ProbedPositions(children[..n]);
      assert forall i :: 0 <= i < n ==> children[..n][i] == children[i];
      ps + (if Probed(children[n]) then [n] else [])
  }

  /**
   * Before sorting, `results` holds exactly one pair per entry row, in
   * the order of the rows.
   */
  lemma {:induction false} CollectFollowsRows(children: seq<Child>, answers: seq<seq<Outcome>>)
    requires |answers| == |children|
    ensures var ps, rs := ActionRowPositions(children), Collect(children, answers);
            && |rs| == |ps|
            && forall k :: 0 <= k < |rs| ==> rs[k] == RowResult(children[ps[k]], answers[ps[k]])
  {
    if children != [] {
      var n := |children| - 1;
      var init, before := children[..n], answers[..n];
      CollectFollowsRows(init, before);
      var ps0, rs0 := ActionRowPositions(init), Collect(init, before);
      var ps, rs := ActionRowPositions(children), Collect(children, answers);
      var added := if children[n].ActionRow? then [RowResult(children[n], answers[n])] else [];
      assert ps == ps0 + (if children[n].ActionRow? then [n] else []);
      assert rs == rs0 + added;
      forall k | 0 <= k < |rs|
        ensures rs[k] == RowResult(children[ps[k]], answers[ps[k]])
      {
        if k < |rs0| {
          var p := ps0[k];
          assert p < n && ps[k] == p;
          assert init[p] == children[p] && before[p] == answers[p];
        }
      }
    }
  }

  /**
   * The row walk: one pair per entry row, in row order. `probed` records
   * the positions whose resolver is queried: exactly the entry rows with
   * an address, in increasing order, so a row without an address is
   * never queried.
   */
  method CheckEntries(children: seq<Child>, domains: seq<string>, answers: seq<seq<Outcome>>)
    returns (results: seq<NamedResult>, ghost probed: seq<nat>)
    requires |answers| == |children|
    requires forall i :: 0 <= i < |children| && Probed(children[i]) ==> |answers[i]| == |domains|
    ensures results == Collect(children, answers)
    ensures probed == ProbedPositions(children)
  {
    results, probed := [], [];
    var i := 0;
    while i < |children|
      invariant 0 <= i <= |children|
      invariant results == Collect(children[..i], answers[..i])
      invariant probed == ProbedPositions(children[..i])
    {
      WalkStep(children, answers, i);
      match children[i] {
        case ActionRow(title, subtitle) =>
          var name := if title.Some? && title.value != [] then title.value else "Unknown";
          var address := subtitle.GetOr("");
          var result: string;
          if address != [] {
            result := ResolveDns(domains, answers[i]);
            probed := probed + [i];
          } else {
            result := "missing IP";
          }
          assert (name, result) == RowResult(children[i], answers[i]);
          results := results + [(name, result)];
        case OtherChild =>
      }
      i := i + 1;
    }
    assert children[..|children|] == children;
    assert answers[..|answers|] == answers;
  }

  /** One more child extends the collected pairs and the queried positions by that child's share. */
  lemma WalkStep(children: seq<Child>, answers: seq<seq<Outcome>>, i: nat)
    requires |answers| == |children| && i < |children|
    ensures Collect(children[..i + 1], answers[..i + 1])
            == Collect(children[..i], answers[..i])
               + (if children[i].ActionRow? then [RowResult(children[i], answers[i])] else [])
    ensures ProbedPositions(children[..i + 1])
            == ProbedPositions(children[..i]) + (if Probed(children[i]) then [i] else [])
  {
    assert children[..i + 1][..i] == children[..i];
    assert answers[..i + 1][..i] == answers[..i];
  }

  /** The whole button: collect the results, then list them ranked by average. */
  method OnCheckButtonClicked(children: seq<Child>, domains: seq<string>, answers: seq<seq<Outcome>>)
    returns (shown: seq<NamedResult>)
    requires |answers| == |children|
    requires forall i :: 0 <= i < |children| && Probed(children[i]) ==> |answers[i]| == |domains|
    ensures shown == SortedByLatency(Collect(children, answers))
  {
    var results;
    ghost var probed;
    results, probed := CheckEntries(children, domains, answers);
    shown := SortedByLatency(results);
  }

  /**
   * The sort key of an entry row's pair: the average as shown, when the
   * resolver answered at least once; infinity for a row without address
   * or a resolver that never answered.
   */
  lemma RowKey(c: Child, answers: seq<Outcome>)
    requires c.ActionRow?
    ensures KeyOf(RowResult(c, answers))
            == if Probed(c) && Summarize(answers).Stats? then Finite(Round1(Summarize(answers).avg)) else Infinity
    ensures KeyOf(RowResult(c, answers)).Infinity? <==> IsSentinel(RowResult(c, answers).1)
  {
    SentinelsHaveNoAverage();
    ExtractAvgOfSummary(Summarize(answers));
  }

  /** In the collected list, exactly the sentinel lines have an infinite key. */
  lemma {:induction false} CollectKeys(children: seq<Child>, answers: seq<seq<Outcome>>)
    requires |answers| == |children|
    ensures forall r :: r in Collect(children, answers) ==> (KeyOf(r).Infinity? <==> IsSentinel(r.1))
  {
    if children != [] {
      var n := |children| - 1;
      CollectKeys(children[..n], answers[..n]);
      if children[n].ActionRow? {
        RowKey(children[n], answers[n]);
      }
    }
  }

  /**
   * As shown: every resolver that answered at least once is listed
   * above every "missing IP" and "no successful responses" line.
   */
  lemma SentinelsShownLast(children: seq<Child>, answers: seq<seq<Outcome>>)
    requires |answers| == |children|
    ensures var shown := SortedByLatency(Collect(children, answers));
            forall i, j ::
              0 <= i < |shown| && 0 <= j < |shown| && !IsSentinel(shown[i].1) && IsSentinel(shown[j].1)
              ==> i < j
  {
    var results := Collect(children, answers);
    var shown := SortedByLatency(results);
    CollectKeys(children, answers);
    SortedByLatencyCorrect(results);
    AveragesBeforeInfinity(results);
    forall r | r in shown
      ensures KeyOf(r).Infinity? <==> IsSentinel(r.1)
    {
      assert r in multiset(shown);
      assert r in results;
    }
  }
}
