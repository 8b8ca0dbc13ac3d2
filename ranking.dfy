/**
 * `_sorted_results_by_latency`: the average is read back out of each
 * result line (`extract_avg`) and the lines are put in stable order of
 * that value, with lines that have none at the end.
 */
module Ranking {
  import opened Wrappers
  import opened Text
  import opened Numbers
  import opened Probe

  /** A `(name, result line)` pair as the row walk collects it. */
  type NamedResult = (string, string)

  /** A sort key: a parsed average, or `float("inf")`. */
  datatype Key = Finite(value: real) | Infinity

  /** How Python compares two keys. */
  predicate KeyLe(a: Key, b: Key) {
    b.Infinity? || (a.Finite? && a.value <= b.value)
  }

  predicate KeyLt(a: Key, b: Key) {
    !KeyLe(b, a)
  }

  /**
   * The `for part in latency_str.split("|")` loop: the first part that,
   * once stripped, starts with "avg" decides, and without one the key is
   * infinity.
   */
  function ScanParts(parts: seq<string>): Key {
    var i := FirstAvgPart(parts);
    if i < |parts| then AvgWordKey(Strip(parts[i])) else Infinity
  }

  /** `part.strip().startswith("avg")`. */
  predicate IsAvgPart(part: string) {
    StartsWith(Strip(part), "avg")
  }

  /** The position of the first part that, stripped, starts with "avg"; `|parts|` when none does. */
  function FirstAvgPart(parts: seq<string>): (i: nat)
    ensures i <= |parts|
    ensures i < |parts| ==> IsAvgPart(parts[i])
    ensures forall j :: 0 <= j < i ==> !IsAvgPart(parts[j])
  {
    if parts == [] then 0
    else if IsAvgPart(parts[0]) then 0
    else
      var rest := parts[1..];
      var k := FirstAvgPart(rest);
      assert forall j :: 1 <= j <= k ==> rest[j - 1] == parts[j];
      1 + k
  }

  /**
   * `float(part.split()[1])`: the second word of the part, read with
   * `float`; infinity when there is no second word (`IndexError`) or it
   * is not a number (`ValueError`).
   */
  function AvgWordKey(part: string): Key {
    var words := SplitWords(part);
    if |words| < 2 then Infinity
    else
      match ParseFloat(words[1])
      case Some(v) => Finite(v)
      case None => Infinity
  }

  /** `extract_avg`. */
  function ExtractAvg(s: string): Key {
    if Contains(s, "avg") then ScanParts(Split(s, '|')) else Infinity
  }

  /** The key `sorted` uses: `extract_avg(item[1])`. */
  function KeyOf(item: NamedResult): Key {
    ExtractAvg(item.1)
  }

  /** A part that starts with "avg" puts "avg" in the text. */
  lemma AvgPartContainsAvg(parts: seq<string>)
    requires FirstAvgPart(parts) < |parts|
    ensures Contains(Join(parts, '|'), "avg")
  {
    ContainsAvgAt(parts, FirstAvgPart(parts));
  }

  lemma ContainsAvgAt(parts: seq<string>, i: nat)
    requires i < |parts| && IsAvgPart(parts[i])
    ensures Contains(Join(parts, '|'), "avg")
  {
    var p := parts[i];
    var lo, part := LeadingSpace(p), Strip(p);
    assert part[..3] == "avg";
    assert forall j :: 0 <= j < 3 ==> p[lo..lo + 3][j] == part[j];
    assert OccursAt(p, "avg", lo);
    ContainsJoin(parts, '|', i, "avg");
  }

  /**
   * The `"avg" in latency_str` test decides nothing: `extract_avg` is
   * the scan of the `|`-separated parts alone.
   */
  lemma ExtractAvgIsScan(s: string)
    ensures ExtractAvg(s) == ScanParts(Split(s, '|'))
  {
    if ScanParts(Split(s, '|')).Finite? {
      AvgPartContainsAvg(Split(s, '|'));
    }
  }

  /** Neither sentinel line has an average: both sort as infinity. */
  lemma SentinelsHaveNoAverage()
    ensures ExtractAvg("missing IP") == Infinity
    ensures ExtractAvg("no successful responses") == Infinity
  {
    assert 'v' !in "missing IP";
    NotContainsWithout("missing IP", "avg", 1);
    assert 'v' !in "no successful responses";
    NotContainsWithout("no successful responses", "avg", 1);
  }

  /**
   * Reading a summary line back: a line with statistics yields its
   * average as `:.1f` showed it, the sentinel yields infinity.
   */
  lemma ExtractAvgOfSummary(s: Summary)
    ensures ExtractAvg(Render(s)) == if s.Stats? then Finite(Round1(s.avg)) else Infinity
  {
    if s.NoSuccessfulResponses? {
      SentinelsHaveNoAverage();
    } else {
      var rest := StatsLine(s);
      ScanAvgLine(Fmt1(s.avg), rest);
      FormatParseRoundTrip(s.avg);
      ExtractAvgIsScan(Render(s));
    }
  }

  /** A line with statistics starts `avg X ms |`, X being the average as `:.1f` shows it. */
  lemma StatsLine(s: Summary) returns (rest: string)
    requires s.Stats?
    ensures Render(s) == "avg " + Fmt1(s.avg) + " ms |" + rest
  {
    var x, y, z := Fmt1(s.avg), Fmt1(s.best), Fmt1(s.worst);
    var tail := " best " + y + " ms | worst " + z + " ms";
    rest := tail + (if s.errors > 0 then ErrorsText(s.errors) else "");
    StatsTextSplit(x, y, z);
  }

  lemma StatsTextSplit(x: string, y: string, z: string)
    ensures "avg " + x + " ms | best " + y + " ms | worst " + z + " ms"
            == "avg " + x + " ms |" + (" best " + y + " ms | worst " + z + " ms")
  {
    assert " ms | best " == " ms |" + " best ";
  }

  /** A line that starts `avg X ms |` has key X, as `float` reads it. */
  lemma ScanAvgLine(x: string, rest: string)
    requires x != [] && NoSpace(x) && '|' !in x
    ensures ScanParts(Split("avg " + x + " ms |" + rest, '|'))
            == match ParseFloat(x) case Some(v) => Finite(v) case None => Infinity
  {
    var part := "avg " + x + " ms";
    var first := part + " ";
    assert "avg " + x + " ms |" + rest == first + ['|'] + rest;
    SplitAfterPiece(first, rest, '|');
    AvgPart(x);
    assert FirstAvgPart([first] + Split(rest, '|')) == 0;
  }

  /** The part `avg X ms ` strips to `avg X ms`, whose words are `avg`, X and `ms`. */
  lemma AvgPart(x: string)
    requires x != [] && NoSpace(x)
    ensures var part := "avg " + x + " ms";
            && Strip(part + " ") == part
            && StartsWith(part, "avg")
            && SplitWords(part) == ["avg", x, "ms"]
  {
    AvgPartStrips(x);
    AvgPartJoins(x);
    AvgPartSplits(x);
  }

  lemma AvgPartStrips(x: string)
    requires x != [] && NoSpace(x)
    ensures Strip("avg " + x + " ms" + " ") == "avg " + x + " ms"
  {
    var part := "avg " + x + " ms";
    assert part + " " == [] + part + " ";
    assert part[0] == 'a' && part[|part| - 1] == 's';
    StripWord([], part, " ");
  }

  lemma AvgPartJoins(x: string)
    ensures JoinWords(["avg", x, "ms"]) == "avg " + x + " ms"
  {
    var words := ["avg", x, "ms"];
    assert Join(words[1..], ' ') == x + " " + "ms" by {
      assert words[1..][1..] == ["ms"];
    }
  }

  lemma AvgPartSplits(x: string)
    requires x != [] && NoSpace(x)
    ensures SplitWords(JoinWords(["avg", x, "ms"])) == ["avg", x, "ms"]
  {
    var words := ["avg", x, "ms"];
    assert NoSpace("avg") && NoSpace("ms");
    assert forall i :: 0 <= i < |words| ==> words[i] != [] && NoSpace(words[i]);
    SplitWordsJoin(words);
  }

  /** `s` is in non-decreasing order of `key`. */
  predicate SortedBy<T>(s: seq<T>, key: T -> Key) {
    forall i, j :: 0 <= i < j < |s| ==> KeyLe(key(s[i]), key(s[j]))
  }

  /** The elements of `s` whose key is `k`, in the order of `s`. */
  function WithKey<T>(s: seq<T>, key: T -> Key, k: Key): seq<T> {
    if s == [] then []
    else (if key(s[0]) == k then [s[0]] else []) + WithKey(s[1..], key, k)
  }

  /** Insert `x` after every element whose key is not greater than its own. */
  function InsertByKey<T>(sorted: seq<T>, x: T, key: T -> Key): seq<T> {
    if sorted == [] then [x]
    else if KeyLt(key(x), key(sorted[0])) then [x] + sorted
    else [sorted[0]] + InsertByKey(sorted[1..], x, key)
  }

  /** Python's `sorted(s, key=key)`: a stable insertion sort. */
  function StableSort<T>(s: seq<T>, key: T -> Key): seq<T> {
    if s == [] then []
    else InsertByKey(StableSort(s[..|s| - 1], key), s[|s| - 1], key)
  }

  lemma KeyLeTransitive(a: Key, b: Key, c: Key)
    requires KeyLe(a, b) && KeyLe(b, c)
    ensures KeyLe(a, c)
  {
  }

  lemma {:induction false} WithKeyAppend<T>(s: seq<T>, t: seq<T>, key: T -> Key, k: Key)
    ensures WithKey(s + t, key, k) == WithKey(s, key, k) + WithKey(t, key, k)
  {
    if s != [] {
      assert (s + t)[1..] == s[1..] + t;
      WithKeyAppend(s[1..], t, key, k);
    } else {
      assert s + t == t;
    }
  }

  lemma {:induction false} InsertByKeyElements<T>(sorted: seq<T>, x: T, key: T -> Key)
    ensures multiset(InsertByKey(sorted, x, key)) == multiset(sorted) + multiset{x}
  {
    if sorted != [] && !KeyLt(key(x), key(sorted[0])) {
      InsertByKeyElements(sorted[1..], x, key);
      assert sorted == [sorted[0]] + sorted[1..];
    }
  }

  lemma {:induction false} InsertByKeySorted<T>(sorted: seq<T>, x: T, key: T -> Key)
    requires SortedBy(sorted, key)
    ensures SortedBy(InsertByKey(sorted, x, key), key)
  {
    if sorted == [] {
    } else if KeyLt(key(x), key(sorted[0])) {
      forall j | 0 <= j < |sorted|
        ensures KeyLe(key(x), key(sorted[j]))
      {
        if j > 0 {
          KeyLeTransitive(key(x), key(sorted[0]), key(sorted[j]));
        }
      }
      SortedCons(x, sorted, key);
    } else {
      var rest := InsertByKey(sorted[1..], x, key);
      InsertByKeySorted(sorted[1..], x, key);
      InsertByKeyElements(sorted[1..], x, key);
      forall j | 0 <= j < |rest|
        ensures KeyLe(key(sorted[0]), key(rest[j]))
      {
        var y := rest[j];
        assert y in multiset(rest);
        if y != x {
          assert y in multiset(sorted[1..]);
          assert y in sorted[1..];
        }
      }
      SortedCons(sorted[0], rest, key);
    }
  }

  /** A sorted sequence stays sorted under a head whose key is no greater than any of its keys. */
  lemma SortedCons<T>(head: T, s: seq<T>, key: T -> Key)
    requires SortedBy(s, key)
    requires forall j :: 0 <= j < |s| ==> KeyLe(key(head), key(s[j]))
    ensures SortedBy([head] + s, key)
  {
    var t := [head] + s;
    forall i, j | 0 <= i < j < |t|
      ensures KeyLe(key(t[i]), key(t[j]))
    {
      assert t[j] == s[j - 1];
      if i > 0 {
        assert t[i] == s[i - 1];
      }
    }
  }

  /** No element of a sorted sequence has a key below the first element's. */
  lemma NoSmallerKey<T>(sorted: seq<T>, key: T -> Key, k: Key)
    requires SortedBy(sorted, key) && sorted != []
    ensures KeyLt(k, key(sorted[0])) ==> WithKey(sorted, key, k) == []
  {
    if !KeyLt(k, key(sorted[0])) {
      return;
    }
    var i := 0;
    while i < |sorted|
      invariant 0 <= i <= |sorted|
      invariant WithKey(sorted[..i], key, k) == []
    {
      assert KeyLe(key(sorted[0]), key(sorted[i]));
      assert sorted[..i + 1] == sorted[..i] + [sorted[i]];
      WithKeyAppend(sorted[..i], [sorted[i]], key, k);
      i := i + 1;
    }
    assert sorted[..|sorted|] == sorted;
  }

  lemma {:induction false} InsertByKeyGroups<T>(sorted: seq<T>, x: T, key: T -> Key, k: Key)
    requires SortedBy(sorted, key)
    ensures WithKey(InsertByKey(sorted, x, key), key, k)
            == WithKey(sorted, key, k) + (if key(x) == k then [x] else [])
  {
    var mine := if key(x) == k then [x] else [];
    if sorted == [] {
      WithKeyCons(x, [], key, k);
      assert [x] + [] == [x];
    } else if KeyLt(key(x), key(sorted[0])) {
      InsertFirstGroups(sorted, x, key, k);
    } else {
      var head := if key(sorted[0]) == k then [sorted[0]] else [];
      var tail := sorted[1..];
      assert InsertByKey(sorted, x, key) == [sorted[0]] + InsertByKey(tail, x, key);
      InsertByKeyGroups(tail, x, key, k);
      WithKeyCons(sorted[0], InsertByKey(tail, x, key), key, k);
      WithKeyCons(sorted[0], tail, key, k);
      assert [sorted[0]] + tail == sorted;
      assert head + (WithKey(tail, key, k) + mine) == (head + WithKey(tail, key, k)) + mine;
    }
  }

  /** Put in front of a sorted sequence whose keys all exceed its own, x forms a group of its own. */
  lemma InsertFirstGroups<T>(sorted: seq<T>, x: T, key: T -> Key, k: Key)
    requires SortedBy(sorted, key) && sorted != []
    requires KeyLt(key(x), key(sorted[0]))
    ensures WithKey([x] + sorted, key, k) == WithKey(sorted, key, k) + (if key(x) == k then [x] else [])
  {
    WithKeyCons(x, sorted, key, k);
    NoSmallerKey(sorted, key, k);
  }

  /** The elements with key k of a sequence with a first element. */
  lemma WithKeyCons<T>(h: T, t: seq<T>, key: T -> Key, k: Key)
    ensures WithKey([h] + t, key, k) == (if key(h) == k then [h] else []) + WithKey(t, key, k)
  {
    assert ([h] + t)[1..] == t;
  }

  /**
   * `sorted` is a stable sort: its result is in key order, and for every
   * key it lists the elements with that key in their input order (so it
   * is also a permutation of its input).
   */
  lemma {:induction false} StableSortCorrect<T>(s: seq<T>, key: T -> Key)
    ensures SortedBy(StableSort(s, key), key)
    ensures forall k :: WithKey(StableSort(s, key), key, k) == WithKey(s, key, k)
    ensures multiset(StableSort(s, key)) == multiset(s)
  {
    if s != [] {
      var init, x := s[..|s| - 1], s[|s| - 1];
      StableSortCorrect(init, key);
      InsertByKeySorted(StableSort(init, key), x, key);
      InsertByKeyElements(StableSort(init, key), x, key);
      assert s == init + [x];
      forall k
        ensures WithKey(StableSort(s, key), key, k) == WithKey(s, key, k)
      {
        InsertByKeyGroups(StableSort(init, key), x, key, k);
        WithKeyAppend(init, [x], key, k);
      }
    }
  }

  lemma {:induction false} SortedSameGroupsEqual<T>(t: seq<T>, u: seq<T>, key: T -> Key)
    requires SortedBy(t, key) && SortedBy(u, key)
    requires forall k :: WithKey(t, key, k) == WithKey(u, key, k)
    ensures t == u
    decreases |t| + |u|
  {
    if t != [] || u != [] {
      SameHeads(t, u, key);
      SameTailGroups(t, u, key);
      SortedSameGroupsEqual(t[1..], u[1..], key);
      assert t == [t[0]] + t[1..] && u == [u[0]] + u[1..];
    }
  }

  /** Two sorted sequences with the same groups start with the same element. */
  lemma SameHeads<T>(t: seq<T>, u: seq<T>, key: T -> Key)
    requires SortedBy(t, key) && SortedBy(u, key)
    requires forall k :: WithKey(t, key, k) == WithKey(u, key, k)
    requires t != [] || u != []
    ensures t != [] && u != [] && t[0] == u[0]
  {
    assert t != [] ==> WithKey(t, key, key(t[0])) == [t[0]] + WithKey(t[1..], key, key(t[0]));
    assert u != [] ==> WithKey(u, key, key(u[0])) == [u[0]] + WithKey(u[1..], key, key(u[0]));
    assert t != [] ==> WithKey(u, key, key(t[0])) != [];
    assert u != [] ==> WithKey(t, key, key(u[0])) != [];
    assert t != [] && u != [];
    var k0, k1 := key(t[0]), key(u[0]);
    NoSmallerKey(u, key, k0);
    NoSmallerKey(t, key, k1);
    assert k0 == k1;
    assert t[0] == WithKey(t, key, k0)[0] == WithKey(u, key, k0)[0] == u[0];
  }

  /** Dropping the same first element leaves the same groups. */
  lemma SameTailGroups<T>(t: seq<T>, u: seq<T>, key: T -> Key)
    requires t != [] && u != [] && t[0] == u[0]
    requires forall k :: WithKey(t, key, k) == WithKey(u, key, k)
    ensures forall k :: WithKey(t[1..], key, k) == WithKey(u[1..], key, k)
  {
    forall k
      ensures WithKey(t[1..], key, k) == WithKey(u[1..], key, k)
    {
      var head := if key(t[0]) == k then [t[0]] else [];
      assert WithKey(t, key, k) == head + WithKey(t[1..], key, k);
      assert WithKey(u, key, k) == head + WithKey(u[1..], key, k);
      assert WithKey(t[1..], key, k) == WithKey(t, key, k)[|head|..];
    }
  }

  /**
   * Stability pins the result down: any ordering of the elements that is
   * in key order and keeps each key's elements in input order is the one
   * `StableSort` produces.
   */
  lemma StableSortUnique<T>(s: seq<T>, t: seq<T>, key: T -> Key)
    requires SortedBy(t, key)
    requires forall k :: WithKey(t, key, k) == WithKey(s, key, k)
    ensures t == StableSort(s, key)
  {
    StableSortCorrect(s, key);
    SortedSameGroupsEqual(t, StableSort(s, key), key);
  }

  /** `_sorted_results_by_latency`. */
  function SortedByLatency(results: seq<NamedResult>): seq<NamedResult> {
    StableSort(results, KeyOf)
  }

  /**
   * The ranked list is the input reordered by average, ties and
   * unreadable lines keeping their input order.
   */
  lemma SortedByLatencyCorrect(results: seq<NamedResult>)
    ensures SortedBy(SortedByLatency(results), KeyOf)
    ensures multiset(SortedByLatency(results)) == multiset(results)
    ensures forall k :: WithKey(SortedByLatency(results), KeyOf, k) == WithKey(results, KeyOf, k)
  {
    StableSortCorrect(results, KeyOf);
  }

  /** Every line with an average is ranked above every line without one. */
  lemma AveragesBeforeInfinity(results: seq<NamedResult>)
    ensures var ranked := SortedByLatency(results);
            forall i, j ::
              0 <= i < |ranked| && 0 <= j < |ranked| && KeyOf(ranked[i]).Finite? && KeyOf(ranked[j]).Infinity?
              ==> i < j
  {
    StableSortCorrect(results, KeyOf);
    FiniteBeforeInfinity(SortedByLatency(results), KeyOf);
  }

  /** In a sequence sorted by key, every finite key comes before every infinite one. */
  lemma FiniteBeforeInfinity<T>(s: seq<T>, key: T -> Key)
    requires SortedBy(s, key)
    ensures forall i, j ::
              0 <= i < |s| && 0 <= j < |s| && key(s[i]).Finite? && key(s[j]).Infinity?
              ==> i < j
  {
  }
}
