# dns_tester: benchmark and ranking, in Dafny

dns_tester is a GNOME application that keeps a list of DNS resolvers, shown
as rows with a name (title) and an address (subtitle). Its "check" button
does three things. It walks the rows in order. For every row with an address
it queries a fixed list of domains through that resolver and summarises the
latencies in one line:
`avg X ms | best Y ms | worst Z ms`, followed by ` | errors N` when some
queries failed. Finally it shows the `(name, line)` pairs ranked by the
average that the line displays.

This project models that pipeline from `src/window.py` and proves what it
guarantees:

- `wrappers.dfy` (`Wrappers`): the `Option` type.
- `text.dfy` (`Text`): the Python string operations the ranking relies on.
  These are `str.split("|")`, `str.strip()`, `str.split()`, `startswith` and
  `in`. Each comes with a round trip or a characterisation, for example
  `Split`/`Join` and `SplitWords`/`JoinWords`.
- `numbers.dfy` (`Numbers`): `f"{n}"` for the error count, `f"{x:.1f}"` for
  latencies, and `float(...)` for reading an average back. `:.1f` rounds
  half to even on the exact value, and it keeps the minus sign of a negative
  value that rounds to zero.
- `probe.dfy` (`Probe`): `_resolve_dns` as a method with a loop. It is
  proved equal to `Render(Summarize(answers))`, where `Summarize` states the
  statistics and `Render` states the line.
- `ranking.dfy` (`Ranking`): `extract_avg` and `sorted(..., key=...)`. The
  sort is a generic stable insertion sort. It is proved sorted, a
  permutation and stable, and it is proved to be the only sequence with
  those properties.
- `window.dfy` (`Window`): the row walk of `on_check_button_clicked` as a
  method with a loop, proved equal to `Collect`, plus the whole button.
- `scenarios.dfy` (`Scenarios`): concrete runs. One resolver answers in
  10 ms next to a row without an address. Another resolver's only query
  times out. A third pair shows a slower resolver with one failed query
  ranked after a faster one, its line ending in ` | errors 1`.

The queries of the DNS library are an oracle. `answers[i]` says what the
query for the i-th domain did: an answer with its `response.time` (possibly
`None`), or one of the exceptions the loop catches. The domain list is a
parameter. Setting up the resolver (`src/window.py:166-168`) is assumed to
succeed; see "## Left out".

Three details of the code shape what is proved:

- A row without an address gets the line `"missing IP"`
  (`src/window.py:155`) and is never queried.
- Ranking uses the average as the line shows it, rounded to one decimal and
  parsed back by `float` (`src/window.py:241`). Two resolvers whose means
  round to the same tenth keep their row order.
- All exception kinds count the same; which one was raised never shows
  (`src/window.py:182-185`).

## Model

| member | source | states |
|---|---|---|
| Probe.ResolveDns | src/window.py:164-196 | the loop over the domains returns exactly `Render(Summarize(answers))`; the loop invariants tie the `latencies` list and the `errors` counter to the answers seen so far |
| Probe.LatencyMs | src/window.py:180 | definition, no contract: `(response.time or 0) * 1000.0` |
| Probe.Latencies | src/window.py:170-181 | definition, no contract: one entry per answered query, appended in query order; `CountsAddUp` gives its length, `LatenciesAreAnswers` and `AnsweredIsRecorded` the two directions of membership, `NoLatenciesIffAllRaised` the empty case |
| Probe.ErrorCount | src/window.py:171-185 | definition, no contract: one per query that raised; stated by `CountsAddUp` |
| Probe.Sum | src/window.py:192 | definition, no contract: Python's `sum`; bounded by `SumBounds` |
| Probe.StatsText | src/window.py:193 | definition, no contract: the f-string of line 193; its shape is stated by `Render` and `Ranking.StatsLine` |
| Probe.ErrorsText | src/window.py:194-195 | definition, no contract: the suffix `" \| errors N"`; stated by `Render` |
| Probe.Summarize | src/window.py:187-192 | no statistics iff every query raised; otherwise best <= avg <= worst; best and worst are measured latencies that bound all the others; errors + latencies = queries |
| Probe.Render | src/window.py:187-196 | the line is `"no successful responses"` iff nothing succeeded; otherwise it starts with `avg … ms \| best … ms \| worst … ms` and ends with `" \| errors N"` iff errors > 0 |
| Probe.CountsAddUp | src/window.py:170-185 | every query is counted once, as a latency or as an error |
| Probe.NoLatenciesIffAllRaised | src/window.py:187-188 | the latency list is empty iff every query raised |
| Probe.LatenciesAreAnswers | src/window.py:180-181 | every recorded latency is `(response.time or 0) * 1000.0` of some answered query |
| Probe.AnsweredIsRecorded | src/window.py:180-181 | the latency `(response.time or 0) * 1000.0` of every answered query is in the recorded list |
| Probe.Min | src/window.py:190 | `min` of a non-empty list is one of its elements and bounds all of them from below |
| Probe.Max | src/window.py:191 | `max` of a non-empty list is one of its elements and bounds all of them from above |
| Probe.SumBounds | src/window.py:192 | a sum lies between the length times a lower bound and the length times an upper bound |
| Probe.MeanBetweenMinAndMax | src/window.py:190-192 | `min(l) <= sum(l) / len(l) <= max(l)` for a non-empty list |
| Probe.ErrorKindIrrelevant | src/window.py:182-185 | two runs that differ only in which exception failed queries raised have the same summary |
| Probe.SameLatenciesAndErrors | src/window.py:180-185 | such runs record the same latencies and the same error count |
| Numbers.Decimal | src/window.py:195 | `f"{n}"` is a non-empty string of digits without a leading zero |
| Numbers.DecimalRoundTrip | src/window.py:195 | the digits of `f"{n}"` read back as n |
| Numbers.RoundHalfEven | src/window.py:193 | rounding to an integer moves by at most one half, ties go to the even neighbour, and non-negative values stay non-negative |
| Numbers.RoundHalfEvenMonotone | src/window.py:193 | rounding never reverses the order of two values |
| Numbers.Round1 | src/window.py:193 | the value `:.1f` shows lies within 0.05 of the exact value |
| Numbers.Round1Monotone | src/window.py:193 | showing one decimal never reverses the order of two values |
| Numbers.Fmt1 | src/window.py:193 | `f"{x:.1f}"` is never empty and holds neither whitespace nor `\|`, so it survives `split("\|")`, `strip()` and `split()` as one word |
| Numbers.TenthsText | src/window.py:193 | the text of n tenths is non-empty, has no sign in front and holds only digits and a point |
| Numbers.TenthsRoundTrip | src/window.py:241 | `float` reads the text of n tenths back as n / 10 |
| Numbers.SignedTenthsRoundTrip | src/window.py:241 | with a minus sign in front, `float` reads the negated value |
| Numbers.FormatParseRoundTrip | src/window.py:241 | `float(f"{x:.1f}")` is x rounded to one decimal |
| Numbers.ParseUnsignedPoint | src/window.py:241 | `float("W.F")` is W plus F over 10 to the number of digits of F |
| Numbers.IndexOf | src/window.py:241 | the first occurrence of a character, or the length when there is none |
| Numbers.ParseFloat | src/window.py:241 | definition, no contract: `float` on an optional sign and an unsigned literal, `None` for a `ValueError`; stated by `FormatParseRoundTrip` and `SignedTenthsRoundTrip` |
| Numbers.ParseUnsigned | src/window.py:241 | definition, no contract: digits, an optional point, digits; stated by `ParseUnsignedPoint` and `TenthsRoundTrip` |
| Text.Split | src/window.py:237 | `s.split("\|")` has at least one part, no part holds `\|`, and joining the parts with `\|` gives s back |
| Text.SplitJoin | src/window.py:237 | splitting the join of parts without a separator gives the parts back |
| Text.SplitAfterPiece | src/window.py:237 | a piece followed by the separator is the first part |
| Text.SplitNoSeparator | src/window.py:237 | a string without the separator splits into itself alone |
| Text.LeadingSpace | src/window.py:238 | the count of leading whitespace characters |
| Text.TrailingSpace | src/window.py:238 | the count of trailing whitespace characters |
| Text.Strip | src/window.py:238 | `s.strip()` is the slice of s between its leading and trailing whitespace, and it neither starts nor ends with whitespace |
| Text.StripWord | src/window.py:238 | a word surrounded by whitespace strips to that word |
| Text.LeadingSpaceOf | src/window.py:238 | whitespace in front of a non-space counts fully as leading whitespace |
| Text.TrailingSpaceOf | src/window.py:238 | whitespace after a non-space counts fully as trailing whitespace |
| Text.WordLength | src/window.py:240 | the length of the first word, which holds no whitespace |
| Text.SplitWords | src/window.py:240 | every word of `s.split()` is non-empty and free of whitespace |
| Text.WordLengthOf | src/window.py:240 | a word followed by whitespace or the end has its own length as first word |
| Text.SplitWordsJoin | src/window.py:240 | splitting words joined by single spaces gives the words back |
| Text.SplitWordsAllSpace | src/window.py:240 | `s.split()` of a whitespace-only string is empty |
| Text.SplitWordsStep | src/window.py:240 | after leading whitespace, the maximal non-whitespace run is the first word and splitting goes on after it; with `SplitWordsAllSpace` this fixes `s.split()` on every string |
| Text.IsSpace | src/window.py:238-240 | definition, no contract: the characters Python's `str.isspace` accepts, which `strip()` and `split()` remove |
| Text.ContainsInSlice | src/window.py:236 | an occurrence in a slice is an occurrence in the string |
| Text.ContainsJoin | src/window.py:236 | an occurrence in one part is an occurrence in the `\|`-joined string |
| Text.NotContainsWithout | src/window.py:236 | a string lacking one letter of a word does not contain that word |
| Text.StartsWith | src/window.py:239 | definition, no contract: `s.startswith(p)`, p is a prefix of s; used by `Ranking.FirstAvgPart` and `Ranking.AvgPart` |
| Text.Contains | src/window.py:236 | definition, no contract: `w in s`, w occurs at some position of s; stated by `ContainsInSlice`, `ContainsJoin` and `NotContainsWithout` |
| Ranking.FirstAvgPart | src/window.py:237-239 | the scan stops at the first part that, stripped, starts with "avg"; no earlier part does |
| Ranking.IsAvgPart | src/window.py:238-239 | definition, no contract: `part.strip().startswith("avg")`; stated by `FirstAvgPart` and `AvgPart` |
| Ranking.ExtractAvg | src/window.py:235-244 | definition, no contract: infinity unless `"avg"` occurs, otherwise the scan of the `\|`-parts; stated by `ExtractAvgIsScan`, `SentinelsHaveNoAverage` and `ExtractAvgOfSummary` |
| Ranking.ScanParts | src/window.py:237-244 | definition, no contract: the key of the first avg part, or infinity when there is none |
| Ranking.AvgWordKey | src/window.py:240-243 | definition, no contract: `float` of the second word, or infinity for a missing word (`IndexError`) or an unreadable one (`ValueError`) |
| Ranking.KeyOf | src/window.py:246 | definition, no contract: `extract_avg(item[1])` |
| Ranking.KeyLe | src/window.py:246 | definition, no contract: Python's `<=` on floats with `inf`, which is above every finite key |
| Ranking.KeyLt | src/window.py:246 | definition, no contract: the `<` that `sorted` compares keys with, the negation of `KeyLe` with the arguments swapped |
| Ranking.InsertByKey | src/window.py:246 | definition, no contract: insertion after every element with a key not above the new one; stated by `InsertByKeySorted`, `InsertByKeyElements` and `InsertByKeyGroups` |
| Ranking.StableSort | src/window.py:246 | definition, no contract: `sorted(s, key=key)`; stated by `StableSortCorrect` and `StableSortUnique` |
| Ranking.SortedByLatency | src/window.py:246 | definition, no contract: `sorted(results, key=lambda item: extract_avg(item[1]))`; stated by `SortedByLatencyCorrect` |
| Ranking.AvgPartContainsAvg | src/window.py:236-239 | a part starting with "avg" puts "avg" in the string |
| Ranking.ContainsAvgAt | src/window.py:236-239 | the same, for a part at a given position |
| Ranking.ExtractAvgIsScan | src/window.py:235-244 | the `"avg" in latency_str` test never changes the key: `extract_avg` equals the scan of the parts |
| Ranking.SentinelsHaveNoAverage | src/window.py:235-244 | `"missing IP"` and `"no successful responses"` both get key infinity |
| Ranking.ExtractAvgOfSummary | src/window.py:235-244 | the key of a summary line is its average rounded to one decimal, or infinity for the no-success line |
| Ranking.StatsLine | src/window.py:193-195 | a summary line with statistics starts with `avg X ms \|`, where X is the formatted average |
| Ranking.ScanAvgLine | src/window.py:237-244 | a line starting `avg X ms \|` has key `float(X)`, or infinity when X does not parse |
| Ranking.AvgPart | src/window.py:238-240 | the part `avg X ms ` strips to `avg X ms`, starts with "avg" and has X as second word |
| Ranking.InsertByKeySorted | src/window.py:246 | inserting into a sorted sequence keeps it sorted |
| Ranking.InsertByKeyElements | src/window.py:246 | insertion adds exactly the inserted element |
| Ranking.InsertByKeyGroups | src/window.py:246 | the inserted element goes after every element with the same key |
| Ranking.NoSmallerKey | src/window.py:246 | a sorted sequence has no element with a key below its first |
| Ranking.StableSortCorrect | src/window.py:246 | `sorted` returns a sequence in key order, a permutation of its input, with equal keys in input order |
| Ranking.SortedSameGroupsEqual | src/window.py:246 | two sorted sequences with the same elements per key are equal |
| Ranking.StableSortUnique | src/window.py:246 | any sorted sequence with the input's elements per key in input order is the result of `sorted` |
| Ranking.SortedByLatencyCorrect | src/window.py:246 | the ranking by `extract_avg` is ordered, a permutation and stable |
| Ranking.AveragesBeforeInfinity | src/window.py:246 | every line with a finite key is ranked above every line with key infinity |
| Ranking.FiniteBeforeInfinity | src/window.py:246 | in any key-sorted sequence finite keys come before infinite ones |
| Window.RowResult | src/window.py:153-155 | the name is never empty, is the title when that is non-empty and "Unknown" for a missing or empty title; the line is "missing IP" iff the address is empty, and the resolver's summary otherwise |
| Window.ActionRowPositions | src/window.py:149-151 | the positions of the entry rows among the list box children, all of them, increasing |
| Window.ProbedPositions | src/window.py:151-155 | the positions of the entry rows with an address, all of them, increasing |
| Window.RowName | src/window.py:153 | definition, no contract: `row.get_title() or "Unknown"`; stated by `RowResult` |
| Window.RowAddress | src/window.py:154 | definition, no contract: `row.get_subtitle() or ""`; stated by `RowResult` |
| Window.Probed | src/window.py:151-155 | definition, no contract: an entry row whose address is non-empty, the `if ip_address` test; stated by `ProbedPositions` and `RowResult` |
| Window.Collect | src/window.py:149-158 | definition, no contract: the `results` list after the walk; stated by `CollectFollowsRows` |
| Window.CollectFollowsRows | src/window.py:149-158 | before sorting there is exactly one pair per entry row, in row order |
| Window.CheckEntries | src/window.py:147-158 | the while loop over the children produces exactly `Collect(children, answers)`; the ghost `probed` records the rows whose resolver is queried and equals `ProbedPositions(children)`, so exactly the entry rows with an address are queried, in row order |
| Window.OnCheckButtonClicked | src/window.py:141-161 | the button shows the collected pairs ranked by `extract_avg` |
| Window.RowKey | src/window.py:153-155 | an entry row's key is its average as displayed, or infinity exactly for the two sentinel lines |
| Window.CollectKeys | src/window.py:149-158 | in the collected list exactly the sentinel lines have key infinity |
| Window.SentinelsShownLast | src/window.py:161 | every resolver that answered at least once is listed above every "missing IP" and "no successful responses" line |
| Scenarios.AnsweredAndMissing | src/window.py:141-196 | a resolver answering in 0.01 s and a row without an address give `[("A", "avg 10.0 ms \| best 10.0 ms \| worst 10.0 ms"), ("B", "missing IP")]` |
| Scenarios.OnlyTimeout | src/window.py:141-196 | a resolver whose only query times out gives `[("A", "no successful responses")]` |
| Scenarios.OneAnswerSummary | src/window.py:180-192 | one answer in 0.01 s gives avg, best and worst 10 ms and no errors |
| Scenarios.TenMillisecondsLine | src/window.py:193-195 | those statistics render as `avg 10.0 ms \| best 10.0 ms \| worst 10.0 ms` |
| Scenarios.TenMilliseconds | src/window.py:193 | `f"{10.0:.1f}"` is `"10.0"` |
| Scenarios.SlowerWithErrorRankedSecond | src/window.py:141-246 | a resolver answering in 50 ms with one timeout, listed before one answering in 10 ms twice, gets the line `avg 50.0 ms \| best 50.0 ms \| worst 50.0 ms \| errors 1` and is shown second |
| Scenarios.TwoAnswersSummary | src/window.py:180-192 | two answers in 0.01 s give avg, best and worst 10 ms and no errors |
| Scenarios.AnswerAndTimeoutSummary | src/window.py:180-192 | one answer in 0.05 s and one timeout give avg, best and worst 50 ms and one error |
| Scenarios.FiftyMillisecondsOneErrorLine | src/window.py:193-195 | those statistics render with the suffix `" \| errors 1"` |

## Left out

- The GTK and Adwaita user interface is not modelled: building the window,
  adding and removing rows, the dialogs, and turning the ranked pairs into
  rows (`src/window.py:37-138`, `198-231`, `248-258`). The model's output is
  the ranked list of pairs.
- The `dns.resolver` queries, the 2.0 s lifetime and the record type are
  modelled as the oracle `answers`. Which exception a query raises is data
  in that oracle.
- Probe.ResolveDns: creating the resolver and assigning
  `resolver.nameservers = [ip_address]` (`src/window.py:166-168`) happen
  outside the `try`, and `on_check_button_clicked` has no handler around
  the call. An address the DNS library rejects there would abort the whole
  row walk, so no results would be listed. The model assumes this setup
  never raises: `OnCheckButtonClicked` always produces one pair per entry
  row. Which addresses the library rejects is not visible here.
- The list of test domains lives in `src/aux.py`, which is not part of this
  model. The list is a parameter.
- The `print` logging lines are left out: they change nothing that is returned.
- `src/default_dns.py` is only a constant list of example resolvers.
- Probe.ResolveDns: latencies are exact reals, so binary floating-point
  rounding of `* 1000.0`, `sum` and the division is not modelled. `:.1f`
  is modelled as round-half-even on the exact value, which is what Python
  does to the exact value of a float.
- Numbers.FormatParseRoundTrip: the `float` model reads only what `:.1f`
  and integers print: an optional sign, digits, an optional point and
  digits. Exponents, `inf`, `nan`, underscores and surrounding whitespace
  are not parsed. Such words never occur in the lines the program builds.
- The sentinels and finite averages are keys of the `Key` type. A Python
  `float("inf")` average is not producible by the model's parser, which
  cannot read `inf`.
- Nothing runs concurrently in the program, and there is no cancellation,
  so neither is modelled.
