/**
 * The few Python string operations the ranking relies on:
 * `str.isspace`, `s.split(sep)`, `sep.join(parts)`, `s.strip()`,
 * `s.split()`, `s.startswith(p)` and `w in s`.
 */
module Text {

  /** Python's `str.isspace()` for a single character. */
  predicate IsSpace(c: char) {
    var n := c as int;
    (9 <= n <= 13) || (28 <= n <= 32) || n == 0x85 || n == 0xA0 || n == 0x1680
    || (0x2000 <= n <= 0x200A) || n == 0x2028 || n == 0x2029 || n == 0x202F
    || n == 0x205F || n == 0x3000
  }

  predicate NoSpace(s: string) {
    forall i :: 0 <= i < |s| ==> !IsSpace(s[i])
  }

  predicate AllSpace(s: string) {
    forall i :: 0 <= i < |s| ==> IsSpace(s[i])
  }

  /** `sep.join(parts)` for a one-character separator. */
  function Join(parts: seq<string>, sep: char): string {
    if |parts| == 0 then []
    else if |parts| == 1 then parts[0]
    else parts[0] + [sep] + Join(parts[1..], sep)
  }

  /**
   * `s.split(sep)`: the pieces between occurrences of `sep`. There is
   * always at least one piece, no piece holds `sep`, and joining the
   * pieces back gives `s`.
   */
  function Split(s: string, sep: char): (parts: seq<string>)
    ensures |parts| >= 1
    ensures forall i :: 0 <= i < |parts| ==> sep !in parts[i]
    ensures Join(parts, sep) == s
    decreases |s|
  {
    if s == [] then [[]]
    else
      var rest := Split(s[1..], sep);
      if s[0] == sep then
        assert Join([[]] + rest, sep) == [] + [sep] + Join(rest, sep);
        [[]] + rest
      else
        var parts := [[s[0]] + rest[0]] + rest[1..];
        assert parts[1..] == rest[1..];
        assert |rest| > 1 ==> Join(rest, sep) == rest[0] + [sep] + Join(rest[1..], sep);
        parts
  }

  /** A piece without the separator followed by the separator splits off as the first piece. */
  lemma {:induction false} SplitAfterPiece(piece: string, rest: string, sep: char)
    requires sep !in piece
    ensures Split(piece + [sep] + rest, sep) == [piece] + Split(rest, sep)
    decreases |piece|
  {
    var s := piece + [sep] + rest;
    if piece == [] {
      assert s[1..] == rest;
    } else {
      assert s[1..] == piece[1..] + [sep] + rest;
      SplitAfterPiece(piece[1..], rest, sep);
      assert [s[0]] + piece[1..] == piece;
    }
  }

  /** A string without the separator is a single piece. */
  lemma {:induction false} SplitNoSeparator(s: string, sep: char)
    requires sep !in s
    ensures Split(s, sep) == [s]
    decreases |s|
  {
    if s != [] {
      SplitNoSeparator(s[1..], sep);
      assert [s[0]] + s[1..] == s;
    }
  }

  /** Splitting undoes joining, for pieces that do not hold the separator. */
  lemma {:induction false} SplitJoin(parts: seq<string>, sep: char)
    requires |parts| >= 1
    requires forall i :: 0 <= i < |parts| ==> sep !in parts[i]
    ensures Split(Join(parts, sep), sep) == parts
  {
    if |parts| == 1 {
      SplitNoSeparator(parts[0], sep);
    } else {
      SplitJoin(parts[1..], sep);
      SplitAfterPiece(parts[0], Join(parts[1..], sep), sep);
      assert [parts[0]] + parts[1..] == parts;
    }
  }

  /** The number of leading whitespace characters. */
  function LeadingSpace(s: string): (n: nat)
    ensures n <= |s|
    ensures AllSpace(s[..n])
    ensures n == |s| || !IsSpace(s[n])
  {
    if s != [] && IsSpace(s[0]) then 1 + LeadingSpace(s[1..]) else 0
  }

  /** The number of trailing whitespace characters. */
  function TrailingSpace(s: string): (n: nat)
    ensures n <= |s|
    ensures AllSpace(s[|s| - n..])
    ensures n == |s| || !IsSpace(s[|s| - n - 1])
  {
    if s != [] && IsSpace(s[|s| - 1]) then 1 + TrailingSpace(s[..|s| - 1]) else 0
  }

  /**
   * `s.strip()`: `s` without its leading and trailing whitespace. The
   * result sits in `s` at offset `LeadingSpace(s)`, only whitespace
   * surrounds it there, and it neither starts nor ends with whitespace.
   */
  function Strip(s: string): (r: string)
    ensures |r| <= |s|
    ensures LeadingSpace(s) + |r| <= |s|
    ensures r == s[LeadingSpace(s)..LeadingSpace(s) + |r|]
    ensures AllSpace(s[..LeadingSpace(s)]) && AllSpace(s[LeadingSpace(s) + |r|..])
    ensures r == [] || (!IsSpace(r[0]) && !IsSpace(r[|r| - 1]))
  {
    var n := LeadingSpace(s);
    var t := s[n..];
    var m := TrailingSpace(t);
    var r := t[..|t| - m];
    SliceOfSuffix(s, n, |t| - m);
    SuffixOfSuffix(s, n, |t| - m);
    assert r != [] ==> r[0] == s[n] && r[|r| - 1] == t[|t| - m - 1];
    r
  }

  lemma SliceOfSuffix<T>(s: seq<T>, n: nat, k: nat)
    requires n + k <= |s|
    ensures s[n..][..k] == s[n..n + k]
  {
  }

  lemma SuffixOfSuffix<T>(s: seq<T>, n: nat, k: nat)
    requires n + k <= |s|
    ensures s[n..][k..] == s[n + k..]
  {
  }

  /** A word surrounded by whitespace strips to that word. */
  lemma StripWord(pre: string, w: string, post: string)
    requires AllSpace(pre) && AllSpace(post)
    requires w != [] && !IsSpace(w[0]) && !IsSpace(w[|w| - 1])
    ensures Strip(pre + w + post) == w
  {
    var s := pre + w + post;
    LeadingSpaceOf(pre, w + post);
    assert s == pre + (w + post);
    var t := s[LeadingSpace(s)..];
    assert t == w + post;
    TrailingSpaceOf(w, post);
  }

  lemma {:induction false} LeadingSpaceOf(pre: string, rest: string)
    requires AllSpace(pre)
    requires rest != [] && !IsSpace(rest[0])
    ensures LeadingSpace(pre + rest) == |pre|
    decreases |pre|
  {
    var s := pre + rest;
    if pre == [] {
      assert s == rest;
    } else {
      var tail := pre[1..];
      assert forall j :: 0 <= j < |tail| ==> tail[j] == pre[j + 1];
      assert s[0] == pre[0];
      assert s[1..] == tail + rest;
      LeadingSpaceOf(tail, rest);
    }
  }

  lemma {:induction false} TrailingSpaceOf(rest: string, post: string)
    requires AllSpace(post)
    requires rest != [] && !IsSpace(rest[|rest| - 1])
    ensures TrailingSpace(rest + post) == |post|
    decreases |post|
  {
    var s := rest + post;
    if post == [] {
      assert s == rest;
    } else {
      var init := post[..|post| - 1];
      assert forall j :: 0 <= j < |init| ==> init[j] == post[j];
      assert s[|s| - 1] == post[|post| - 1];
      assert s[..|s| - 1] == rest + init;
      TrailingSpaceOf(rest, init);
    }
  }

  /** Length of the run of non-whitespace characters at the start of `s`. */
  function WordLength(s: string): (n: nat)
    ensures n <= |s|
    ensures NoSpace(s[..n])
    ensures n == |s| || IsSpace(s[n])
  {
    if s == [] || IsSpace(s[0]) then 0 else 1 + WordLength(s[1..])
  }

  /**
   * `s.split()` with no argument: the maximal runs of non-whitespace
   * characters, in order. Every word is non-empty and holds no whitespace.
   */
  function SplitWords(s: string): (words: seq<string>)
    ensures forall i :: 0 <= i < |words| ==> words[i] != [] && NoSpace(words[i])
    decreases |s|
  {
    if s == [] then []
    else if IsSpace(s[0]) then SplitWords(s[1..])
    else
      var n := WordLength(s);
      [s[..n]] + SplitWords(s[n..])
  }

  /** `" ".join(words)`. */
  function JoinWords(words: seq<string>): string {
    Join(words, ' ')
  }

  lemma {:induction false} WordLengthOf(w: string, rest: string)
    requires NoSpace(w)
    requires rest == [] || IsSpace(rest[0])
    ensures WordLength(w + rest) == |w|
    decreases |w|
  {
    if w != [] {
      assert (w + rest)[1..] == w[1..] + rest;
      WordLengthOf(w[1..], rest);
    } else {
      assert w + rest == rest;
    }
  }

  /** Splitting on whitespace undoes joining with single spaces. */
  lemma {:induction false} SplitWordsJoin(words: seq<string>)
    requires forall i :: 0 <= i < |words| ==> words[i] != [] && NoSpace(words[i])
    ensures SplitWords(JoinWords(words)) == words
  {
    if |words| == 1 {
      WordLengthOf(words[0], []);
      assert words[0][|words[0]|..] == [];
      assert words[0] + [] == words[0];
    } else if |words| > 1 {
      var w := words[0];
      var rest := Join(words[1..], ' ');
      var s := w + [' '] + rest;
      assert JoinWords(words) == s;
      WordLengthOf(w, [' '] + rest);
      assert s == w + ([' '] + rest);
      assert s[..|w|] == w;
      assert s[|w|..] == [' '] + rest;
      assert s[|w|..][1..] == rest;
      SplitWordsJoin(words[1..]);
      assert [w] + words[1..] == words;
    }
  }

  /** A string of whitespace only has no words. */
  lemma {:induction false} SplitWordsAllSpace(s: string)
    requires AllSpace(s)
    ensures SplitWords(s) == []
    decreases |s|
  {
    if s != [] {
      assert AllSpace(s[1..]) by {
        assert forall j :: 0 <= j < |s| - 1 ==> s[1..][j] == s[j + 1];
      }
      SplitWordsAllSpace(s[1..]);
    }
  }

  /**
   * Leading whitespace is skipped and the next maximal run of
   * non-whitespace characters is the first word: together with
   * `SplitWordsAllSpace` this determines `SplitWords` on every string.
   */
  lemma {:induction false} SplitWordsStep(pre: string, w: string, rest: string)
    requires AllSpace(pre)
    requires w != [] && NoSpace(w)
    requires rest == [] || IsSpace(rest[0])
    ensures SplitWords(pre + w + rest) == [w] + SplitWords(rest)
    decreases |pre|
  {
    var s := pre + w + rest;
    if pre == [] {
      assert s == w + rest;
      WordLengthOf(w, rest);
      assert s[0] == w[0];
      assert s[..|w|] == w;
      assert s[|w|..] == rest;
    } else {
      var tail := pre[1..];
      assert AllSpace(tail) by {
        assert forall j :: 0 <= j < |tail| ==> tail[j] == pre[j + 1];
      }
      assert s[0] == pre[0];
      assert s[1..] == tail + w + rest;
      SplitWordsStep(tail, w, rest);
    }
  }

  /** `s.startswith(p)`. */
  predicate StartsWith(s: string, p: string) {
    |p| <= |s| && s[..|p|] == p
  }

  /** `s.endswith(p)`. */
  predicate EndsWith(s: string, p: string) {
    |p| <= |s| && s[|s| - |p|..] == p
  }

  /** `w` occurs in `s` at position `i`. */
  predicate OccursAt(s: string, w: string, i: int) {
    0 <= i <= |s| - |w| && s[i..i + |w|] == w
  }

  /** `w in s` for strings: `w` occurs somewhere in `s`. */
  predicate Contains(s: string, w: string) {
    exists i | 0 <= i <= |s| - |w| :: OccursAt(s, w, i)
  }

  /** An occurrence inside a substring is an occurrence in the whole string. */
  lemma ContainsInSlice(s: string, lo: int, hi: int, w: string)
    requires 0 <= lo <= hi <= |s|
    requires Contains(s[lo..hi], w)
    ensures Contains(s, w)
  {
    var i :| 0 <= i <= (hi - lo) - |w| && OccursAt(s[lo..hi], w, i);
    var whole, inner := s[lo + i..lo + i + |w|], s[lo..hi][i..i + |w|];
    assert forall j :: 0 <= j < |w| ==> whole[j] == inner[j];
    assert OccursAt(s, w, lo + i);
  }

  /** An occurrence inside any piece is an occurrence in the joined string. */
  lemma {:induction false} ContainsJoin(parts: seq<string>, sep: char, i: nat, w: string)
    requires i < |parts|
    requires Contains(parts[i], w)
    ensures Contains(Join(parts, sep), w)
  {
    var s := Join(parts, sep);
    if |parts| > 1 {
      assert s == parts[0] + [sep] + Join(parts[1..], sep);
      if i == 0 {
        assert s[0..|parts[0]|] == parts[0];
        ContainsInSlice(s, 0, |parts[0]|, w);
      } else {
        ContainsJoin(parts[1..], sep, i - 1, w);
        assert s[|parts[0]| + 1..|s|] == Join(parts[1..], sep);
        ContainsInSlice(s, |parts[0]| + 1, |s|, w);
      }
    }
  }

  /** A string without the letter `c` contains no word holding `c`. */
  lemma NotContainsWithout(s: string, w: string, k: nat)
    requires k < |w|
    requires w[k] !in s
    ensures !Contains(s, w)
  {
    forall i | 0 <= i <= |s| - |w|
      ensures !OccursAt(s, w, i)
    {
      assert s[i..i + |w|][k] == s[i + k];
      assert s[i + k] in s;
    }
  }
}
