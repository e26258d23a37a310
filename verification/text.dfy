/** Python string primitives used across the scraper: `str.strip`, `str.lower`,
    `in` on strings, `str.split(sep)`, `sep.join` and the word runs that the
    regular expressions `\b\w+\b` and `\b[A-Za-z0-9]+\b` find.

    Strings are sequences of Unicode scalar values, as in Python 3. */
module Text {
  import opened Wrappers
  import Seqs

  // ---------------------------------------------------------------------------
  // Character classes
  // ---------------------------------------------------------------------------

  /** Python's `str.isspace`. */
  predicate IsSpace(c: char) {
    c == ' ' || ('\t' <= c <= '\r') || ('\U{1C}' <= c <= '\U{1F}') ||
    c == '\U{85}' || c == '\U{A0}' || c == '\U{1680}' || ('\U{2000}' <= c <= '\U{200A}') ||
    c == '\U{2028}' || c == '\U{2029}' || c == '\U{202F}' || c == '\U{205F}' || c == '\U{3000}'
  }

  predicate IsAsciiLetter(c: char) {
    ('a' <= c <= 'z') || ('A' <= c <= 'Z')
  }

  predicate IsAsciiDigit(c: char) {
    '0' <= c <= '9'
  }

  predicate IsAsciiAlnum(c: char) {
    IsAsciiLetter(c) || IsAsciiDigit(c)
  }

  /** The characters of `\w` (Python's `isalnum()` or `_`) as far as Latin-1 goes:
      ASCII letters and digits, `_`, the Latin-1 letters and the Latin-1
      superscript digits and vulgar fractions. */
  predicate IsWordChar(c: char) {
    IsAsciiAlnum(c) || c == '_' ||
    c == '\U{AA}' || c == '\U{B2}' || c == '\U{B3}' || c == '\U{B5}' ||
    c == '\U{B9}' || c == '\U{BA}' || ('\U{BC}' <= c <= '\U{BE}') ||
    ('\U{C0}' <= c <= '\U{FF}' && c != '\U{D7}' && c != '\U{F7}')
  }

  predicate AllWordChars(s: string) {
    forall i :: 0 <= i < |s| ==> IsWordChar(s[i])
  }

  predicate AllAsciiAlnum(s: string) {
    forall i :: 0 <= i < |s| ==> IsAsciiAlnum(s[i])
  }

  predicate AllSpaces(s: string) {
    forall i :: 0 <= i < |s| ==> IsSpace(s[i])
  }

  // ---------------------------------------------------------------------------
  // str.strip
  // ---------------------------------------------------------------------------

  function TrimStart(s: string): (r: string)
    ensures |r| <= |s| && r == s[|s| - |r|..]
    ensures AllSpaces(s[..|s| - |r|])
    ensures r == [] || !IsSpace(r[0])
  {
    if s != [] && IsSpace(s[0]) then
      var r := TrimStart(s[1..]);
      assert s[..|s| - |r|] == [s[0]] + s[1..][..|s| - 1 - |r|];
      r
    else s
  }

  function TrimEnd(s: string): (r: string)
    ensures |r| <= |s| && r == s[..|r|]
    ensures AllSpaces(s[|r|..])
    ensures r == [] || !IsSpace(r[|r| - 1])
  {
    if s != [] && IsSpace(s[|s| - 1]) then
      var r := TrimEnd(s[..|s| - 1]);
      assert s[|r|..] == s[..|s| - 1][|r|..] + [s[|s| - 1]];
      r
    else s
  }

  /** `r` sits at index `i` of `s` with only whitespace around it. */
  predicate PaddedAt(s: string, r: string, i: int) {
    0 <= i <= |s| - |r| && s[i..i + |r|] == r && AllSpaces(s[..i]) && AllSpaces(s[i + |r|..])
  }

  /** Python's `s.strip()`: the infix of `s` left after removing whitespace
      at both ends, which neither starts nor ends with whitespace. */
  function Strip(s: string): (r: string)
    ensures |r| <= |s|
    ensures r == [] || (!IsSpace(r[0]) && !IsSpace(r[|r| - 1]))
    ensures exists i :: PaddedAt(s, r, i)
  {
    var t := TrimStart(s);
    var r := TrimEnd(t);
    TrimmedPadded(s, t, r);
    r
  }

  /** Trimming the front and then the back leaves the result padded by whitespace. */
  lemma TrimmedPadded(s: string, t: string, r: string)
    requires |t| <= |s| && t == s[|s| - |t|..] && AllSpaces(s[..|s| - |t|])
    requires |r| <= |t| && r == t[..|r|] && AllSpaces(t[|r|..])
    ensures PaddedAt(s, r, |s| - |t|)
  {
    var i := |s| - |t|;
    assert s[i..i + |r|] == t[..|r|];
    assert s[i + |r|..] == t[|r|..];
  }

  /** Stripping a string that has no whitespace at either end changes nothing. */
  lemma StripUnpadded(s: string)
    requires s == [] || (!IsSpace(s[0]) && !IsSpace(s[|s| - 1]))
    ensures Strip(s) == s
  {
  }

  /** `strip` is idempotent. */
  lemma StripIdempotent(s: string)
    ensures Strip(Strip(s)) == Strip(s)
  {
    StripUnpadded(Strip(s));
  }

  // ---------------------------------------------------------------------------
  // str.lower
  // ---------------------------------------------------------------------------

  /** Python's lower-casing of one character, for ASCII and Latin-1. */
  function LowerChar(c: char): char {
    if 'A' <= c <= 'Z' || ('\U{C0}' <= c <= '\U{DE}' && c != '\U{D7}') then
      (c as int + 32) as char
    else c
  }

  function Lower(s: string): (r: string)
    ensures |r| == |s|
    ensures forall i :: 0 <= i < |s| ==> r[i] == LowerChar(s[i])
  {
    seq(|s|, i requires 0 <= i < |s| => LowerChar(s[i]))
  }

  /** A piece of a lower-cased string is already lower case. */
  lemma LowerOfLowered(s: string, w: string)
    requires IsSubstring(w, Lower(s))
    ensures Lower(w) == w
  {
    var i :| OccursAt(Lower(s), w, i);
    assert forall m :: 0 <= m < |w| ==> w[m] == LowerChar(s[i + m]);
  }

  /** Lower-casing a second time changes nothing. */
  lemma LowerIdempotent(s: string)
    ensures Lower(Lower(s)) == Lower(s)
  {
  }

  // ---------------------------------------------------------------------------
  // Substring search
  // ---------------------------------------------------------------------------

  /** `needle` occurs in `hay` starting at index `i`. */
  predicate OccursAt(hay: string, needle: string, i: int) {
    0 <= i && i + |needle| <= |hay| && hay[i..i + |needle|] == needle
  }

  ghost predicate IsSubstring(needle: string, hay: string) {
    exists i :: OccursAt(hay, needle, i)
  }

  /** Leftmost occurrence of `needle` in `hay` at or after `from` (Python's `str.find`). */
  function FindFrom(hay: string, needle: string, from: nat): (r: Option<nat>)
    requires from <= |hay|
    ensures r.None? ==> forall i :: from <= i ==> !OccursAt(hay, needle, i)
    ensures r.Some? ==> from <= r.value && OccursAt(hay, needle, r.value)
    ensures r.Some? ==> forall i :: from <= i < r.value ==> !OccursAt(hay, needle, i)
    decreases |hay| - from
  {
    if OccursAt(hay, needle, from) then Some(from)
    else if from == |hay| then None
    else FindFrom(hay, needle, from + 1)
  }

  /** Python's `needle in hay`. */
  function Contains(hay: string, needle: string): (b: bool)
    ensures b <==> IsSubstring(needle, hay)
  {
    var r := FindFrom(hay, needle, 0);
    if r.Some? then
      assert OccursAt(hay, needle, r.value);
      true
    else
      false
  }

  /** A one-character needle occurs exactly when the character does. */
  lemma ContainsChar(s: string, c: char)
    ensures Contains(s, [c]) <==> c in s
  {
    if c in s {
      var i :| 0 <= i < |s| && s[i] == c;
      assert OccursAt(s, [c], i);
    }
    if Contains(s, [c]) {
      var i :| OccursAt(s, [c], i);
      assert s[i] == s[i..i + 1][0];
    }
  }

  /** An occurrence inside a prefix is an occurrence in the whole string. */
  lemma OccursInPrefix(s: string, n: nat, needle: string, i: int)
    requires n <= |s| && OccursAt(s[..n], needle, i)
    ensures OccursAt(s, needle, i)
  {
    assert s[..n][i..i + |needle|] == s[i..i + |needle|];
  }

  /** An occurrence inside a suffix is an occurrence in the whole string. */
  lemma OccursInSuffix(s: string, n: nat, needle: string, i: int)
    requires n <= |s| && OccursAt(s[n..], needle, i)
    ensures OccursAt(s, needle, i + n)
  {
    assert s[n..][i..i + |needle|] == s[i + n..i + n + |needle|];
  }

  // ---------------------------------------------------------------------------
  // str.split(sep) and sep.join
  // ---------------------------------------------------------------------------

  /** Python's `sep.join(parts)`. */
  function Join(parts: seq<string>, sep: string): string
  {
    if parts == [] then ""
    else if |parts| == 1 then parts[0]
    else parts[0] + sep + Join(parts[1..], sep)
  }

  /** Python's `s.split(sep)` for a non-empty separator: cut at every
      occurrence of `sep`, scanning left to right. */
  function Split(s: string, sep: string): (r: seq<string>)
    requires sep != []
    ensures |r| >= 1
    ensures Join(r, sep) == s
    ensures forall k :: 0 <= k < |r| ==> !Contains(r[k], sep)
    ensures |r| == 1 <==> !Contains(s, sep)
    decreases |s|
  {
    match FindFrom(s, sep, 0)
    case None => [s]
    case Some(i) =>
      var head := s[..i];
      var rest := Split(s[i + |sep|..], sep);
      FirstCut(s, sep, i);
      [head] + rest
  }

  /** Cutting at the first occurrence of `sep` gives a head free of `sep`. */
  lemma FirstCut(s: string, sep: string, i: nat)
    requires sep != [] && FindFrom(s, sep, 0) == Some(i)
    ensures i + |sep| <= |s| && s == s[..i] + sep + s[i + |sep|..]
    ensures !Contains(s[..i], sep)
  {
    FirstCutHead(s, sep, i);
    Seqs.ThreeParts(s, i, i + |sep|);
  }

  /** Nothing before the first occurrence of `sep` holds `sep`. */
  lemma FirstCutHead(s: string, sep: string, i: nat)
    requires sep != [] && FindFrom(s, sep, 0) == Some(i)
    ensures !Contains(s[..i], sep)
  {
    forall j | 0 <= j && j + |sep| <= i
      ensures !OccursAt(s[..i], sep, j)
    {
      assert !OccursAt(s, sep, j);
      assert s[..i][j..j + |sep|] == s[j..j + |sep|];
    }
  }

  /** No proper prefix of `sep` is also a suffix of it, so two occurrences of
      `sep` never overlap. */
  predicate Unbordered(sep: string) {
    forall k :: 0 < k < |sep| ==> sep[..k] != sep[|sep| - k..]
  }

  /** The leftmost occurrence of an unbordered `sep` in `a + sep + rest`, when
      `a` does not contain it, is the one right after `a`. */
  lemma FirstOccurrenceAfter(a: string, sep: string, rest: string)
    requires sep != [] && Unbordered(sep) && !Contains(a, sep)
    ensures FindFrom(a + sep + rest, sep, 0) == Some(|a|)
  {
    var s := a + sep + rest;
    assert s[|a|..|a| + |sep|] == sep;
    assert OccursAt(s, sep, |a|);
    forall i | 0 <= i < |a|
      ensures !OccursAt(s, sep, i)
    {
      if i + |sep| <= |a| {
        assert !OccursAt(a, sep, i);
        assert a[i..i + |sep|] == s[i..i + |sep|];
      } else {
        var k := i + |sep| - |a|;
        assert sep[..k] != sep[|sep| - k..];
        assert s[i..i + |sep|][|sep| - k..] == sep[..k] by {
          forall j | 0 <= j < k
            ensures s[i..i + |sep|][|sep| - k..][j] == sep[..k][j]
          {
            assert s[i..i + |sep|][|sep| - k..][j] == s[|a| + j];
          }
        }
      }
    }
  }

  /** Splitting on an unbordered separator cuts off a leading piece that does
      not contain it. */
  lemma SplitCons(a: string, sep: string, rest: string)
    requires sep != [] && Unbordered(sep) && !Contains(a, sep)
    ensures Split(a + sep + rest, sep) == [a] + Split(rest, sep)
  {
    var s := a + sep + rest;
    FirstOccurrenceAfter(a, sep, rest);
    assert s[..|a|] == a;
    assert s[|a| + |sep|..] == rest;
  }

  /** A string without the separator splits into itself alone. */
  lemma SplitWithoutSeparator(s: string, sep: string)
    requires sep != [] && !Contains(s, sep)
    ensures Split(s, sep) == [s]
  {
  }

  // ---------------------------------------------------------------------------
  // Word runs: the matches of `\b\w+\b`
  // ---------------------------------------------------------------------------

  /** `s[i..j]` is a whole run of word characters: it is not empty and cannot
      be extended on either side. These are the matches of `\b\w+\b`. */
  ghost predicate MaximalRun(s: string, i: int, j: int) {
    && 0 <= i < j <= |s|
    && (forall k :: i <= k < j ==> IsWordChar(s[k]))
    && (i == 0 || !IsWordChar(s[i - 1]))
    && (j == |s| || !IsWordChar(s[j]))
  }

  /** `r` lists, left to right, the text of each maximal run of `s`, and
      `spans` says where each one sits. */
  ghost predicate RunsOf(s: string, r: seq<string>, spans: seq<(nat, nat)>) {
    && |spans| == |r|
    && (forall k :: 0 <= k < |spans| ==> MaximalRun(s, spans[k].0, spans[k].1))
    && (forall k :: 0 <= k < |spans| ==> spans[k].1 <= |s| && r[k] == s[spans[k].0..spans[k].1])
    && (forall k :: 0 < k < |spans| ==> spans[k - 1].1 < spans[k].0)
    && (forall i, j :: MaximalRun(s, i, j) ==> (i, j) in spans)
  }

  /** No run of word characters straddles position `from`. */
  predicate AtBoundary(s: string, from: nat)
    requires from <= |s|
  {
    from == 0 || from == |s| || !IsWordChar(s[from - 1]) || !IsWordChar(s[from])
  }

  /** Where the run of word characters starting at `from` ends. */
  function RunEnd(s: string, from: nat): (e: nat)
    requires from <= |s|
    ensures from <= e <= |s|
    ensures forall k :: from <= k < e ==> IsWordChar(s[k])
    ensures e < |s| ==> !IsWordChar(s[e])
    decreases |s| - from
  {
    if from == |s| || !IsWordChar(s[from]) then from else RunEnd(s, from + 1)
  }

  /** A run that starts at a boundary is maximal, and it is the only maximal
      run starting inside it. */
  lemma RunAtBoundary(s: string, from: nat)
    requires from < |s| && AtBoundary(s, from) && IsWordChar(s[from])
    ensures MaximalRun(s, from, RunEnd(s, from))
    ensures forall i, j :: from <= i < RunEnd(s, from) && MaximalRun(s, i, j) ==> i == from && j == RunEnd(s, from)
  {
  }

  /** The spans of the maximal runs of `s` that start at or after `from`, left to right. */
  function RunSpans(s: string, from: nat): (r: seq<(nat, nat)>)
    requires from <= |s| && AtBoundary(s, from)
    ensures forall k :: 0 <= k < |r| ==> from <= r[k].0 && MaximalRun(s, r[k].0, r[k].1)
    ensures forall k :: 0 < k < |r| ==> r[k - 1].1 < r[k].0
    ensures forall i, j :: from <= i && MaximalRun(s, i, j) ==> (i, j) in r
    decreases |s| - from
  {
    if from == |s| then []
    else if !IsWordChar(s[from]) then
      var rest := RunSpans(s, from + 1);
      assert forall i, j :: from <= i && MaximalRun(s, i, j) ==> from + 1 <= i;
      rest
    else
      var e := RunEnd(s, from);
      var rest := RunSpans(s, e);
      RunSpansCons(s, from, rest);
      [(from, e)] + rest
  }

  /** The run starting at a boundary, followed by the runs after it. */
  lemma RunSpansCons(s: string, from: nat, rest: seq<(nat, nat)>)
    requires from < |s| && AtBoundary(s, from) && IsWordChar(s[from])
    requires forall k :: 0 <= k < |rest| ==> RunEnd(s, from) <= rest[k].0 && MaximalRun(s, rest[k].0, rest[k].1)
    requires forall k :: 0 < k < |rest| ==> rest[k - 1].1 < rest[k].0
    requires forall i, j :: RunEnd(s, from) <= i && MaximalRun(s, i, j) ==> (i, j) in rest
    ensures var r := [(from, RunEnd(s, from))] + rest;
            && (forall k :: 0 <= k < |r| ==> from <= r[k].0 && MaximalRun(s, r[k].0, r[k].1))
            && (forall k :: 0 < k < |r| ==> r[k - 1].1 < r[k].0)
            && (forall i, j :: from <= i && MaximalRun(s, i, j) ==> (i, j) in r)
  {
    var e := RunEnd(s, from);
    var r := [(from, e)] + rest;
    RunAtBoundary(s, from);
    forall k | 0 <= k < |rest|
      ensures e < rest[k].0
    {
      assert IsWordChar(s[rest[k].0]);
    }
    forall i, j | from <= i && MaximalRun(s, i, j)
      ensures (i, j) in r
    {
      assert i < e ==> (i, j) == r[0];
    }
  }

  /** The matches of the word-boundary pattern over word characters: the
      maximal runs of word characters of `s`, each once, left to right. */
  function WordRuns(s: string): (r: seq<string>)
    ensures forall k :: 0 <= k < |r| ==> r[k] != [] && AllWordChars(r[k])
    ensures forall k :: 0 <= k < |r| ==> IsSubstring(r[k], s)
  {
    var spans := RunSpans(s, 0);
    var r := seq(|spans|, k requires 0 <= k < |spans| => s[spans[k].0..spans[k].1]);
    SpanTexts(s, spans, r);
    r
  }

  /** The words found are exactly the maximal runs of `s`, each once, left to
      right. */
  lemma WordRunsMaximal(s: string)
    ensures exists spans :: RunsOf(s, WordRuns(s), spans)
  {
    var spans := RunSpans(s, 0);
    SpanTexts(s, spans, WordRuns(s));
  }

  /** The texts at the spans of all maximal runs are words occurring in `s`. */
  lemma SpanTexts(s: string, spans: seq<(nat, nat)>, r: seq<string>)
    requires forall k :: 0 <= k < |spans| ==> MaximalRun(s, spans[k].0, spans[k].1)
    requires forall k :: 0 < k < |spans| ==> spans[k - 1].1 < spans[k].0
    requires forall i, j :: MaximalRun(s, i, j) ==> (i, j) in spans
    requires |r| == |spans|
    requires forall k :: 0 <= k < |spans| ==> spans[k].0 <= spans[k].1 <= |s| && r[k] == s[spans[k].0..spans[k].1]
    ensures forall k :: 0 <= k < |r| ==> r[k] != [] && AllWordChars(r[k])
    ensures forall k :: 0 <= k < |r| ==> IsSubstring(r[k], s)
    ensures RunsOf(s, r, spans)
  {
    forall k | 0 <= k < |r|
      ensures r[k] != [] && AllWordChars(r[k]) && OccursAt(s, r[k], spans[k].0)
    {
      var (i, j) := spans[k];
      assert forall m :: 0 <= m < |r[k]| ==> r[k][m] == s[i + m];
    }
  }
}
