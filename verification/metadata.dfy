/**
 * The two pieces of metadata read from the whole text of a template: its
 * severity label and the keyword-skip flag that marks templates probing
 * generic static assets.
 */
module Metadata {
  import opened Wrappers
  import opened Text

  // ---------------------------------------------------------------------
  // Severity: the first match of `^\s*severity:\s*(\w+)` in multi-line mode,
  // lower-cased, or "unknown".
  // ---------------------------------------------------------------------

  const SeverityKey := "severity:"
  const DefaultSeverity := "unknown"

  /** `\w`, restricted to ASCII letters, digits and the underscore. */
  predicate IsWordChar(c: char) {
    'a' <= c <= 'z' || 'A' <= c <= 'Z' || '0' <= c <= '9' || c == '_'
  }

  predicate IsUpper(c: char) {
    'A' <= c <= 'Z'
  }

  /** The end of the longest run of whitespace that starts at `i`. */
  function SkipSpace(s: string, i: nat): (r: nat)
    requires i <= |s|
    decreases |s| - i
    ensures i <= r <= |s|
    ensures r < |s| ==> !IsSpace(s[r])
  {
    if i < |s| && IsSpace(s[i]) then SkipSpace(s, i + 1) else i
  }

  /** The end of the longest run of word characters that starts at `i`. */
  function SkipWord(s: string, i: nat): (r: nat)
    requires i <= |s|
    decreases |s| - i
    ensures i <= r <= |s|
    ensures r < |s| ==> !IsWordChar(s[r])
  {
    if i < |s| && IsWordChar(s[i]) then SkipWord(s, i + 1) else i
  }

  /** A nonempty run of word characters: what `(\w+)` can capture. */
  predicate IsWord(w: string) {
    w != [] && forall i :: 0 <= i < |w| ==> IsWordChar(w[i])
  }

  /** Everything `SkipSpace` passes over is whitespace. */
  lemma {:induction false} SkipSpaceRun(s: string, i: nat)
    requires i <= |s|
    decreases |s| - i
    ensures forall j :: i <= j < SkipSpace(s, i) ==> IsSpace(s[j])
  {
    if i < |s| && IsSpace(s[i]) {
      SkipSpaceRun(s, i + 1);
    }
  }

  /** Everything `SkipWord` passes over is a word character. */
  lemma {:induction false} SkipWordRun(s: string, i: nat)
    requires i <= |s|
    decreases |s| - i
    ensures forall j :: i <= j < SkipWord(s, i) ==> IsWordChar(s[j])
  {
    if i < |s| && IsWordChar(s[i]) {
      SkipWordRun(s, i + 1);
    }
  }

  /**
   * The captured word when the severity pattern matches at line start `p`.
   * A greedy `\s*` that gave characters back would leave a whitespace
   * character where 's' or a word character is needed, so the pattern
   * matches exactly when the longest whitespace runs are taken; `(\w+)` then
   * captures the longest run of word characters. `SeverityAtMatches`
   * states the match and the capture without reference to the scan.
   */
  function SeverityAt(s: string, p: nat): (r: Option<string>)
    requires p <= |s|
    ensures r.Some? ==> IsWord(r.value)
  {
    var q := SkipSpace(s, p);
    if !StartsWith(s[q..], SeverityKey) then None
    else
      var v := SkipSpace(s, q + |SeverityKey|);
      var e := SkipWord(s, v);
      if e == v then None
      else
        SkipWordRun(s, v);
        assert forall k :: 0 <= k < e - v ==> s[v..e][k] == s[v + k];
        Some(s[v..e])
  }

  /**
   * `t` is whitespace `w1`, the key, whitespace `w2`, the word `w` and a
   * `rest` that does not continue the word: the shape of a text on which
   * `\s*severity:\s*(\w+)` matches at its start and captures `w`.
   */
  predicate SeverityLine(t: string, w1: string, w2: string, w: string, rest: string) {
    && t == w1 + (SeverityKey + (w2 + (w + rest)))
    && AllSpace(w1) && AllSpace(w2) && IsWord(w)
    && (rest == [] || !IsWordChar(rest[0]))
  }

  /** The longest whitespace run from `i` ends at the first non-whitespace character. */
  lemma SkipSpaceTo(s: string, i: nat, j: nat)
    requires i <= j <= |s|
    requires forall k :: i <= k < j ==> IsSpace(s[k])
    requires j == |s| || !IsSpace(s[j])
    ensures SkipSpace(s, i) == j
  {
    SkipSpaceRun(s, i);
  }

  /** The longest word run from `i` ends at the first non-word character. */
  lemma SkipWordTo(s: string, i: nat, j: nat)
    requires i <= j <= |s|
    requires forall k :: i <= k < j ==> IsWordChar(s[k])
    requires j == |s| || !IsWordChar(s[j])
    ensures SkipWord(s, i) == j
  {
    SkipWordRun(s, i);
  }

  /**
   * The pattern matches at `p` and captures `w` exactly when the text from
   * `p` on has the shape of a severity line with that word.
   */
  lemma SeverityAtMatches(s: string, p: nat, w: string)
    requires p <= |s|
    ensures SeverityAt(s, p) == Some(w) <==> exists w1, w2, rest :: SeverityLine(s[p..], w1, w2, w, rest)
  {
    if SeverityAt(s, p) == Some(w) {
      var w1, w2, rest := SeverityAtShape(s, p);
    }
    if exists w1, w2, rest :: SeverityLine(s[p..], w1, w2, w, rest) {
      var w1, w2, rest :| SeverityLine(s[p..], w1, w2, w, rest);
      SeverityLineMatches(s, p, w1, w2, w, rest);
    }
  }

  /** A capture comes from a severity line. */
  lemma SeverityAtShape(s: string, p: nat) returns (w1: string, w2: string, rest: string)
    requires p <= |s| && SeverityAt(s, p).Some?
    ensures SeverityLine(s[p..], w1, w2, SeverityAt(s, p).value, rest)
  {
    var q, u, v, e := SeverityAtPositions(s, p);
    LineOfPositions(s, p, q, u, v, e, SeverityAt(s, p).value);
    w1, w2, rest := s[p..q], s[u..v], s[e..];
  }

  /** The pieces between the scan's positions make up a severity line. */
  lemma LineOfPositions(s: string, p: nat, q: nat, u: nat, v: nat, e: nat, w: string)
    requires p <= q && u == q + |SeverityKey| && u <= v < e <= |s|
    requires AllSpace(s[p..q]) && s[q..u] == SeverityKey && AllSpace(s[u..v])
    requires w == s[v..e] && IsWord(w) && (e == |s| || !IsWordChar(s[e]))
    ensures SeverityLine(s[p..], s[p..q], s[u..v], w, s[e..])
  {
    JoinAt(s, p, q, u, v, e);
    assert e < |s| ==> s[e..][0] == s[e];
  }

  /** The positions the greedy scan visits, and what lies between them. */
  lemma SeverityAtPositions(s: string, p: nat) returns (q: nat, u: nat, v: nat, e: nat)
    requires p <= |s| && SeverityAt(s, p).Some?
    ensures p <= q && u == q + |SeverityKey| && u <= v < e <= |s|
    ensures AllSpace(s[p..q]) && s[q..u] == SeverityKey && AllSpace(s[u..v])
    ensures IsWord(s[v..e]) && (e == |s| || !IsWordChar(s[e]))
    ensures SeverityAt(s, p).value == s[v..e]
  {
    q := SkipSpace(s, p);
    u := q + |SeverityKey|;
    v := SkipSpace(s, u);
    e := SkipWord(s, v);
    ScanPositions(s, p, q, u, v, e);
  }

  lemma ScanPositions(s: string, p: nat, q: nat, u: nat, v: nat, e: nat)
    requires p <= |s| && q == SkipSpace(s, p) && StartsWith(s[q..], SeverityKey)
    requires u == q + |SeverityKey| && v == SkipSpace(s, u) && e == SkipWord(s, v) && e != v
    ensures p <= q && u <= v < e <= |s|
    ensures AllSpace(s[p..q]) && s[q..u] == SeverityKey && AllSpace(s[u..v])
    ensures IsWord(s[v..e]) && (e == |s| || !IsWordChar(s[e]))
  {
    SkipSpaceRun(s, p);
    SkipSpaceRun(s, u);
    SkipWordRun(s, v);
    assert s[q..u] == SeverityKey by {
      assert s[q..][..|SeverityKey|] == s[q..u];
    }
    assert AllSpace(s[p..q]) by {
      assert forall k :: 0 <= k < q - p ==> s[p..q][k] == s[p + k];
    }
    assert AllSpace(s[u..v]) by {
      assert forall k :: 0 <= k < v - u ==> s[u..v][k] == s[u + k];
    }
    assert IsWord(s[v..e]) by {
      assert forall k :: 0 <= k < e - v ==> s[v..e][k] == s[v + k];
    }
  }

  /** A text from `p` on is its pieces between the given positions, run together. */
  lemma JoinAt(s: string, p: nat, q: nat, u: nat, v: nat, e: nat)
    requires p <= q <= u <= v <= e <= |s|
    ensures s[p..] == s[p..q] + (s[q..u] + (s[u..v] + (s[v..e] + s[e..])))
  {
    JoinTwo(s, v, e);
    JoinTwo(s, u, v);
    JoinTwo(s, q, u);
    JoinTwo(s, p, q);
  }

  lemma JoinTwo(s: string, p: nat, q: nat)
    requires p <= q <= |s|
    ensures s[p..] == s[p..q] + s[q..]
  {
  }

  /** Where the pieces of a severity line sit in the whole text. */
  lemma SeverityLineParts(s: string, p: nat, w1: string, w2: string, w: string, rest: string)
    requires p <= |s| && s[p..] == w1 + (SeverityKey + (w2 + (w + rest)))
    ensures p + |w1| + |SeverityKey| + |w2| + |w| + |rest| == |s|
    ensures s[p..p + |w1|] == w1
    ensures s[p + |w1|..p + |w1| + |SeverityKey|] == SeverityKey
    ensures s[p + |w1| + |SeverityKey|..p + |w1| + |SeverityKey| + |w2|] == w2
    ensures s[p + |w1| + |SeverityKey| + |w2|..p + |w1| + |SeverityKey| + |w2| + |w|] == w
    ensures s[p + |w1| + |SeverityKey| + |w2| + |w|..] == rest
  {
    var q := p + |w1|;
    var u := q + |SeverityKey|;
    var v := u + |w2|;
    SplitAt(s, p, w1, SeverityKey + (w2 + (w + rest)));
    SplitAt(s, q, SeverityKey, w2 + (w + rest));
    SplitAt(s, u, w2, w + rest);
    SplitAt(s, v, w, rest);
  }

  /** A text that continues at `p` with `a` and then `b` holds `a` right there. */
  lemma SplitAt(s: string, p: nat, a: string, b: string)
    requires p <= |s| && s[p..] == a + b
    ensures p + |a| <= |s| && s[p..p + |a|] == a && s[p + |a|..] == b
  {
    assert s[p..p + |a|] == s[p..][..|a|];
    assert s[p + |a|..] == s[p..][|a|..];
  }

  /** A severity line gives a match that captures its word. */
  lemma SeverityLineMatches(s: string, p: nat, w1: string, w2: string, w: string, rest: string)
    requires p <= |s| && SeverityLine(s[p..], w1, w2, w, rest)
    ensures SeverityAt(s, p) == Some(w)
  {
    var q := p + |w1|;
    var u := q + |SeverityKey|;
    var v := u + |w2|;
    var e := v + |w|;
    assert SeverityAt(s, p) == Some(s[v..e]) && s[v..e] == w by {
      SeverityLineParts(s, p, w1, w2, w, rest);
      assert e == |s| || !IsWordChar(s[e]) by {
        assert e < |s| ==> s[e] == s[e..][0];
      }
      SeverityAtOfParts(s, p, q, v, e);
    }
  }

  lemma SeverityAtOfParts(s: string, p: nat, q: nat, v: nat, e: nat)
    requires p <= q && q + |SeverityKey| <= v < e <= |s|
    requires AllSpace(s[p..q]) && s[q..q + |SeverityKey|] == SeverityKey
    requires AllSpace(s[q + |SeverityKey|..v]) && IsWord(s[v..e])
    requires e == |s| || !IsWordChar(s[e])
    ensures SeverityAt(s, p) == Some(s[v..e])
  {
    var u := q + |SeverityKey|;
    assert s[q] == 's' by {
      assert s[q] == s[q..u][0];
    }
    SkipSpaceOver(s, p, q);
    assert StartsWith(s[q..], SeverityKey) by {
      assert s[q..][..|SeverityKey|] == s[q..u];
    }
    assert IsWordChar(s[v]) by {
      assert s[v] == s[v..e][0];
    }
    SkipSpaceOver(s, u, v);
    SkipWordOver(s, v, e);
    SeverityAtByPositions(s, p, q, v, e);
  }

  lemma SkipSpaceOver(s: string, i: nat, j: nat)
    requires i <= j <= |s| && AllSpace(s[i..j])
    requires j == |s| || !IsSpace(s[j])
    ensures SkipSpace(s, i) == j
  {
    assert forall k :: i <= k < j ==> s[k] == s[i..j][k - i];
    SkipSpaceTo(s, i, j);
  }

  lemma SkipWordOver(s: string, i: nat, j: nat)
    requires i < j <= |s| && IsWord(s[i..j])
    requires j == |s| || !IsWordChar(s[j])
    ensures SkipWord(s, i) == j
  {
    assert forall k :: i <= k < j ==> s[k] == s[i..j][k - i];
    SkipWordTo(s, i, j);
  }

  lemma SeverityAtByPositions(s: string, p: nat, q: nat, v: nat, e: nat)
    requires p <= |s| && q + |SeverityKey| <= |s|
    requires SkipSpace(s, p) == q && StartsWith(s[q..], SeverityKey)
    requires SkipSpace(s, q + |SeverityKey|) == v && SkipWord(s, v) == e && v < e
    ensures SeverityAt(s, p) == Some(s[v..e])
  {
  }

  predicate SeverityMatchAt(s: string, k: nat) {
    k <= |s| && LineStart(s, k) && SeverityAt(s, k).Some?
  }

  /** The first position at or after `from` where the severity pattern matches. */
  function FindSeverity(s: string, from: nat): (r: Option<nat>)
    ensures r.Some? ==> from <= r.value <= |s| && SeverityMatchAt(s, r.value)
    ensures r.Some? ==> forall j :: from <= j < r.value ==> !SeverityMatchAt(s, j)
    ensures r.None? ==> forall j :: from <= j <= |s| ==> !SeverityMatchAt(s, j)
  {
    var matches := MatchesIn(s);
    assert forall j: nat :: matches(j) == SeverityMatchAt(s, j);
    FirstWhere(matches, from, |s|)
  }

  /** Whether the severity pattern matches at a position of `s`. */
  function MatchesIn(s: string): nat -> bool {
    (k: nat) => SeverityMatchAt(s, k)
  }

  function LowerChar(c: char): char {
    if IsUpper(c) then (c as int + 32) as char else c
  }

  /** `w.lower()` on ASCII text. */
  function Lower(w: string): (r: string)
    ensures |r| == |w|
    ensures forall i :: 0 <= i < |r| ==> !IsUpper(r[i])
    ensures forall i :: 0 <= i < |r| ==> IsWordChar(r[i]) == IsWordChar(w[i])
    ensures forall i :: 0 <= i < |w| ==> (IsUpper(w[i]) ==> r[i] as int == w[i] as int + 32) && (!IsUpper(w[i]) ==> r[i] == w[i])
  {
    if w == [] then "" else [LowerChar(w[0])] + Lower(w[1..])
  }

  /**
   * The severity label: the lower-cased capture of the first match, or
   * "unknown" when the pattern matches nowhere.
   */
  function Severity(content: string): (r: string)
    ensures r == DefaultSeverity || (r != [] && forall i :: 0 <= i < |r| ==> IsWordChar(r[i]) && !IsUpper(r[i]))
    ensures (forall k :: 0 <= k <= |content| ==> !SeverityMatchAt(content, k)) ==> r == DefaultSeverity
  {
    match FindSeverity(content, 0)
    case None => DefaultSeverity
    case Some(k) => Lower(SeverityAt(content, k).value)
  }

  /** The label is taken from the first line where the pattern matches, whatever follows. */
  lemma SeverityOfFirstMatch(content: string, k: nat)
    requires k <= |content| && SeverityMatchAt(content, k)
    requires forall j :: 0 <= j < k ==> !SeverityMatchAt(content, j)
    ensures Severity(content) == Lower(SeverityAt(content, k).value)
  {
    var matches := MatchesIn(content);
    assert forall j: nat :: matches(j) == SeverityMatchAt(content, j);
    FirstWhereIs(matches, 0, |content|, k);
  }

  /** No match where the first non-whitespace character cannot begin the key. */
  lemma NoMatchBeforeKey(s: string, p: nat)
    requires p < |s| && !IsSpace(s[p]) && s[p] != 's'
    ensures SeverityAt(s, p).None?
  {
    assert SkipSpace(s, p) == p;
    assert s[p..][0] == s[p];
  }

  /**
   * A first line that does not begin, after whitespace, with an 's' is
   * passed over: the label comes from a match on the next line.
   */
  lemma SeverityFromSecondLine(a: string, line: string, s: string)
    requires s == a + "\n" + line
    requires a != [] && !IsSpace(a[0]) && a[0] != 's'
    requires forall i :: 0 <= i < |a| ==> a[i] != '\n'
    requires SeverityAt(s, |a| + 1).Some?
    ensures Severity(s) == Lower(SeverityAt(s, |a| + 1).value)
  {
    assert forall j :: 0 <= j < |a| ==> s[j] == a[j];
    NoMatchBeforeKey(s, 0);
    assert s[|a|] == '\n';
    SeverityOfFirstMatch(s, |a| + 1);
  }

  /**
   * The first line of the example has no key and no break.
   * The example text is a parameter fixed by `requires`, so that only this small lemma unfolds the literal.
   */
  lemma KeylessFirstLine(first: string)
    requires first == "info:"
    ensures first != [] && !IsSpace(first[0]) && first[0] != 's'
    ensures forall i :: 0 <= i < |first| ==> first[i] != '\n'
  {
  }

  /**
   * The second line of the example matches and captures "INFO".
   * The example text is a parameter fixed by `requires`, so that only this small lemma unfolds the literal.
   */
  lemma IndentedKeyMatches(first: string, second: string)
    requires second == "  severity: INFO\n"
    ensures SeverityAt(first + "\n" + second, |first| + 1) == Some("INFO")
  {
    var s := first + "\n" + second;
    assert s[|first| + 1..] == second;
    IndentedKeyParts(second);
    SeverityLineMatches(s, |first| + 1, "  ", " ", "INFO", "\n");
  }

  /** The second line of the example, cut at the pieces of the severity pattern. */
  lemma IndentedKeyParts(second: string)
    requires second == "  severity: INFO\n"
    ensures second == "  " + (SeverityKey + (" " + ("INFO" + "\n")))
  {
  }

  /**
   * A template whose first line only looks like a key: the label comes from
   * the indented `severity:` line and is lower-cased.
   */
  lemma IndentedSeverityLabel(first: string, second: string)
    requires first == "info:" && second == "  severity: INFO\n"
    ensures Severity(first + "\n" + second) == "info"
  {
    IndentedSeverityCapture(first, second);
    LowerOfAscii("INFO", "info");
  }

  /** The label of the example before lower-casing. */
  lemma IndentedSeverityCapture(first: string, second: string)
    requires first == "info:" && second == "  severity: INFO\n"
    ensures Severity(first + "\n" + second) == Lower("INFO")
  {
    IndentedKeyMatches(first, second);
    KeylessFirstLine(first);
    SeverityFromSecondLine(first, second, first + "\n" + second);
  }

  /** `Lower` gives the text whose letters are the lower-case forms of `w`'s. */
  lemma LowerOfAscii(w: string, l: string)
    requires |l| == |w|
    requires forall i :: 0 <= i < |w| ==> l[i] == LowerChar(w[i])
    ensures Lower(w) == l
  {
  }

  /** Lower-casing twice is lower-casing once. */
  lemma {:induction false} LowerIdempotent(w: string)
    ensures Lower(Lower(w)) == Lower(w)
  {
    if w != [] {
      LowerIdempotent(w[1..]);
      assert Lower(w)[1..] == Lower(w[1..]);
    }
  }

  // ---------------------------------------------------------------------
  // Keyword-skip flag: some single line holds a primary and a secondary keyword.
  // ---------------------------------------------------------------------

  const Primary: seq<string> := ["HTTP", "GET", "POST", "PUT", "BaseURL"]
  const Secondary: seq<string> := ["/readme.txt", "/style.css"]

  /** `any(kw in line for kw in keywords)`. */
  predicate ContainsAny(line: string, keywords: seq<string>) {
    exists k :: 0 <= k < |keywords| && Contains(line, keywords[k])
  }

  predicate IsSkipLine(line: string) {
    ContainsAny(line, Primary) && ContainsAny(line, Secondary)
  }

  /** Some line of the template holds both kinds of keyword. */
  predicate HasSkipLine(content: string) {
    exists i :: 0 <= i < |Lines(content)| && IsSkipLine(Lines(content)[i])
  }

  /** The loop over the lines that sets the flag and stops at the first line that holds both kinds. */
  method ScanKeywords(content: string) returns (skip: bool)
    ensures skip == HasSkipLine(content)
  {
    var lines := Lines(content);
    skip := false;
    var i := 0;
    while i < |lines|
      invariant 0 <= i <= |lines|
      invariant forall j :: 0 <= j < i ==> !IsSkipLine(lines[j])
    {
      if IsSkipLine(lines[i]) {
        skip := true;
        break;
      }
      i := i + 1;
    }
  }

  /** A request line for a static asset sets the flag. */
  lemma StaticAssetRequestSkipped(line: string)
    requires line == "GET /readme.txt HTTP/1.1"
    ensures HasSkipLine(line)
  {
    RequestLineUnbroken(line);
    RequestLineKeywords(line);
    UnbrokenSkipLine(line, 1, 0, 0, 4);
  }

  /** The request line has no break. The example text is a parameter fixed by `requires`, so that only this small lemma unfolds the literal. */
  lemma RequestLineUnbroken(line: string)
    requires line == "GET /readme.txt HTTP/1.1"
    ensures NoBreak(line)
  {
  }

  /** The request line holds `GET` and `/readme.txt`. The example text is a parameter fixed by `requires`, so that only this small lemma unfolds the literal. */
  lemma RequestLineKeywords(line: string)
    requires line == "GET /readme.txt HTTP/1.1"
    ensures OccursAt(line, Primary[1], 0) && OccursAt(line, Secondary[0], 4)
  {
    assert line[0..3] == "GET";
    assert line[4..15] == "/readme.txt";
  }

  /** A line with no break that holds a primary and a secondary keyword sets the flag. */
  lemma UnbrokenSkipLine(line: string, p: nat, i: nat, q: nat, j: nat)
    requires NoBreak(line)
    requires p < |Primary| && OccursAt(line, Primary[p], i)
    requires q < |Secondary| && OccursAt(line, Secondary[q], j)
    ensures HasSkipLine(line)
  {
    LinesOfUnbroken(line);
    assert Contains(line, Primary[p]) && Contains(line, Secondary[q]);
    assert IsSkipLine(Lines(line)[0]);
  }

  lemma NoPrimaryInAssetPath(line: string)
    requires line == "/style.css"
    ensures !ContainsAny(line, Primary)
  {
    forall k | 0 <= k < |Primary|
      ensures !Contains(line, Primary[k])
    {
      if Contains(line, Primary[k]) {
        ContainsHead(line, Primary[k]);
      }
    }
  }

  /** Two lines neither of which holds both kinds of keyword do not set the flag. */
  lemma TwoLinesWithoutSkip(first: string, second: string)
    requires NoBreak(first) && NoBreak(second)
    requires !IsSkipLine(first) && !IsSkipLine(second)
    ensures !HasSkipLine(first + "\n" + second)
  {
    LineBreakIsSpace('\n');
    assert first + "\n" + second == first + ['\n'] + second;
    LinesAtBreak(first, '\n', second);
    LinesOfUnbroken(first);
    LinesOfUnbroken(second);
    assert Lines(first + "\n" + second) == [first, second];
  }

  /** The two kinds of keyword must share a line: on separate lines they do not set the flag. */
  lemma KeywordsMustShareALine(first: string, second: string)
    requires first == "GET /" && second == "/style.css"
    ensures !HasSkipLine(first + "\n" + second)
  {
    assert NoBreak(first) && NoBreak(second);
    assert !ContainsAny(first, Secondary);
    NoPrimaryInAssetPath(second);
    TwoLinesWithoutSkip(first, second);
  }
}
