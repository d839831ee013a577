/** The small option type used for "no value" results. */
module Wrappers {
  datatype Option<+T> = None | Some(value: T)
}

/**
 * The few Python string operations the classifier relies on, over `string`
 * (a sequence of Unicode scalar values): whitespace as `str.isspace` and the
 * `\s` class of a `str` pattern see it, `str.splitlines`, `"\n".join`,
 * `str.strip`, `startswith`/`endswith` and substring containment; and the
 * search for the first position where a condition holds, which is how
 * `re.search` finds a match.
 */
module Text {
  import opened Wrappers

  /** Python's `str.isspace`, which is also what `\s` matches in a `str` pattern. */
  predicate IsSpace(c: char) {
    || '\U{9}' <= c <= '\U{D}'
    || '\U{1C}' <= c <= ' '
    || c == '\U{85}' || c == '\U{A0}' || c == '\U{1680}'
    || '\U{2000}' <= c <= '\U{200A}'
    || c == '\U{2028}' || c == '\U{2029}' || c == '\U{202F}'
    || c == '\U{205F}' || c == '\U{3000}'
  }

  /** The characters at which `str.splitlines` breaks a line. */
  predicate IsLineBreak(c: char) {
    || '\n' <= c <= '\U{D}'
    || '\U{1C}' <= c <= '\U{1E}'
    || c == '\U{85}' || c == '\U{2028}' || c == '\U{2029}'
  }

  lemma LineBreakIsSpace(c: char)
    requires IsLineBreak(c)
    ensures IsSpace(c)
  {
  }

  predicate NoBreak(s: string) {
    forall i :: 0 <= i < |s| ==> !IsLineBreak(s[i])
  }

  predicate NoSpace(s: string) {
    forall i :: 0 <= i < |s| ==> !IsSpace(s[i])
  }

  lemma NoSpaceNoBreak(s: string)
    requires NoSpace(s)
    ensures NoBreak(s)
  {
    forall i | 0 <= i < |s|
      ensures !IsLineBreak(s[i])
    {
      if IsLineBreak(s[i]) {
        LineBreakIsSpace(s[i]);
      }
    }
  }

  predicate AllSpace(s: string) {
    forall i :: 0 <= i < |s| ==> IsSpace(s[i])
  }

  /** Where `^` matches in a multi-line pattern: the start, or just after a "\n". */
  predicate LineStart(s: string, k: nat) {
    k <= |s| && (k == 0 || s[k - 1] == '\n')
  }

  predicate StartsWith(s: string, prefix: string) {
    |prefix| <= |s| && s[..|prefix|] == prefix
  }

  predicate EndsWith(s: string, suffix: string) {
    |suffix| <= |s| && s[|s| - |suffix|..] == suffix
  }

  predicate OccursAt(s: string, sub: string, i: nat) {
    i + |sub| <= |s| && s[i..i + |sub|] == sub
  }

  /** Python's `sub in s`. */
  predicate Contains(s: string, sub: string) {
    exists i :: 0 <= i <= |s| - |sub| && OccursAt(s, sub, i)
  }

  /** A nonempty substring can only occur where its first character occurs. */
  lemma ContainsHead(s: string, sub: string)
    requires |sub| > 0 && Contains(s, sub)
    ensures exists i :: 0 <= i < |s| && s[i] == sub[0]
  {
    var i :| 0 <= i <= |s| - |sub| && OccursAt(s, sub, i);
    assert s[i] == s[i..i + |sub|][0];
  }

  /**
   * The lines of `s`, split at every line-break character. Python's
   * `splitlines` also treats "\r\n" as one break and drops a final empty
   * piece; both only add or remove empty lines.
   */
  function Lines(s: string): (ls: seq<string>)
    ensures |ls| > 0
    ensures forall i :: 0 <= i < |ls| ==> NoBreak(ls[i])
  {
    if s == [] then [""]
    else
      var rest := Lines(s[1..]);
      if IsLineBreak(s[0]) then [""] + rest
      else [[s[0]] + rest[0]] + rest[1..]
  }

  lemma LinesCons(c: char, t: string)
    ensures Lines([c] + t) == if IsLineBreak(c) then [""] + Lines(t) else [[c] + Lines(t)[0]] + Lines(t)[1..]
  {
    assert ([c] + t)[1..] == t;
  }

  lemma NoBreakTail(s: string)
    requires s != [] && NoBreak(s)
    ensures NoBreak(s[1..])
  {
    forall i | 0 <= i < |s| - 1
      ensures !IsLineBreak(s[1..][i])
    {
      assert s[1..][i] == s[i + 1];
    }
  }

  /** A text without line breaks is one line. */
  lemma {:induction false} LinesOfUnbroken(s: string)
    requires NoBreak(s)
    ensures Lines(s) == [s]
  {
    if s != [] {
      NoBreakTail(s);
      LinesOfUnbroken(s[1..]);
      assert !IsLineBreak(s[0]);
      assert [s[0]] + s[1..] == s;
    }
  }

  /** A text with no line break in front of `rest` extends the first line of `rest`. */
  lemma {:induction false} LinesOfUnbrokenPrefix(a: string, rest: string)
    requires NoBreak(a)
    ensures Lines(a + rest) == [a + Lines(rest)[0]] + Lines(rest)[1..]
  {
    if a != [] {
      assert (a + rest)[1..] == a[1..] + rest;
      NoBreakTail(a);
      LinesOfUnbrokenPrefix(a[1..], rest);
      assert (a + rest)[0] == a[0] && !IsLineBreak(a[0]);
      assert [a[0]] + (a[1..] + Lines(rest)[0]) == a + Lines(rest)[0];
    } else {
      assert a + rest == rest;
      assert a + Lines(rest)[0] == Lines(rest)[0];
      assert [a + Lines(rest)[0]] + Lines(rest)[1..] == Lines(rest);
    }
  }

  /** A line break splits the lines: those before it, then those after it. */
  lemma {:induction false} LinesAtBreak(a: string, c: char, b: string)
    requires IsLineBreak(c)
    ensures Lines(a + [c] + b) == Lines(a) + Lines(b)
  {
    if a == [] {
      assert a + [c] + b == [c] + b;
      assert ([c] + b)[1..] == b;
    } else {
      assert (a + [c] + b)[1..] == a[1..] + [c] + b;
      LinesAtBreak(a[1..], c, b);
    }
  }

  /** The lines `la` then `lb`, with the last of `la` and the first of `lb` run together. */
  function Glue(la: seq<string>, lb: seq<string>): seq<string>
    requires |la| > 0 && |lb| > 0
  {
    la[..|la| - 1] + ([la[|la| - 1] + lb[0]] + lb[1..])
  }

  lemma GlueCons(x: string, la: seq<string>, lb: seq<string>)
    requires |la| > 0 && |lb| > 0
    ensures Glue([x] + la, lb) == [x] + Glue(la, lb)
  {
    assert ([x] + la)[..|la|] == [x] + la[..|la| - 1];
  }

  lemma GlueExtend(c: char, la: seq<string>, lb: seq<string>)
    requires |la| > 0 && |lb| > 0
    ensures var g := Glue(la, lb);
            [[c] + g[0]] + g[1..] == Glue([[c] + la[0]] + la[1..], lb)
  {
    var g := Glue(la, lb);
    var m := [[c] + la[0]] + la[1..];
    if |la| == 1 {
      assert g == [la[0] + lb[0]] + lb[1..];
      assert m[..0] == [];
      assert [c] + (la[0] + lb[0]) == ([c] + la[0]) + lb[0];
    } else {
      assert g[0] == la[0];
      assert g[1..] == la[1..|la| - 1] + ([la[|la| - 1] + lb[0]] + lb[1..]);
      assert m[..|m| - 1] == [[c] + la[0]] + la[1..|la| - 1];
    }
  }

  /**
   * Without a break between them, the last line of `a` and the first line
   * of `b` run together into one line.
   */
  lemma {:induction false} LinesAppend(a: string, b: string)
    ensures Lines(a + b) == Glue(Lines(a), Lines(b))
  {
    if a == [] {
      var lb := Lines(b);
      assert a + b == b && Lines(a) == [""];
      assert "" + lb[0] == lb[0];
      assert Glue([""], lb) == [lb[0]] + lb[1..] == lb;
    } else {
      var t := a[1..];
      LinesAppend(t, b);
      assert a == [a[0]] + t;
      LinesAppendCons(a[0], t, b);
    }
  }

  /** The inductive step of `LinesAppend`: one more character in front of `t`. */
  lemma LinesAppendCons(c: char, t: string, b: string)
    requires Lines(t + b) == Glue(Lines(t), Lines(b))
    ensures Lines([c] + t + b) == Glue(Lines([c] + t), Lines(b))
  {
    assert [c] + t + b == [c] + (t + b);
    LinesCons(c, t);
    LinesCons(c, t + b);
    if IsLineBreak(c) {
      GlueCons("", Lines(t), Lines(b));
    } else {
      GlueExtend(c, Lines(t), Lines(b));
    }
  }

  lemma AppendAssoc(x: string, y: string, z: string)
    ensures (x + y) + z == x + (y + z)
  {
  }

  /** The first position in `from..hi` where `p` holds. */
  function FirstWhere(p: nat -> bool, from: nat, hi: nat): (r: Option<nat>)
    decreases hi + 1 - from
    ensures r.Some? ==> from <= r.value <= hi && p(r.value)
    ensures r.Some? ==> forall j :: from <= j < r.value ==> !p(j)
    ensures r.None? ==> forall j :: from <= j <= hi ==> !p(j)
  {
    if from > hi then None
    else if p(from) then Some(from)
    else FirstWhere(p, from + 1, hi)
  }

  /** The first position where `p` holds is the one before which it never holds. */
  lemma {:induction false} FirstWhereIs(p: nat -> bool, from: nat, hi: nat, k: nat)
    requires from <= k <= hi && p(k)
    requires forall j :: from <= j < k ==> !p(j)
    decreases k - from
    ensures FirstWhere(p, from, hi) == Some(k)
  {
    if from < k {
      FirstWhereIs(p, from + 1, hi, k);
    }
  }

  /** `"\n".join(ls)`. */
  function Join(ls: seq<string>): string {
    if |ls| == 0 then ""
    else if |ls| == 1 then ls[0]
    else ls[0] + "\n" + Join(ls[1..])
  }

  /** `s` with every line-break character written as "\n". */
  function UnifyBreaks(s: string): string {
    if s == [] then ""
    else [if IsLineBreak(s[0]) then '\n' else s[0]] + UnifyBreaks(s[1..])
  }

  /** Joining the lines with "\n" gives back the text, each break read as "\n". */
  lemma {:induction false} JoinLines(s: string)
    ensures Join(Lines(s)) == UnifyBreaks(s)
  {
    if s != [] {
      var rest := Lines(s[1..]);
      JoinLines(s[1..]);
      if !IsLineBreak(s[0]) {
        if |rest| > 1 {
          assert rest[1..][1..] == rest[2..];
        }
      }
    }
  }

  /** `re.sub(r'\s+', '', s)`: every whitespace character deleted. */
  function RemoveSpace(s: string): (r: string)
    ensures NoSpace(r)
    ensures |r| <= |s|
    ensures NoSpace(s) ==> r == s
  {
    if s == [] then ""
    else (if IsSpace(s[0]) then "" else [s[0]]) + RemoveSpace(s[1..])
  }

  lemma {:induction false} RemoveSpaceAppend(a: string, b: string)
    ensures RemoveSpace(a + b) == RemoveSpace(a) + RemoveSpace(b)
  {
    if a != [] {
      assert (a + b)[1..] == a[1..] + b;
      assert (a + b)[0] == a[0];
      RemoveSpaceAppend(a[1..], b);
      var h := if IsSpace(a[0]) then "" else [a[0]];
      assert RemoveSpace(a + b) == h + (RemoveSpace(a[1..]) + RemoveSpace(b));
      assert h + (RemoveSpace(a[1..]) + RemoveSpace(b)) == (h + RemoveSpace(a[1..])) + RemoveSpace(b);
    } else {
      assert a + b == b;
    }
  }

  lemma RemoveSpaceCons(c: char, x: string)
    ensures RemoveSpace([c] + x) == (if IsSpace(c) then "" else [c]) + RemoveSpace(x)
  {
    assert ([c] + x)[1..] == x;
  }

  lemma {:induction false} RemoveSpaceOfSpace(s: string)
    requires AllSpace(s)
    ensures RemoveSpace(s) == ""
  {
    if s != [] {
      RemoveSpaceOfSpace(s[1..]);
    }
  }

  /** `s.lstrip()`. */
  function LStrip(s: string): (r: string)
    ensures r == [] || !IsSpace(r[0])
    ensures |r| <= |s| && r == s[|s| - |r|..]
    ensures AllSpace(s[..|s| - |r|])
  {
    if s != [] && IsSpace(s[0]) then
      var r := LStrip(s[1..]);
      assert s[..|s| - |r|] == [s[0]] + s[1..][..|s| - 1 - |r|];
      r
    else s
  }

  lemma LStripCons(c: char, x: string)
    ensures LStrip([c] + x) == if IsSpace(c) then LStrip(x) else [c] + x
  {
    assert ([c] + x)[1..] == x;
  }

  /** `s.rstrip()`. */
  function RStrip(s: string): (r: string)
    ensures r == [] || !IsSpace(r[|r| - 1])
    ensures |r| <= |s| && r == s[..|r|]
    ensures AllSpace(s[|r|..])
  {
    if s != [] && IsSpace(s[|s| - 1]) then
      var r := RStrip(s[..|s| - 1]);
      assert s[|r|..] == s[..|s| - 1][|r|..] + [s[|s| - 1]];
      r
    else s
  }

  /** `s.strip()`. */
  function Strip(s: string): string {
    RStrip(LStrip(s))
  }

  /** Stripping the right end never changes the first character of a stripped-left text. */
  lemma StripHead(s: string)
    ensures Strip(s) == [] <==> LStrip(s) == []
    ensures Strip(s) != [] ==> Strip(s)[0] == LStrip(s)[0]
  {
    var l := LStrip(s);
    if l != [] {
      assert !IsSpace(l[0]);
    }
  }
}
