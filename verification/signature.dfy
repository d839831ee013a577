/**
 * The signature of a template: the text from the first line that begins
 * with `requests:` or `http:` to the end of the file, with its comment
 * lines dropped and all whitespace deleted. Two templates whose signatures
 * are equal have the same fingerprint and count as duplicates.
 */
module Signature {
  import opened Wrappers
  import opened Text

  const Requests := "requests:"
  const Http := "http:"

  /** `^(requests|http):` matches at position `k`. */
  predicate MarkerAt(s: string, k: nat) {
    LineStart(s, k) && (StartsWith(s[k..], Requests) || StartsWith(s[k..], Http))
  }

  /** Some line of `s` begins with a protocol marker. */
  predicate HasMarkerLine(s: string) {
    exists k :: 0 <= k <= |s| && MarkerAt(s, k)
  }

  /** The position of the first marker at or after `from`, as `re.search` finds it. */
  function FindMarker(s: string, from: nat): (r: Option<nat>)
    ensures r.Some? ==> from <= r.value <= |s| && MarkerAt(s, r.value)
    ensures r.Some? ==> forall j :: from <= j < r.value ==> !MarkerAt(s, j)
    ensures r.None? ==> forall j :: from <= j <= |s| ==> !MarkerAt(s, j)
  {
    var markers := MarkersIn(s);
    assert forall j: nat :: markers(j) == MarkerAt(s, j);
    FirstWhere(markers, from, |s|)
  }

  /** Whether a marker begins at a position of `s`. */
  function MarkersIn(s: string): nat -> bool {
    (k: nat) => MarkerAt(s, k)
  }

  /** A comment line: its first non-whitespace character is '#'. */
  predicate IsCommentLine(line: string) {
    line != [] && if IsSpace(line[0]) then IsCommentLine(line[1..]) else line[0] == '#'
  }

  lemma CommentCons(c: char, x: string)
    ensures IsCommentLine([c] + x) == if IsSpace(c) then IsCommentLine(x) else c == '#'
  {
    assert ([c] + x)[1..] == x;
  }

  /** A line is a comment exactly when its first non-whitespace character is '#'. */
  lemma {:induction false} CommentByFirstNonSpace(line: string)
    ensures IsCommentLine(line) <==> LStrip(line) != [] && LStrip(line)[0] == '#'
  {
    if line != [] {
      LStripCons(line[0], line[1..]);
      CommentCons(line[0], line[1..]);
      assert [line[0]] + line[1..] == line;
      if IsSpace(line[0]) {
        CommentByFirstNonSpace(line[1..]);
      }
    }
  }

  /** The predicate is Python's `line.strip().startswith('#')`. */
  lemma CommentIsStrippedHash(line: string)
    ensures IsCommentLine(line) <==> StartsWith(Strip(line), "#")
  {
    CommentByFirstNonSpace(line);
    StripHead(line);
    var t := Strip(line);
    if t != [] {
      assert t[..1] == "#" <==> t[0] == '#';
    }
  }

  /** The list comprehension that keeps the lines that are not comments. */
  function DropComments(ls: seq<string>): (r: seq<string>)
    ensures |r| <= |ls|
    ensures forall i :: 0 <= i < |r| ==> !IsCommentLine(r[i])
  {
    if ls == [] then []
    else (if IsCommentLine(ls[0]) then [] else [ls[0]]) + DropComments(ls[1..])
  }

  /** A single line is dropped exactly when it is a comment line. */
  lemma DropCommentsOne(l: string)
    ensures DropComments([l]) == if IsCommentLine(l) then [] else [l]
  {
    assert [l][1..] == [];
  }

  /** Every line that is not a comment is kept, and nothing else. */
  lemma {:induction false} DropCommentsKeeps(ls: seq<string>)
    ensures forall i :: 0 <= i < |ls| && !IsCommentLine(ls[i]) ==> ls[i] in DropComments(ls)
    ensures forall x :: x in DropComments(ls) ==> x in ls
  {
    if ls != [] {
      DropCommentsKeeps(ls[1..]);
      assert forall i :: 1 <= i < |ls| ==> ls[i] == ls[1..][i - 1];
    }
  }

  lemma {:induction false} DropCommentsAppend(a: seq<string>, b: seq<string>)
    ensures DropComments(a + b) == DropComments(a) + DropComments(b)
  {
    if a == [] {
      assert a + b == b;
    } else {
      assert (a + b)[0] == a[0];
      assert (a + b)[1..] == a[1..] + b;
      DropCommentsAppend(a[1..], b);
    }
  }

  /** The normalized signature of a block that starts at a marker line. */
  function NormalizeBlock(block: string): string {
    RemoveSpace(Join(DropComments(Lines(block))))
  }

  /** The normalized signature of a whole file, or `None` when no line begins with a marker. */
  function Extract(content: string): Option<string> {
    match FindMarker(content, 0)
    case None => None
    case Some(k) => Some(NormalizeBlock(content[k..]))
  }

  /** The lines, each with its whitespace deleted, run together. */
  function Squash(ls: seq<string>): string {
    if ls == [] then "" else RemoveSpace(ls[0]) + Squash(ls[1..])
  }

  lemma SquashCons(l: string, ls: seq<string>)
    ensures Squash([l] + ls) == RemoveSpace(l) + Squash(ls)
  {
    assert ([l] + ls)[0] == l;
    assert ([l] + ls)[1..] == ls;
  }

  lemma {:induction false} SquashAppend(a: seq<string>, b: seq<string>)
    ensures Squash(a + b) == Squash(a) + Squash(b)
  {
    if a == [] {
      assert a + b == b;
    } else {
      assert (a + b)[0] == a[0];
      assert (a + b)[1..] == a[1..] + b;
      SquashAppend(a[1..], b);
    }
  }

  /** A line break in front is deleted with the rest of the whitespace. */
  lemma RemoveSpaceAfterBreak(t: string)
    ensures RemoveSpace("\n" + t) == RemoveSpace(t)
  {
    assert "\n" + t == ['\n'] + t;
    RemoveSpaceCons('\n', t);
  }

  /** Deleting whitespace from the joined lines is deleting it line by line. */
  lemma {:induction false} RemoveSpaceOfJoin(ls: seq<string>)
    ensures RemoveSpace(Join(ls)) == Squash(ls)
  {
    if |ls| == 1 {
      assert ls[1..] == [];
      assert Squash(ls) == RemoveSpace(ls[0]) + Squash([]);
    } else if |ls| > 1 {
      var t := Join(ls[1..]);
      RemoveSpaceOfJoin(ls[1..]);
      assert Join(ls) == ls[0] + ("\n" + t);
      RemoveSpaceAppend(ls[0], "\n" + t);
      RemoveSpaceAfterBreak(t);
      assert RemoveSpace(Join(ls)) == RemoveSpace(ls[0]) + Squash(ls[1..]);
    }
  }

  /** The normalized signature is the non-comment lines, whitespace-free, run together. */
  lemma NormalizeByLines(block: string)
    ensures NormalizeBlock(block) == Squash(DropComments(Lines(block)))
  {
    RemoveSpaceOfJoin(DropComments(Lines(block)));
  }

  // ---------------------------------------------------------------------
  // Comments and layout do not change the signature.
  // ---------------------------------------------------------------------

  /** A line of its own between two line breaks sits between the lines around it. */
  lemma LinesAroundLine(a: string, l: string, b: string)
    requires NoBreak(l)
    ensures Lines(a + "\n" + l + "\n" + b) == Lines(a) + ([l] + Lines(b))
    ensures Lines(a + "\n" + b) == Lines(a) + Lines(b)
  {
    LineBreakIsSpace('\n');
    assert a + "\n" + l + "\n" + b == a + ['\n'] + (l + ['\n'] + b);
    assert a + "\n" + b == a + ['\n'] + b;
    LinesAtBreak(a, '\n', l + ['\n'] + b);
    LinesAtBreak(l, '\n', b);
    LinesOfUnbroken(l);
    LinesAtBreak(a, '\n', b);
  }

  /** Inserting a whole comment line anywhere in a block leaves its signature unchanged. */
  lemma CommentLineIgnored(a: string, c: string, b: string)
    requires IsCommentLine(c) && NoBreak(c)
    ensures NormalizeBlock(a + "\n" + c + "\n" + b) == NormalizeBlock(a + "\n" + b)
  {
    LinesAroundLine(a, c, b);
    DropCommentsAppend(Lines(a), [c] + Lines(b));
    DropCommentsAppend([c], Lines(b));
    assert DropComments([c]) == [] by {
      assert [c][1..] == [];
    }
    assert [] + DropComments(Lines(b)) == DropComments(Lines(b));
    DropCommentsAppend(Lines(a), Lines(b));
  }

  lemma {:induction false} BlankIsNotComment(w: string)
    requires AllSpace(w)
    ensures !IsCommentLine(w)
  {
    if w != [] {
      BlankIsNotComment(w[1..]);
    }
  }

  /** A kept line without any non-whitespace character adds nothing to the squashed lines. */
  lemma SquashSkipsBlank(xs: seq<string>, w: string, ys: seq<string>)
    requires !IsCommentLine(w) && RemoveSpace(w) == ""
    ensures Squash(DropComments(xs + ([w] + ys))) == Squash(DropComments(xs + ys))
  {
    var dx, dy := DropComments(xs), DropComments(ys);
    DropCommentsAppend(xs, [w] + ys);
    DropCommentsAppend([w], ys);
    assert DropComments([w]) == [w] by {
      assert [w][1..] == [];
    }
    DropCommentsAppend(xs, ys);
    SquashAppend(dx, [w] + dy);
    SquashAppend([w], dy);
    SquashAppend(dx, dy);
    assert Squash([w]) == "" by {
      assert [w][1..] == [];
    }
  }

  /** Inserting a line of nothing but whitespace leaves the signature unchanged. */
  lemma BlankLineIgnored(a: string, w: string, b: string)
    requires AllSpace(w) && NoBreak(w)
    ensures NormalizeBlock(a + "\n" + w + "\n" + b) == NormalizeBlock(a + "\n" + b)
  {
    LinesAroundLine(a, w, b);
    BlankIsNotComment(w);
    RemoveSpaceOfSpace(w);
    SquashSkipsBlank(Lines(a), w, Lines(b));
    NormalizeByLines(a + "\n" + w + "\n" + b);
    NormalizeByLines(a + "\n" + b);
  }

  /** Writing one line-break character in place of another leaves the signature unchanged. */
  lemma BreakKindIgnored(a: string, c: char, d: char, b: string)
    requires IsLineBreak(c) && IsLineBreak(d)
    ensures NormalizeBlock(a + [c] + b) == NormalizeBlock(a + [d] + b)
  {
    LinesAtBreak(a, c, b);
    LinesAtBreak(a, d, b);
  }

  /** Two pieces run together make a comment line as their first non-whitespace character says. */
  lemma {:induction false} CommentAppend(x: string, y: string)
    ensures IsCommentLine(x + y) == if AllSpace(x) then IsCommentLine(y) else IsCommentLine(x)
  {
    if x == [] {
      assert x + y == y;
    } else {
      CommentAppend(x[1..], y);
      assert x + y == [x[0]] + (x[1..] + y);
      CommentCons(x[0], x[1..] + y);
      assert x == [x[0]] + x[1..];
      CommentCons(x[0], x[1..]);
      assert AllSpace(x) <==> IsSpace(x[0]) && AllSpace(x[1..]) by {
        assert forall i :: 0 <= i < |x| - 1 ==> x[1..][i] == x[i + 1];
      }
    }
  }

  /** Two kept lines squash to what the one line made of them squashes to. */
  lemma SquashMerge(xs: seq<string>, x: string, y: string, ys: seq<string>)
    requires !IsCommentLine(x) && !IsCommentLine(y) && !IsCommentLine(x + y)
    ensures Squash(DropComments(xs + ([x, y] + ys))) == Squash(DropComments(xs + ([x + y] + ys)))
  {
    var dx, dy := DropComments(xs), DropComments(ys);
    DropCommentsAppend(xs, [x, y] + ys);
    DropCommentsAppend([x, y], ys);
    DropCommentsAppend(xs, [x + y] + ys);
    DropCommentsAppend([x + y], ys);
    assert DropComments([x, y]) == [x, y] by {
      assert [x, y] == [x] + [y];
      DropCommentsAppend([x], [y]);
      DropCommentsOne(x);
      DropCommentsOne(y);
    }
    DropCommentsOne(x + y);
    SquashAppend(dx, [x, y] + dy);
    SquashAppend([x, y], dy);
    SquashAppend(dx, [x + y] + dy);
    SquashAppend([x + y], dy);
    assert Squash([x, y]) == RemoveSpace(x + y) by {
      SquashCons(x, [y]);
      SquashCons(y, []);
      assert [y] == [y] + [];
      RemoveSpaceAppend(x, y);
    }
    assert Squash([x + y]) == RemoveSpace(x + y) by {
      SquashCons(x + y, []);
      assert [x + y] == [x + y] + [];
    }
  }

  /**
   * Splitting a line in two with a line break leaves the signature unchanged
   * when neither half is a comment line.
   */
  lemma LineSplitIgnored(a: string, c: char, b: string)
    requires IsLineBreak(c)
    requires !IsCommentLine(Lines(a)[|Lines(a)| - 1]) && !IsCommentLine(Lines(b)[0])
    ensures NormalizeBlock(a + [c] + b) == NormalizeBlock(a + b)
  {
    var xs, x, y, ys := SplitLines(a, c, b);
    CommentAppend(x, y);
    SquashMerge(xs, x, y, ys);
    NormalizeByLines(a + [c] + b);
    NormalizeByLines(a + b);
  }

  /** The lines with and without the break, in terms of the two lines it separates. */
  lemma SplitLines(a: string, c: char, b: string) returns (xs: seq<string>, x: string, y: string, ys: seq<string>)
    requires IsLineBreak(c)
    ensures x == Lines(a)[|Lines(a)| - 1] && y == Lines(b)[0]
    ensures Lines(a + [c] + b) == xs + ([x, y] + ys)
    ensures Lines(a + b) == xs + ([x + y] + ys)
  {
    var la, lb := Lines(a), Lines(b);
    xs, x, y, ys := la[..|la| - 1], la[|la| - 1], lb[0], lb[1..];
    LinesAtBreak(a, c, b);
    LinesAppend(a, b);
    GlueParts(la, lb);
  }

  lemma GlueParts(la: seq<string>, lb: seq<string>)
    requires |la| > 0 && |lb| > 0
    ensures la + lb == la[..|la| - 1] + ([la[|la| - 1], lb[0]] + lb[1..])
    ensures Glue(la, lb) == la[..|la| - 1] + ([la[|la| - 1] + lb[0]] + lb[1..])
  {
    assert la == la[..|la| - 1] + [la[|la| - 1]];
    assert lb == [lb[0]] + lb[1..];
  }

  /**
   * A line break in front of text that starts with '#' turns that text into
   * a comment line of its own, and drops it from the signature.
   */
  lemma BreakMakesComment(a: string, b: string)
    requires NoBreak(a) && NoBreak(b)
    requires !AllSpace(a) && !IsCommentLine(a) && IsCommentLine(b)
    ensures NormalizeBlock(a + b) == RemoveSpace(a) + RemoveSpace(b)
    ensures NormalizeBlock(a + "\n" + b) == RemoveSpace(a)
  {
    JoinedLineKept(a, b);
    RemoveSpaceAppend(a, b);
    CommentLineDropped(a, b);
  }

  /** Without the break, the two pieces are one kept line. */
  lemma JoinedLineKept(a: string, b: string)
    requires NoBreak(a) && NoBreak(b) && !AllSpace(a) && !IsCommentLine(a)
    ensures NormalizeBlock(a + b) == RemoveSpace(a + b)
  {
    assert NoBreak(a + b) by {
      assert forall i :: 0 <= i < |a + b| ==> (a + b)[i] == if i < |a| then a[i] else b[i - |a|];
    }
    LinesOfUnbroken(a + b);
    CommentAppend(a, b);
    DropCommentsOne(a + b);
    NormalizeByLines(a + b);
    SquashCons(a + b, []);
    assert [a + b] == [a + b] + [];
  }

  /** With the break, the second piece is a comment line and is dropped. */
  lemma CommentLineDropped(a: string, b: string)
    requires NoBreak(a) && NoBreak(b) && !IsCommentLine(a) && IsCommentLine(b)
    ensures NormalizeBlock(a + "\n" + b) == RemoveSpace(a)
  {
    LineBreakIsSpace('\n');
    assert a + "\n" + b == a + ['\n'] + b;
    LinesAtBreak(a, '\n', b);
    LinesOfUnbroken(a);
    LinesOfUnbroken(b);
    assert [a] + [b] == [a, b];
    DropCommentsAppend([a], [b]);
    DropCommentsOne(a);
    DropCommentsOne(b);
    assert [a] + [] == [a];
    NormalizeByLines(a + "\n" + b);
    SquashCons(a, []);
    assert [a] == [a] + [];
  }

  /**
   * `http: a #b` and the same text with a line break before `#b` differ
   * only in whitespace, yet their signatures differ.
   */
  lemma BreakBeforeHashChangesSignature(a: string, b: string)
    requires a == "http: a " && b == "#b"
    ensures NormalizeBlock(a + b) == "http:a#b"
    ensures NormalizeBlock(a + "\n" + b) == "http:a"
  {
    HashExampleParts(a, b);
    BreakMakesComment(a, b);
  }

  /**
   * The facts about the two pieces of the example. Each literal is a
   * parameter fixed by `requires`, and each group of facts has its own small
   * lemma, so that no proof unfolds more of the literals than it needs.
   */
  lemma HashExampleParts(a: string, b: string)
    requires a == "http: a " && b == "#b"
    ensures NoBreak(a) && NoBreak(b) && !AllSpace(a) && IsCommentLine(b)
    ensures !IsCommentLine(a) && RemoveSpace(a) == "http:a" && RemoveSpace(b) == "#b"
  {
    HashExampleLines(a, b);
    HashExampleSpace(a, b);
  }

  lemma HashExampleLines(a: string, b: string)
    requires a == "http: a " && b == "#b"
    ensures NoBreak(a) && NoBreak(b) && !AllSpace(a) && IsCommentLine(b) && !IsCommentLine(a)
  {
    assert !IsSpace(a[0]);
    assert b[1..] == "b";
  }

  lemma HashExampleSpace(a: string, b: string)
    requires a == "http: a " && b == "#b"
    ensures RemoveSpace(a) == "http:a" && RemoveSpace(b) == "#b"
  {
    assert NoSpace(b);
    var h, t := HashExampleSplit(a);
    RemoveSpaceAppend(h, t);
    HashExampleHead(h);
    HashExampleTail(t);
  }

  lemma HashExampleSplit(a: string) returns (h: string, t: string)
    requires a == "http: a "
    ensures a == h + t && h == "http:" && t == " a "
  {
    h, t := "http:", " a ";
  }

  lemma HashExampleHead(h: string)
    requires h == "http:"
    ensures RemoveSpace(h) == h
  {
    assert NoSpace(h);
  }

  lemma HashExampleTail(t: string)
    requires t == " a "
    ensures RemoveSpace(t) == "a"
  {
    assert t == [' '] + "a ";
    RemoveSpaceCons(' ', "a ");
    assert "a " == ['a'] + " ";
    RemoveSpaceCons('a', " ");
    RemoveSpaceOfSpace(" ");
  }

  /** Two lines that count alike: both comments or neither, with the same non-whitespace text. */
  predicate SameLine(x: string, y: string) {
    IsCommentLine(x) == IsCommentLine(y) && RemoveSpace(x) == RemoveSpace(y)
  }

  predicate SameLines(xs: seq<string>, ys: seq<string>) {
    |xs| == |ys| && forall i :: 0 <= i < |xs| ==> SameLine(xs[i], ys[i])
  }

  lemma {:induction false} SameLinesSquash(xs: seq<string>, ys: seq<string>)
    requires SameLines(xs, ys)
    ensures Squash(DropComments(xs)) == Squash(DropComments(ys))
  {
    if xs != [] {
      assert SameLine(xs[0], ys[0]);
      assert SameLines(xs[1..], ys[1..]) by {
        forall i | 0 <= i < |xs| - 1
          ensures SameLine(xs[1..][i], ys[1..][i])
        {
          assert SameLine(xs[i + 1], ys[i + 1]);
        }
      }
      SameLinesSquash(xs[1..], ys[1..]);
      var hx := if IsCommentLine(xs[0]) then [] else [xs[0]];
      var hy := if IsCommentLine(ys[0]) then [] else [ys[0]];
      SquashAppend(hx, DropComments(xs[1..]));
      SquashAppend(hy, DropComments(ys[1..]));
      assert Squash(hx) == Squash(hy) by {
        if hx != [] {
          assert Squash(hx) == RemoveSpace(xs[0]) + Squash([]);
          assert Squash(hy) == RemoveSpace(ys[0]) + Squash([]);
        }
      }
    }
  }

  /** Putting the same character in front of two alike lines keeps them alike. */
  lemma SameLineCons(c: char, x: string, y: string)
    requires SameLine(x, y)
    ensures SameLine([c] + x, [c] + y)
  {
    CommentCons(c, x);
    CommentCons(c, y);
    RemoveSpaceCons(c, x);
    RemoveSpaceCons(c, y);
  }

  /** Extending the first line of two alike line lists by the same character keeps them alike. */
  lemma SameLinesExtendFirst(c: char, xs: seq<string>, ys: seq<string>)
    requires SameLines(xs, ys) && |xs| > 0
    ensures SameLines([[c] + xs[0]] + xs[1..], [[c] + ys[0]] + ys[1..])
  {
    SameLineCons(c, xs[0], ys[0]);
    var xs', ys' := [[c] + xs[0]] + xs[1..], [[c] + ys[0]] + ys[1..];
    forall i | 0 <= i < |xs'|
      ensures SameLine(xs'[i], ys'[i])
    {
      if i > 0 {
        assert xs'[i] == xs[i] && ys'[i] == ys[i];
      }
    }
  }

  lemma SameLinesPrepend(l: string, xs: seq<string>, ys: seq<string>)
    requires SameLines(xs, ys)
    ensures SameLines([l] + xs, [l] + ys)
  {
    forall i | 0 < i <= |xs|
      ensures SameLine(([l] + xs)[i], ([l] + ys)[i])
    {
      assert ([l] + xs)[i] == xs[i - 1] && ([l] + ys)[i] == ys[i - 1];
    }
  }

  lemma InlineSpaceAtStart(w: char, b: string)
    requires IsSpace(w) && !IsLineBreak(w)
    ensures SameLines(Lines([w] + b), Lines(b))
  {
    LinesCons(w, b);
    var ys := Lines(b);
    assert SameLines(ys, ys);
    SameLinesExtendFirst(w, ys, ys);
    CommentCons(w, ys[0]);
    RemoveSpaceCons(w, ys[0]);
    assert [ys[0]] + ys[1..] == ys;
  }

  /** Inserting one whitespace character that is not a line break keeps every line alike. */
  lemma {:induction false} InlineSpaceLines(a: string, w: char, b: string)
    requires IsSpace(w) && !IsLineBreak(w)
    ensures SameLines(Lines(a + [w] + b), Lines(a + b))
  {
    if a == [] {
      assert a + [w] + b == [w] + b && a + b == b;
      InlineSpaceAtStart(w, b);
    } else {
      var t1, t2 := a[1..] + [w] + b, a[1..] + b;
      assert a + [w] + b == [a[0]] + t1;
      assert a + b == [a[0]] + t2;
      InlineSpaceLines(a[1..], w, b);
      LinesCons(a[0], t1);
      LinesCons(a[0], t2);
      if IsLineBreak(a[0]) {
        SameLinesPrepend("", Lines(t1), Lines(t2));
      } else {
        SameLinesExtendFirst(a[0], Lines(t1), Lines(t2));
      }
    }
  }

  /** Inserting whitespace inside a line (indentation, spacing) leaves the signature unchanged. */
  lemma InlineSpaceIgnored(a: string, w: char, b: string)
    requires IsSpace(w) && !IsLineBreak(w)
    ensures NormalizeBlock(a + [w] + b) == NormalizeBlock(a + b)
  {
    InlineSpaceLines(a, w, b);
    SameLinesSquash(Lines(a + [w] + b), Lines(a + b));
    NormalizeByLines(a + [w] + b);
    NormalizeByLines(a + b);
  }

  // ---------------------------------------------------------------------
  // The shape of a normalized signature.
  // ---------------------------------------------------------------------

  lemma MarkersHaveNoSpace()
    ensures NoSpace(Requests) && NoSpace(Http)
  {
    assert Requests == ['r', 'e', 'q', 'u', 'e', 's', 't', 's', ':'];
    assert Http == ['h', 't', 't', 'p', ':'];
  }

  /** A block whose first characters are no whitespace and no '#' keeps its first line. */
  lemma LeadingLineKept(m: string, rest: string)
    requires m != [] && NoSpace(m) && m[0] != '#'
    ensures DropComments(Lines(m + rest)) == [m + Lines(rest)[0]] + DropComments(Lines(rest)[1..])
  {
    NoSpaceNoBreak(m);
    LinesOfUnbrokenPrefix(m, rest);
    var first := m + Lines(rest)[0];
    assert first == [m[0]] + first[1..];
    CommentCons(m[0], first[1..]);
    DropCommentsAppend([first], Lines(rest)[1..]);
    assert DropComments([first]) == [first] by {
      assert [first][1..] == [];
    }
  }

  /** A block whose first characters are no whitespace and no '#' normalizes to a text that begins with them. */
  lemma LeadingTextKept(m: string, rest: string)
    requires m != [] && NoSpace(m) && m[0] != '#'
    ensures StartsWith(NormalizeBlock(m + rest), m)
  {
    LeadingLineKept(m, rest);
    NormalizeByLines(m + rest);
    SquashLeading(m, Lines(rest)[0], DropComments(Lines(rest)[1..]));
  }

  lemma SquashLeading(m: string, l: string, ls: seq<string>)
    requires NoSpace(m)
    ensures StartsWith(Squash([m + l] + ls), m)
  {
    var tail := RemoveSpace(l) + Squash(ls);
    assert Squash([m + l] + ls) == m + tail by {
      SquashCons(m + l, ls);
      RemoveSpaceAppend(m, l);
      assert RemoveSpace(m) == m;
      AppendAssoc(m, RemoveSpace(l), Squash(ls));
    }
    assert (m + tail)[..|m|] == m;
  }

  /**
   * The normalized signature of a file contains no whitespace and begins
   * with `requests:` or `http:`; normalizing it again changes nothing.
   */
  lemma ExtractShape(content: string)
    requires Extract(content).Some?
    ensures NoSpace(Extract(content).value)
    ensures StartsWith(Extract(content).value, Requests) || StartsWith(Extract(content).value, Http)
    ensures Extract(Extract(content).value) == Extract(content)
  {
    var k := FindMarker(content, 0).value;
    var block := content[k..];
    var m := if StartsWith(block, Requests) then Requests else Http;
    assert block == m + block[|m|..];
    MarkersHaveNoSpace();
    LeadingTextKept(m, block[|m|..]);
    var n := Extract(content).value;
    assert n == NormalizeBlock(block);
    assert MarkerAt(n, 0) by {
      assert n[0..] == n;
    }
    assert FindMarker(n, 0) == Some(0);
    assert n[0..] == n;
    forall i | 0 <= i < |n|
      ensures !IsLineBreak(n[i])
    {
      if IsLineBreak(n[i]) {
        LineBreakIsSpace(n[i]);
      }
    }
    LinesOfUnbroken(n);
    assert n[0] == m[0];
    assert LStrip(n) == n;
    CommentByFirstNonSpace(n);
    assert DropComments([n]) == [n];
  }

  /** A prefix that stops at a line break cannot cut a marker in two. */
  lemma MarkerInPreamble(p: string, b: string, j: nat, m: string)
    requires p != [] && p[|p| - 1] == '\n' && j < |p|
    requires NoSpace(m)
    ensures StartsWith((p + b)[j..], m) == StartsWith(p[j..], m)
  {
    var s := p + b;
    if j + |m| <= |p| {
      assert s[j..][..|m|] == p[j..][..|m|];
    } else {
      var t := |p| - 1 - j;
      LineBreakIsSpace('\n');
      assert s[j..][t] == '\n';
      if |m| <= |s[j..]| {
        assert s[j..][..|m|][t] != m[t];
      }
    }
  }

  /** A marker in the whole file before the end of a line-ended preamble is a marker of the preamble. */
  lemma PreambleMarker(p: string, b: string, j: nat)
    requires p != [] && p[|p| - 1] == '\n' && j < |p|
    ensures MarkerAt(p + b, j) == MarkerAt(p, j)
  {
    MarkersHaveNoSpace();
    MarkerInPreamble(p, b, j, Requests);
    MarkerInPreamble(p, b, j, Http);
    if j > 0 {
      assert (p + b)[j - 1] == p[j - 1];
    }
  }

  /**
   * Text before the first marker line does not matter: a file made of a
   * marker-free preamble ending in a line break, followed by a block that
   * begins with a marker, has that block's signature.
   */
  lemma PreambleIgnored(p: string, b: string)
    requires p == [] || p[|p| - 1] == '\n'
    requires !HasMarkerLine(p)
    requires StartsWith(b, Requests) || StartsWith(b, Http)
    ensures Extract(p + b) == Some(NormalizeBlock(b)) == Extract(b)
  {
    var s := p + b;
    assert s[|p|..] == b;
    assert MarkerAt(s, |p|);
    forall j | 0 <= j < |p|
      ensures !MarkerAt(s, j)
    {
      PreambleMarker(p, b, j);
    }
    assert FindMarker(s, 0) == Some(|p|);
    assert MarkerAt(b, 0) by {
      assert b[0..] == b;
    }
    assert FindMarker(b, 0) == Some(0);
    assert b[0..] == b;
  }
}
