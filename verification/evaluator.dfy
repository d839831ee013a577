/**
 * The per-file evaluation: the record built for one template (or `None`),
 * and the extension filter that decides which files are evaluated at all.
 */
module Evaluator {
  import opened Wrappers
  import opened Text
  import Signature
  import Metadata

  /** The record built for a template that has a signature. */
  datatype FileResult = FileResult(
    path: string,
    filename: string,
    hash: string,
    severity: string,
    skipKeyword: bool)

  /** POSIX `os.path.basename`: what follows the last '/'. */
  function Basename(path: string): (r: string)
    ensures forall i :: 0 <= i < |r| ==> r[i] != '/'
    ensures EndsWith(path, r)
    ensures |r| < |path| ==> path[|path| - |r| - 1] == '/'
  {
    if path == [] || path[|path| - 1] == '/' then ""
    else
      var r := Basename(path[..|path| - 1]);
      BasenameStep(path, r, r + [path[|path| - 1]]);
      r + [path[|path| - 1]]
  }

  /** The recursive step of `Basename`: one more non-'/' character at the end. */
  lemma BasenameStep(path: string, r: string, r': string)
    requires path != [] && path[|path| - 1] != '/'
    requires forall i :: 0 <= i < |r| ==> r[i] != '/'
    requires EndsWith(path[..|path| - 1], r)
    requires |r| < |path| - 1 ==> path[..|path| - 1][|path| - 1 - |r| - 1] == '/'
    requires r' == r + [path[|path| - 1]]
    ensures forall i :: 0 <= i < |r'| ==> r'[i] != '/'
    ensures EndsWith(path, r')
    ensures |r'| < |path| ==> path[|path| - |r'| - 1] == '/'
  {
    var init := path[..|path| - 1];
    var c := path[|path| - 1];
    var k := |init| - |r|;
    assert path == init + [c];
    assert path[k..] == init[k..] + [c];
  }

  /**
   * What evaluating the file at `path` gives, from what reading it as UTF-8
   * produced (`None` when opening or decoding failed) and the digest function
   * applied to the signature: `None` for an unreadable file or one without
   * a marker line, and otherwise the record with the signature's digest, the
   * severity label and the keyword-skip flag.
   */
  function Evaluate(path: string, content: Option<string>, md5: string -> string): (r: Option<FileResult>)
    ensures r.Some? <==> content.Some? && Signature.HasMarkerLine(content.value)
    ensures r.Some? ==> r.value.path == path && r.value.filename == Basename(path)
    ensures r.Some? ==> Signature.Extract(content.value).Some?
    ensures r.Some? ==> r.value.hash == md5(Signature.Extract(content.value).value)
    ensures r.Some? ==> r.value.severity == Metadata.Severity(content.value)
    ensures r.Some? ==> r.value.skipKeyword == Metadata.HasSkipLine(content.value)
  {
    match content
    case None => None
    case Some(text) =>
      match Signature.Extract(text)
      case None => None
      case Some(sig) =>
        Some(FileResult(path, Basename(path), md5(sig), Metadata.Severity(text), Metadata.HasSkipLine(text)))
  }

  /**
   * The evaluation step by step: the record starts with the default
   * severity and a clear flag, and each later step fills in a field.
   */
  method ProcessFile(path: string, content: Option<string>, md5: string -> string) returns (r: Option<FileResult>)
    ensures r == Evaluate(path, content, md5)
  {
    if content.None? {
      return None;
    }
    var text := content.value;
    var marker := Signature.FindMarker(text, 0);
    if marker.None? {
      return None;
    }
    var hash := md5(Signature.NormalizeBlock(text[marker.value..]));
    var result := FileResult(path, Basename(path), hash, Metadata.DefaultSeverity, false);
    var severityAt := Metadata.FindSeverity(text, 0);
    if severityAt.Some? {
      result := result.(severity := Metadata.Lower(Metadata.SeverityAt(text, severityAt.value).value));
    }
    var skip := Metadata.ScanKeywords(text);
    if skip {
      result := result.(skipKeyword := true);
    }
    return Some(result);
  }

  /** Two files whose signatures agree get the same digest. */
  lemma SameSignatureSameHash(p1: string, c1: string, p2: string, c2: string, md5: string -> string)
    requires Signature.Extract(c1).Some? && Signature.Extract(c1) == Signature.Extract(c2)
    ensures Evaluate(p1, Some(c1), md5).Some? && Evaluate(p2, Some(c2), md5).Some?
    ensures Evaluate(p1, Some(c1), md5).value.hash == Evaluate(p2, Some(c2), md5).value.hash
  {
  }

  /** Helper for `CommentedCopySameSignature`: text appended after a marker keeps it in front. */
  lemma MarkerStaysInFront(a: string, t: string)
    requires StartsWith(a, Signature.Requests) || StartsWith(a, Signature.Http)
    ensures StartsWith(a + t, Signature.Requests) || StartsWith(a + t, Signature.Http)
  {
    var m := if StartsWith(a, Signature.Requests) then Signature.Requests else Signature.Http;
    assert (a + t)[..|m|] == a[..|m|];
  }

  /** The signature of a template is not changed by a whole comment line inside its block. */
  lemma CommentedCopySameSignature(p: string, a: string, c: string, rest: string)
    requires p == [] || p[|p| - 1] == '\n'
    requires !Signature.HasMarkerLine(p)
    requires StartsWith(a, Signature.Requests) || StartsWith(a, Signature.Http)
    requires Signature.IsCommentLine(c) && NoBreak(c)
    ensures Signature.Extract(p + (a + "\n" + rest)).Some?
    ensures Signature.Extract(p + (a + "\n" + rest)) == Signature.Extract(p + (a + "\n" + c + "\n" + rest))
  {
    var b1, b2 := a + "\n" + rest, a + "\n" + c + "\n" + rest;
    assert Signature.Extract(p + b1) == Some(Signature.NormalizeBlock(b1)) by {
      AppendAssoc(a, "\n", rest);
      MarkerStaysInFront(a, "\n" + rest);
      Signature.PreambleIgnored(p, b1);
    }
    assert Signature.Extract(p + b2) == Some(Signature.NormalizeBlock(b2)) by {
      AppendAssoc(a, "\n", c);
      AppendAssoc(a, "\n" + c, "\n");
      AppendAssoc(a, "\n" + c + "\n", rest);
      MarkerStaysInFront(a, "\n" + c + "\n" + rest);
      Signature.PreambleIgnored(p, b2);
    }
    Signature.CommentLineIgnored(a, c, rest);
  }

  /**
   * Two templates with the same preamble whose signature blocks differ by a
   * whole comment line get the same digest.
   */
  lemma CommentedCopySameHash(path: string, p: string, a: string, c: string, rest: string,
                              plain: string, commented: string, md5: string -> string)
    requires p == [] || p[|p| - 1] == '\n'
    requires !Signature.HasMarkerLine(p)
    requires StartsWith(a, Signature.Requests) || StartsWith(a, Signature.Http)
    requires Signature.IsCommentLine(c) && NoBreak(c)
    requires plain == p + (a + "\n" + rest) && commented == p + (a + "\n" + c + "\n" + rest)
    ensures Evaluate(path, Some(plain), md5).Some? && Evaluate(path, Some(commented), md5).Some?
    ensures Evaluate(path, Some(plain), md5).value.hash == Evaluate(path, Some(commented), md5).value.hash
  {
    CommentedCopySameSignature(p, a, c, rest);
    SameSignatureSameHash(path, plain, path, commented, md5);
  }

  // ---------------------------------------------------------------------
  // Which files are evaluated.
  // ---------------------------------------------------------------------

  /** `filename.endswith((".yaml", ".yml"))`. */
  predicate IsTemplateName(name: string) {
    EndsWith(name, ".yaml") || EndsWith(name, ".yml")
  }

  /** The template files among `names`, in their order. */
  function Templates(names: seq<string>): (r: seq<string>)
    ensures |r| <= |names|
    ensures forall i :: 0 <= i < |r| ==> IsTemplateName(r[i])
    ensures forall i :: 0 <= i < |names| && IsTemplateName(names[i]) ==> names[i] in r
    ensures forall x :: x in r ==> x in names
  {
    if names == [] then []
    else
      var last := names[|names| - 1];
      Templates(names[..|names| - 1]) + (if IsTemplateName(last) then [last] else [])
  }

  /** A single name is kept exactly when it is a template name. */
  lemma TemplatesOne(x: string)
    ensures Templates([x]) == if IsTemplateName(x) then [x] else []
  {
    assert [x][..0] == [];
  }

  /** The filter works name by name, so it distributes over concatenation. */
  lemma {:induction false} TemplatesAppend(a: seq<string>, b: seq<string>)
    ensures Templates(a + b) == Templates(a) + Templates(b)
    decreases |b|
  {
    if b == [] {
      assert a + b == a;
    } else {
      var init := b[..|b| - 1];
      assert (a + b)[..|a + b| - 1] == a + init;
      assert (a + b)[|a + b| - 1] == b[|b| - 1];
      TemplatesAppend(a, init);
    }
  }

  /** Each template name is kept as many times as it occurs, and every other name not at all. */
  lemma {:induction false} TemplatesCount(names: seq<string>, x: string)
    ensures multiset(Templates(names))[x] == if IsTemplateName(x) then multiset(names)[x] else 0
  {
    if names != [] {
      var init, last := names[..|names| - 1], names[|names| - 1];
      TemplatesCount(init, x);
      assert names == init + [last];
      assert multiset(names) == multiset(init) + multiset{last};
    }
  }

  /** The collecting loop: every file name that ends in `.yaml` or `.yml` is appended. */
  method CollectTemplates(names: seq<string>) returns (files: seq<string>)
    ensures files == Templates(names)
  {
    files := [];
    for i := 0 to |names|
      invariant files == Templates(names[..i])
    {
      assert names[..i + 1][..i] == names[..i];
      if IsTemplateName(names[i]) {
        files := files + [names[i]];
      }
    }
    assert names[..|names|] == names;
  }
}
