/**
 * The single-threaded drain: the evaluated results arrive one by one, in
 * whatever order the workers finish, and each is counted as an error, a
 * duplicate, a severity skip, a keyword skip or a copy.
 */
module Dedup {
  import opened Wrappers
  import opened Evaluator

  /** The five counters, all starting at zero. */
  datatype Stats = Stats(copied: nat, duplicate: nat, severitySkipped: nat, keywordSkipped: nat, error: nat)

  const NoStats := Stats(0, 0, 0, 0, 0)

  /** The severity labels excluded when none are given on the command line. */
  const DefaultExcluded: seq<string> := ["info"]

  function Total(st: Stats): nat {
    st.copied + st.duplicate + st.severitySkipped + st.keywordSkipped + st.error
  }

  datatype Outcome = Error | Duplicate | SeveritySkipped | KeywordSkipped | Copied

  /** A record that is copied unless its digest was already taken. */
  predicate Eligible(f: FileResult, excluded: seq<string>) {
    f.severity !in excluded && !f.skipKeyword
  }

  /**
   * The checks of the drain loop, in their order: a missing record, a digest
   * already taken, an excluded severity, the keyword flag; otherwise a copy.
   */
  function Classify(seen: set<string>, r: Option<FileResult>, excluded: seq<string>): (o: Outcome)
    ensures o == Error <==> r.None?
    ensures o == Duplicate <==> r.Some? && r.value.hash in seen
    ensures o == SeveritySkipped <==> r.Some? && r.value.hash !in seen && r.value.severity in excluded
    ensures o == KeywordSkipped <==> r.Some? && r.value.hash !in seen && r.value.severity !in excluded && r.value.skipKeyword
    ensures o == Copied <==> r.Some? && r.value.hash !in seen && Eligible(r.value, excluded)
  {
    match r
    case None => Error
    case Some(f) =>
      if f.hash in seen then Duplicate
      else if f.severity in excluded then SeveritySkipped
      else if f.skipKeyword then KeywordSkipped
      else Copied
  }

  /** The counters after one more outcome. */
  function Tally(st: Stats, o: Outcome): Stats {
    match o
    case Error => st.(error := st.error + 1)
    case Duplicate => st.(duplicate := st.duplicate + 1)
    case SeveritySkipped => st.(severitySkipped := st.severitySkipped + 1)
    case KeywordSkipped => st.(keywordSkipped := st.keywordSkipped + 1)
    case Copied => st.(copied := st.copied + 1)
  }

  /** Exactly one counter goes up, by one: the one named by the outcome. */
  lemma TallyOnce(st: Stats, o: Outcome)
    ensures Total(Tally(st, o)) == Total(st) + 1
    ensures Tally(st, o).copied == st.copied + (if o == Copied then 1 else 0)
    ensures Tally(st, o).error == st.error + (if o == Error then 1 else 0)
    ensures Tally(st, o).duplicate == st.duplicate + (if o == Duplicate then 1 else 0)
    ensures Tally(st, o).severitySkipped == st.severitySkipped + (if o == SeveritySkipped then 1 else 0)
    ensures Tally(st, o).keywordSkipped == st.keywordSkipped + (if o == KeywordSkipped then 1 else 0)
  {
  }

  /** The drain's state: the digests taken, the counters, and the records copied, in order. */
  datatype DrainState = DrainState(seen: set<string>, stats: Stats, copies: seq<FileResult>)

  const Start := DrainState({}, NoStats, [])

  /** One more result drained. */
  function Step(s: DrainState, r: Option<FileResult>, excluded: seq<string>): DrainState
  {
    var o := Classify(s.seen, r, excluded);
    if o == Copied then DrainState(s.seen + {r.value.hash}, Tally(s.stats, o), s.copies + [r.value])
    else DrainState(s.seen, Tally(s.stats, o), s.copies)
  }

  /** A new digest on an eligible record: taken, counted and copied. */
  lemma StepCopies(s: DrainState, f: FileResult, excluded: seq<string>)
    requires f.hash !in s.seen && Eligible(f, excluded)
    ensures Step(s, Some(f), excluded)
         == DrainState(s.seen + {f.hash}, s.stats.(copied := s.stats.copied + 1), s.copies + [f])
  {
  }

  /** A taken digest: counted as a duplicate and nothing else. */
  lemma StepDuplicate(s: DrainState, f: FileResult, excluded: seq<string>)
    requires f.hash in s.seen
    ensures Step(s, Some(f), excluded) == s.(stats := s.stats.(duplicate := s.stats.duplicate + 1))
  {
  }

  /** A new digest on a record with an excluded severity: counted, and not taken. */
  lemma StepSeverity(s: DrainState, f: FileResult, excluded: seq<string>)
    requires f.hash !in s.seen && f.severity in excluded
    ensures Step(s, Some(f), excluded) == s.(stats := s.stats.(severitySkipped := s.stats.severitySkipped + 1))
  {
  }

  /** A new digest on a record with an allowed severity and the keyword flag: counted, and not taken. */
  lemma StepKeyword(s: DrainState, f: FileResult, excluded: seq<string>)
    requires f.hash !in s.seen && f.severity !in excluded && f.skipKeyword
    ensures Step(s, Some(f), excluded) == s.(stats := s.stats.(keywordSkipped := s.stats.keywordSkipped + 1))
  {
  }

  /** A missing record: counted as an error and nothing else. */
  lemma StepError(s: DrainState, excluded: seq<string>)
    ensures Step(s, None, excluded) == s.(stats := s.stats.(error := s.stats.error + 1))
  {
  }

  /**
   * Under the default exclusion list an "info" record is skipped for its
   * severity and nothing is taken or copied; with nothing excluded the same
   * record, without the keyword flag, is copied.
   */
  lemma InfoSkippedByDefault(f: FileResult)
    requires f.severity == "info"
    ensures Run([Some(f)], DefaultExcluded) == DrainState({}, NoStats.(severitySkipped := 1), [])
    ensures !f.skipKeyword ==> Run([Some(f)], []) == DrainState({f.hash}, NoStats.(copied := 1), [f])
  {
    assert [Some(f)][..0] == [];
  }

  /** The state after draining `results` in this order. */
  function Run(results: seq<Option<FileResult>>, excluded: seq<string>): DrainState
  {
    if results == [] then Start
    else Step(Run(results[..|results| - 1], excluded), results[|results| - 1], excluded)
  }

  /**
   * The drain loop itself. The counters, the taken digests and the copies
   * are those of `Run`; every result is counted once; the digests taken are
   * those of the eligible records; and there is one copy per digest taken.
   */
  method Drain(results: seq<Option<FileResult>>, excluded: seq<string>)
    returns (stats: Stats, seen: set<string>, copies: seq<FileResult>)
    ensures DrainState(seen, stats, copies) == Run(results, excluded)
    ensures Total(stats) == |results|
    ensures stats.error == multiset(results)[None]
    ensures seen == EligibleHashes(results, excluded)
    ensures stats.copied == |seen| == |copies|
    ensures seen == Hashes(copies) && DistinctHashes(copies)
    ensures forall k :: 0 <= k < |copies| ==> Eligible(copies[k], excluded)
  {
    seen := {};
    stats := NoStats;
    copies := [];
    var i := 0;
    while i < |results|
      invariant 0 <= i <= |results|
      invariant DrainState(seen, stats, copies) == Run(results[..i], excluded)
    {
      var result := results[i];
      ghost var next := Step(DrainState(seen, stats, copies), result, excluded);
      assert results[..i + 1][..i] == results[..i];
      assert Run(results[..i + 1], excluded) == next;
      i := i + 1;
      if result.None? {
        stats := stats.(error := stats.error + 1);
        assert DrainState(seen, stats, copies) == next;
        continue;
      }
      var f := result.value;
      if f.hash in seen {
        stats := stats.(duplicate := stats.duplicate + 1);
        assert DrainState(seen, stats, copies) == next;
        continue;
      }
      if f.severity in excluded {
        stats := stats.(severitySkipped := stats.severitySkipped + 1);
        assert DrainState(seen, stats, copies) == next;
        continue;
      }
      if f.skipKeyword {
        stats := stats.(keywordSkipped := stats.keywordSkipped + 1);
        assert DrainState(seen, stats, copies) == next;
        continue;
      }
      seen := seen + {f.hash};
      copies := copies + [f];
      stats := stats.(copied := stats.copied + 1);
      assert DrainState(seen, stats, copies) == next;
    }
    assert results[..|results|] == results;
    RunTotal(results, excluded);
    RunConsistent(results, excluded);
    RunCopiedCount(results, excluded);
    RunSeen(results, excluded);
    RunErrors(results, excluded);
  }

  // ---------------------------------------------------------------------
  // What the drain keeps.
  // ---------------------------------------------------------------------

  function Hashes(copies: seq<FileResult>): set<string> {
    set k | 0 <= k < |copies| :: copies[k].hash
  }

  predicate DistinctHashes(copies: seq<FileResult>) {
    forall j, k :: 0 <= j < k < |copies| ==> copies[j].hash != copies[k].hash
  }

  /** The digests of the eligible records among `results`. */
  function EligibleHashes(results: seq<Option<FileResult>>, excluded: seq<string>): set<string> {
    set r | r in results && r.Some? && Eligible(r.value, excluded) :: r.value.hash
  }

  /** The invariant of the drain. */
  predicate Consistent(s: DrainState, excluded: seq<string>) {
    && s.seen == Hashes(s.copies)
    && DistinctHashes(s.copies)
    && |s.copies| == s.stats.copied
    && forall k :: 0 <= k < |s.copies| ==> Eligible(s.copies[k], excluded)
  }

  lemma HashesSnoc(copies: seq<FileResult>, f: FileResult)
    ensures Hashes(copies + [f]) == Hashes(copies) + {f.hash}
  {
    var c := copies + [f];
    forall h | h in Hashes(c)
      ensures h in Hashes(copies) + {f.hash}
    {
      var k :| 0 <= k < |c| && c[k].hash == h;
      if k < |copies| {
        assert copies[k].hash == h;
      }
    }
    forall h | h in Hashes(copies)
      ensures h in Hashes(c)
    {
      var k :| 0 <= k < |copies| && copies[k].hash == h;
      assert c[k].hash == h;
    }
    assert c[|copies|].hash == f.hash;
  }

  /** Records with different digests give as many digests as records. */
  lemma {:induction false} DistinctHashesCount(copies: seq<FileResult>)
    requires DistinctHashes(copies)
    ensures |Hashes(copies)| == |copies|
  {
    if copies != [] {
      var init, last := copies[..|copies| - 1], copies[|copies| - 1];
      assert copies == init + [last];
      assert DistinctHashes(init);
      DistinctHashesCount(init);
      HashesSnoc(init, last);
      assert last.hash !in Hashes(init);
    }
  }

  lemma StepConsistent(s: DrainState, r: Option<FileResult>, excluded: seq<string>)
    requires Consistent(s, excluded)
    ensures Consistent(Step(s, r, excluded), excluded)
  {
    TallyOnce(s.stats, Classify(s.seen, r, excluded));
    if Classify(s.seen, r, excluded) == Copied {
      HashesSnoc(s.copies, r.value);
      var c := s.copies + [r.value];
      forall j, k | 0 <= j < k < |c|
        ensures c[j].hash != c[k].hash
      {
        if k == |s.copies| {
          assert c[j].hash in Hashes(s.copies);
        }
      }
    }
  }

  lemma StartConsistent(excluded: seq<string>)
    ensures Consistent(Start, excluded)
  {
  }

  /** Every result drained is counted exactly once. */
  lemma {:induction false} RunTotal(results: seq<Option<FileResult>>, excluded: seq<string>)
    ensures Total(Run(results, excluded).stats) == |results|
  {
    if results != [] {
      var init := results[..|results| - 1];
      RunTotal(init, excluded);
      var s := Run(init, excluded);
      TallyOnce(s.stats, Classify(s.seen, results[|results| - 1], excluded));
    }
  }

  /** Whatever the order, the invariant holds after draining. */
  lemma {:induction false} RunConsistent(results: seq<Option<FileResult>>, excluded: seq<string>)
    ensures Consistent(Run(results, excluded), excluded)
  {
    if results == [] {
      StartConsistent(excluded);
      assert Consistent(Run(results, excluded), excluded);
    } else {
      var init := results[..|results| - 1];
      RunConsistent(init, excluded);
      StepConsistent(Run(init, excluded), results[|results| - 1], excluded);
      assert Consistent(Run(results, excluded), excluded);
    }
  }

  /** As many digests are taken as copies made. */
  lemma RunCopiedCount(results: seq<Option<FileResult>>, excluded: seq<string>)
    ensures |Run(results, excluded).seen| == Run(results, excluded).stats.copied
  {
    RunConsistent(results, excluded);
    DistinctHashesCount(Run(results, excluded).copies);
  }

  lemma EligibleHashesSnoc(init: seq<Option<FileResult>>, r: Option<FileResult>, excluded: seq<string>)
    ensures EligibleHashes(init + [r], excluded)
         == EligibleHashes(init, excluded) + (if r.Some? && Eligible(r.value, excluded) then {r.value.hash} else {})
  {
    var rs := init + [r];
    forall x | x in rs
      ensures x in init || x == r
    {
    }
  }

  /** The digests taken are exactly those of the eligible records, in any order. */
  lemma {:induction false} RunSeen(results: seq<Option<FileResult>>, excluded: seq<string>)
    ensures Run(results, excluded).seen == EligibleHashes(results, excluded)
  {
    if results != [] {
      var init, last := results[..|results| - 1], results[|results| - 1];
      assert results == init + [last];
      RunSeen(init, excluded);
      EligibleHashesSnoc(init, last, excluded);
    }
  }

  /** The error counter is the number of files that gave no record. */
  lemma {:induction false} RunErrors(results: seq<Option<FileResult>>, excluded: seq<string>)
    ensures Run(results, excluded).stats.error == multiset(results)[None]
  {
    if results != [] {
      var init, last := results[..|results| - 1], results[|results| - 1];
      assert results == init + [last];
      RunErrors(init, excluded);
      var s := Run(init, excluded);
      TallyOnce(s.stats, Classify(s.seen, last, excluded));
      assert multiset(results) == multiset(init) + multiset{last};
    }
  }

  /** The copies made so far stay in front of the later copies. */
  lemma {:induction false} RunCopiesGrow(results: seq<Option<FileResult>>, n: nat, excluded: seq<string>)
    requires n <= |results|
    ensures Run(results[..n], excluded).copies <= Run(results, excluded).copies
  {
    if n < |results| {
      var init := results[..|results| - 1];
      assert init[..n] == results[..n];
      RunCopiesGrow(init, n, excluded);
    } else {
      assert results[..n] == results;
    }
  }

  /**
   * Among the eligible records that share a digest, the one that arrives
   * first is the one copied; ineligible records before it take nothing.
   */
  lemma FirstEligibleCopied(results: seq<Option<FileResult>>, i: nat, excluded: seq<string>)
    requires i < |results| && results[i].Some? && Eligible(results[i].value, excluded)
    requires forall j :: 0 <= j < i && results[j].Some? && Eligible(results[j].value, excluded)
                         ==> results[j].value.hash != results[i].value.hash
    ensures results[i].value in Run(results, excluded).copies
  {
    var before := results[..i];
    assert results[..i + 1][..i] == before;
    RunSeen(before, excluded);
    forall r | r in before && r.Some? && Eligible(r.value, excluded)
      ensures r.value.hash != results[i].value.hash
    {
      var j :| 0 <= j < i && before[j] == r;
    }
    assert results[i].value.hash !in Run(before, excluded).seen;
    assert results[i].value in Run(results[..i + 1], excluded).copies;
    RunCopiesGrow(results, i + 1, excluded);
  }

  /**
   * Draining the same results in another order takes the same digests, and
   * so copies as many files and counts as many errors.
   */
  lemma OrderIndependent(r1: seq<Option<FileResult>>, r2: seq<Option<FileResult>>, excluded: seq<string>)
    requires multiset(r1) == multiset(r2)
    ensures Run(r1, excluded).seen == Run(r2, excluded).seen
    ensures Run(r1, excluded).stats.copied == Run(r2, excluded).stats.copied
    ensures Run(r1, excluded).stats.error == Run(r2, excluded).stats.error
  {
    RunSeen(r1, excluded);
    RunSeen(r2, excluded);
    forall r
      ensures r in r1 <==> r in r2
    {
      assert r in r1 <==> r in multiset(r1);
      assert r in r2 <==> r in multiset(r2);
    }
    assert EligibleHashes(r1, excluded) == EligibleHashes(r2, excluded);
    RunCopiedCount(r1, excluded);
    RunCopiedCount(r2, excluded);
    RunErrors(r1, excluded);
    RunErrors(r2, excluded);
  }

  /** Two results drained in a row. */
  lemma RunTwo(r1: Option<FileResult>, r2: Option<FileResult>, excluded: seq<string>)
    ensures Run([r1, r2], excluded) == Step(Step(Start, r1, excluded), r2, excluded)
  {
    var one, two := [r1], [r1, r2];
    assert two[..1] == one && two[1] == r2;
    assert one[..0] == [] && one[0] == r1;
    assert Run(one, excluded) == Step(Start, r1, excluded);
    assert Run(two, excluded) == Step(Run(one, excluded), r2, excluded);
  }

  lemma SwapPair(x: Option<FileResult>, y: Option<FileResult>)
    ensures multiset([x, y]) == multiset([y, x])
  {
  }

  /** A record with an excluded severity, then an eligible one with the same digest. */
  lemma ExcludedFirst(a: FileResult, b: FileResult, excluded: seq<string>)
    requires a.hash == b.hash && a.severity in excluded && Eligible(b, excluded)
    ensures Run([Some(a), Some(b)], excluded) == DrainState({b.hash}, Stats(1, 0, 1, 0, 0), [b])
  {
    StepSeverity(Start, a, excluded);
    StepCopies(Step(Start, Some(a), excluded), b, excluded);
    assert [] + [b] == [b];
    RunTwo(Some(a), Some(b), excluded);
  }

  /** The same two records in the other order. */
  lemma ExcludedSecond(a: FileResult, b: FileResult, excluded: seq<string>)
    requires a.hash == b.hash && a.severity in excluded && Eligible(b, excluded)
    ensures Run([Some(b), Some(a)], excluded) == DrainState({b.hash}, Stats(1, 1, 0, 0, 0), [b])
  {
    StepCopies(Start, b, excluded);
    assert [] + [b] == [b];
    StepDuplicate(Step(Start, Some(b), excluded), a, excluded);
    RunTwo(Some(b), Some(a), excluded);
  }

  /**
   * The duplicate, severity-skip and keyword-skip counters depend on the
   * order: the same two results, drained in the two orders, make the same
   * copy but leave different counters. A record with an excluded severity
   * is a severity skip when it arrives before an eligible record with the
   * same digest, and a duplicate when it arrives after it.
   */
  lemma OrderMatters(a: FileResult, b: FileResult, excluded: seq<string>)
    requires a.hash == b.hash && a.severity in excluded && Eligible(b, excluded)
    ensures multiset([Some(a), Some(b)]) == multiset([Some(b), Some(a)])
    ensures Run([Some(a), Some(b)], excluded).copies == Run([Some(b), Some(a)], excluded).copies
    ensures Run([Some(a), Some(b)], excluded).stats != Run([Some(b), Some(a)], excluded).stats
  {
    SwapPair(Some(a), Some(b));
    ExcludedFirst(a, b, excluded);
    ExcludedSecond(a, b, excluded);
  }

  // ---------------------------------------------------------------------
  // The output directory.
  // ---------------------------------------------------------------------

  /**
   * The output directory after the copies, from file name to the template
   * copied there: a later copy under the same file name replaces the
   * earlier one.
   */
  function OutputDir(copies: seq<FileResult>): (d: map<string, string>)
    ensures forall k :: 0 <= k < |copies| ==> copies[k].filename in d
    ensures copies != [] ==> d[copies[|copies| - 1].filename] == copies[|copies| - 1].path
  {
    if copies == [] then map[]
    else
      var last := copies[|copies| - 1];
      OutputDir(copies[..|copies| - 1])[last.filename := last.path]
  }

  /** Every file in the output directory is a template copied under its name. */
  lemma {:induction false} OutputDirFromCopies(copies: seq<FileResult>, name: string)
    requires name in OutputDir(copies)
    ensures exists k :: 0 <= k < |copies| && copies[k].filename == name && OutputDir(copies)[name] == copies[k].path
  {
    var n := |copies| - 1;
    var init, last := copies[..n], copies[n];
    assert copies == init + [last];
    OutputDirSnoc(init, last);
    if name == last.filename {
      assert copies[n].filename == name;
    } else {
      OutputDirFromCopies(init, name);
      var k :| 0 <= k < |init| && init[k].filename == name && OutputDir(init)[name] == init[k].path;
      assert copies[k] == init[k];
    }
  }

  /** Copying one more template rewrites only its own file name. */
  lemma OutputDirSnoc(init: seq<FileResult>, last: FileResult)
    ensures OutputDir(init + [last]) == OutputDir(init)[last.filename := last.path]
  {
    assert (init + [last])[..|init|] == init;
  }

  /** The copy that ends up under a file name is the last one made under it. */
  lemma {:induction false} OutputDirLastWrite(copies: seq<FileResult>, k: nat)
    requires k < |copies|
    requires forall j :: k < j < |copies| ==> copies[j].filename != copies[k].filename
    ensures OutputDir(copies)[copies[k].filename] == copies[k].path
  {
    var n := |copies| - 1;
    var init, last := copies[..n], copies[n];
    assert copies == init + [last];
    OutputDirSnoc(init, last);
    if k < n {
      assert init[k] == copies[k];
      assert forall j :: k < j < |init| ==> init[j].filename != init[k].filename by {
        assert forall j :: k < j < |init| ==> init[j] == copies[j];
      }
      OutputDirLastWrite(init, k);
    }
  }

  /** The output directory never holds more files than were copied. */
  lemma {:induction false} OutputDirSize(copies: seq<FileResult>)
    ensures |OutputDir(copies)| <= |copies|
  {
    if copies != [] {
      var init, last := copies[..|copies| - 1], copies[|copies| - 1];
      OutputDirSize(init);
      assert OutputDir(copies).Keys == OutputDir(init).Keys + {last.filename};
    }
  }

  /** Two copies under one file name leave one file, the later one. */
  lemma SameNameOverwrites(a: FileResult, b: FileResult)
    requires a.filename == b.filename
    ensures OutputDir([a, b]) == map[b.filename := b.path]
  {
    OutputDirSnoc([], a);
    OutputDirSnoc([a], b);
    assert [] + [a] == [a] && [a] + [b] == [a, b];
    assert OutputDir([]) == map[];
  }
}
