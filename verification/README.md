# Nuclei PoC screening and deduplication, modelled in Dafny

The program walks a directory of Nuclei templates (`.yaml`/`.yml`), and
evaluates each file on a thread pool. The evaluation finds the request
section of the template, normalizes it and fingerprints it with MD5. It also
reads the template's severity label and sets a flag when a line probes a
generic static asset. One loop then drains the results as they complete and
copies at most one template per fingerprint. A template is copied only when
its severity is not excluded and its keyword flag is clear. Five counters
record what happened to each file.

The model follows that structure:

- `text.dfy` holds `Wrappers` (an `Option` type) and `Text`. `Text` has the
  Python string operations the program relies on: `str.isspace` (which is
  also what `\s` matches), `splitlines`, `"\n".join`, `strip`,
  `startswith`/`endswith`, substring containment and `re.sub(r'\s+', '', …)`.
- `signature.dfy` (`Signature`) covers the request section. It models the
  first line that starts with `requests:` or `http:`, and the block from there
  to the end of the file. It drops comment lines and deletes whitespace. The
  lemmas show what normalization ignores: the preamble, comment lines, blank
  lines, the kind of line break, whitespace inside a line, and a line split
  in two where neither half is a comment line. They also prove that the
  signature has no whitespace, begins with its marker and normalizes to
  itself. Not every whitespace change is ignored, though. A line break
  placed just before a `#` turns the rest of the line into a comment line,
  and that text then drops out of the fingerprint: `http: a #b` and
  `http: a ` followed by a line `#b` get different signatures
  (`Signature.BreakBeforeHashChangesSignature`).
- `metadata.dfy` (`Metadata`) covers the severity label: the first match of
  `^\s*severity:\s*(\w+)` in multi-line mode, lower-cased, or `"unknown"`. It
  also covers the keyword-skip flag. The flag's loop over the lines, with its
  `break`, is the method `ScanKeywords`, proved equal to "some single line
  holds a primary and a secondary keyword".
- `evaluator.dfy` (`Evaluator`) covers the per-file result. `Evaluate` states
  what `process_file` returns. `ProcessFile` builds the record step by step
  and is proved equal to it. This module also covers the `.yaml`/`.yml`
  filter and its collecting loop.
- `dedup.dfy` (`Dedup`) covers the drain. `Step` and `Run` define the drain
  over a sequence of results, for every arrival order. `Drain` is the loop
  itself, proved equal to `Run`. The lemmas cover:
  - each result counted once;
  - the set of taken fingerprints is the set of fingerprints of eligible
    records;
  - one copy per taken fingerprint;
  - no ineligible record copied;
  - the first eligible record of each fingerprint copied;
  - the output directory, where a later copy under the same file name
    replaces the earlier one.

MD5 is the parameter `md5: string -> string`; the proofs only use that it is
a function. The bytes of a file are not modelled. A file that cannot be
opened or decoded as UTF-8 is given to `Evaluate` as the content `None`, and
gives no record, just like a file without a request section.

**Arrival order.** Only part of the final statistics is independent of the
order in which the workers finish. `Dedup.OrderIndependent` shows that the
copied count, the error count and the set of fingerprints taken are the same
for every order. The duplicate, severity-skip and keyword-skip counts are
not. Take a record with an excluded severity and an eligible record with the
same fingerprint. If the excluded one arrives first, it counts as a severity
skip. If it arrives second, it counts as a duplicate (`Dedup.OrderMatters`).
So two runs over the same files with different worker counts can report
different numbers in those three counters. They still copy the same number
of files.

## Model

| member | source | states |
|---|---|---|
| Text.Lines | Nuclei-PoC_Deduplication.py:51 | the lines of a text: at least one, none containing a line-break character |
| Text.JoinLines | Nuclei-PoC_Deduplication.py:51-52 | joining the lines with "\n" gives back the text with every line break written as "\n" |
| Text.RemoveSpace | Nuclei-PoC_Deduplication.py:52 | deleting all whitespace leaves no whitespace, never lengthens, and leaves whitespace-free text unchanged |
| Text.RemoveSpaceAppend | Nuclei-PoC_Deduplication.py:52 | whitespace deletion distributes over concatenation |
| Text.LStrip | Nuclei-PoC_Deduplication.py:51 | the left-stripped text is a suffix that is empty or starts with a non-whitespace character, and everything removed before it is whitespace |
| Text.RStrip | Nuclei-PoC_Deduplication.py:51 | the right-stripped text is a prefix that is empty or ends with a non-whitespace character, and everything removed after it is whitespace |
| Text.StripHead | Nuclei-PoC_Deduplication.py:51 | stripping both ends keeps the first character of the left-stripped text, and is empty exactly when that is |
| Text.FirstWhere | Nuclei-PoC_Deduplication.py:48 | the search returns the first position in a range where a condition holds, and `None` exactly when it holds nowhere in the range |
| Text.LinesAppend | Nuclei-PoC_Deduplication.py:51 | two texts run together without a break have the lines of both, with the last line of the first and the first line of the second joined into one |
| Signature.FindMarker | Nuclei-PoC_Deduplication.py:48 | the search returns the first line start at or after `from` at which `requests:` or `http:` begins, and `None` exactly when there is none |
| Signature.CommentIsStrippedHash | Nuclei-PoC_Deduplication.py:51 | a line is a comment exactly when its stripped form starts with `#` |
| Signature.DropComments | Nuclei-PoC_Deduplication.py:51 | filtering keeps no comment line and never adds lines |
| Signature.DropCommentsOne | Nuclei-PoC_Deduplication.py:51 | a single line is dropped exactly when it is a comment line and kept otherwise |
| Signature.DropCommentsKeeps | Nuclei-PoC_Deduplication.py:51 | every non-comment line is kept, and nothing that was not a line is added |
| Signature.DropCommentsAppend | Nuclei-PoC_Deduplication.py:51 | the comment filter works line by line, so it distributes over concatenation |
| Signature.NormalizeByLines | Nuclei-PoC_Deduplication.py:51-52 | the normalized block is the concatenation of the whitespace-free non-comment lines |
| Signature.ExtractShape | Nuclei-PoC_Deduplication.py:48-52 | a signature has no whitespace, begins with `requests:` or `http:`, and extracting it again gives it back |
| Signature.PreambleIgnored | Nuclei-PoC_Deduplication.py:48-52 | text before the first marker line, if it has no marker line, does not change the signature |
| Signature.CommentLineIgnored | Nuclei-PoC_Deduplication.py:51-52 | inserting a whole comment line into the block does not change the normalized block |
| Signature.BlankLineIgnored | Nuclei-PoC_Deduplication.py:51-52 | inserting a whitespace-only line does not change the normalized block |
| Signature.BreakKindIgnored | Nuclei-PoC_Deduplication.py:51-52 | replacing one line-break character by another does not change the normalized block |
| Signature.CommentAppend | Nuclei-PoC_Deduplication.py:51 | two pieces run together form a comment line exactly when the first is a comment line, or is all whitespace and the second is one |
| Signature.LineSplitIgnored | Nuclei-PoC_Deduplication.py:51-52 | splitting a line in two with a line break does not change the normalized block when neither half is a comment line |
| Signature.BreakMakesComment | Nuclei-PoC_Deduplication.py:51-52 | a line break in front of text that starts with `#` drops that text from the normalized block, which it would otherwise keep |
| Signature.BreakBeforeHashChangesSignature | Nuclei-PoC_Deduplication.py:51-52 | `http: a #b` normalizes to `http:a#b`, and the same text with a line break before `#b` normalizes to `http:a` |
| Signature.InlineSpaceIgnored | Nuclei-PoC_Deduplication.py:51-52 | inserting a whitespace character that is not a line break anywhere in the block does not change the normalized block |
| Signature.LeadingTextKept | Nuclei-PoC_Deduplication.py:50-52 | a whitespace-free first line that does not start with `#` stays at the front of the normalized block |
| Metadata.SkipSpace | Nuclei-PoC_Deduplication.py:57 | `\s*` taken greedily: the longest run of whitespace from a position |
| Metadata.SkipWord | Nuclei-PoC_Deduplication.py:57 | `\w+` taken greedily: the longest run of word characters from a position |
| Metadata.SeverityAt | Nuclei-PoC_Deduplication.py:57 | a capture of the severity pattern is a nonempty run of word characters |
| Metadata.SeverityAtMatches | Nuclei-PoC_Deduplication.py:57 | the pattern matches at a position and captures `w` exactly when the text from there is whitespace, `severity:`, whitespace, the nonempty word `w`, and then the end or a non-word character |
| Metadata.FindSeverity | Nuclei-PoC_Deduplication.py:57 | the search returns the first line start where the severity pattern matches, and `None` exactly when there is none |
| Metadata.Lower | Nuclei-PoC_Deduplication.py:59 | lower-casing keeps the length, turns each upper-case ASCII letter into its lower-case form and keeps every other character |
| Metadata.LowerIdempotent | Nuclei-PoC_Deduplication.py:59 | lower-casing twice is lower-casing once |
| Metadata.Severity | Nuclei-PoC_Deduplication.py:57-59 | the label is `"unknown"` when the pattern matches nowhere; otherwise it is a nonempty lower-case word |
| Metadata.SeverityOfFirstMatch | Nuclei-PoC_Deduplication.py:57-59 | the label is the lower-cased capture at the first matching line start, whatever follows |
| Metadata.SeverityFromSecondLine | Nuclei-PoC_Deduplication.py:57-59 | when the first line starts with neither whitespace nor `s`, the label comes from the match at the start of the second line |
| Metadata.IndentedSeverityLabel | Nuclei-PoC_Deduplication.py:57-59 | the template `info:` followed by the indented line `  severity: INFO` is labelled `info` |
| Metadata.ScanKeywords | Nuclei-PoC_Deduplication.py:61-66 | the loop with its early `break` sets the flag exactly when some single line holds a primary and a secondary keyword |
| Metadata.StaticAssetRequestSkipped | Nuclei-PoC_Deduplication.py:61-64 | a request line for `/readme.txt` sets the flag |
| Metadata.NoPrimaryInAssetPath | Nuclei-PoC_Deduplication.py:61-64 | `/style.css` holds no primary keyword |
| Metadata.TwoLinesWithoutSkip | Nuclei-PoC_Deduplication.py:63-64 | two lines neither of which holds both kinds of keyword do not set the flag |
| Metadata.KeywordsMustShareALine | Nuclei-PoC_Deduplication.py:63-64 | a primary keyword and a secondary keyword on different lines do not set the flag |
| Evaluator.Basename | Nuclei-PoC_Deduplication.py:42 | the base name has no '/', ends the path, and is preceded by '/' when shorter than the path |
| Evaluator.Evaluate | Nuclei-PoC_Deduplication.py:36-68 | a record exists exactly when the content was read and has a marker line; it carries the path, the base name, the digest of the signature, the severity label and the keyword flag |
| Evaluator.ProcessFile | Nuclei-PoC_Deduplication.py:36-68 | filling in the record step by step, with the early return, gives `Evaluate` |
| Evaluator.SameSignatureSameHash | Nuclei-PoC_Deduplication.py:53 | files with the same signature get the same digest |
| Evaluator.CommentedCopySameSignature | Nuclei-PoC_Deduplication.py:48-52 | two templates that differ by one comment line inside the request block have the same signature |
| Evaluator.CommentedCopySameHash | Nuclei-PoC_Deduplication.py:48-53 | such templates get the same digest |
| Evaluator.Templates | Nuclei-PoC_Deduplication.py:102-105 | the kept names all end in `.yaml` or `.yml`; every such name is kept; nothing else is added |
| Evaluator.TemplatesOne | Nuclei-PoC_Deduplication.py:104-105 | a single name is kept exactly when it ends in `.yaml` or `.yml` |
| Evaluator.TemplatesAppend | Nuclei-PoC_Deduplication.py:102-105 | the filter works name by name, so it distributes over concatenation and keeps the order |
| Evaluator.TemplatesCount | Nuclei-PoC_Deduplication.py:102-105 | each template name is kept exactly as many times as it occurs, and no other name is kept |
| Evaluator.CollectTemplates | Nuclei-PoC_Deduplication.py:102-105 | the collecting loop keeps exactly `Templates` |
| Dedup.Classify | Nuclei-PoC_Deduplication.py:125-144 | the checks in precedence order: error exactly for a missing record, duplicate exactly for a taken digest, then severity, then keyword, and a copy exactly for an eligible record with a new digest |
| Dedup.TallyOnce | Nuclei-PoC_Deduplication.py:125-144 | each outcome raises the counters' total by one, and each of the five counters goes up by one exactly on its own outcome |
| Dedup.StepCopies | Nuclei-PoC_Deduplication.py:141-144 | an eligible record with a new digest adds the digest, raises the copied counter and is appended to the copies |
| Dedup.StepDuplicate | Nuclei-PoC_Deduplication.py:129-131 | a record whose digest was taken raises the duplicate counter and changes nothing else |
| Dedup.StepSeverity | Nuclei-PoC_Deduplication.py:133-135 | a record with a new digest and an excluded severity raises the severity counter and does not take the digest |
| Dedup.StepKeyword | Nuclei-PoC_Deduplication.py:137-139 | a record with a new digest, an allowed severity and the keyword flag raises the keyword counter and does not take the digest |
| Dedup.StepError | Nuclei-PoC_Deduplication.py:125-127 | a missing record raises the error counter and changes nothing else |
| Dedup.Drain | Nuclei-PoC_Deduplication.py:113-144 | the loop ends in the state of `Run`: counters summing to the number of results, errors equal to the missing records, digests taken equal to those of the eligible records, copies equal in number to digests with no two sharing one, and every copy eligible |
| Dedup.RunTotal | Nuclei-PoC_Deduplication.py:114-144 | after any sequence of results the five counters sum to its length |
| Dedup.StepConsistent | Nuclei-PoC_Deduplication.py:129-144 | one step keeps the drain invariant: digests taken are those of the copies, no two copies share a digest, copies equal the copied counter, every copy is eligible |
| Dedup.RunConsistent | Nuclei-PoC_Deduplication.py:129-144 | the drain invariant holds after any sequence of results |
| Dedup.DistinctHashesCount | Nuclei-PoC_Deduplication.py:129-144 | copies with pairwise different digests give as many digests as copies |
| Dedup.RunCopiedCount | Nuclei-PoC_Deduplication.py:129-144 | the copied counter equals the number of digests taken |
| Dedup.RunSeen | Nuclei-PoC_Deduplication.py:129-144 | the digests taken are exactly those of the eligible records, whatever the order |
| Dedup.RunErrors | Nuclei-PoC_Deduplication.py:125-127 | the error counter is the number of missing records |
| Dedup.RunCopiesGrow | Nuclei-PoC_Deduplication.py:141-144 | copies are only ever appended |
| Dedup.FirstEligibleCopied | Nuclei-PoC_Deduplication.py:129-144 | an eligible record is copied when no earlier eligible record had its digest, even if ineligible records with that digest came before |
| Dedup.OrderIndependent | Nuclei-PoC_Deduplication.py:122-144 | draining a permutation of the results takes the same digests and gives the same copied and error counters |
| Dedup.ExcludedFirst | Nuclei-PoC_Deduplication.py:129-144 | a record with an excluded severity followed by an eligible record with the same digest: one severity skip, then that eligible record copied |
| Dedup.ExcludedSecond | Nuclei-PoC_Deduplication.py:129-144 | the same two records in the other order: the eligible record copied, then one duplicate |
| Dedup.InfoSkippedByDefault | Nuclei-PoC_Deduplication.py:133-135 | under the default exclusion list `['info']` an `info` record is a severity skip and is not copied; with nothing excluded the same record without the keyword flag is copied |
| Dedup.OrderMatters | Nuclei-PoC_Deduplication.py:122-144 | the same two results in the two orders make the same copies but leave different counters |
| Dedup.OutputDir | Nuclei-PoC_Deduplication.py:142-143 | every copied file name is in the output directory, and the last copy's name holds the last copy |
| Dedup.OutputDirFromCopies | Nuclei-PoC_Deduplication.py:142-143 | each name in the output directory holds a template copied under that name |
| Dedup.OutputDirLastWrite | Nuclei-PoC_Deduplication.py:142-143 | a name holds the last template copied under it: a later copy under the same name replaces the earlier file |
| Dedup.OutputDirSize | Nuclei-PoC_Deduplication.py:142-143 | the output directory never holds more files than were copied |
| Dedup.SameNameOverwrites | Nuclei-PoC_Deduplication.py:142-143 | two copies under one file name leave one file, the later one |

## Left out

- Logging, the log handlers and the final report are output only (lines 12-28, 71, 80, 97, 100, 108, 111, 146-156).
- Opening the file, UTF-8 decoding and the exception handler are not modelled. Any failure there is the content `None`. Collecting failed files into `error_files` is a file copy with no effect on the results, and is also left out.
- MD5 and `encode('utf-8')` are a foreign library call. The model takes the digest function as the parameter `md5`, and nothing relies on it being MD5 or injective.
- The thread pool, `as_completed` and `tqdm` are not modelled. The drain takes the results in an arbitrary order: every lemma about `Run` holds for every sequence.
- `os.walk`, `os.makedirs` and `argparse` are not modelled. `CollectTemplates` filters the names of one directory listing; the walk that produces the listing is left out. `os.path.join` of the output directory and the base name is left out: `OutputDir` is keyed by the base name alone.
- `shutil.copy2` is taken to succeed. At Nuclei-PoC_Deduplication.py:143 it is outside `process_file`'s `try`, so a failed copy ends the whole run; the model has no such failure.
- The early return when no template is found only logs a warning. Draining an empty sequence gives the same all-zero counters.
- Metadata.IsWordChar: `\w` is ASCII letters, digits and `_`, but Python's `\w` also matches non-ASCII letters and digits. A severity word that starts with a non-ASCII letter or digit therefore gives no match on its line, and the search moves on to a later line. For example, the model labels `"severity: é\nseverity: HIGH"` as `high`, where Python captures `é`. A word that starts with an ASCII character and goes on with non-ASCII ones is cut to its ASCII prefix.
- Metadata.Lower: lower-cases ASCII letters only, where Python's `str.lower` also lowers non-ASCII letters.
- Evaluator.Basename: splits at '/' only, as POSIX `os.path.basename` does. On Windows, `os.path` also splits at '\\' and after a drive's ':', and the paths built by `os.walk` and `os.path.join` at lines 102-105 use '\\'.
- Dedup.OutputDir: starts from an empty directory. `os.makedirs(args.output, exist_ok=True)` at line 89 keeps an existing output directory, so files left by an earlier run stay unless a copy overwrites them; `OutputDir` and `OutputDirFromCopies` describe only the files this run writes.
- Text.Lines: breaks at every line-break character. Python's `splitlines` reads "\r\n" as a single break and drops a final empty line; both differences only add or remove empty lines. Empty lines do not change the signature or the keyword flag. Nuclei-PoC_Deduplication.py:37 opens the file in text mode with no `newline=` argument, so Python's universal newlines have already turned "\r\n" and a lone "\r" into "\n" before `splitlines` runs; the "\r\n" difference never arises on content read that way.
