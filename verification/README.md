# pdfmerge, modelled in Dafny

`pdfmerge` is a command-line tool. It concatenates PDF files into one output file, with these options:

- restrict each input to a page range such as `1,3,8-12,-5,7-`;
- add a top-level bookmark per input;
- set the output's Title/Author/Subject/Keywords;
- skip encrypted inputs instead of failing.

This project models the core of `src/pdfmerge.py` and proves properties of it:

- **`parse_range`** (`range_parser.dfy`, module `RangeParser`). The spec text is split on commas, then each token is stripped. Blank tokens are skipped. A token with a dash is split at its first dash, each non-empty side parsed by `int()`. Otherwise the token is read as `N`, meaning `(N, N)`. The method `ParseRange` is the token loop. It is proved equal to the specification function `ParseRangeSpec`, and the result is characterised by lemmas:
  - which tokens contribute what;
  - when the parse fails, and with which text;
  - a print/parse round trip.
- **`page_indices`** (`range_resolver.dfy`, module `RangeResolver`). No intervals select every page. Otherwise each interval is clamped to the document and expanded to 0-based indices, and repeats are dropped keeping first occurrences. The method `PageIndices` and its two loops (`ExpandRanges`, `DropRepeats`) are proved equal to `ResolvedIndices`. Lemmas then prove:
  - coverage: an index is selected iff some clamped interval covers it;
  - bounds and no repeats;
  - first-occurrence order;
  - the special cases.
- **`main` after argument parsing** (`merge.dfy`, module `Merge`):
  - the range-count check, which exits with status 2;
  - broadcasting the `-r` values to the inputs;
  - the per-input loop: missing file, encrypted file, range parsing, page appending and the bookmark;
  - the metadata filter;
  - the final save.

  The output `PdfWriter` is the class `Writer`, whose fields the methods update in place. The program is the method `Run`. It is proved to produce `ExpectedOutcome(cfg, files)`. A closed form (`MergeMatchesContributions`) shows:
  - the run fails with the first failing input;
  - otherwise the output is each input's selected pages one after the other;
  - each bookmark points at the page count before its input.
- **Python built-ins the core relies on** (`text.dfy`, module `Text`): `str.strip`, `str.split`, `int()` on decimal literals, and `str(n)`. `wrappers.dfy` holds `Option` and `Result`.

The environment is abstract:

- **The file system** is a map from path to `PdfFile`. A path not in the map does not exist.
- **A PDF** is its encryption status plus a sequence of opaque page ids.
- **The parsed command line** is a `Config` value.
- **The `-m` option** is the JSON object it decodes to, a map from string to string.
- **A run ends** in `Failed(failure)` or in `Saved(output, document)`. `ExitCode` maps the failure to the process status.
- **A `ValueError` from `int()`** is uncaught in the source, so the process exits with status 1. The model reports it as the failure `InvalidRange(text)`, where `text` is the string `int()` rejected.

Points where the code's behaviour is easy to miss, each followed as written:

- **Range bounds.** A range bound is whatever `int()` accepts (src/pdfmerge.py:15-16, 19). That includes `0`, a sign and surrounding whitespace. So `3--5` is the interval `(3, -5)` (`NegativeEndAccepted`), and `2-3-4` fails on the text `3-4` (`SecondDashRejected`).
- **Clamping the end.** An interval's end is only clamped from above, by `min(total, end)` (line 31). An end below 1 therefore selects nothing: `1--5` contributes no page.
- **Empty range text.** An empty range text (`-r ""`) selects every page, because line 94 tests `if r`.

## Model

| member | source | states |
|---|---|---|
| Text.TrimStartSpec | src/pdfmerge.py:10 | stripping the front removes exactly a whitespace prefix, and what remains does not start with whitespace |
| Text.TrimEndSpec | src/pdfmerge.py:10 | stripping the back removes exactly a whitespace suffix, and what remains does not end with whitespace |
| Text.StripSpec | src/pdfmerge.py:10 | `strip()` returns a slice of the token with only whitespace around it, and neither end of the result is whitespace |
| Text.StripKeepsTrimmed | src/pdfmerge.py:10 | a token without surrounding whitespace is left unchanged by `strip()` |
| Text.IndexOf | src/pdfmerge.py:13-14 | when the token holds a dash, the split position is inside the token and holds a dash |
| Text.IndexOfFirst | src/pdfmerge.py:14 | no dash occurs before the split position, so `split("-", 1)` splits at the first dash |
| Text.IndexOfUnique | src/pdfmerge.py:14 | a dash at `k` with no dash before it is where the token is split |
| Text.Split | src/pdfmerge.py:9 | `split(",")` always yields at least one piece, so the empty spec yields one blank token |
| Text.SplitPiecesFree | src/pdfmerge.py:9 | no token produced by `split(",")` contains a comma |
| Text.SplitJoin | src/pdfmerge.py:9 | splitting comma-joined comma-free tokens gives back exactly those tokens |
| Text.ParseIntRejectsInnerSign | src/pdfmerge.py:15-19 | `int()` fails when a sign appears after the first character of the stripped text |
| Text.ShowNat | src/pdfmerge.py:19 | the decimal text of a natural number is a non-empty run of digits |
| Text.ShowNatValue | src/pdfmerge.py:19 | the digits of `n` denote `n` |
| Text.ParseIntShowNat | src/pdfmerge.py:19 | `int(str(n)) == n` for every natural number |
| Text.ParseInt | src/pdfmerge.py:15-19 | `int()` on a range bound or a dash-free token; its meaning is stated by the four `ParseInt` lemmas below |
| Text.ParseIntSigned | src/pdfmerge.py:15-19 | text that strips to an optional sign and digits is read as the digits' value, negated after a minus |
| Text.ParseIntLiteral | src/pdfmerge.py:15-19 | `int()` accepts digits with an optional sign and any surrounding whitespace, and yields their signed value |
| Text.ParseIntRejectsNonDigit | src/pdfmerge.py:15-19 | `int()` fails when the stripped text holds a non-digit anywhere except a leading sign |
| Text.ParseIntRejectsBare | src/pdfmerge.py:15-19 | `int()` fails on blank text and on a sign with no digits |
| Text.TrimStartSkips | src/pdfmerge.py:10 | whitespace in front of a text does not change what stripping the front leaves |
| Text.TrimEndSkips | src/pdfmerge.py:10 | whitespace after a text does not change what stripping the back leaves |
| Text.StripWrapped | src/pdfmerge.py:10 | `strip()` of a text whose ends are not whitespace, wrapped in whitespace, is that text |
| Text.StripIdempotent | src/pdfmerge.py:10 | stripping an already stripped token changes nothing |
| Text.JoinSplit | src/pdfmerge.py:9 | `split(",")` loses nothing but the commas: joining its pieces with commas gives back the text |
| RangeParser.ParseRange | src/pdfmerge.py:6-21 | the token loop returns the parsed intervals, or the first text `int()` rejects, as `ParseRangeSpec` defines them |
| RangeParser.ParseTokensAppend | src/pdfmerge.py:9-20 | one more token adds nothing if blank, one interval if parsed, and ends the parse with its text if rejected |
| RangeParser.ParseTokensErrorPersists | src/pdfmerge.py:15-19 | once a token is rejected, later tokens cannot change the outcome (the exception leaves the loop) |
| RangeParser.ParseTokensCollect | src/pdfmerge.py:9-20 | parsing the tokens in sequence equals judging each token on its own and collecting the results in order |
| RangeParser.ParseEach | src/pdfmerge.py:9-20 | there is one result per token |
| RangeParser.ParseEachAt | src/pdfmerge.py:9-20 | the result at position `i` is the verdict on token `i` |
| RangeParser.CollectOk | src/pdfmerge.py:9-20 | collecting succeeds iff no token is rejected, and then yields the parsed intervals in order |
| RangeParser.CollectFirstError | src/pdfmerge.py:15-19 | a failed collection carries the text of the first rejected token |
| RangeParser.BlankIff | src/pdfmerge.py:10-12 | a token is skipped iff it is empty after stripping |
| RangeParser.ParseTokensIntervals | src/pdfmerge.py:9-20 | on success there is exactly one interval per non-blank token, in token order, each that token's interval |
| RangeParser.ParseTokensOkIff | src/pdfmerge.py:9-20 | the parse succeeds iff `int()` accepts every bound of every token |
| RangeParser.ParseTokensFirstError | src/pdfmerge.py:15-19 | a failed parse reports the text of the first rejected token, and every earlier token was accepted |
| RangeParser.ParseBoundShow | src/pdfmerge.py:15-16 | an empty side is an open bound, and the digits of `n` are the bound `n` |
| RangeParser.ParseToken | src/pdfmerge.py:10-20 | the body of the token loop; its meaning is stated by `BlankIff`, `ParseTokenNumber` and `ParseTokenDashed` |
| RangeParser.ParseTokenNumber | src/pdfmerge.py:18-20 | any non-blank dash-free token is `(N, N)` with `N` its `int()` value, and is rejected with its stripped text when `int()` fails |
| RangeParser.ParseTokenDashed | src/pdfmerge.py:13-17 | a stripped token `A-B` with no dash in `A` fails with `A` when `int()` rejects a non-empty `A`, otherwise with `B` when `int()` rejects a non-empty `B`, and otherwise is `(A, B)` with empty sides open |
| RangeParser.ParseBoundDigits | src/pdfmerge.py:15-16 | a side made of digits is the bound they denote |
| RangeParser.ParseBoundNegative | src/pdfmerge.py:15-16 | a side `-D` is the negative bound `-D` |
| RangeParser.NegativeEndAccepted | src/pdfmerge.py:13-17 | `A--B` is the interval `(A, -B)`, because `int()` accepts the sign of the second side |
| RangeParser.SecondDashRejected | src/pdfmerge.py:14-16 | in `A-B-C` the second side is `B-C`, which `int()` rejects, so the token fails with that text |
| RangeParser.ParseTokenFormat | src/pdfmerge.py:13-20 | every printed interval token parses back to the interval |
| RangeParser.FormatTokens | src/pdfmerge.py:9 | one token is printed per interval |
| RangeParser.FormatTokensCommaFree | src/pdfmerge.py:9 | printed tokens contain no comma |
| RangeParser.ParseFormatTokens | src/pdfmerge.py:9-20 | parsing the printed tokens gives back the intervals |
| RangeParser.ParseFormatRange | src/pdfmerge.py:6-21 | round trip: a printed spec of non-negative intervals parses back to the same intervals |
| RangeResolver.IntRangeSpec | src/pdfmerge.py:26 | `range(lo, hi)` has `hi - lo` elements (none when `hi <= lo`), and element `i` is `lo + i` |
| RangeResolver.SpanSpec | src/pdfmerge.py:29-33 | an interval contributes exactly the indices its clamped bounds cover, in ascending order |
| RangeResolver.PageIndices | src/pdfmerge.py:23-39 | `page_indices` returns `ResolvedIndices` |
| RangeResolver.ExpandRanges | src/pdfmerge.py:27-33 | the first loop builds the clamped spans of the intervals, in interval order |
| RangeResolver.DropRepeats | src/pdfmerge.py:35-38 | the `seen`-set loop keeps exactly the first occurrence of each index |
| RangeResolver.ExpandedSnoc | src/pdfmerge.py:28-33 | one more interval appends its span when `s0 <= e0`, and nothing otherwise |
| RangeResolver.DedupSnoc | src/pdfmerge.py:36-38 | one more index is appended iff it was not seen before |
| RangeResolver.DedupElems | src/pdfmerge.py:34-38 | deduplication keeps every element of its input and adds none |
| RangeResolver.DedupDistinct | src/pdfmerge.py:34-38 | deduplication leaves no index twice |
| RangeResolver.DedupOrder | src/pdfmerge.py:34-38 | the kept indices are in the order of their first occurrence |
| RangeResolver.DedupOfDistinct | src/pdfmerge.py:34-38 | a list without repeats is left unchanged |
| RangeResolver.ExpandedCovers | src/pdfmerge.py:28-33 | an index is expanded iff some clamped interval covers it |
| RangeResolver.ResolvedCoverage | src/pdfmerge.py:25-38 | a page is selected iff some interval covers it, or, without intervals, iff it is a page of the document |
| RangeResolver.ResolvedInBounds | src/pdfmerge.py:25-38 | every selected index is below the page count |
| RangeResolver.ResolvedDistinct | src/pdfmerge.py:25-38 | no page is selected twice |
| RangeResolver.ResolvedOrder | src/pdfmerge.py:34-38 | with intervals, pages come in the order the intervals first reach them, not in document order |
| RangeResolver.NoIntervalsSelectsAll | src/pdfmerge.py:25-26 | no intervals select pages `0 .. total-1` in order |
| RangeResolver.SingleIntervalIsSpan | src/pdfmerge.py:28-33 | one interval selects its clamped pages in ascending order |
| RangeResolver.OpenIntervalSelectsAll | src/pdfmerge.py:29-33 | the interval with both ends open selects the same pages as no interval at all |
| Merge.ExitCode | src/pdfmerge.py:53-55 | status 2 iff the range count is wrong, and 1 for every other failure |
| Merge.Writer.constructor | src/pdfmerge.py:67 | a new writer has no pages, no outline, no information entries and no metadata call |
| Merge.Writer.AddPage | src/pdfmerge.py:103 | the page goes after every written page, and nothing else changes |
| Merge.Writer.AddOutlineItem | src/pdfmerge.py:112 | the entry goes after every existing entry, and nothing else changes |
| Merge.Writer.AddMetadata | src/pdfmerge.py:122 | the entries are merged into the information map, newer values win, and the call is counted |
| Merge.NormalizeRanges | src/pdfmerge.py:57-65 | every input gets no range, the single range, or the range at its own position |
| Merge.Zip | src/pdfmerge.py:69 | `zip` pairs inputs and ranges by position, as many as the shorter list has |
| Merge.BasenameSpec | src/pdfmerge.py:110 | the bookmark title is the path's slash-free suffix after its last `/` |
| Merge.AppendPicked | src/pdfmerge.py:101-103 | the pages at the resolved indices are appended in index order, and nothing else changes |
| Merge.AppendAll | src/pdfmerge.py:104-106 | every page of the input is appended in document order, and nothing else changes |
| Merge.AddSource | src/pdfmerge.py:93-112 | the writer is left as `AddSourceSpec` describes: pages appended, then the bookmark at the offset computed in the code |
| Merge.RecognisedInfo | src/pdfmerge.py:117-120 | the filter loop builds `InfoFor(meta)` |
| Merge.ApplyMetadata | src/pdfmerge.py:115-122 | the writer is left as `WithMetadata` describes |
| Merge.AddInput | src/pdfmerge.py:70-112 | one loop iteration fails, skips or adds the input exactly as `MergeInput` says |
| Merge.MergeAll | src/pdfmerge.py:69-112 | the input loop leaves the writer as `MergeInputs` says, or returns the first failure |
| Merge.Run | src/pdfmerge.py:53-126 | a run ends with `ExpectedOutcome(cfg, files)` |
| Merge.MergeInputsStep | src/pdfmerge.py:69-112 | one more input is merged into the writer that the earlier inputs produced |
| Merge.MergeInputsErrorPersists | src/pdfmerge.py:70-91 | a failure on an input ends the run with that failure, whatever follows |
| Merge.JobsForInputs | src/pdfmerge.py:57-69 | after an accepted count check, every input is processed once, in order, with its own range text |
| Merge.MergeInputsNoMismatch | src/pdfmerge.py:69-112 | the input loop never fails with the range-count failure |
| Merge.RangeCountCheckedFirst | src/pdfmerge.py:53-55 | a bad count of `-r` values fails the run whatever the files are, and is the only cause of exit status 2 |
| Merge.PickSpec | src/pdfmerge.py:101-103 | picking yields one page per index, the page at that index |
| Merge.SelectionSpec | src/pdfmerge.py:93-106 | an input contributes all its pages without intervals, otherwise the pages at its resolved indices, in order |
| Merge.AddSourceAppends | src/pdfmerge.py:101-112 | adding an input only appends; the bookmark offset computed in the code equals the page count before the input |
| Merge.MergeInputContribute | src/pdfmerge.py:69-112 | one iteration depends on the input alone: same failure, or the writer grown by that input's contribution |
| Merge.MergeMatchesContributions | src/pdfmerge.py:69-112 | the loop fails with the first failing input; otherwise the output pages are the inputs' selections concatenated, with each bookmark at the page count written before its input |
| Merge.SkippedInputLeavesNoTrace | src/pdfmerge.py:78-88 | an excluded encrypted input adds no page and no bookmark |
| Merge.FatalInputAbortsRun | src/pdfmerge.py:70-91 | a missing input, or an encrypted input when encrypted inputs are not excluded, fails the whole run with status 1, and nothing is saved |
| Merge.SingleInputReproducesDocument | src/pdfmerge.py:53-126 | one readable input with no range, bookmark or metadata is saved with exactly its pages, in order |
| Merge.InfoFromSpec | src/pdfmerge.py:117-120 | for listed keys: `/Key` is stored iff `Key` is in the object, with its value, and nothing else is stored |
| Merge.InfoForSpec | src/pdfmerge.py:115-121 | exactly the recognised keys present are stored under `/Key`, other keys are ignored, and the result is empty iff none is present |
| Merge.MetadataCalledIff | src/pdfmerge.py:121-122 | `add_metadata` is called once iff the object holds a recognised key, and pages and outline are untouched |

## Left out

- Argument parsing (`argparse`) is not modelled. The parsed options are the `Config` value.
- Console output is not modelled: the `-q`/`-v` messages, the progress line at lines 96-98, and the text of the error messages. The failures keep their kind and path, and `ExitCode` gives their status.
- The PDF library is opaque here. Reading and writing PDF bytes, pypdf's page objects and its default `/Producer` information entry are left out. Pages are opaque ids and the written file is the `Saved` outcome.
- Decryption is a single boolean. The source tries `decrypt("")` and catches either an exception from it or `FileNotDecryptedError` from loading (lines 72-91). The model collapses both into `decryptsWithEmptyPassword`. pypdf's own signalling of a wrong password, and an error raised when pages of a still-encrypted file are read, are not modelled.
- JSON decoding of `-m` (line 116) is not modelled. The option is its decoded object with string values. Invalid JSON and a JSON value that is not an object are not modelled.
- Text.ParseInt: the model takes ASCII whitespace, an optional sign and decimal digits. Python's `int()` also accepts underscores between digits, non-ASCII whitespace and non-ASCII digits. The model does not accept them.
- Text.ParseInt: the model accepts digit strings of any length. CPython 3.11 and later (and the 3.7-3.10 security releases) raise `ValueError` on more than 4300 digits by default. Such a token would make the program exit with status 1. The limit is left out because it depends on the interpreter version and is configurable (`PYTHONINTMAXSTRDIGITS`).
- Text.Strip: `strip()` removes only the ASCII whitespace of `Text.IsSpace` (space, 9-13, 28-31). Python also strips non-ASCII whitespace such as U+00A0. So a token `"\u00A05"` is `(5, 5)` in Python and is rejected in the model.
- A corrupt or unreadable input file and a failure while writing the output file (lines 125-126) are not modelled.
- What pypdf does with a bookmark whose offset has no page is not modelled. This happens when a range selects nothing from an input. The model records the entry with the offset the code computes.
