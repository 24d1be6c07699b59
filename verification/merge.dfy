/**
 * The merge driver (`main` after argument parsing): the range-count check and
 * normalisation, the per-input loop that appends pages and bookmarks to the
 * output writer, the metadata filter, and the run's outcome.
 *
 * The PDF library is abstract: a file is an encryption status plus a sequence
 * of opaque page ids, the file system is a map from path to file (a path
 * outside the map does not exist), and the writer is an accumulator of pages,
 * outline items and metadata entries.
 */
module Merge {
  import opened Wrappers
  import opened Text
  import opened RangeParser
  import opened RangeResolver

  /** A page of some input document, compared by identity only. */
  type PageId = nat

  /** What the PDF library reports about an existing input file. */
  datatype PdfFile = PdfFile(encrypted: bool, decryptsWithEmptyPassword: bool, pages: seq<PageId>)

  /** An encrypted file the empty password does not open. */
  predicate Undecryptable(f: PdfFile) {
    f.encrypted && !f.decryptsWithEmptyPassword
  }

  /**
   * The parsed command line: the inputs, `-o`, the `-r` values in order
   * (empty when none was given), `-b`, the object `-m` decodes to (`None`
   * when it was not given) and `-e`.
   */
  datatype Config = Config(
    inputs: seq<string>,
    output: string,
    ranges: seq<string>,
    bookmarks: bool,
    metadata: Option<map<string, string>>,
    excludeEncrypted: bool)

  /** A top-level outline entry: its title and the 0-based output page it points at. */
  datatype Bookmark = Bookmark(title: string, offset: int)

  /** Everything the writer has accumulated, as written to the output file. */
  datatype Document = Document(
    pages: seq<PageId>,
    outline: seq<Bookmark>,
    info: map<string, string>,
    metadataCalls: nat)

  function EmptyDocument(): Document {
    Document([], [], map[], 0)
  }

  /** Why a run stops without writing anything. */
  datatype Failure =
    | RangeCountMismatch
    | MissingFile(path: string)
    | EncryptedFile(path: string)
    | InvalidRange(text: string)

  /** The process exit status: 2 for the range-count check, 1 for a fatal input (an uncaught `ValueError` included). */
  function ExitCode(f: Failure): (code: nat)
    ensures code == 2 <==> f.RangeCountMismatch?
    ensures code == 1 <==> !f.RangeCountMismatch?
  {
    if f.RangeCountMismatch? then 2 else 1
  }

  /** How a run ends: with a failure, or with the document serialised once to the output path. */
  datatype Outcome = Failed(failure: Failure) | Saved(path: string, doc: Document)

  // ----- The output writer -----

  /** The output accumulator (`PdfWriter`): pages, outline items and metadata, appended in call order. */
  class Writer {
    var pages: seq<PageId>
    var outline: seq<Bookmark>
    var info: map<string, string>
    var metadataCalls: nat

    function Snapshot(): Document
      reads this
    {
      Document(pages, outline, info, metadataCalls)
    }

    constructor ()
      ensures Snapshot() == EmptyDocument()
    {
      pages := [];
      outline := [];
      info := map[];
      metadataCalls := 0;
    }

    /** `add_page`: the page goes after every page already written. */
    method AddPage(p: PageId)
      modifies this
      ensures pages == old(pages) + [p]
      ensures outline == old(outline) && info == old(info) && metadataCalls == old(metadataCalls)
    {
      pages := pages + [p];
    }

    /** `add_outline_item`: a top-level entry after every entry already written. */
    method AddOutlineItem(title: string, offset: int)
      modifies this
      ensures outline == old(outline) + [Bookmark(title, offset)]
      ensures pages == old(pages) && info == old(info) && metadataCalls == old(metadataCalls)
    {
      outline := outline + [Bookmark(title, offset)];
    }

    /** `add_metadata`: the entries are merged into the document information, newer values winning. */
    method AddMetadata(entries: map<string, string>)
      modifies this
      ensures info == old(info) + entries && metadataCalls == old(metadataCalls) + 1
      ensures pages == old(pages) && outline == old(outline)
    {
      info := info + entries;
      metadataCalls := metadataCalls + 1;
    }
  }

  // ----- Range-count normalisation -----

  /** The `-r` values are acceptable: none, one for all inputs, or one per input. */
  predicate RangeCountOk(inputCount: nat, given: seq<string>) {
    given == [] || |given| == 1 || |given| == inputCount
  }

  /** The range text for each input: none, the single one broadcast, or the given list as is. */
  function NormalizeRanges(inputCount: nat, given: seq<string>): (ranges: seq<Option<string>>)
    requires RangeCountOk(inputCount, given)
    ensures |ranges| == inputCount
    ensures given == [] ==> forall i :: 0 <= i < inputCount ==> ranges[i] == None
    ensures |given| == 1 ==> forall i :: 0 <= i < inputCount ==> ranges[i] == Some(given[0])
    ensures |given| == inputCount ==> forall i :: 0 <= i < inputCount ==> ranges[i] == Some(given[i])
  {
    if given == [] then seq(inputCount, _ => None)
    else if |given| == 1 then seq(inputCount, _ => Some(given[0]))
    else seq(inputCount, i requires 0 <= i < inputCount => Some(given[i]))
  }

  /** One iteration of the input loop: a path and the range text that goes with it. */
  datatype Job = Job(path: string, range: Option<string>)

  /** Python's `zip`: pairs by position, as many as the shorter list has. */
  function Zip(inputs: seq<string>, ranges: seq<Option<string>>): (jobs: seq<Job>)
    ensures |jobs| == if |inputs| < |ranges| then |inputs| else |ranges|
    ensures forall i :: 0 <= i < |jobs| ==> jobs[i] == Job(inputs[i], ranges[i])
  {
    if inputs == [] || ranges == [] then [] else [Job(inputs[0], ranges[0])] + Zip(inputs[1..], ranges[1..])
  }

  // ----- One input -----

  /** `os.path.basename`: what follows the last `/`. */
  function Basename(path: string): string {
    if path == [] || path[|path| - 1] == '/' then []
    else Basename(path[..|path| - 1]) + [path[|path| - 1]]
  }

  lemma {:induction false} BasenameSpec(path: string)
    ensures |Basename(path)| <= |path| && Basename(path) == path[|path| - |Basename(path)|..]
    ensures '/' !in Basename(path)
    ensures |Basename(path)| < |path| ==> path[|path| - |Basename(path)| - 1] == '/'
  {
    if path != [] && path[|path| - 1] != '/' {
      var init := path[..|path| - 1];
      BasenameSpec(init);
      assert path[|path| - |Basename(path)|..] == init[|init| - |Basename(init)|..] + [path[|path| - 1]];
    }
  }

  /** The intervals for one input: a missing or empty range text selects everything. */
  function RangeOf(r: Option<string>): Result<seq<Interval>, string> {
    if r.None? || r.value == [] then Ok([]) else ParseRangeSpec(r.value)
  }

  /** The pages at the given positions, in the order of the positions. */
  function Pick(pages: seq<PageId>, indices: seq<nat>): seq<PageId>
    requires forall i :: 0 <= i < |indices| ==> indices[i] < |pages|
  {
    if indices == [] then []
    else Pick(pages, indices[..|indices| - 1]) + [pages[indices[|indices| - 1]]]
  }

  /** The pages an input contributes: the resolved indices when there are intervals, otherwise every page. */
  function Selection(pages: seq<PageId>, rng: seq<Interval>): seq<PageId> {
    if rng == [] then pages
    else
      ResolvedInBounds(rng, |pages|);
      Pick(pages, ResolvedIndices(rng, |pages|))
  }

  /**
   * The writer after one readable input: its pages appended, then, with
   * bookmarks on, an outline item whose offset is computed as the program
   * writes it, the new page count minus the number of pages just added.
   */
  function AddSourceSpec(doc: Document, pages: seq<PageId>, rng: seq<Interval>, bookmarks: bool, title: string): Document {
    var count := if rng != [] then |ResolvedIndices(rng, |pages|)| else |pages|;
    var written := doc.pages + Selection(pages, rng);
    doc.(pages := written,
         outline := if bookmarks then doc.outline + [Bookmark(title, |written| - count)] else doc.outline)
  }

  /** One iteration of the input loop: fail, skip the input, or add it. */
  function MergeInput(doc: Document, job: Job, files: map<string, PdfFile>, cfg: Config): Result<Document, Failure> {
    if job.path !in files then Err(MissingFile(job.path))
    else
      var f := files[job.path];
      if Undecryptable(f) then
        if cfg.excludeEncrypted then Ok(doc) else Err(EncryptedFile(job.path))
      else
        match RangeOf(job.range)
        case Err(bad) => Err(InvalidRange(bad))
        case Ok(rng) => Ok(AddSourceSpec(doc, f.pages, rng, cfg.bookmarks, Basename(job.path)))
  }

  /** The input loop: the jobs in order, the first failure ending the run. */
  function MergeInputs(doc: Document, jobs: seq<Job>, files: map<string, PdfFile>, cfg: Config): Result<Document, Failure> {
    if jobs == [] then Ok(doc)
    else
      match MergeInputs(doc, jobs[..|jobs| - 1], files, cfg)
      case Err(e) => Err(e)
      case Ok(d) => MergeInput(d, jobs[|jobs| - 1], files, cfg)
  }

  // ----- Metadata -----

  /** The document-information keys the metadata option may set, in the order they are copied. */
  const RecognisedKeys: seq<string> := ["Title", "Author", "Subject", "Keywords"]

  /** The entries copied from `meta` for `keys`, each stored under `/Key`. */
  function InfoFrom(meta: map<string, string>, keys: seq<string>): map<string, string> {
    if keys == [] then map[]
    else
      var info, k := InfoFrom(meta, keys[..|keys| - 1]), keys[|keys| - 1];
      if k in meta then info["/" + k := meta[k]] else info
  }

  function InfoFor(meta: map<string, string>): map<string, string> {
    InfoFrom(meta, RecognisedKeys)
  }

  /** The writer after the metadata step: one `add_metadata` call, made only when some key was recognised. */
  function WithMetadata(doc: Document, metadata: Option<map<string, string>>): Document {
    if metadata.None? then doc
    else
      var info := InfoFor(metadata.value);
      if info == map[] then doc
      else doc.(info := doc.info + info, metadataCalls := doc.metadataCalls + 1)
  }

  /** What a run does, from the parsed configuration and the files it can see. */
  function ExpectedOutcome(cfg: Config, files: map<string, PdfFile>): Outcome {
    if !RangeCountOk(|cfg.inputs|, cfg.ranges) then Failed(RangeCountMismatch)
    else
      var jobs := Zip(cfg.inputs, NormalizeRanges(|cfg.inputs|, cfg.ranges));
      match MergeInputs(EmptyDocument(), jobs, files, cfg)
      case Err(e) => Failed(e)
      case Ok(doc) => Saved(cfg.output, WithMetadata(doc, cfg.metadata))
  }

  // ----- The program's steps -----

  /** The `add_page` loop over the resolved indices. */
  method AppendPicked(writer: Writer, pages: seq<PageId>, indices: seq<nat>)
    requires forall i :: 0 <= i < |indices| ==> indices[i] < |pages|
    modifies writer
    ensures writer.Snapshot() == old(writer.Snapshot()).(pages := old(writer.pages) + Pick(pages, indices))
  {
    var j := 0;
    while j < |indices|
      invariant 0 <= j <= |indices|
      invariant writer.Snapshot() == old(writer.Snapshot()).(pages := old(writer.pages) + Pick(pages, indices[..j]))
    {
      assert indices[..j + 1][..j] == indices[..j];
      writer.AddPage(pages[indices[j]]);
      j := j + 1;
    }
    assert indices[..j] == indices;
  }

  /** The `add_page` loop over every page of the input, in document order. */
  method AppendAll(writer: Writer, pages: seq<PageId>)
    modifies writer
    ensures writer.Snapshot() == old(writer.Snapshot()).(pages := old(writer.pages) + pages)
  {
    var j := 0;
    while j < |pages|
      invariant 0 <= j <= |pages|
      invariant writer.Snapshot() == old(writer.Snapshot()).(pages := old(writer.pages) + pages[..j])
    {
      assert pages[..j + 1] == pages[..j] + [pages[j]];
      writer.AddPage(pages[j]);
      j := j + 1;
    }
    assert pages[..j] == pages;
  }

  /** The body of the input loop for a readable input: add its pages, then its bookmark. */
  method AddSource(writer: Writer, pages: seq<PageId>, rng: seq<Interval>, bookmarks: bool, title: string)
    modifies writer
    ensures writer.Snapshot() == AddSourceSpec(old(writer.Snapshot()), pages, rng, bookmarks, title)
  {
    var total := |pages|;
    var indices := PageIndices(rng, total);
    ResolvedInBounds(rng, total);
    if rng != [] {
      AppendPicked(writer, pages, indices);
    } else {
      AppendAll(writer, pages);
    }
    if bookmarks {
      var start := |writer.pages| - (if rng != [] then |indices| else total);
      writer.AddOutlineItem(title, start);
    }
  }

  /** The metadata filter: copy the recognised keys that are present, each under `/Key`. */
  method RecognisedInfo(meta: map<string, string>) returns (info: map<string, string>)
    ensures info == InfoFor(meta)
  {
    info := map[];
    var keys := RecognisedKeys;
    var n := 0;
    while n < |keys|
      invariant 0 <= n <= |keys|
      invariant info == InfoFrom(meta, keys[..n])
    {
      var k := keys[n];
      assert keys[..n + 1][..n] == keys[..n];
      if k in meta {
        info := info["/" + k := meta[k]];
      }
      n := n + 1;
    }
    assert keys[..n] == keys;
  }

  /** The metadata step after the input loop. */
  method ApplyMetadata(writer: Writer, metadata: Option<map<string, string>>)
    modifies writer
    ensures writer.Snapshot() == WithMetadata(old(writer.Snapshot()), metadata)
  {
    if metadata.Some? {
      var info := RecognisedInfo(metadata.value);
      if info != map[] {
        writer.AddMetadata(info);
      }
    }
  }

  /**
   * One iteration of the input loop: a missing file or an undecryptable one
   * (unless excluded) stops the run, as does a range `int()` rejects;
   * otherwise the input's pages and bookmark are added.
   */
  method AddInput(writer: Writer, job: Job, files: map<string, PdfFile>, cfg: Config) returns (failure: Option<Failure>)
    modifies writer
    ensures failure.None? ==> MergeInput(old(writer.Snapshot()), job, files, cfg) == Ok(writer.Snapshot())
    ensures failure.Some? ==> MergeInput(old(writer.Snapshot()), job, files, cfg) == Err(failure.value)
  {
    if job.path !in files {
      return Some(MissingFile(job.path));
    }
    var f := files[job.path];
    if f.encrypted && !f.decryptsWithEmptyPassword {
      if cfg.excludeEncrypted {
        return None;
      }
      return Some(EncryptedFile(job.path));
    }
    var rng: seq<Interval> := [];
    if job.range.Some? && job.range.value != [] {
      var parsed := ParseRange(job.range.value);
      match parsed {
        case Err(bad) =>
          return Some(InvalidRange(bad));
        case Ok(intervals) =>
          rng := intervals;
      }
    }
    AddSource(writer, f.pages, rng, cfg.bookmarks, Basename(job.path));
    return None;
  }

  /** The input loop: each job in order, stopping at the first failure. */
  method MergeAll(writer: Writer, jobs: seq<Job>, files: map<string, PdfFile>, cfg: Config) returns (failure: Option<Failure>)
    modifies writer
    ensures failure.None? ==> MergeInputs(old(writer.Snapshot()), jobs, files, cfg) == Ok(writer.Snapshot())
    ensures failure.Some? ==> MergeInputs(old(writer.Snapshot()), jobs, files, cfg) == Err(failure.value)
  {
    ghost var start := writer.Snapshot();
    var i := 0;
    while i < |jobs|
      invariant 0 <= i <= |jobs|
      invariant MergeInputs(start, jobs[..i], files, cfg) == Ok(writer.Snapshot())
    {
      MergeInputsStep(start, jobs, i, files, cfg);
      failure := AddInput(writer, jobs[i], files, cfg);
      if failure.Some? {
        assert MergeInputs(start, jobs[..i + 1], files, cfg) == Err(failure.value);
        MergeInputsErrorPersists(start, jobs, i + 1, files, cfg);
        return;
      }
      assert MergeInputs(start, jobs[..i + 1], files, cfg) == Ok(writer.Snapshot());
      i := i + 1;
    }
    assert jobs[..i] == jobs;
    return None;
  }

  /** `main` from the range-count check to the final write. */
  method Run(cfg: Config, files: map<string, PdfFile>) returns (outcome: Outcome)
    ensures outcome == ExpectedOutcome(cfg, files)
  {
    if cfg.ranges != [] && |cfg.ranges| != 1 && |cfg.ranges| != |cfg.inputs| {
      return Failed(RangeCountMismatch);
    }
    var ranges := NormalizeRanges(|cfg.inputs|, cfg.ranges);
    var writer := new Writer();
    var failure := MergeAll(writer, Zip(cfg.inputs, ranges), files, cfg);
    if failure.Some? {
      return Failed(failure.value);
    }
    ApplyMetadata(writer, cfg.metadata);
    outcome := Saved(cfg.output, writer.Snapshot());
  }

  /** The input loop's step: one more job is merged into the writer the earlier jobs produced. */
  lemma MergeInputsStep(doc: Document, jobs: seq<Job>, i: nat, files: map<string, PdfFile>, cfg: Config)
    requires i < |jobs| && MergeInputs(doc, jobs[..i], files, cfg).Ok?
    ensures MergeInputs(doc, jobs[..i + 1], files, cfg) ==
      MergeInput(MergeInputs(doc, jobs[..i], files, cfg).value, jobs[i], files, cfg)
  {
    assert jobs[..i + 1][..i] == jobs[..i];
  }

  /** Once the loop fails on a prefix of the inputs, the run fails with that failure. */
  lemma {:induction false} MergeInputsErrorPersists(doc: Document, jobs: seq<Job>, n: nat, files: map<string, PdfFile>, cfg: Config)
    requires n <= |jobs| && MergeInputs(doc, jobs[..n], files, cfg).Err?
    ensures MergeInputs(doc, jobs, files, cfg) == MergeInputs(doc, jobs[..n], files, cfg)
    decreases |jobs| - n
  {
    if n < |jobs| {
      assert jobs[..n + 1][..n] == jobs[..n];
      MergeInputsErrorPersists(doc, jobs, n + 1, files, cfg);
    } else {
      assert jobs[..n] == jobs;
    }
  }

  // ----- Properties of the merge -----

  /** Each input is paired with its own range text: none, the single one, or the one at its position. */
  lemma JobsForInputs(cfg: Config)
    requires RangeCountOk(|cfg.inputs|, cfg.ranges)
    ensures var jobs := Zip(cfg.inputs, NormalizeRanges(|cfg.inputs|, cfg.ranges));
      |jobs| == |cfg.inputs| &&
      forall i :: 0 <= i < |jobs| ==>
        (jobs[i].path == cfg.inputs[i] &&
         jobs[i].range == if cfg.ranges == [] then None
                          else if |cfg.ranges| == 1 then Some(cfg.ranges[0])
                          else Some(cfg.ranges[i]))
  {
  }

  /** The loop never reports a range-count failure: only the check before it does. */
  lemma {:induction false} MergeInputsNoMismatch(doc: Document, jobs: seq<Job>, files: map<string, PdfFile>, cfg: Config)
    ensures MergeInputs(doc, jobs, files, cfg).Err? ==> !MergeInputs(doc, jobs, files, cfg).error.RangeCountMismatch?
  {
    if jobs != [] {
      MergeInputsNoMismatch(doc, jobs[..|jobs| - 1], files, cfg);
    }
  }

  /**
   * A bad number of `-r` values stops the run with exit status 2 whatever the
   * files are, and it is the only way to get that status.
   */
  lemma RangeCountCheckedFirst(cfg: Config, files: map<string, PdfFile>)
    ensures ExpectedOutcome(cfg, files) == Failed(RangeCountMismatch) <==> !RangeCountOk(|cfg.inputs|, cfg.ranges)
    ensures ExpectedOutcome(cfg, files).Failed? ==>
      (ExitCode(ExpectedOutcome(cfg, files).failure) == 2 <==> !RangeCountOk(|cfg.inputs|, cfg.ranges))
  {
    if RangeCountOk(|cfg.inputs|, cfg.ranges) {
      MergeInputsNoMismatch(EmptyDocument(), Zip(cfg.inputs, NormalizeRanges(|cfg.inputs|, cfg.ranges)), files, cfg);
    }
  }

  /** Picking positions yields one page per position, the page at that position. */
  lemma {:induction false} PickSpec(pages: seq<PageId>, indices: seq<nat>)
    requires forall i :: 0 <= i < |indices| ==> indices[i] < |pages|
    ensures |Pick(pages, indices)| == |indices|
    ensures forall i :: 0 <= i < |indices| ==> Pick(pages, indices)[i] == pages[indices[i]]
  {
    if indices != [] {
      PickSpec(pages, indices[..|indices| - 1]);
    }
  }

  /** An input contributes every page in order without intervals, otherwise the pages at its resolved indices. */
  lemma SelectionSpec(pages: seq<PageId>, rng: seq<Interval>)
    ensures rng == [] ==> Selection(pages, rng) == pages
    ensures rng != [] ==> |Selection(pages, rng)| == |ResolvedIndices(rng, |pages|)|
    ensures rng != [] ==> forall i :: 0 <= i < |Selection(pages, rng)| ==>
      ResolvedIndices(rng, |pages|)[i] < |pages| && Selection(pages, rng)[i] == pages[ResolvedIndices(rng, |pages|)[i]]
  {
    if rng != [] {
      ResolvedInBounds(rng, |pages|);
      PickSpec(pages, ResolvedIndices(rng, |pages|));
    }
  }

  /**
   * Adding an input appends its selected pages and changes nothing else
   * written so far; its bookmark, as computed by the program, points at the
   * page count before the input, which is where its first page lands.
   */
  lemma AddSourceAppends(doc: Document, pages: seq<PageId>, rng: seq<Interval>, bookmarks: bool, title: string)
    ensures AddSourceSpec(doc, pages, rng, bookmarks, title) ==
      doc.(pages := doc.pages + Selection(pages, rng),
           outline := doc.outline + if bookmarks then [Bookmark(title, |doc.pages|)] else [])
  {
    SelectionSpec(pages, rng);
  }

  /** What one input contributes to the output, when it does not stop the run. */
  datatype Contribution = Skipped | Included(title: string, pages: seq<PageId>)

  /** One input on its own, independently of what came before it. */
  function Contribute(job: Job, files: map<string, PdfFile>, cfg: Config): Result<Contribution, Failure> {
    if job.path !in files then Err(MissingFile(job.path))
    else if Undecryptable(files[job.path]) then
      if cfg.excludeEncrypted then Ok(Skipped) else Err(EncryptedFile(job.path))
    else
      match RangeOf(job.range)
      case Err(bad) => Err(InvalidRange(bad))
      case Ok(rng) => Ok(Included(Basename(job.path), Selection(files[job.path].pages, rng)))
  }

  /** Every input's contribution in order, or the first input's failure. */
  function Contributions(jobs: seq<Job>, files: map<string, PdfFile>, cfg: Config): Result<seq<Contribution>, Failure> {
    if jobs == [] then Ok([])
    else
      match Contributions(jobs[..|jobs| - 1], files, cfg)
      case Err(e) => Err(e)
      case Ok(cs) =>
        match Contribute(jobs[|jobs| - 1], files, cfg)
        case Err(e) => Err(e)
        case Ok(c) => Ok(cs + [c])
  }

  /** The pages contributed, one input after the other. */
  function PagesOf(cs: seq<Contribution>): seq<PageId> {
    if cs == [] then []
    else (if cs[0].Included? then cs[0].pages else []) + PagesOf(cs[1..])
  }

  /** One bookmark per included input, at `offset` plus the pages of the inputs before it. */
  function MarksOf(cs: seq<Contribution>, offset: int): seq<Bookmark> {
    if cs == [] then []
    else if cs[0].Included? then [Bookmark(cs[0].title, offset)] + MarksOf(cs[1..], offset + |cs[0].pages|)
    else MarksOf(cs[1..], offset)
  }

  lemma {:induction false} PagesOfSnoc(cs: seq<Contribution>, c: Contribution)
    ensures PagesOf(cs + [c]) == PagesOf(cs) + if c.Included? then c.pages else []
  {
    if cs != [] {
      assert (cs + [c])[1..] == cs[1..] + [c];
      PagesOfSnoc(cs[1..], c);
    }
  }

  lemma {:induction false} MarksOfSnoc(cs: seq<Contribution>, c: Contribution, offset: int)
    ensures MarksOf(cs + [c], offset) ==
      MarksOf(cs, offset) + if c.Included? then [Bookmark(c.title, offset + |PagesOf(cs)|)] else []
  {
    if cs != [] {
      assert (cs + [c])[1..] == cs[1..] + [c];
      var next := if cs[0].Included? then offset + |cs[0].pages| else offset;
      MarksOfSnoc(cs[1..], c, next);
    }
  }

  /** The writer after a contribution: its pages appended and, with bookmarks on, its bookmark at the prior page count. */
  function Grow(doc: Document, c: Contribution, bookmarks: bool): Document {
    doc.(pages := doc.pages + (if c.Included? then c.pages else []),
         outline := doc.outline + if c.Included? && bookmarks then [Bookmark(c.title, |doc.pages|)] else [])
  }

  /** The writer after a list of contributions, in closed form. */
  function Grown(doc: Document, cs: seq<Contribution>, bookmarks: bool): Document {
    doc.(pages := doc.pages + PagesOf(cs),
         outline := doc.outline + if bookmarks then MarksOf(cs, |doc.pages|) else [])
  }

  lemma GrownSnoc(doc: Document, cs: seq<Contribution>, c: Contribution, bookmarks: bool)
    ensures Grown(doc, cs + [c], bookmarks) == Grow(Grown(doc, cs, bookmarks), c, bookmarks)
  {
    PagesOfSnoc(cs, c);
    MarksOfSnoc(cs, c, |doc.pages|);
  }

  /** One input, step by step and on its own: the same failure, or the writer grown by its contribution. */
  lemma MergeInputContribute(doc: Document, job: Job, files: map<string, PdfFile>, cfg: Config)
    ensures MergeInput(doc, job, files, cfg) == match Contribute(job, files, cfg)
      case Err(e) => Err(e)
      case Ok(c) => Ok(Grow(doc, c, cfg.bookmarks))
  {
    if job.path in files && !Undecryptable(files[job.path]) && RangeOf(job.range).Ok? {
      var pages, rng, title := files[job.path].pages, RangeOf(job.range).value, Basename(job.path);
      AddSourceAppends(doc, pages, rng, cfg.bookmarks, title);
      assert Contribute(job, files, cfg) == Ok(Included(title, Selection(pages, rng)));
      assert MergeInput(doc, job, files, cfg) == Ok(AddSourceSpec(doc, pages, rng, cfg.bookmarks, title));
    } else {
      assert doc.pages + [] == doc.pages && doc.outline + [] == doc.outline;
    }
  }

  /**
   * The input loop in closed form: it fails exactly when some input fails,
   * with the first failure; otherwise the output pages are the inputs'
   * selected pages one after the other, skipped inputs adding nothing, and
   * each included input's bookmark points at the number of pages written
   * before it.
   */
  lemma {:induction false} MergeMatchesContributions(doc: Document, jobs: seq<Job>, files: map<string, PdfFile>, cfg: Config)
    ensures MergeInputs(doc, jobs, files, cfg) == match Contributions(jobs, files, cfg)
      case Err(e) => Err(e)
      case Ok(cs) => Ok(Grown(doc, cs, cfg.bookmarks))
  {
    if jobs != [] {
      var init, job := jobs[..|jobs| - 1], jobs[|jobs| - 1];
      MergeMatchesContributions(doc, init, files, cfg);
      if Contributions(init, files, cfg).Ok? {
        var cs := Contributions(init, files, cfg).value;
        var d := Grown(doc, cs, cfg.bookmarks);
        assert MergeInputs(doc, jobs, files, cfg) == MergeInput(d, job, files, cfg);
        MergeInputContribute(d, job, files, cfg);
        if Contribute(job, files, cfg).Ok? {
          var c := Contribute(job, files, cfg).value;
          assert Contributions(jobs, files, cfg) == Ok(cs + [c]);
          GrownSnoc(doc, cs, c, cfg.bookmarks);
        }
      }
    } else {
      assert doc.pages + [] == doc.pages && doc.outline + [] == doc.outline;
    }
  }

  /** A skipped encrypted input adds no page and no bookmark. */
  lemma SkippedInputLeavesNoTrace(doc: Document, job: Job, files: map<string, PdfFile>, cfg: Config)
    requires job.path in files && Undecryptable(files[job.path]) && cfg.excludeEncrypted
    ensures Contribute(job, files, cfg) == Ok(Skipped)
    ensures MergeInput(doc, job, files, cfg) == Ok(doc)
  {
  }

  /** If the input at position `k` cannot be used, the run fails with exit status 1 and writes nothing. */
  lemma {:induction false} FatalInputAbortsRun(cfg: Config, files: map<string, PdfFile>, k: nat)
    requires RangeCountOk(|cfg.inputs|, cfg.ranges) && k < |cfg.inputs|
    requires cfg.inputs[k] !in files || (Undecryptable(files[cfg.inputs[k]]) && !cfg.excludeEncrypted)
    ensures ExpectedOutcome(cfg, files).Failed?
    ensures ExitCode(ExpectedOutcome(cfg, files).failure) == 1
  {
    var jobs := Zip(cfg.inputs, NormalizeRanges(|cfg.inputs|, cfg.ranges));
    assert jobs[..k + 1][..k] == jobs[..k];
    MergeInputsErrorPersists(EmptyDocument(), jobs, k + 1, files, cfg);
    MergeInputsNoMismatch(EmptyDocument(), jobs, files, cfg);
  }

  /** Merging one readable input with no range, bookmarks or metadata reproduces its pages in order. */
  lemma SingleInputReproducesDocument(cfg: Config, files: map<string, PdfFile>)
    requires |cfg.inputs| == 1 && cfg.ranges == [] && !cfg.bookmarks && cfg.metadata.None?
    requires cfg.inputs[0] in files && !Undecryptable(files[cfg.inputs[0]])
    ensures ExpectedOutcome(cfg, files) == Saved(cfg.output, EmptyDocument().(pages := files[cfg.inputs[0]].pages))
  {
    var jobs := Zip(cfg.inputs, NormalizeRanges(1, cfg.ranges));
    var pages := files[cfg.inputs[0]].pages;
    assert jobs == [Job(cfg.inputs[0], None)];
    assert jobs[..0] == [];
    assert MergeInputs(EmptyDocument(), jobs, files, cfg) == MergeInput(EmptyDocument(), jobs[0], files, cfg);
    AddSourceAppends(EmptyDocument(), pages, [], false, Basename(cfg.inputs[0]));
    assert [] + pages == pages;
  }

  /** The entries copied for a list of keys: `/Key` for each listed key present in `meta`, with its value. */
  lemma {:induction false} InfoFromSpec(meta: map<string, string>, keys: seq<string>)
    ensures forall key :: key in keys ==> (("/" + key in InfoFrom(meta, keys)) <==> key in meta)
    ensures forall key :: key in keys && key in meta ==> InfoFrom(meta, keys)["/" + key] == meta[key]
    ensures forall k :: k in InfoFrom(meta, keys) ==> |k| > 0 && k[0] == '/' && k[1..] in keys && k[1..] in meta
  {
    if keys != [] {
      var init, last := keys[..|keys| - 1], keys[|keys| - 1];
      InfoFromSpec(meta, init);
      assert ("/" + last)[1..] == last;
      forall key | key in keys
        ensures ("/" + key)[1..] == key
      {
      }
    }
  }

  /**
   * The metadata filter: exactly the recognised keys present in the object
   * are stored, under `/Key` with their values; every stored key is `/`
   * followed by a recognised key, so other keys are ignored; and nothing is
   * stored when no recognised key is present.
   */
  lemma InfoForSpec(meta: map<string, string>)
    ensures forall key :: key in RecognisedKeys ==> (("/" + key in InfoFor(meta)) <==> key in meta)
    ensures forall key :: key in RecognisedKeys && key in meta ==> InfoFor(meta)["/" + key] == meta[key]
    ensures forall k :: k in InfoFor(meta) ==> |k| > 0 && k[0] == '/' && k[1..] in RecognisedKeys && k[1..] in meta
    ensures InfoFor(meta) == map[] <==> forall key :: key in RecognisedKeys ==> key !in meta
  {
    InfoFromSpec(meta, RecognisedKeys);
    if exists key :: key in RecognisedKeys && key in meta {
      var key :| key in RecognisedKeys && key in meta;
      assert "/" + key in InfoFor(meta);
    }
  }

  /** `add_metadata` is called, once, exactly when a metadata object holding a recognised key is given. */
  lemma MetadataCalledIff(doc: Document, metadata: Option<map<string, string>>)
    ensures WithMetadata(doc, metadata).metadataCalls ==
      doc.metadataCalls + if metadata.Some? && exists key :: key in RecognisedKeys && key in metadata.value then 1 else 0
    ensures WithMetadata(doc, metadata).pages == doc.pages && WithMetadata(doc, metadata).outline == doc.outline
  {
    if metadata.Some? {
      InfoForSpec(metadata.value);
    }
  }
}
