/** The terminal summary of src/pytest_memray/plugin.py
    (`pytest_terminal_summary` and `_report_records_for_test`): the results
    map, rebuilt from the metadata directory when this process ran no test,
    the tests ranked by peak memory, one block per shown test with its five
    biggest allocations, and the closing line about the trace files. */
module Summary {
  import opened Results
  import opened Text
  import opened OrderedMap
  import opened Sorting
  import Units
  import Marks
  import Histogram
  import Wrapper

  /** `N_TOP_ALLOCS`. */
  const TopAllocations: nat := 5

  /** `N_HISTOGRAM_BINS`. */
  const HistogramBins: nat := 5

  /** What `FileReader` reads from a trace file: its metadata and the
      allocation records at the high-water mark. */
  datatype Trace = Trace(meta: Wrapper.Meta, records: seq<Marks.Allocation>)

  /** The summary's settings: `--memray`, `--hide-memray-summary`,
      `--most-allocations`, whether this process created a temporary result
      directory (`_tmp_dir` is set),
      the result directory and the trace file prefix. */
  datatype Settings = Settings(memray: bool, hide: bool, mostAllocations: nat,
                               ownsTmpDir: bool, resultPath: string, prefix: string)

  /** The last stored record with test id `id`, if any. */
  function Latest(stored: seq<Wrapper.Record>, id: string): Option<Wrapper.Record> {
    if |stored| == 0 then None
    else if stored[|stored| - 1].testId == id then Some(stored[|stored| - 1])
    else Latest(stored[..|stored| - 1], id)
  }

  /** `self.results[result.test_id] = result` for each record in the order
      the metadata directory is listed. */
  function Load(stored: seq<Wrapper.Record>): (r: Entries<Wrapper.Record>)
    ensures UniqueKeys(r)
    ensures Keys(r) == set i | 0 <= i < |stored| :: stored[i].testId
  {
    if |stored| == 0 then []
    else
      var init := stored[..|stored| - 1];
      var last := stored[|stored| - 1];
      assert (set i | 0 <= i < |stored| :: stored[i].testId)
          == (set i | 0 <= i < |init| :: init[i].testId) + {last.testId};
      Set(Load(init), last.testId, last)
  }

  /** Loading the records finds, for each test id, the record listed last. */
  lemma {:induction false} LoadKeepsLatest(stored: seq<Wrapper.Record>, id: string)
    ensures Get(Load(stored), id) == Latest(stored, id)
  {
    if |stored| > 0 {
      var init := stored[..|stored| - 1];
      var last := stored[|stored| - 1];
      LoadKeepsLatest(init, id);
      GetSet(Load(init), last.testId, last, id);
    }
  }

  /** The results the summary works from: an empty map is rebuilt from the
      stored records (a worker process ran the tests); a non-empty map is
      kept as it is. */
  function Recover(results: Entries<Wrapper.Record>, stored: seq<Wrapper.Record>): (r: Entries<Wrapper.Record>)
    requires UniqueKeys(results)
    ensures UniqueKeys(r)
    ensures |results| > 0 ==> r == results
    ensures |results| == 0 ==> Keys(r) == set i | 0 <= i < |stored| :: stored[i].testId
    ensures |results| == 0 ==> forall id :: Get(r, id) == Latest(stored, id)
  {
    if |results| > 0 then results
    else
      forall id ensures Get(Load(stored), id) == Latest(stored, id) {
        LoadKeepsLatest(stored, id);
      }
      Load(stored)
  }

  /** The results whose trace file is still among `files`, in order. */
  function Existing(results: Entries<Wrapper.Record>, files: set<string>): (r: Entries<Wrapper.Record>)
    ensures |r| <= |results|
    ensures forall x :: x in r <==> x in results && x.1.resultFile in files
  {
    if |results| == 0 then []
    else
      var init := results[..|results| - 1];
      var last := results[|results| - 1];
      assert results == init + [last];
      Existing(init, files) + (if last.1.resultFile in files then [last] else [])
  }

  /** The filter keeps the map's order: filtering a concatenation
      concatenates the filtered parts. */
  lemma {:induction false} ExistingAppend(a: Entries<Wrapper.Record>, b: Entries<Wrapper.Record>, files: set<string>)
    ensures Existing(a + b, files) == Existing(a, files) + Existing(b, files)
    decreases |b|
  {
    if |b| == 0 {
      assert a + b == a;
    } else {
      var init := b[..|b| - 1];
      var last := b[|b| - 1];
      var tail := if last.1.resultFile in files then [last] else [];
      assert b == init + [last];
      assert a + b == (a + init) + [last];
      calc {
        Existing(a + b, files);
        { ExistingSnoc(a + init, last, files); }
        Existing(a + init, files) + tail;
        { ExistingAppend(a, init, files); }
        Existing(a, files) + Existing(init, files) + tail;
        { ExistingSnoc(init, last, files); }
        Existing(a, files) + Existing(b, files);
      }
    }
  }

  lemma ExistingSnoc(e: Entries<Wrapper.Record>, last: (string, Wrapper.Record), files: set<string>)
    ensures Existing(e + [last], files) == Existing(e, files) + (if last.1.resultFile in files then [last] else [])
  {
    assert (e + [last])[..|e|] == e;
  }

  /** Filtering a map with unique keys leaves them unique. */
  lemma {:induction false} ExistingUnique(results: Entries<Wrapper.Record>, files: set<string>)
    requires UniqueKeys(results)
    ensures UniqueKeys(Existing(results, files))
  {
    if |results| > 0 {
      var init := results[..|results| - 1];
      var last := results[|results| - 1];
      ExistingUnique(init, files);
      var e := Existing(init, files);
      forall i | 0 <= i < |e| ensures e[i].0 != last.0 {
        assert e[i] in init;
        var j :| 0 <= j < |init| && init[j] == e[i];
        assert results[j] == init[j];
      }
    }
  }

  /** `total_sizes`: test id and peak memory of each result with a trace file. */
  function Totals(results: Entries<Wrapper.Record>, files: set<string>): (t: seq<(string, nat)>)
    ensures var e := Existing(results, files);
      |t| == |e| && forall i :: 0 <= i < |e| ==> t[i] == (e[i].0, e[i].1.meta.peakMemory)
  {
    var e := Existing(results, files);
    seq(|e|, i requires 0 <= i < |e| => (e[i].0, e[i].1.meta.peakMemory))
  }

  function Peak(entry: (string, nat)): int {
    entry.1
  }

  /** The counter holds one entry per result with a trace file: its test
      id and peak memory, each id once. */
  lemma TotalsAreCounter(results: Entries<Wrapper.Record>, files: set<string>)
    requires UniqueKeys(results)
    ensures var t := Totals(results, files);
      forall i, j :: 0 <= i < j < |t| ==> t[i].0 != t[j].0
    ensures forall id, peak :: (id, peak) in Totals(results, files) <==>
      exists r :: (id, r) in results && r.resultFile in files && r.meta.peakMemory == peak
  {
    var e := Existing(results, files);
    var t := Totals(results, files);
    ExistingUnique(results, files);
    forall id, peak ensures (id, peak) in t <==>
      exists r :: (id, r) in results && r.resultFile in files && r.meta.peakMemory == peak
    {
      if (id, peak) in t {
        var i :| 0 <= i < |t| && t[i] == (id, peak);
        assert e[i] in e;
      }
      if exists r :: (id, r) in results && r.resultFile in files && r.meta.peakMemory == peak {
        var r :| (id, r) in results && r.resultFile in files && r.meta.peakMemory == peak;
        assert (id, r) in e;
        var i :| 0 <= i < |e| && e[i] == (id, r);
        assert t[i] == (id, peak);
      }
    }
  }

  /** `total_sizes.most_common(n)`: `min(n, m)` of the `m` results with a
      trace file, largest peak first; each shown entry is the peak of such
      a result, and no result left out has a larger peak than any shown one. */
  function Rank(results: Entries<Wrapper.Record>, files: set<string>, n: nat): (ranked: seq<(string, nat)>)
    ensures var totals := Totals(results, files);
      && |ranked| == Min(n, |totals|)
      && (forall i, j :: 0 <= i < j < |ranked| ==> ranked[i].1 >= ranked[j].1)
      && (forall i :: 0 <= i < |ranked| ==> ranked[i] in totals)
      && (forall y, i :: y in multiset(totals) - multiset(ranked) && 0 <= i < |ranked| ==> y.1 <= ranked[i].1)
  {
    var ranked := Top(Totals(results, files), Peak, n);
    PeakOrder(Totals(results, files), ranked);
    ranked
  }

  /** Among tests with equal peaks, the ranking shows those that come
      first in the results, in that order, as `most_common` does. */
  lemma RankStable(results: Entries<Wrapper.Record>, files: set<string>, n: nat, peak: int)
    ensures var shown := WithKey(Rank(results, files, n), Peak, peak);
      var all := WithKey(Totals(results, files), Peak, peak);
      |shown| <= |all| && shown == all[..|shown|]
  {
    TopStable(Totals(results, files), Peak, n, peak);
  }

  /** What `Top` promises about the peaks, spelled out on the entries. */
  lemma PeakOrder(totals: seq<(string, nat)>, ranked: seq<(string, nat)>)
    requires SortedDesc(ranked, Peak)
    requires multiset(ranked) <= multiset(totals)
    requires forall y, i :: y in multiset(totals) - multiset(ranked) && 0 <= i < |ranked| ==> Peak(y) <= Peak(ranked[i])
    ensures forall i, j :: 0 <= i < j < |ranked| ==> ranked[i].1 >= ranked[j].1
    ensures forall i :: 0 <= i < |ranked| ==> ranked[i] in totals
    ensures forall y, i :: y in multiset(totals) - multiset(ranked) && 0 <= i < |ranked| ==> y.1 <= ranked[i].1
  {
    forall i, j | 0 <= i < j < |ranked| ensures ranked[i].1 >= ranked[j].1 {
      assert Peak(ranked[i]) >= Peak(ranked[j]);
    }
    forall i | 0 <= i < |ranked| ensures ranked[i] in totals {
      assert ranked[i] in multiset(ranked);
    }
    forall y, i | y in multiset(totals) - multiset(ranked) && 0 <= i < |ranked| ensures y.1 <= ranked[i].1 {
      assert Peak(y) <= Peak(ranked[i]);
    }
  }

  /** With a positive `--most-allocations` and at least one trace file,
      the first test shown has the largest peak of all. */
  lemma FirstIsLargest(results: Entries<Wrapper.Record>, files: set<string>, n: nat, x: (string, Wrapper.Record))
    requires n >= 1
    requires x in results && x.1.resultFile in files
    ensures |Rank(results, files, n)| >= 1
    ensures Rank(results, files, n)[0].1 >= x.1.meta.peakMemory
  {
    var e := Existing(results, files);
    var totals := Totals(results, files);
    var ranked := Top(totals, Peak, n);
    assert x in e;
    var i :| 0 <= i < |e| && e[i] == x;
    var y := totals[i];
    assert y.1 == x.1.meta.peakMemory;
    assert |ranked| >= 1;
    if y in multiset(totals) - multiset(ranked) {
      assert Peak(y) <= Peak(ranked[0]);
    } else {
      assert y in multiset(totals);
      assert y in multiset(ranked);
      var k :| 0 <= k < |ranked| && ranked[k] == y;
      assert Peak(ranked[0]) >= Peak(ranked[k]) || k == 0;
    }
  }

  function Size(a: Marks.Allocation): int {
    a.size
  }

  /** The summary's "\t\t- function:file:line -> size" lines: the report
      line of the policy, indented once more. */
  function Indent(lines: seq<string>): (r: seq<string>)
    ensures |r| == |lines| && forall i :: 0 <= i < |lines| ==> r[i] == "\t" + lines[i]
  {
    seq(|lines|, i requires 0 <= i < |lines| => "\t" + lines[i])
  }

  /** The biggest allocating functions: the five largest records, largest
      first, each with a stack giving one line. */
  function TopLines(records: seq<Marks.Allocation>, render: real -> string): (r: seq<string>)
    ensures |r| <= TopAllocations
    ensures var shown := Top(records, Size, TopAllocations);
      r == Indent(Marks.AllocationLines(shown, render)) && |r| == Marks.CountListed(shown)
  {
    var shown := Top(records, Size, TopAllocations);
    Marks.ListedLines(shown, render);
    CountListedBounded(shown);
    Indent(Marks.AllocationLines(shown, render))
  }

  lemma {:induction false} CountListedBounded(xs: seq<Marks.Allocation>)
    ensures Marks.CountListed(xs) <= |xs|
  {
    if |xs| > 0 {
      CountListedBounded(xs[..|xs| - 1]);
    }
  }

  /** The sizes `cli_hist` is given. */
  function Sizes(records: seq<Marks.Allocation>): (sizes: seq<nat>)
    ensures |sizes| == |records| && forall i :: 0 <= i < |records| ==> sizes[i] == records[i].size
  {
    seq(|records|, i requires 0 <= i < |records| => records[i].size)
  }

  /** The smallest size is 0 exactly when some size is. */
  lemma MinZero(sizes: seq<nat>)
    requires |sizes| > 0
    ensures Histogram.MinOf(sizes) == 0 <==> exists i :: 0 <= i < |sizes| && sizes[i] == 0
  {
    if Histogram.MinOf(sizes) == 0 {
      var k :| 0 <= k < |sizes| && sizes[k] == 0;
    }
  }

  /** The lines written for one test around its histogram. */
  function BlockLines(testId: string, meta: Wrapper.Meta, hist: string, top: seq<string>,
                      render: real -> string): (r: seq<string>)
    ensures |r| == 7 + |top| && r[0] == "Allocations results for " + testId
    ensures r[4] == "\t \U{1F4CA} Histogram of allocation sizes: |" + hist + "|"
    ensures r[6..6 + |top|] == top && r[6 + |top|] == "\n"
  {
    ["Allocations results for " + testId,
     "",
     "\t \U{1F4E6} Total memory allocated: " + Units.SizeText(meta.peakMemory as real, render),
     "\t \U{1F4CF} Total allocations: " + NatToString(meta.totalAllocations),
     "\t \U{1F4CA} Histogram of allocation sizes: |" + hist + "|",
     "\t \U{1F947} Biggest allocating functions:"]
    + top + ["\n"]
  }

  /** `_report_records_for_test`: the lines written for one test, or the
      error `cli_hist` raises (a zero-byte record has no logarithm); the
      histogram has `min(len(records), 5)` bins. */
  function TestBlock(testId: string, trace: Trace, render: real -> string, log: real -> real)
    : (r: Result<seq<string>>)
    requires |trace.records| > 0
    ensures r.Err? <==> exists i :: 0 <= i < |trace.records| && trace.records[i].size == 0
    ensures var hist := Histogram.CliHist(Sizes(trace.records), Min(|trace.records|, HistogramBins), log);
      r.Ok? ==> hist.Ok? && r.value == BlockLines(testId, trace.meta, hist.value, TopLines(trace.records, render), render)
  {
    var bins := Min(|trace.records|, HistogramBins);
    HistogramFailsOnZero(trace.records, bins, log);
    match Histogram.CliHist(Sizes(trace.records), bins, log)
    case Err(e) => Err(e)
    case Ok(hist) => Ok(BlockLines(testId, trace.meta, hist, TopLines(trace.records, render), render))
  }

  /** `cli_hist` over the records' sizes fails exactly when one of them is
      zero bytes. */
  lemma HistogramFailsOnZero(records: seq<Marks.Allocation>, bins: nat, log: real -> real)
    requires |records| > 0 && bins > 0
    ensures Histogram.CliHist(Sizes(records), bins, log).Err? <==> exists i :: 0 <= i < |records| && records[i].size == 0
  {
    var sizes := Sizes(records);
    MinZero(sizes);
    assert (exists i :: 0 <= i < |sizes| && sizes[i] == 0) <==>
      exists i :: 0 <= i < |records| && records[i].size == 0;
  }

  /** A shown test's block. */
  datatype Block = Block(testId: string, lines: seq<string>)

  /** One ranked test's block: none when its trace holds no records. */
  function BlockOf(id: string, results: Entries<Wrapper.Record>, read: string -> Trace,
                   render: real -> string, log: real -> real): (r: Result<Option<Block>>)
    ensures r.Err? <==> ZeroSized(id, results, read)
    ensures r.Ok? ==> (r.value.Some? <==> HasRecords(id, results, read))
    ensures r.Ok? && r.value.Some? ==> r.value.value.testId == id && IsBlockOf(r.value.value, results, read, render, log)
  {
    match Get(results, id)
    case None => Ok(None)
    case Some(result) =>
      var trace := read(result.resultFile);
      if |trace.records| == 0 then Ok(None)
      else
        match TestBlock(id, trace, render, log)
        case Err(e) => Err(e)
        case Ok(lines) => Ok(Some(Block(id, lines)))
  }

  /** Each ranked test's block attempt, in ranking order. */
  function Attempts(ranked: seq<(string, nat)>, results: Entries<Wrapper.Record>, read: string -> Trace,
                    render: real -> string, log: real -> real): (heads: seq<Result<Option<Block>>>)
    ensures |heads| == |ranked|
    ensures forall i :: 0 <= i < |ranked| ==> heads[i] == BlockOf(ranked[i].0, results, read, render, log)
  {
    seq(|ranked|, i requires 0 <= i < |ranked| => BlockOf(ranked[i].0, results, read, render, log))
  }

  /** The loop over the ranking: skipped tests add nothing, and the first
      `cli_hist` error ends the summary. */
  function Collect(heads: seq<Result<Option<Block>>>): (r: Result<seq<Block>>)
    ensures r.Err? <==> exists i :: 0 <= i < |heads| && heads[i].Err?
    ensures r.Ok? ==> |r.value| <= |heads|
    decreases |heads|
  {
    if |heads| == 0 then Ok([])
    else
      assert forall i :: 0 < i < |heads| ==> heads[i] == heads[1..][i - 1];
      match heads[0]
      case Err(e) => Err(e)
      case Ok(head) =>
        var rest := Collect(heads[1..]);
        if rest.Err? || head.None? then rest
        else Ok([head.value] + rest.value)
  }

  /** Whether a ranked test gets a block: its result is known and its
      trace holds records. */
  predicate HasRecords(id: string, results: Entries<Wrapper.Record>, read: string -> Trace) {
    Get(results, id).Some? && |read(Get(results, id).value.resultFile).records| > 0
  }

  /** Whether a ranked test's trace holds a zero-byte record, on which
      `cli_hist` raises. */
  predicate ZeroSized(id: string, results: Entries<Wrapper.Record>, read: string -> Trace) {
    && HasRecords(id, results, read)
    && var records := read(Get(results, id).value.resultFile).records;
       exists i :: 0 <= i < |records| && records[i].size == 0
  }

  /** `b` holds the lines `_report_records_for_test` writes for its test. */
  predicate IsBlockOf(b: Block, results: Entries<Wrapper.Record>, read: string -> Trace,
                      render: real -> string, log: real -> real)
  {
    && HasRecords(b.testId, results, read)
    && TestBlock(b.testId, read(Get(results, b.testId).value.resultFile), render, log) == Ok(b.lines)
  }

  /** The ranked test ids that get a block, in ranking order. */
  function ShownIds(ranked: seq<(string, nat)>, results: Entries<Wrapper.Record>, read: string -> Trace): seq<string> {
    if |ranked| == 0 then []
    else
      var here := if HasRecords(ranked[0].0, results, read) then [ranked[0].0] else [];
      here + ShownIds(ranked[1..], results, read)
  }

  function BlockIds(blocks: seq<Block>): (ids: seq<string>)
    ensures |ids| == |blocks| && forall b :: 0 <= b < |blocks| ==> ids[b] == blocks[b].testId
  {
    seq(|blocks|, b requires 0 <= b < |blocks| => blocks[b].testId)
  }

  /** Attempts that are each the block of their ranked test (when they
      succeed). */
  predicate AttemptsMatch(heads: seq<Result<Option<Block>>>, ranked: seq<(string, nat)>,
                          results: Entries<Wrapper.Record>, read: string -> Trace)
  {
    && |heads| == |ranked|
    && forall i :: 0 <= i < |heads| && heads[i].Ok? ==>
         (heads[i].value.Some? <==> HasRecords(ranked[i].0, results, read))
         && (heads[i].value.Some? ==> heads[i].value.value.testId == ranked[i].0)
  }

  /** The blocks are exactly those of the ranked tests whose trace holds
      records, in ranking order. */
  lemma {:induction false} BlocksFollowRanking(heads: seq<Result<Option<Block>>>, ranked: seq<(string, nat)>,
                                               results: Entries<Wrapper.Record>, read: string -> Trace)
    requires AttemptsMatch(heads, ranked, results, read)
    ensures Collect(heads).Ok? ==> BlockIds(Collect(heads).value) == ShownIds(ranked, results, read)
    decreases |heads|
  {
    if |heads| > 0 {
      assert forall i :: 0 < i < |heads| ==> heads[i] == heads[1..][i - 1] && ranked[i] == ranked[1..][i - 1];
      BlocksFollowRanking(heads[1..], ranked[1..], results, read);
      var r := Collect(heads);
      if r.Ok? {
        var rest := Collect(heads[1..]);
        assert heads[0].Ok? && rest.Ok?;
        if heads[0].value.Some? {
          assert BlockIds(r.value) == [ranked[0].0] + BlockIds(rest.value);
        }
      }
    }
  }

  /** Attempts whose blocks (when they succeed) are each the lines written
      for their test. */
  predicate AttemptsAreBlocks(heads: seq<Result<Option<Block>>>, results: Entries<Wrapper.Record>,
                              read: string -> Trace, render: real -> string, log: real -> real)
  {
    forall i :: 0 <= i < |heads| && heads[i].Ok? && heads[i].value.Some? ==>
      IsBlockOf(heads[i].value.value, results, read, render, log)
  }

  /** Every collected block is one of the attempts' blocks, so each holds
      the lines written for its test. */
  lemma CollectedAreBlocks(heads: seq<Result<Option<Block>>>, results: Entries<Wrapper.Record>,
                           read: string -> Trace, render: real -> string, log: real -> real)
    requires AttemptsAreBlocks(heads, results, read, render, log)
    ensures Collect(heads).Ok? ==> forall b :: 0 <= b < |Collect(heads).value| ==>
      IsBlockOf(Collect(heads).value[b], results, read, render, log)
  {
    CollectedKeep(heads, (block: Block) => IsBlockOf(block, results, read, render, log));
  }

  /** Whatever holds of every attempt's block holds of every collected one. */
  lemma {:induction false} CollectedKeep(heads: seq<Result<Option<Block>>>, ok: Block -> bool)
    requires forall i :: 0 <= i < |heads| && heads[i].Ok? && heads[i].value.Some? ==> ok(heads[i].value.value)
    ensures Collect(heads).Ok? ==> forall b :: 0 <= b < |Collect(heads).value| ==> ok(Collect(heads).value[b])
    decreases |heads|
  {
    if |heads| > 0 {
      assert forall i :: 0 < i < |heads| ==> heads[i] == heads[1..][i - 1];
      CollectedKeep(heads[1..], ok);
    }
  }

  /** The summary's loop raises exactly when some ranked test's trace
      holds a zero-byte record. */
  lemma AttemptsFail(ranked: seq<(string, nat)>, results: Entries<Wrapper.Record>, read: string -> Trace,
                     render: real -> string, log: real -> real)
    ensures Collect(Attempts(ranked, results, read, render, log)).Err? <==>
      exists i :: 0 <= i < |ranked| && ZeroSized(ranked[i].0, results, read)
  {
    var heads := Attempts(ranked, results, read, render, log);
    if Collect(heads).Err? {
      var i :| 0 <= i < |heads| && heads[i].Err?;
      assert ZeroSized(ranked[i].0, results, read);
    }
    if exists i :: 0 <= i < |ranked| && ZeroSized(ranked[i].0, results, read) {
      var i :| 0 <= i < |ranked| && ZeroSized(ranked[i].0, results, read);
      assert heads[i].Err?;
    }
  }

  /** The attempts of the summary meet the matching requirement. */
  lemma AttemptsOfRanking(ranked: seq<(string, nat)>, results: Entries<Wrapper.Record>, read: string -> Trace,
                          render: real -> string, log: real -> real)
    ensures AttemptsMatch(Attempts(ranked, results, read, render, log), ranked, results, read)
    ensures AttemptsAreBlocks(Attempts(ranked, results, read, render, log), results, read, render, log)
  {
  }

  /** The summary as written: the results used, the ranking, the blocks
      and the closing line. */
  datatype Written = Written(results: Entries<Wrapper.Record>, ranked: seq<(string, nat)>,
                             blocks: seq<Block>, footer: Option<string>)

  /** The closing line, written when this process did not create the
      temporary result directory: the number of trace files in decimal,
      the result directory and the file prefix. */
  function Footer(settings: Settings, dumps: nat): (r: Option<string>)
    ensures r.None? <==> settings.ownsTmpDir
    ensures r.Some? ==> exists count: string ::
      && |count| >= 1 && AllDigits(count) && DigitsValue(count) == dumps && (|count| > 1 ==> count[0] != '0')
      && r.value == "Created " + count + " binary dumps at " + settings.resultPath + " with prefix " + settings.prefix
  {
    if settings.ownsTmpDir then None
    else Some("Created " + NatToString(dumps) + " binary dumps at " + settings.resultPath
              + " with prefix " + settings.prefix)
  }

  /** `pytest_terminal_summary`: `None` when the summary is hidden or memray
      is off; otherwise what it writes, or the exception it raises. */
  function TerminalSummary(settings: Settings, results: Entries<Wrapper.Record>, stored: seq<Wrapper.Record>,
                           files: set<string>, read: string -> Trace,
                           render: real -> string, log: real -> real): (r: Option<Result<Written>>)
    requires UniqueKeys(results)
    ensures r.None? <==> settings.hide || !settings.memray
    ensures r.Some? ==>
      var current := Recover(results, stored);
      var ranked := Rank(current, files, settings.mostAllocations);
      (r.value.Err? <==> exists i :: 0 <= i < |ranked| && ZeroSized(ranked[i].0, current, read))
    ensures r.Some? && r.value.Ok? ==>
      var w := r.value.value;
      && w.results == Recover(results, stored)
      && w.ranked == Rank(w.results, files, settings.mostAllocations)
      && |w.blocks| <= Min(settings.mostAllocations, |w.results|)
      && (w.footer.Some? <==> !settings.ownsTmpDir)
      && w.footer == Footer(settings, |Totals(w.results, files)|)
      && BlockIds(w.blocks) == ShownIds(w.ranked, w.results, read)
      && forall b :: 0 <= b < |w.blocks| ==> IsBlockOf(w.blocks[b], w.results, read, render, log)
  {
    if settings.hide || !settings.memray then None
    else
      var current := Recover(results, stored);
      var totals := Totals(current, files);
      var ranked := Top(totals, Peak, settings.mostAllocations);
      AttemptsFail(ranked, current, read, render, log);
      match Collect(Attempts(ranked, current, read, render, log))
      case Err(e) => Some(Err(e))
      case Ok(blocks) =>
        AttemptsOfRanking(ranked, current, read, render, log);
        BlocksFollowRanking(Attempts(ranked, current, read, render, log), ranked, current, read);
        CollectedAreBlocks(Attempts(ranked, current, read, render, log), current, read, render, log);
        Some(Ok(Written(current, ranked, blocks, Footer(settings, |totals|))))
  }

  /** The closing line counts every result whose trace file exists, even
      those the ranking does not show. */
  lemma FooterCountsAllDumps(settings: Settings, results: Entries<Wrapper.Record>, files: set<string>)
    requires !settings.ownsTmpDir
    requires UniqueKeys(results)
    requires forall j :: 0 <= j < |results| ==> results[j].1.resultFile in files
    ensures Footer(settings, |Totals(results, files)|)
      == Some("Created " + NatToString(|results|) + " binary dumps at " + settings.resultPath
              + " with prefix " + settings.prefix)
  {
    TotalsOfExisting(results, files);
  }

  lemma {:induction false} TotalsOfExisting(results: Entries<Wrapper.Record>, files: set<string>)
    requires forall j :: 0 <= j < |results| ==> results[j].1.resultFile in files
    ensures |Totals(results, files)| == |results|
  {
    if |results| > 0 {
      TotalsOfExisting(results[..|results| - 1], files);
    }
  }
}
