/** The install/restore protocol of `pytest_pyfunc_call`
    (src/pytest_memray/plugin.py): when a test carries a `limit_memory`
    marker or `--memray` is on, the hook swaps `item.obj` for a wrapper
    that traces one run of the captured function, stores the result
    record, and in a `finally` block puts the captured function back. */
module Wrapper {
  import opened Results
  import opened OrderedMap
  import TraceNaming

  /** The one marker name the plugin knows (`MARKERS`). */
  const MarkerName: string := "limit_memory"

  /** What `item.obj` can hold: the test function itself, or the wrapper
      built around the callable that was there when the hook ran. */
  datatype Callable = Test(name: string) | Wrapped(inner: Callable)

  /** How many wrappers surround the test function. */
  function Depth(f: Callable): nat {
    match f
    case Test(_) => 0
    case Wrapped(g) => 1 + Depth(g)
  }

  /** memray's `Metadata`, reduced to the two numbers the summary prints. */
  datatype Meta = Meta(peakMemory: nat, totalAllocations: nat)

  /** The pickled `Result(test_id, metadata, result_file)`; the file is
      named relative to the result directory. */
  datatype Record = Record(testId: string, meta: Meta, resultFile: string)

  /** How a call ends: it returns a value (`None` is Python's None) or raises. */
  datatype Return = Value(value: Option<string>) | Raise(error: string)

  /** The session's settings: `--memray`, whether the plugin created the
      result directory itself, `--memray-bin-prefix` (or its random
      default) and `os.sep`. */
  datatype Config = Config(memray: bool, ownsTmpDir: bool, prefix: string, sep: char)

  /** What the outside world decides for one dispatch: how the test body
      ends, the `uuid4().hex` token, and what `FileReader(...).metadata`
      reads back from the trace (`None` where it raises `OSError`). */
  datatype World = World(body: Return, token: string, reading: Option<Meta>)

  /** The part of the plugin's state the protocol touches: `item.obj`, the
      results dict, the file names in the result and metadata directories,
      and the number of tracker sessions opened so far. */
  datatype State = State(obj: Callable, results: Entries<Record>, traceDir: set<string>,
                         metadataDir: map<string, Record>, sessions: nat)
  {
    predicate Valid() {
      UniqueKeys(results)
    }
  }

  /** Whether the hook wraps the test: a known marker, or `--memray`. */
  predicate Installs(c: Config, markers: seq<string>) {
    MarkerName in markers || c.memray
  }

  /** The hook before its `yield`: `item.obj = wrapper` when it installs. */
  function Install(c: Config, markers: seq<string>, s: State): (r: State)
    ensures r.results == s.results && r.traceDir == s.traceDir && r.metadataDir == s.metadataDir
    ensures r.sessions == s.sessions
    ensures Installs(c, markers) ==> r.obj.Wrapped? && r.obj.inner == s.obj
    ensures !Installs(c, markers) ==> r.obj == s.obj
  {
    if Installs(c, markers) then s.(obj := Wrapped(s.obj)) else s
  }

  /** Calling `f` on state `s`. A wrapper names the trace file, opens one
      tracker session around the captured callable, reads the metadata
      back (returning None when that fails), records the result under the
      node id and in the metadata directory, and always restores
      `item.obj` to the captured callable. */
  function Call(c: Config, nodeid: string, f: Callable, s: State, w: World): (r: (State, Return))
    requires s.Valid()
    ensures r.0.Valid()
    ensures r.0.sessions == s.sessions + Depth(f)
    ensures f.Wrapped? ==> r.0.obj == f.inner
    ensures f.Test? ==> r == (s, w.body)
    ensures w.body.Raise? ==> r.1 == w.body && r.0.results == s.results && r.0.metadataDir == s.metadataDir
    ensures f.Wrapped? && w.body.Value? && w.reading.None? ==> r.1 == Value(None)
    ensures w.body.Value? && w.reading.Some? ==> r.1 == w.body
    decreases f
  {
    match f
    case Test(_) => (s, w.body)
    case Wrapped(inner) =>
      var (name, files) := TraceNaming.BuildBinPath(c.ownsTmpDir, c.prefix, w.token, nodeid, c.sep, s.traceDir);
      var tracing := s.(traceDir := files + {name}, sessions := s.sessions + 1);
      var (after, ret) := Call(c, nodeid, inner, tracing, w);
      if ret.Raise? then (after.(obj := inner), ret)
      else
        match w.reading
        case None => (after.(obj := inner), Value(None))
        case Some(meta) =>
          var record := Record(nodeid, meta, name);
          (after.(obj := inner,
                  results := Set(after.results, nodeid, record),
                  metadataDir := after.metadataDir[TraceNaming.MetadataName(name) := record]),
           ret)
  }

  /** One dispatch of the test by pytest: the hook runs, then pytest calls
      whatever `item.obj` holds. A wrapper the hook installed is always
      taken off again, and one tracker session is opened for it besides
      those of wrappers already in place. */
  function Dispatch(c: Config, nodeid: string, markers: seq<string>, s: State, w: World): (r: (State, Return))
    requires s.Valid()
    ensures r.0.Valid()
    ensures Installs(c, markers) ==> r.0.obj == s.obj
    ensures r.0.sessions == s.sessions + Depth(s.obj) + (if Installs(c, markers) then 1 else 0)
  {
    var installed := Install(c, markers, s);
    Call(c, nodeid, installed.obj, installed, w)
  }

  /** The trace file name a dispatch uses. */
  function TraceName(c: Config, nodeid: string, w: World): string {
    TraceNaming.BinName(c.ownsTmpDir, c.prefix, w.token, nodeid, c.sep)
  }

  /** Whether the test returns, raises, or its trace cannot be read,
      `item.obj` is the test function again afterwards, and exactly one
      tracker session was opened when the hook installed the wrapper. */
  lemma DispatchRestores(c: Config, nodeid: string, markers: seq<string>, s: State, w: World)
    requires s.Valid() && s.obj.Test?
    ensures Dispatch(c, nodeid, markers, s, w).0.obj == s.obj
    ensures Dispatch(c, nodeid, markers, s, w).0.sessions == s.sessions + (if Installs(c, markers) then 1 else 0)
  {
  }

  /** Without a marker and without `--memray` nothing is traced or recorded. */
  lemma NotInstalledUntouched(c: Config, nodeid: string, markers: seq<string>, s: State, w: World)
    requires s.Valid() && s.obj.Test?
    requires !Installs(c, markers)
    ensures Dispatch(c, nodeid, markers, s, w) == (s, w.body)
  {
  }

  /** A raising test records nothing and its exception reaches pytest. */
  lemma RaiseRecordsNothing(c: Config, nodeid: string, markers: seq<string>, s: State, w: World)
    requires s.Valid()
    requires w.body.Raise?
    ensures var (t, ret) := Dispatch(c, nodeid, markers, s, w);
      ret == w.body && t.results == s.results && t.metadataDir == s.metadataDir
  {
  }

  /** An unreadable trace makes the call return None and records nothing,
      though the trace file stays in the result directory. */
  lemma UnreadableTraceRecordsNothing(c: Config, nodeid: string, markers: seq<string>, s: State, w: World)
    requires s.Valid() && s.obj.Test? && Installs(c, markers)
    requires w.body.Value? && w.reading.None?
    ensures var (t, ret) := Dispatch(c, nodeid, markers, s, w);
      ret == Value(None) && t.results == s.results && t.metadataDir == s.metadataDir
      && TraceName(c, nodeid, w) in t.traceDir
  {
  }

  /** A traced test that returns keeps its return value; its record is
      stored under its node id, replacing an earlier one, and under the
      trace's `.metadata` name; other tests' records are untouched. */
  lemma SuccessRecords(c: Config, nodeid: string, markers: seq<string>, s: State, w: World, other: string)
    requires s.Valid() && s.obj.Test? && Installs(c, markers)
    requires w.body.Value? && w.reading.Some?
    ensures var (t, ret) := Dispatch(c, nodeid, markers, s, w);
      var record := Record(nodeid, w.reading.value, TraceName(c, nodeid, w));
      ret == w.body
      && Get(t.results, nodeid) == Some(record)
      && (other != nodeid ==> Get(t.results, other) == Get(s.results, other))
      && TraceNaming.MetadataName(record.resultFile) in t.metadataDir
      && t.metadataDir[TraceNaming.MetadataName(record.resultFile)] == record
      && record.resultFile in t.traceDir
  {
    var installed := Install(c, markers, s);
    var (name, files) := TraceNaming.BuildBinPath(c.ownsTmpDir, c.prefix, w.token, nodeid, c.sep, s.traceDir);
    GetSet(s.results, nodeid, Record(nodeid, w.reading.value, name), other);
  }

  /** Dispatching the same test once per world, as a rerun plugin does,
      feeding each run the state the previous one left. */
  function Rerun(c: Config, nodeid: string, markers: seq<string>, s: State, worlds: seq<World>): (t: State)
    requires s.Valid()
    ensures t.Valid()
    decreases |worlds|
  {
    if |worlds| == 0 then s
    else
      var (next, _) := Dispatch(c, nodeid, markers, s, worlds[0]);
      Rerun(c, nodeid, markers, next, worlds[1..])
  }

  /** Reruns never stack wrappers: each one opens exactly one session and
      leaves `item.obj` as it found it; in the deterministic naming mode
      all of them write the same trace file, so no stale one accumulates. */
  lemma {:induction false} RerunOneSessionEach(c: Config, nodeid: string, markers: seq<string>, s: State, worlds: seq<World>)
    requires s.Valid() && s.obj.Test? && Installs(c, markers)
    ensures Rerun(c, nodeid, markers, s, worlds).obj == s.obj
    ensures Rerun(c, nodeid, markers, s, worlds).sessions == s.sessions + |worlds|
    ensures !c.ownsTmpDir && |worlds| > 0 ==>
      Rerun(c, nodeid, markers, s, worlds).traceDir == s.traceDir + {TraceName(c, nodeid, worlds[0])}
    decreases |worlds|
  {
    if |worlds| > 0 {
      DispatchRestores(c, nodeid, markers, s, worlds[0]);
      var (next, _) := Dispatch(c, nodeid, markers, s, worlds[0]);
      RerunOneSessionEach(c, nodeid, markers, next, worlds[1..]);
      if !c.ownsTmpDir && |worlds| > 1 {
        assert TraceName(c, nodeid, worlds[1]) == TraceName(c, nodeid, worlds[0]);
      }
    }
  }
}
