/** The report hooks of src/pytest_memray/plugin.py:
    `pytest_runtest_makereport` turns a passed call into a failure when a
    `limit_memory` marker's ceiling is exceeded, and
    `pytest_report_teststatus` gives such failures the letter "M". */
module ReportHooks {
  import opened Results
  import opened Text
  import opened OrderedMap
  import Marks
  import Wrapper

  datatype Phase = Setup | Call | Teardown

  datatype Outcome = Passed | Failed | Skipped

  /** The fields of pytest's `TestReport` the hooks read or write. */
  datatype Report = Report(when: Phase, outcome: Outcome, longrepr: Option<string>,
                           sections: seq<(string, string)>)

  /** A marker as `item.iter_markers()` yields it: name, positional and
      keyword arguments. */
  datatype Marker = Marker(name: string, args: seq<string>, kwargs: map<string, string>)

  /** Binding the marker's arguments to `limit_memory(limit, *, _allocations)`:
      exactly one limit, given by position or as `limit=`; anything else is
      the `TypeError` of the call. */
  function LimitArgument(m: Marker): (r: Result<string>)
    ensures r.Ok? <==> (|m.args| == 1 && |m.kwargs| == 0) || (|m.args| == 0 && m.kwargs.Keys == {"limit"})
    ensures r.Ok? && |m.args| == 1 ==> r.value == m.args[0]
    ensures r.Ok? && |m.args| == 0 ==> r.value == m.kwargs["limit"]
  {
    if |m.args| == 1 && |m.kwargs| == 0 then Ok(m.args[0])
    else if |m.args| == 0 && m.kwargs.Keys == {"limit"} then Ok(m.kwargs["limit"])
    else Err("TypeError")
  }

  /** What one marker contributes: nothing for a marker of another plugin
      or a test without a stored result; otherwise the ceiling policy over
      the records `read` finds in the result's trace file. */
  function Verdict(m: Marker, result: Option<Wrapper.Record>, read: string -> seq<Marks.Allocation>,
                   render: real -> string): (r: Result<Option<Marks.Violation>>)
    ensures m.name != Wrapper.MarkerName || result.None? ==> r == Ok(None)
    ensures m.name == Wrapper.MarkerName && result.Some? ==>
      && (LimitArgument(m).Err? ==> r.Err?)
      && (LimitArgument(m).Ok? ==>
            r == Marks.LimitMemory(LimitArgument(m).value, read(result.value.resultFile), render))
    ensures r.Ok? && r.value.Some? ==> r.value.value.key == Marks.SectionKey
  {
    if m.name != Wrapper.MarkerName || result.None? then Ok(None)
    else
      match LimitArgument(m)
      case Err(e) => Err(e)
      case Ok(limit) => Marks.LimitMemory(limit, read(result.value.resultFile), render)
  }

  /** A verdict that fails the test. */
  predicate IsViolation(v: Result<Option<Marks.Violation>>) {
    v.Ok? && v.value.Some?
  }

  /** The verdicts of the markers, in `iter_markers()` order. */
  function Verdicts(markers: seq<Marker>, result: Option<Wrapper.Record>,
                    read: string -> seq<Marks.Allocation>, render: real -> string)
    : (vs: seq<Result<Option<Marks.Violation>>>)
    ensures |vs| == |markers|
    ensures forall i :: 0 <= i < |markers| ==> vs[i] == Verdict(markers[i], result, read, render)
  {
    seq(|markers|, i requires 0 <= i < |markers| => Verdict(markers[i], result, read, render))
  }

  /** How many verdicts fail the test. */
  function CountViolations(vs: seq<Result<Option<Marks.Violation>>>): nat {
    if |vs| == 0 then 0
    else (if IsViolation(vs[0]) then 1 else 0) + CountViolations(vs[1..])
  }

  /** Every violation carries the ceiling key. */
  predicate KeyedViolations(vs: seq<Result<Option<Marks.Violation>>>) {
    forall i :: 0 <= i < |vs| && IsViolation(vs[i]) ==> vs[i].value.value.key == Marks.SectionKey
  }

  /** The loop over the markers' verdicts. Each violation marks the report
      failed, replaces its long representation and appends a section; the
      loop goes on after a violation, and the first exception ends it. */
  function ApplyVerdicts(vs: seq<Result<Option<Marks.Violation>>>, report: Report): (r: Result<Report>)
    requires KeyedViolations(vs)
    ensures r.Err? <==> exists i :: 0 <= i < |vs| && vs[i].Err?
    ensures r.Ok? ==> r.value.when == report.when
    ensures r.Ok? ==> (r.value.outcome == Failed <==>
      (report.outcome == Failed || exists i :: 0 <= i < |vs| && IsViolation(vs[i])))
    ensures r.Ok? ==> r.value.outcome == report.outcome || r.value.outcome == Failed
    ensures r.Ok? && r.value.outcome != report.outcome ==> |r.value.sections| > |report.sections|
    ensures r.Ok? ==> |r.value.sections| == |report.sections| + CountViolations(vs)
    ensures r.Ok? ==> r.value.sections[..|report.sections|] == report.sections
    ensures r.Ok? ==> forall k :: |report.sections| <= k < |r.value.sections| ==> r.value.sections[k].0 == Marks.SectionKey
    decreases |vs|
  {
    if |vs| == 0 then Ok(report)
    else
      assert forall i :: 0 < i < |vs| ==> vs[i] == vs[1..][i - 1];
      match vs[0]
      case Err(e) => Err(e)
      case Ok(None) => ApplyVerdicts(vs[1..], report)
      case Ok(Some(v)) =>
        var flagged := Flag(report, v);
        var r := ApplyVerdicts(vs[1..], flagged);
        assert r.Ok? ==> r.value.sections[..|report.sections|] == flagged.sections[..|report.sections|];
        r
  }

  /** The effect of one violation: `outcome = "failed"`, the report text as
      the long representation, and the section appended. */
  function Flag(report: Report, v: Marks.Violation): (r: Report)
    ensures r.when == report.when && r.outcome == Failed
    ensures r.sections == report.sections + [(v.key, v.Text())]
  {
    var text := v.Text();
    report.(outcome := Failed, longrepr := Some(text), sections := report.sections + [(v.key, text)])
  }

  /** Whether the hook looks at the report at all: the call phase, with a
      report that passed. */
  predicate Evaluated(callWhen: Phase, report: Option<Report>) {
    callWhen == Call && report.Some? && report.value.when == Call && report.value.outcome == Passed
  }

  /** `pytest_runtest_makereport`: the report pytest keeps, or the
      exception raised while evaluating a marker. */
  function MakeReport(callWhen: Phase, report: Option<Report>, markers: seq<Marker>,
                      results: Entries<Wrapper.Record>, nodeid: string,
                      read: string -> seq<Marks.Allocation>, render: real -> string): (r: Result<Option<Report>>)
    ensures !Evaluated(callWhen, report) ==> r == Ok(report)
    ensures Evaluated(callWhen, report) && r.Ok? ==> r.value.Some?
  {
    if !Evaluated(callWhen, report) then Ok(report)
    else
      match ApplyVerdicts(Verdicts(markers, Get(results, nodeid), read, render), report.value)
      case Err(e) => Err(e)
      case Ok(flagged) => Ok(Some(flagged))
  }

  /** No report is ever turned from failed (or skipped) into passed, and
      sections are only ever appended, each under the ceiling key. */
  lemma NeverUnfails(callWhen: Phase, report: Option<Report>, markers: seq<Marker>,
                     results: Entries<Wrapper.Record>, nodeid: string,
                     read: string -> seq<Marks.Allocation>, render: real -> string)
    requires report.Some?
    ensures var r := MakeReport(callWhen, report, markers, results, nodeid, read, render);
      r.Ok? ==>
        && r.value.Some?
        && (r.value.value.outcome == Passed ==> report.value.outcome == Passed)
        && r.value.value.sections[..|report.value.sections|] == report.value.sections
        && forall k :: |report.value.sections| <= k < |r.value.value.sections| ==>
             r.value.value.sections[k].0 == Marks.SectionKey
  {
  }

  /** An evaluated passing call ends failed exactly when one of its
      markers is violated, with one section per violated marker. */
  lemma FailsIffViolated(report: Report, markers: seq<Marker>,
                         results: Entries<Wrapper.Record>, nodeid: string,
                         read: string -> seq<Marks.Allocation>, render: real -> string)
    requires report.when == Call && report.outcome == Passed
    ensures var r := MakeReport(Call, Some(report), markers, results, nodeid, read, render);
      var vs := Verdicts(markers, Get(results, nodeid), read, render);
      r.Ok? ==>
        && (r.value.value.outcome == Failed <==>
              exists i :: 0 <= i < |markers| && IsViolation(Verdict(markers[i], Get(results, nodeid), read, render)))
        && |r.value.value.sections| == |report.sections| + CountViolations(vs)
  {
  }

  /** A test without a stored result, or without `limit_memory` markers,
      keeps the report pytest made. */
  lemma UnmarkedUnchanged(report: Report, markers: seq<Marker>,
                          results: Entries<Wrapper.Record>, nodeid: string,
                          read: string -> seq<Marks.Allocation>, render: real -> string)
    requires report.when == Call && report.outcome == Passed
    requires Get(results, nodeid).None? || forall i :: 0 <= i < |markers| ==> markers[i].name != Wrapper.MarkerName
    ensures MakeReport(Call, Some(report), markers, results, nodeid, read, render) == Ok(Some(report))
  {
    NoVerdicts(Verdicts(markers, Get(results, nodeid), read, render), report);
  }

  lemma {:induction false} NoVerdicts(vs: seq<Result<Option<Marks.Violation>>>, report: Report)
    requires forall i :: 0 <= i < |vs| ==> vs[i] == Ok(None)
    ensures ApplyVerdicts(vs, report) == Ok(report)
    decreases |vs|
  {
    if |vs| > 0 {
      assert forall i :: 0 <= i < |vs[1..]| ==> vs[1..][i] == vs[i + 1];
      NoVerdicts(vs[1..], report);
    }
  }

  /** The status triple pytest prints for a report: the hook's override
      for failed calls with a memray section, `None` for pytest's default. */
  function TestStatus(report: Report): (s: Option<(string, string, string)>)
    ensures s.Some? ==> s.value == ("failed", "M", "MEMORY PROBLEMS")
    ensures s.Some? <==>
      (report.when == Call && report.outcome == Failed
       && exists i :: 0 <= i < |report.sections| && Contains(report.sections[i].0, "memray"))
  {
    if report.when != Call || report.outcome != Failed then None
    else if exists i :: 0 <= i < |report.sections| && Contains(report.sections[i].0, "memray") then
      Some(("failed", "M", "MEMORY PROBLEMS"))
    else None
  }

  lemma KeyNamesMemray()
    ensures Contains(Marks.SectionKey, "memray")
  {
    assert OccursAt(Marks.SectionKey, "memray", 0);
  }

  /** A call the ceiling check failed is shown as "M", "MEMORY PROBLEMS";
      a call that still passes keeps pytest's default status. */
  lemma ViolationShownAsM(report: Report, markers: seq<Marker>,
                          results: Entries<Wrapper.Record>, nodeid: string,
                          read: string -> seq<Marks.Allocation>, render: real -> string)
    requires report.when == Call && report.outcome == Passed
    ensures var r := MakeReport(Call, Some(report), markers, results, nodeid, read, render);
      r.Ok? ==>
        (r.value.value.outcome == Failed ==> TestStatus(r.value.value) == Some(("failed", "M", "MEMORY PROBLEMS")))
        && (r.value.value.outcome == Passed ==> TestStatus(r.value.value).None?)
  {
    var vs := Verdicts(markers, Get(results, nodeid), read, render);
    var a := ApplyVerdicts(vs, report);
    assert MakeReport(Call, Some(report), markers, results, nodeid, read, render)
      == (if a.Ok? then Ok(Some(a.value)) else Err(a.message));
    if a.Ok? && a.value.outcome == Failed {
      SectionShownAsM(report, a.value);
    }
  }

  /** End to end: a passing test marked `limit_memory("2KB")` whose trace
      holds 2048 bytes fails and is shown as "M"; with 2047 bytes its
      report is kept as pytest made it. */
  lemma CeilingFailsTest(report: Report, results: Entries<Wrapper.Record>, nodeid: string,
                         read: string -> seq<Marks.Allocation>, render: real -> string,
                         stack: seq<Marks.Frame>)
    requires report.when == Call && report.outcome == Passed
    requires Get(results, nodeid).Some?
    requires read(Get(results, nodeid).value.resultFile) == [Marks.Allocation(2048, stack)]
    ensures var r := MakeReport(Call, Some(report), [TwoKilobyteMarker], results, nodeid, read, render);
      && r.Ok? && r.value.Some? && r.value.value.outcome == Failed
      && TestStatus(r.value.value) == Some(("failed", "M", "MEMORY PROBLEMS"))
  {
    var result := Get(results, nodeid);
    var v := CeilingVerdict(result, read, render, stack);
    OneViolation(report, [TwoKilobyteMarker], results, nodeid, read, render, v);
    SectionShownAsM(report, Flag(report, v));
  }

  lemma CeilingPassesTest(report: Report, results: Entries<Wrapper.Record>, nodeid: string,
                          read: string -> seq<Marks.Allocation>, render: real -> string,
                          stack: seq<Marks.Frame>)
    requires report.when == Call && report.outcome == Passed
    requires Get(results, nodeid).Some?
    requires read(Get(results, nodeid).value.resultFile) == [Marks.Allocation(2047, stack)]
    ensures MakeReport(Call, Some(report), [TwoKilobyteMarker], results, nodeid, read, render) == Ok(Some(report))
  {
    var result := Get(results, nodeid);
    CeilingKept(result, read, render, stack);
    NoVerdicts(Verdicts([TwoKilobyteMarker], result, read, render), report);
  }

  const TwoKilobyteMarker: Marker := Marker(Wrapper.MarkerName, ["2KB"], map[])

  lemma TwoKilobyteArgument()
    ensures LimitArgument(TwoKilobyteMarker) == Ok("2KB")
  {
  }

  /** The violation `limit_memory("2KB")` reports on 2048 traced bytes. */
  lemma CeilingVerdict(result: Option<Wrapper.Record>, read: string -> seq<Marks.Allocation>,
                       render: real -> string, stack: seq<Marks.Frame>)
      returns (v: Marks.Violation)
    requires result.Some? && read(result.value.resultFile) == [Marks.Allocation(2048, stack)]
    ensures Verdict(TwoKilobyteMarker, result, read, render) == Ok(Some(v))
  {
    TwoKilobyteArgument();
    Marks.CeilingBoundary(stack, render);
    v := Marks.LimitMemory("2KB", [Marks.Allocation(2048, stack)], render).value.value;
  }

  /** `limit_memory("2KB")` accepts 2047 traced bytes. */
  lemma CeilingKept(result: Option<Wrapper.Record>, read: string -> seq<Marks.Allocation>,
                    render: real -> string, stack: seq<Marks.Frame>)
    requires result.Some? && read(result.value.resultFile) == [Marks.Allocation(2047, stack)]
    ensures Verdict(TwoKilobyteMarker, result, read, render) == Ok(None)
  {
    TwoKilobyteArgument();
    Marks.CeilingBoundary(stack, render);
  }

  /** A call whose only marker is violated ends with that violation flagged. */
  lemma OneViolation(report: Report, markers: seq<Marker>, results: Entries<Wrapper.Record>, nodeid: string,
                     read: string -> seq<Marks.Allocation>, render: real -> string, v: Marks.Violation)
    requires report.when == Call && report.outcome == Passed
    requires |markers| == 1 && Verdict(markers[0], Get(results, nodeid), read, render) == Ok(Some(v))
    ensures MakeReport(Call, Some(report), markers, results, nodeid, read, render) == Ok(Some(Flag(report, v)))
  {
    var vs := Verdicts(markers, Get(results, nodeid), read, render);
    ApplyOne(vs, report, v);
  }

  lemma ApplyOne(vs: seq<Result<Option<Marks.Violation>>>, report: Report, v: Marks.Violation)
    requires |vs| == 1 && vs[0] == Ok(Some(v)) && v.key == Marks.SectionKey
    ensures ApplyVerdicts(vs, report) == Ok(Flag(report, v))
  {
    assert vs[1..] == [];
  }

  /** A failed call report that gained a section under the ceiling key is
      shown as "M". */
  lemma SectionShownAsM(before: Report, after: Report)
    requires after.when == Call && after.outcome == Failed
    requires |after.sections| > |before.sections|
    requires after.sections[|before.sections|].0 == Marks.SectionKey
    ensures TestStatus(after) == Some(("failed", "M", "MEMORY PROBLEMS"))
  {
    KeyNamesMemray();
    assert Contains(after.sections[|before.sections|].0, "memray");
  }
}
