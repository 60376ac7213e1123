/** The memory ceiling policy `limit_memory` (src/pytest_memray/marks.py):
    a test passes when the bytes live at its high-water mark stay strictly
    below the limit, and otherwise gets a report section listing them. */
module Marks {
  import opened Results
  import opened Text
  import opened Units

  /** One stack frame as the tracker reports it: (function, file, line). */
  datatype Frame = Frame(func: string, file: string, line: nat)

  /** One allocation record of the high-water-mark view; `stack[0]` is the
      innermost frame. */
  datatype Allocation = Allocation(size: nat, stack: seq<Frame>)

  /** The report section's key. */
  const SectionKey: string := "memray-max-memory"

  const ListHeader: string := "List of allocations: "

  /** A failed ceiling check: the section key and the report's lines; the
      source hands back `(key, "\n".join(lines))`. */
  datatype Violation = Violation(key: string, lines: seq<string>) {
    function Text(): string {
      Join(lines, "\n")
    }
  }

  /** `sum(record.size for record in allocations)`. */
  function Total(allocations: seq<Allocation>): nat {
    if |allocations| == 0 then 0
    else Total(allocations[..|allocations| - 1]) + allocations[|allocations| - 1].size
  }

  /** The number of records that get a report line: those with a stack. */
  function CountListed(allocations: seq<Allocation>): nat {
    if |allocations| == 0 then 0
    else
      var last := allocations[|allocations| - 1];
      CountListed(allocations[..|allocations| - 1]) + (if |last.stack| > 0 then 1 else 0)
  }

  /** `f"\t- {function}:{file}:{line} -> {sizeof_fmt(size)}"` for the top frame;
      the same line is used by the terminal summary. */
  function AllocationLine(a: Allocation, render: real -> string): string
    requires |a.stack| > 0
  {
    var top := a.stack[0];
    "\t- " + top.func + ":" + top.file + ":" + NatToString(top.line)
      + " -> " + SizeText(a.size as real, render)
  }

  /** The loop over the records: one line per record with a stack, in input
      order; records with an empty stack are skipped. */
  function AllocationLines(allocations: seq<Allocation>, render: real -> string): seq<string> {
    Listed(allocations, (a: Allocation) requires |a.stack| > 0 => AllocationLine(a, render))
  }

  /** `line(record)` for each record with a stack, in order. */
  function Listed<T>(allocations: seq<Allocation>, line: Allocation --> T): seq<T>
    requires forall a :: a in allocations && |a.stack| > 0 ==> line.requires(a)
  {
    if |allocations| == 0 then []
    else
      var last := allocations[|allocations| - 1];
      Listed(allocations[..|allocations| - 1], line) + (if |last.stack| > 0 then [line(last)] else [])
  }

  function UsageLine(total: nat, limit: real, render: real -> string): string {
    "Test is using " + SizeText(total as real, render)
      + " out of limit of " + SizeText(limit, render)
  }

  /** `limit_memory(limit, _allocations=...)`: `Err` is the `ValueError` of an
      unparsable limit, raised before any record is looked at; `Ok(None)` is a
      pass, `Ok(Some(v))` a failure with its report. `render` is the
      `{:3.1f}` number format. */
  function LimitMemory(limit: string, allocations: seq<Allocation>, render: real -> string)
    : (r: Result<Option<Violation>>)
    ensures ParseMemoryString(limit).Err? ==> r == Err(ParseMemoryString(limit).message)
    ensures ParseMemoryString(limit).Ok? ==>
      r.Ok? && (r.value.None? <==> Total(allocations) as real < ParseMemoryString(limit).value)
    ensures r.Ok? && r.value.Some? ==>
      var v := r.value.value;
      && v.key == SectionKey
      && |v.lines| == 2 + CountListed(allocations)
      && v.lines[0] == UsageLine(Total(allocations), ParseMemoryString(limit).value, render)
      && v.lines[1] == ListHeader
      && v.lines[2..] == AllocationLines(allocations, render)
  {
    match ParseMemoryString(limit)
    case Err(msg) => Err(msg)
    case Ok(maxMemory) =>
      var total := Total(allocations);
      if total as real < maxMemory then Ok(None)
      else
        var lines := [UsageLine(total, maxMemory, render), ListHeader]
          + AllocationLines(allocations, render);
        ListedLines(allocations, render);
        Ok(Some(Violation(SectionKey, lines)))
  }

  /** The report lists exactly the records with a non-empty stack, in input
      order: record `i` gets the line numbered by how many listed records
      precede it, and there are no other lines. */
  lemma ListedLines(allocations: seq<Allocation>, render: real -> string)
    ensures |AllocationLines(allocations, render)| == CountListed(allocations)
    ensures forall i :: 0 <= i < |allocations| && |allocations[i].stack| > 0 ==>
      && CountListed(allocations[..i]) < |AllocationLines(allocations, render)|
      && AllocationLines(allocations, render)[CountListed(allocations[..i])]
         == AllocationLine(allocations[i], render)
  {
    var line := (a: Allocation) requires |a.stack| > 0 => AllocationLine(a, render);
    LineCount(allocations, line);
    forall i | 0 <= i < |allocations| && |allocations[i].stack| > 0
      ensures CountListed(allocations[..i]) < |AllocationLines(allocations, render)|
      ensures AllocationLines(allocations, render)[CountListed(allocations[..i])]
              == AllocationLine(allocations[i], render)
    {
      ListedLine(allocations, line, i);
    }
  }

  /** One line per record with a stack. */
  lemma {:induction false} LineCount<T>(allocations: seq<Allocation>, line: Allocation --> T)
    requires forall a :: a in allocations && |a.stack| > 0 ==> line.requires(a)
    ensures |Listed(allocations, line)| == CountListed(allocations)
    decreases |allocations|
  {
    if |allocations| > 0 {
      LineCount(allocations[..|allocations| - 1], line);
    }
  }

  /** Where the line of record `i` sits. */
  lemma {:induction false} ListedLine<T>(allocations: seq<Allocation>, line: Allocation --> T, i: nat)
    requires forall a :: a in allocations && |a.stack| > 0 ==> line.requires(a)
    requires i < |allocations| && |allocations[i].stack| > 0
    ensures CountListed(allocations[..i]) < |Listed(allocations, line)|
    ensures Listed(allocations, line)[CountListed(allocations[..i])] == line(allocations[i])
    decreases |allocations|
  {
    var n := |allocations| - 1;
    var init := allocations[..n];
    LineCount(init, line);
    if i < n {
      ListedLine(init, line, i);
      assert allocations[..i] == init[..i];
    } else {
      assert allocations[..i] == init;
    }
  }

  lemma TwoKilobytes()
    ensures ParseMemoryString("2KB") == Ok(2048.0)
  {
    var l := Literal(false, "2", None, "", "KB");
    var s := l.Spelling() + "";
    assert s == "2KB";
    KilobyteLiteral();
    ParseSpelling(l, "");
  }

  lemma KilobyteLiteral()
    ensures var l := Literal(false, "2", None, "", "KB");
      l.WellFormed() && l.Bytes() == 2048.0
  {
    assert UpperText("KB") == "KB";
    assert DigitsValue("2") == 2;
  }

  /** The boundary of the "2KB" ceiling: a 2048-byte peak fails, 2047 passes. */
  lemma CeilingBoundary(stack: seq<Frame>, render: real -> string)
    ensures LimitMemory("2KB", [Allocation(2048, stack)], render).Ok?
    ensures LimitMemory("2KB", [Allocation(2048, stack)], render).value.Some?
    ensures LimitMemory("2KB", [Allocation(2047, stack)], render) == Ok(None)
  {
    TwoKilobytes();
    assert Total([Allocation(2048, stack)]) == 2048;
    assert Total([Allocation(2047, stack)]) == 2047;
  }

  lemma ZeroBytes()
    ensures ParseMemoryString("0B") == Ok(0.0)
  {
    var l := Literal(false, "0", None, "", "B");
    var s := l.Spelling() + "";
    assert s == "0B";
    ZeroLiteral();
    ParseSpelling(l, "");
  }

  lemma ZeroLiteral()
    ensures var l := Literal(false, "0", None, "", "B");
      l.WellFormed() && l.Bytes() == 0.0
  {
    assert UpperText("B") == "B";
    assert DigitsValue("0") == 0;
  }

  /** With a limit of zero every test fails, even one that allocated
      nothing, because `0 < 0` is false. */
  lemma ZeroLimitAlwaysFails(allocations: seq<Allocation>, render: real -> string)
    ensures LimitMemory("0B", allocations, render).Ok?
    ensures LimitMemory("0B", allocations, render).value.Some?
  {
    ZeroBytes();
  }
}
