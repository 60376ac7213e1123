/** The summary's allocation-size histogram (src/pytest_memray/plugin.py,
    `histogram` and `cli_hist`): counting values into evenly spaced bins and
    drawing each bin as one of nine bar glyphs. Values are exact reals and
    the logarithm is a parameter. */
module Histogram {
  import opened Results
  import opened Text

  /** `((high - low) / bins) or low`: the bin width, or `low` when the range is empty. */
  function Step(low: real, high: real, bins: nat): real
    requires bins > 0
  {
    var width := (high - low) / bins as real;
    if width != 0.0 then width else low
  }

  /** `(x - low) // step`, Python's floor division. */
  function BinOf(x: real, low: real, step: real): int
    requires step != 0.0
  {
    ((x - low) / step).Floor
  }

  /** How many values fall into bin `b`: the reference count. */
  function CountInBin(xs: seq<real>, low: real, step: real, b: int): nat
    requires step != 0.0
  {
    if |xs| == 0 then 0
    else CountInBin(xs[1..], low, step, b) + (if BinOf(xs[0], low, step) == b then 1 else 0)
  }

  function Sum(counts: seq<nat>): nat {
    if |counts| == 0 then 0 else counts[0] + Sum(counts[1..])
  }

  /** The `Counter` over `xs`, read back at `range(bins)`: values are added
      one at a time and those whose bin is outside the range are dropped. */
  function Tally(xs: seq<real>, low: real, step: real, bins: nat): (r: seq<nat>)
    requires step != 0.0
    ensures |r| == bins
    ensures forall b :: 0 <= b < bins ==> r[b] == CountInBin(xs, low, step, b)
    decreases |xs|
  {
    if |xs| == 0 then seq(bins, _ => 0)
    else
      var counts := Tally(xs[1..], low, step, bins);
      var b := BinOf(xs[0], low, step);
      if 0 <= b < bins then counts[b := counts[b] + 1] else counts
  }

  /** `histogram(xs, low, high, bins)` as written. `Err` is the
      `ZeroDivisionError` it raises when `bins` is 0, and when the step is 0
      (`low == high == 0`) and there is a value to divide. */
  function HistogramAsWritten(xs: seq<real>, low: real, high: real, bins: nat): (r: Result<seq<nat>>)
    ensures r.Err? <==> bins == 0 || (Step(low, high, bins) == 0.0 && |xs| > 0)
    ensures r.Ok? ==> |r.value| == bins
    ensures r.Ok? && |xs| > 0 ==> forall b :: 0 <= b < bins ==>
      r.value[b] == CountInBin(xs, low, Step(low, high, bins), b)
  {
    if bins == 0 then Err("division by zero")
    else
      var step := Step(low, high, bins);
      if step == 0.0 then
        (if |xs| == 0 then Ok(seq(bins, _ => 0)) else Err("float divmod()"))
      else Ok(Tally(xs, low, step, bins))
  }

  /** The step with the collapsed case `low == high == 0` repaired: any
      non-zero width puts every value, all equal to `low`, into bin 0. */
  function SafeStep(low: real, high: real, bins: nat): (step: real)
    requires bins > 0
    ensures step != 0.0
    ensures Step(low, high, bins) != 0.0 ==> step == Step(low, high, bins)
  {
    var step := Step(low, high, bins);
    if step != 0.0 then step else 1.0
  }

  /** `histogram` with the zero step repaired: `bins` counts, bin `b`
      holding the values with `floor((x - low) / step) == b`; it agrees with
      the source wherever the source does not raise. */
  function Histogram(xs: seq<real>, low: real, high: real, bins: nat): (r: seq<nat>)
    requires bins > 0
    ensures |r| == bins
    ensures forall b :: 0 <= b < bins ==> r[b] == CountInBin(xs, low, SafeStep(low, high, bins), b)
    ensures HistogramAsWritten(xs, low, high, bins).Ok? ==> r == HistogramAsWritten(xs, low, high, bins).value
  {
    var r := Tally(xs, low, SafeStep(low, high, bins), bins);
    assert |xs| == 0 ==> r == seq(bins, _ => 0);
    r
  }

  /** A single one-byte allocation crashes the summary as written: its
      logarithm is 0, so `low == high == 0` and the step is 0. */
  lemma ZeroStepCrash(log: real -> real)
    requires log(1.0) == 0.0
    ensures HistogramAsWritten(LogValues([1], log), log(1.0), log(1.0), 1).Err?
  {
    assert LogValues([1], log) == [0.0];
  }

  /** The repaired histogram counts that allocation in bin 0. */
  lemma ZeroStepRepaired(log: real -> real)
    requires log(1.0) == 0.0
    ensures Histogram(LogValues([1], log), log(1.0), log(1.0), 1) == [1]
  {
    var xs := LogValues([1], log);
    assert xs == [0.0];
    assert BinOf(0.0, 0.0, 1.0) == 0;
    assert CountInBin(xs, 0.0, 1.0, 0) == 1;
  }

  /** The value equal to `low` always lands in bin 0. */
  lemma LowInFirstBin(low: real, step: real)
    requires step != 0.0
    ensures BinOf(low, low, step) == 0
  {
  }

  /** In exact arithmetic, when `high > low`, the value equal to `high` lands
      in bin `bins` and is not counted: the bins are half-open. With
      floating-point division the step can round down and put `high` in the
      last bin instead. */
  lemma HighNotCounted(low: real, high: real, bins: nat)
    requires bins > 0 && high > low
    ensures BinOf(high, low, Step(low, high, bins)) == bins
  {
    var w := (high - low) / bins as real;
    assert w * bins as real == high - low;
    assert (high - low) / w == bins as real;
  }

  lemma {:induction false} CountBounded(xs: seq<real>, low: real, step: real, bins: nat)
    requires step != 0.0
    ensures Sum(Tally(xs, low, step, bins)) <= |xs|
    decreases |xs|
  {
    if |xs| == 0 {
      ZeroSum(bins);
    } else {
      CountBounded(xs[1..], low, step, bins);
      var counts := Tally(xs[1..], low, step, bins);
      var b := BinOf(xs[0], low, step);
      if 0 <= b < bins {
        SumIncrement(counts, b);
      }
    }
  }

  /** The counts add up to at most the number of values: values outside the
      bins are dropped, none is counted twice. */
  lemma CountsAtMostValues(xs: seq<real>, low: real, high: real, bins: nat)
    requires bins > 0
    ensures Sum(Histogram(xs, low, high, bins)) <= |xs|
  {
    CountBounded(xs, low, SafeStep(low, high, bins), bins);
  }

  lemma {:induction false} ZeroSum(n: nat)
    ensures Sum(seq(n, _ => 0)) == 0
  {
    if n > 0 {
      assert seq(n, _ => 0)[1..] == seq(n - 1, _ => 0);
      ZeroSum(n - 1);
    }
  }

  lemma {:induction false} SumIncrement(counts: seq<nat>, b: nat)
    requires b < |counts|
    ensures Sum(counts[b := counts[b] + 1]) == Sum(counts) + 1
  {
    if b > 0 {
      assert counts[b := counts[b] + 1][1..] == counts[1..][b - 1 := counts[b] + 1];
      SumIncrement(counts[1..], b - 1);
    }
  }

  /** The source's doctest: scores 82, 85, 90, 91, 70, 87, 45 over
      `[0, 100)` in ten bins. */
  lemma Doctest()
    ensures Histogram([82.0, 85.0, 90.0, 91.0, 70.0, 87.0, 45.0], 0.0, 100.0, 10)
         == [0, 0, 0, 0, 1, 0, 0, 1, 3, 2]
  {
    var xs := [82.0, 85.0, 90.0, 91.0, 70.0, 87.0, 45.0];
    assert SafeStep(0.0, 100.0, 10) == 10.0;
    assert BinOf(82.0, 0.0, 10.0) == 8;
    assert BinOf(85.0, 0.0, 10.0) == 8;
    assert BinOf(90.0, 0.0, 10.0) == 9;
    assert BinOf(91.0, 0.0, 10.0) == 9;
    assert BinOf(70.0, 0.0, 10.0) == 7;
    assert BinOf(87.0, 0.0, 10.0) == 8;
    assert BinOf(45.0, 0.0, 10.0) == 4;
  }

  /** `map(math.log, filter(lambda n: n != 0, sizes))`. */
  function LogValues(sizes: seq<nat>, log: real -> real): seq<real> {
    if |sizes| == 0 then []
    else (if sizes[0] != 0 then [log(sizes[0] as real)] else []) + LogValues(sizes[1..], log)
  }

  function MinOf(xs: seq<nat>): (m: nat)
    requires |xs| > 0
    ensures m in xs && forall i :: 0 <= i < |xs| ==> m <= xs[i]
  {
    if |xs| == 1 then xs[0]
    else var m := MinOf(xs[1..]); if xs[0] <= m then xs[0] else m
  }

  function MaxOf(xs: seq<nat>): (m: nat)
    requires |xs| > 0
    ensures m in xs && forall i :: 0 <= i < |xs| ==> xs[i] <= m
  {
    if |xs| == 1 then xs[0]
    else var m := MaxOf(xs[1..]); if xs[0] >= m then xs[0] else m
  }

  /** `bars = " ▁▂▃▄▅▆▇█"`: nine glyphs from empty to full. */
  const Bars: string := " \U{2581}\U{2582}\U{2583}\U{2584}\U{2585}\U{2586}\U{2587}\U{2588}"

  /** `int(count * 8 / busiest)`: the glyph level of a count. */
  function Level(count: nat, busiest: nat): (level: nat)
    requires 0 < busiest && count <= busiest
    ensures level <= 8
    ensures level == 8 <==> count == busiest
  {
    (count * 8) / busiest
  }

  /** Non-zero sizes keep their logarithm in the values, so the smallest
      size's logarithm is one of them. */
  lemma {:induction false} LogOfNonZeroKept(sizes: seq<nat>, log: real -> real, i: nat)
    requires i < |sizes| && sizes[i] != 0
    ensures log(sizes[i] as real) in LogValues(sizes, log)
  {
    if i > 0 {
      LogOfNonZeroKept(sizes[1..], log, i - 1);
    }
  }

  /** A value in the data contributes to the count of its bin. */
  lemma {:induction false} MemberCounted(xs: seq<real>, x: real, low: real, step: real)
    requires step != 0.0 && x in xs
    ensures CountInBin(xs, low, step, BinOf(x, low, step)) >= 1
  {
    if xs[0] != x {
      MemberCounted(xs[1..], x, low, step);
    }
  }

  /** `cli_hist(sizes, bins)` with the logarithmic scale, over the repaired
      histogram. `Err` is what the source raises: `min()` of no sizes, the
      logarithm of a zero size, or zero bins. Otherwise the busiest bin is at
      least 1, each bin is drawn with the glyph of its level, and the glyphs
      are joined by single spaces. */
  function CliHist(sizes: seq<nat>, bins: nat, log: real -> real): (r: Result<string>)
    ensures r.Ok? <==> |sizes| > 0 && MinOf(sizes) > 0 && bins > 0
    ensures r.Ok? ==>
      var counts := Histogram(LogValues(sizes, log), log(MinOf(sizes) as real), log(MaxOf(sizes) as real), bins);
      && |r.value| == 2 * bins - 1
      && MaxOf(counts) >= 1
      && (forall i :: 0 <= i < bins ==> r.value[2 * i] == Bars[Level(counts[i], MaxOf(counts))])
      && (forall i :: 0 <= i < bins - 1 ==> r.value[2 * i + 1] == ' ')
      && (exists i :: 0 <= i < bins && r.value[2 * i] == Bars[8])
  {
    if |sizes| == 0 then Err("min() arg is an empty sequence")
    else if MinOf(sizes) == 0 then Err("math domain error")
    else if bins == 0 then Err("division by zero")
    else
      var counts := Histogram(LogValues(sizes, log), log(MinOf(sizes) as real), log(MaxOf(sizes) as real), bins);
      SmallestCounted(sizes, bins, log);
      Ok(Draw(counts))
  }

  /** `cli_hist` as written, over `histogram` as written: besides the
      failures of `CliHist` it raises `ZeroDivisionError` when the
      logarithms of the smallest and the largest size are both 0, which
      with the natural logarithm is a trace whose every allocation is one
      byte. When it does not raise it draws what `CliHist` draws. */
  function CliHistAsWritten(sizes: seq<nat>, bins: nat, log: real -> real): (r: Result<string>)
    ensures r.Err? <==>
      || |sizes| == 0 || MinOf(sizes) == 0 || bins == 0
      || (log(MinOf(sizes) as real) == 0.0 && log(MaxOf(sizes) as real) == 0.0)
    ensures r.Ok? ==> r == CliHist(sizes, bins, log)
  {
    if |sizes| == 0 then Err("min() arg is an empty sequence")
    else if MinOf(sizes) == 0 then Err("math domain error")
    else if bins == 0 then Err("division by zero")
    else
      var low := log(MinOf(sizes) as real);
      var high := log(MaxOf(sizes) as real);
      var values := LogValues(sizes, log);
      var k :| 0 <= k < |sizes| && sizes[k] == MinOf(sizes);
      LogOfNonZeroKept(sizes, log, k);
      StepZero(low, high, bins);
      match HistogramAsWritten(values, low, high, bins)
      case Err(e) => Err(e)
      case Ok(counts) => SmallestCounted(sizes, bins, log); Ok(Draw(counts))
  }

  /** The step is 0 only when both ends of the range are 0. */
  lemma StepZero(low: real, high: real, bins: nat)
    requires bins > 0
    ensures Step(low, high, bins) == 0.0 <==> low == 0.0 && high == 0.0
  {
  }

  /** A trace of one single-byte allocation: the source's summary raises,
      the repaired one draws a bar. */
  lemma OneByteTraceCrashes(log: real -> real)
    requires log(1.0) == 0.0
    ensures CliHistAsWritten([1], 1, log).Err?
    ensures CliHist([1], 1, log).Ok?
  {
  }

  /** The smallest size's logarithm is `low`, which lands in bin 0, so the
      first bin is never empty. */
  lemma SmallestCounted(sizes: seq<nat>, bins: nat, log: real -> real)
    requires |sizes| > 0 && MinOf(sizes) > 0 && bins > 0
    ensures Histogram(LogValues(sizes, log), log(MinOf(sizes) as real), log(MaxOf(sizes) as real), bins)[0] >= 1
  {
    var low := log(MinOf(sizes) as real);
    var high := log(MaxOf(sizes) as real);
    var k :| 0 <= k < |sizes| && sizes[k] == MinOf(sizes);
    LogOfNonZeroKept(sizes, log, k);
    MemberCounted(LogValues(sizes, log), low, low, SafeStep(low, high, bins));
  }

  /** The bar line of non-empty counts: each count drawn with the glyph of
      its level relative to the busiest bin, glyphs separated by single
      spaces; the busiest bin is drawn full. */
  function Draw(counts: seq<nat>): (r: string)
    requires |counts| > 0 && MaxOf(counts) >= 1
    ensures |r| == 2 * |counts| - 1
    ensures forall i :: 0 <= i < |counts| ==> r[2 * i] == Bars[Level(counts[i], MaxOf(counts))]
    ensures forall i :: 0 <= i < |counts| - 1 ==> r[2 * i + 1] == ' '
    ensures exists i :: 0 <= i < |counts| && r[2 * i] == Bars[8]
  {
    var busiest := MaxOf(counts);
    var glyphs := seq(|counts|, i requires 0 <= i < |counts| => [Bars[Level(counts[i], busiest)]]);
    JoinSingletons(glyphs, ' ');
    var top :| 0 <= top < |counts| && counts[top] == busiest;
    assert Join(glyphs, " ")[2 * top] == Bars[8];
    Join(glyphs, " ")
  }
}
