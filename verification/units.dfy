/** Memory sizes in human form (src/pytest_memray/utils.py): parsing
    `UNIT_REGEXP` strings such as "3.14 PB" into bytes, and choosing the
    binary prefix that `sizeof_fmt` prints. Quantities are exact reals. */
module Units {
  import opened Results
  import opened Text

  /** `UNIT_TO_MULTIPLIER`: powers of 1024, keyed by the upper-cased unit. */
  const UnitToMultiplier: map<string, nat> := map[
    "B" := 1,
    "KB" := 1024,
    "MB" := 1024 * 1024,
    "GB" := 1024 * 1024 * 1024,
    "TB" := 1024 * 1024 * 1024 * 1024,
    "PB" := 1024 * 1024 * 1024 * 1024 * 1024
  ]

  function Pow1024(k: nat): (r: nat)
    ensures r >= 1
  {
    if k == 0 then 1 else 1024 * Pow1024(k - 1)
  }

  /** A letter that may open a two-letter unit: `[KMGTP]` under IGNORECASE. */
  predicate IsScaleLetter(c: char) {
    Upper(c) in {'K', 'M', 'G', 'T', 'P'}
  }

  /** The unit group `[KMGTP]B|B`, case-insensitive, as typed. */
  predicate IsUnitText(u: string) {
    || (|u| == 1 && Upper(u[0]) == 'B')
    || (|u| == 2 && IsScaleLetter(u[0]) && Upper(u[1]) == 'B')
  }

  function UpperText(u: string): (r: string)
    ensures |r| == |u|
    ensures forall i :: 0 <= i < |u| ==> r[i] == Upper(u[i])
  {
    if |u| == 0 then [] else [Upper(u[0])] + UpperText(u[1..])
  }

  /** Every unit the expression admits has an entry in `UNIT_TO_MULTIPLIER`,
      so the dictionary lookup never raises `KeyError`. */
  lemma UnitKnown(u: string)
    requires IsUnitText(u)
    ensures UpperText(u) in UnitToMultiplier
  {
    var U := UpperText(u);
    if |u| == 2 {
      assert U == [U[0], U[1]];
    } else {
      assert U == [U[0]];
    }
  }

  /** One literal the expression matches, split into its groups:
      `\+?`, the integer digits, the optional `.` fraction, `\s*` and the unit. */
  datatype Literal = Literal(plus: bool, whole: string, frac: Option<string>,
                             spaces: string, unit: string)
  {
    /** The shape `\+?\d*\.\d+|\+?\d+`, then `\s*`, then the unit. */
    predicate WellFormed() {
      NumberWellFormed() && IsUnitText(unit)
    }

    /** The groups before the unit have their shape. */
    predicate NumberWellFormed() {
      && AllDigits(whole)
      && (frac.None? ==> |whole| > 0)
      && (frac.Some? ==> |frac.value| > 0 && AllDigits(frac.value))
      && AllSpace(spaces)
    }

    /** The characters of the literal, as they appear in the input. */
    function Spelling(): string {
      (if plus then "+" else "")
      + whole
      + (if frac.Some? then "." + frac.value else "")
      + spaces
      + unit
    }

    /** `float(quantity)`, exactly. */
    function Quantity(): (q: real)
      requires WellFormed()
      ensures q >= 0.0
    {
      DigitsValue(whole) as real
      + (if frac.Some? then DigitsValue(frac.value) as real / Pow10(|frac.value|) as real else 0.0)
    }

    /** `float(quantity) * UNIT_TO_MULTIPLIER[unit.upper()]`. */
    function Bytes(): (b: real)
      requires WellFormed()
      ensures b >= 0.0
    {
      UnitKnown(unit);
      var q := Quantity();
      var m := UnitToMultiplier[UpperText(unit)] as real;
      assert q * m >= 0.0 by { assert q >= 0.0 && m >= 0.0; }
      q * m
    }
  }

  /** The end of the longest run of digits starting at `i`. */
  function DigitRun(s: string, i: nat): (j: nat)
    requires i <= |s|
    ensures i <= j <= |s|
    decreases |s| - i
  {
    if i < |s| && IsDigit(s[i]) then DigitRun(s, i + 1) else i
  }

  /** The run `DigitRun` finds is all digits, and maximal. */
  lemma {:induction false} DigitRunSpec(s: string, i: nat)
    requires i <= |s|
    ensures AllDigits(s[i..DigitRun(s, i)])
    ensures DigitRun(s, i) == |s| || !IsDigit(s[DigitRun(s, i)])
    decreases |s| - i
  {
    if i < |s| && IsDigit(s[i]) {
      DigitRunSpec(s, i + 1);
      var j := DigitRun(s, i);
      assert s[i..j] == [s[i]] + s[i + 1..j];
    }
  }

  /** The end of the longest run of whitespace starting at `i`. */
  function SpaceRun(s: string, i: nat): (j: nat)
    requires i <= |s|
    ensures i <= j <= |s|
    decreases |s| - i
  {
    if i < |s| && IsSpace(s[i]) then SpaceRun(s, i + 1) else i
  }

  /** The run `SpaceRun` finds is all whitespace, and maximal. */
  lemma {:induction false} SpaceRunSpec(s: string, i: nat)
    requires i <= |s|
    ensures AllSpace(s[i..SpaceRun(s, i)])
    ensures SpaceRun(s, i) == |s| || !IsSpace(s[SpaceRun(s, i)])
    decreases |s| - i
  {
    if i < |s| && IsSpace(s[i]) {
      SpaceRunSpec(s, i + 1);
      var j := SpaceRun(s, i);
      assert s[i..j] == [s[i]] + s[i + 1..j];
    }
  }

  /** The unit group at index `j`, if one starts there. */
  function UnitAt(s: string, j: nat): (r: Option<string>)
    requires j <= |s|
    ensures r.Some? ==> j + |r.value| <= |s|
  {
    if j < |s| && IsScaleLetter(s[j]) then
      (if j + 1 < |s| && Upper(s[j + 1]) == 'B' then Some(s[j..j + 2]) else None)
    else if j < |s| && Upper(s[j]) == 'B' then Some(s[j..j + 1])
    else None
  }

  /** A unit `UnitAt` finds is one of the unit spellings, read from `s`. */
  lemma UnitAtSpec(s: string, j: nat)
    requires j <= |s|
    ensures var r := UnitAt(s, j);
      r.Some? ==> IsUnitText(r.value) && s[j..j + |r.value|] == r.value
  {
  }

  function FracSpelling(frac: Option<string>): string {
    if frac.Some? then "." + frac.value else ""
  }

  /** Given integer digits `s[i0..i1]`, the optional fraction that completes
      the number group: `\.\d+` when a dot follows, otherwise nothing, which
      the second alternative `\+?\d+` only accepts after at least one digit. */
  function Fraction(s: string, i0: nat, i1: nat): (r: Option<Option<string>>)
    requires i0 <= i1 <= |s|
    ensures r.Some? ==> i1 + |FracSpelling(r.value)| <= |s|
  {
    if i1 < |s| && s[i1] == '.' then
      var i2 := DigitRun(s, i1 + 1);
      if i2 == i1 + 1 then None else Some(Some(s[i1 + 1..i2]))
    else if i1 == i0 then None
    else Some(None)
  }

  /** The fraction `Fraction` finds is spelled at `i1` and has the shape of
      its group; without one, the integer digits may not be empty. The
      number group fails to match exactly when a dot follows the digits
      without a digit after it, or when there are no digits and no dot. */
  lemma FractionSpec(s: string, i0: nat, i1: nat)
    requires i0 <= i1 <= |s|
    ensures var r := Fraction(s, i0, i1);
      && (r.Some? ==> s[i1..i1 + |FracSpelling(r.value)|] == FracSpelling(r.value))
      && (r.Some? && r.value.Some? ==> |r.value.value| > 0 && AllDigits(r.value.value))
      && (r.Some? && r.value.None? ==> i1 > i0)
      && (r.None? <==>
            || (i1 < |s| && s[i1] == '.' && (i1 + 1 == |s| || !IsDigit(s[i1 + 1])))
            || (i1 == i0 && (i1 == |s| || s[i1] != '.')))
  {
    FractionMissing(s, i0, i1);
    if i1 < |s| && s[i1] == '.' {
      var i2 := DigitRun(s, i1 + 1);
      DigitRunSpec(s, i1 + 1);
      if i2 > i1 + 1 {
        DotThenDigits(s, i1, i2);
      }
    }
  }

  lemma FractionMissing(s: string, i0: nat, i1: nat)
    requires i0 <= i1 <= |s|
    ensures Fraction(s, i0, i1).None? <==>
            || (i1 < |s| && s[i1] == '.' && (i1 + 1 == |s| || !IsDigit(s[i1 + 1])))
            || (i1 == i0 && (i1 == |s| || s[i1] != '.'))
  {
    if i1 + 1 < |s| && IsDigit(s[i1 + 1]) {
      assert DigitRun(s, i1 + 1) == DigitRun(s, i1 + 2);
    }
  }

  lemma DotThenDigits(s: string, i: nat, e: nat)
    requires i < e <= |s| && s[i] == '.'
    ensures s[i..e] == "." + s[i + 1..e]
  {
  }

  /** A literal assembled from adjacent slices of `s` that each have the
      shape of their group is well formed and spelled by a prefix of `s`. */
  lemma AssembledLiteral(s: string, lit: Literal, i0: nat, i1: nat, k: nat, j: nat)
    requires i0 <= i1 <= k <= j <= |s| && j + |lit.unit| <= |s|
    requires s[..i0] == (if lit.plus then "+" else "")
    requires lit.whole == s[i0..i1] && AllDigits(lit.whole)
    requires s[i1..k] == FracSpelling(lit.frac)
    requires lit.frac.Some? ==> |lit.frac.value| > 0 && AllDigits(lit.frac.value)
    requires lit.frac.None? ==> i1 > i0
    requires lit.spaces == s[k..j] && AllSpace(lit.spaces)
    requires s[j..j + |lit.unit|] == lit.unit && IsUnitText(lit.unit)
    ensures lit.WellFormed()
    ensures |lit.Spelling()| <= |s| && s[..|lit.Spelling()|] == lit.Spelling()
  {
    var e := j + |lit.unit|;
    PrefixGrows(s, i0, i1);
    PrefixGrows(s, i1, k);
    PrefixGrows(s, k, j);
    PrefixGrows(s, j, e);
  }

  lemma PrefixGrows(s: string, a: nat, b: nat)
    requires a <= b <= |s|
    ensures s[..b] == s[..a] + s[a..b]
  {
  }

  /** `UNIT_REGEXP.match(s)`: the literal found at the start of `s`, if any.
      Backtracking never finds a match this scan misses: after a maximal run
      of digits or of whitespace the next character is neither, so a shorter
      run would leave a digit or a space where a unit letter is needed. */
  function Match(s: string): (r: Option<Literal>) {
    var plus := |s| > 0 && s[0] == '+';
    var i0: nat := if plus then 1 else 0;
    var i1 := DigitRun(s, i0);
    var f := Fraction(s, i0, i1);
    if f.None? then None else MatchUnit(s, plus, i0, i1, f.value)
  }

  /** The rest of the scan once the number group `s[..i1]` is known: the
      whitespace run after the fraction, then the unit. */
  function MatchUnit(s: string, plus: bool, i0: nat, i1: nat, frac: Option<string>): Option<Literal>
    requires i0 <= i1 && i1 + |FracSpelling(frac)| <= |s|
  {
    var k := i1 + |FracSpelling(frac)|;
    var j := SpaceRun(s, k);
    var unit := UnitAt(s, j);
    if unit.None? then None
    else Some(Literal(plus, s[i0..i1], frac, s[k..j], unit.value))
  }

  /** Soundness of the scan: whatever `Match` returns is a well-formed
      literal whose spelling is a prefix of `s`. */
  lemma MatchSound(s: string)
    ensures var r := Match(s);
      r.Some? ==> r.value.WellFormed() && |r.value.Spelling()| <= |s| && s[..|r.value.Spelling()|] == r.value.Spelling()
  {
    var plus := |s| > 0 && s[0] == '+';
    var i0: nat := if plus then 1 else 0;
    var i1 := DigitRun(s, i0);
    var f := Fraction(s, i0, i1);
    if f.Some? {
      MatchNumber(s, plus, i0, i1, f.value);
      PlusPrefix(s, plus, i0);
      DigitRunSpec(s, i0);
      FractionSpec(s, i0, i1);
      MatchUnitSound(s, plus, i0, i1, f.value);
    }
  }

  /** Soundness of the second half of the scan, given a number group of
      the right shape. */
  lemma MatchUnitSound(s: string, plus: bool, i0: nat, i1: nat, frac: Option<string>)
    requires i0 <= i1 && i1 + |FracSpelling(frac)| <= |s|
    requires s[..i0] == (if plus then "+" else "")
    requires AllDigits(s[i0..i1])
    requires s[i1..i1 + |FracSpelling(frac)|] == FracSpelling(frac)
    requires frac.Some? ==> |frac.value| > 0 && AllDigits(frac.value)
    requires frac.None? ==> i1 > i0
    ensures var r := MatchUnit(s, plus, i0, i1, frac);
      r.Some? ==> r.value.WellFormed() && |r.value.Spelling()| <= |s| && s[..|r.value.Spelling()|] == r.value.Spelling()
  {
    var k := i1 + |FracSpelling(frac)|;
    var j := SpaceRun(s, k);
    var unit := UnitAt(s, j);
    if unit.Some? {
      SpaceRunSpec(s, k);
      UnitAtSpec(s, j);
      var lit := Literal(plus, s[i0..i1], frac, s[k..j], unit.value);
      AssembledLiteral(s, lit, i0, i1, k, j);
      MatchUnitFound(s, plus, i0, i1, frac, k, j, unit.value);
      SoundLiteral(s, MatchUnit(s, plus, i0, i1, frac), lit);
    }
  }

  lemma SoundLiteral(s: string, r: Option<Literal>, lit: Literal)
    requires r == Some(lit) && lit.WellFormed()
    requires |lit.Spelling()| <= |s| && s[..|lit.Spelling()|] == lit.Spelling()
    ensures r.Some? ==> r.value.WellFormed() && |r.value.Spelling()| <= |s| && s[..|r.value.Spelling()|] == r.value.Spelling()
  {
  }

  /** `parse_memory_string`: the number of bytes the string denotes, or the
      `ValueError` the source raises when the expression does not match. */
  function ParseMemoryString(s: string): (r: Result<real>)
    ensures r.Ok? <==> Match(s).Some?
    ensures r.Ok? ==> Match(s).value.WellFormed() && r.value == Match(s).value.Bytes() && r.value >= 0.0
    ensures r.Err? ==> r.message == "Invalid memory size format: " + s
  {
    var m := Match(s);
    MatchSound(s);
    if m.None? then Err("Invalid memory size format: " + s)
    else Ok(m.value.Bytes())
  }

  lemma {:induction false} DigitRunStops(s: string, i: nat, j: nat)
    requires i <= j <= |s|
    requires AllDigits(s[i..j])
    requires j == |s| || !IsDigit(s[j])
    ensures DigitRun(s, i) == j
    decreases j - i
  {
    if i < j {
      assert IsDigit(s[i..j][0]);
      assert s[i + 1..j] == s[i..j][1..];
      DigitRunStops(s, i + 1, j);
    }
  }

  lemma {:induction false} SpaceRunStops(s: string, i: nat, j: nat)
    requires i <= j <= |s|
    requires AllSpace(s[i..j])
    requires j == |s| || !IsSpace(s[j])
    ensures SpaceRun(s, i) == j
    decreases j - i
  {
    if i < j {
      assert IsSpace(s[i..j][0]);
      assert s[i + 1..j] == s[i..j][1..];
      SpaceRunStops(s, i + 1, j);
    }
  }

  /** Where each group of a literal's spelling starts and ends:
      sign `[0, i0)`, digits `[i0, i1)`, fraction `[i1, k)`, spaces `[k, j)`,
      unit from `j`. */
  datatype Layout = Layout(i0: nat, i1: nat, k: nat, j: nat)

  function LayoutOf(lit: Literal): (l: Layout)
    ensures l.i0 <= l.i1 <= l.k <= l.j
  {
    var i0 := if lit.plus then 1 else 0;
    var i1 := i0 + |lit.whole|;
    var k := i1 + |FracSpelling(lit.frac)|;
    Layout(i0, i1, k, k + |lit.spaces|)
  }

  lemma SpellingSlices(lit: Literal, rest: string)
    ensures var s := lit.Spelling() + rest; var l := LayoutOf(lit);
      && l.j + |lit.unit| <= |s|
      && s[..l.i0] == (if lit.plus then "+" else "")
      && s[l.i0..l.i1] == lit.whole
      && s[l.i1..l.k] == FracSpelling(lit.frac)
      && s[l.k..l.j] == lit.spaces
      && s[l.j..l.j + |lit.unit|] == lit.unit
  {
    var sign := if lit.plus then "+" else "";
    assert lit.Spelling() == sign + lit.whole + FracSpelling(lit.frac) + lit.spaces + lit.unit;
    FivePieces(sign, lit.whole, FracSpelling(lit.frac), lit.spaces, lit.unit, rest);
  }

  /** Where the pieces of a concatenation sit in it. */
  lemma FivePieces(a: string, b: string, c: string, d: string, e: string, rest: string)
    ensures var s := a + b + c + d + e + rest;
      && s[..|a|] == a
      && s[|a|..|a| + |b|] == b
      && s[|a| + |b|..|a| + |b| + |c|] == c
      && s[|a| + |b| + |c|..|a| + |b| + |c| + |d|] == d
      && s[|a| + |b| + |c| + |d|..|a| + |b| + |c| + |d| + |e|] == e
  {
    var s := a + b + c + d + e + rest;
    var p4 := a + b + c + d + e;
    assert s[..|p4|] == p4;
    SliceBetween(s, a + b + c + d, e);
    SliceBetween(s, a + b + c, d);
    SliceBetween(s, a + b, c);
    SliceBetween(s, a, b);
  }

  /** A piece that follows a prefix `p` of `s` sits right after it. */
  lemma SliceBetween(s: string, p: string, piece: string)
    requires |p| + |piece| <= |s| && s[..|p| + |piece|] == p + piece
    ensures s[|p|..|p| + |piece|] == piece
    ensures s[..|p|] == p
  {
    assert s[..|p| + |piece|][|p|..] == piece;
    assert s[..|p| + |piece|][..|p|] == p;
  }

  /** A character that ends the number group and the whitespace after it:
      neither a digit, a dot nor a space (or the end of the string). */
  predicate EndsNumber(t: string) {
    |t| == 0 || (!IsDigit(t[0]) && !IsSpace(t[0]) && t[0] != '.')
  }

  /** Every unit opens with a letter, which ends the number. */
  lemma UnitEndsNumber(unit: string, rest: string)
    requires IsUnitText(unit)
    ensures EndsNumber(unit + rest)
  {
    assert (unit + rest)[0] == unit[0];
  }

  /** What follows the whitespace group is the unit, then the rest. */
  lemma AfterSpaces(lit: Literal, rest: string)
    ensures var s := lit.Spelling() + rest; var l := LayoutOf(lit);
      l.j <= |s| && s[l.j..] == lit.unit + rest
  {
    var sign := if lit.plus then "+" else "";
    var p := sign + lit.whole + FracSpelling(lit.frac) + lit.spaces;
    assert lit.Spelling() + rest == p + (lit.unit + rest);
  }

  /** The scan stops the digit run, the fraction and the whitespace run
      exactly where the literal's groups end, provided what follows the
      whitespace ends the number. */
  lemma ScanNumber(lit: Literal, rest: string)
    requires lit.NumberWellFormed() && EndsNumber(lit.unit + rest)
    ensures var s := lit.Spelling() + rest; var l := LayoutOf(lit);
      && |s| > 0 && (s[0] == '+' <==> lit.plus)
      && DigitRun(s, l.i0) == l.i1
      && Fraction(s, l.i0, l.i1) == Some(lit.frac)
      && SpaceRun(s, l.k) == l.j
  {
    var s := lit.Spelling() + rest;
    var l := LayoutOf(lit);
    SpellingSlices(lit, rest);
    NumberEnds(lit, rest);
    ScanSign(lit, rest);
    ScanDigits(lit, rest);
    ScanFraction(lit, rest);
    SpaceRunStops(s, l.k, l.j);
  }

  /** The character after the whitespace group ends the number. */
  lemma NumberEnds(lit: Literal, rest: string)
    requires EndsNumber(lit.unit + rest)
    ensures var s := lit.Spelling() + rest; var l := LayoutOf(lit);
      l.j <= |s| && (l.j == |s| || (!IsDigit(s[l.j]) && !IsSpace(s[l.j]) && s[l.j] != '.'))
  {
    var s := lit.Spelling() + rest;
    var l := LayoutOf(lit);
    AfterSpaces(lit, rest);
    if l.j < |s| {
      assert s[l.j] == s[l.j..][0];
    }
  }

  /** The first character is `+` exactly for a signed literal. */
  lemma ScanSign(lit: Literal, rest: string)
    requires lit.NumberWellFormed()
    ensures var s := lit.Spelling() + rest;
      |s| > 0 && (s[0] == '+' <==> lit.plus)
  {
    var s := lit.Spelling() + rest;
    var l := LayoutOf(lit);
    SpellingSlices(lit, rest);
    if !lit.plus {
      if |lit.whole| > 0 {
        assert s[0] == s[l.i0..l.i1][0];
      } else {
        assert s[0] == s[l.i1..l.k][0];
      }
    }
  }

  /** The digit run ends where the integer digits do. */
  lemma ScanDigits(lit: Literal, rest: string)
    requires lit.NumberWellFormed() && EndsNumber(lit.unit + rest)
    ensures var s := lit.Spelling() + rest; var l := LayoutOf(lit);
      DigitRun(s, l.i0) == l.i1
  {
    var s := lit.Spelling() + rest;
    var l := LayoutOf(lit);
    SpellingSlices(lit, rest);
    NumberEnds(lit, rest);
    if l.i1 < l.k {
      assert s[l.i1] == s[l.i1..l.k][0] == '.';
    } else if l.i1 < l.j {
      assert s[l.i1] == s[l.k..l.j][0];
    }
    DigitRunStops(s, l.i0, l.i1);
  }

  /** The fraction the scan reads is the literal's. */
  lemma ScanFraction(lit: Literal, rest: string)
    requires lit.NumberWellFormed() && EndsNumber(lit.unit + rest)
    ensures var s := lit.Spelling() + rest; var l := LayoutOf(lit);
      l.i1 <= |s| && Fraction(s, l.i0, l.i1) == Some(lit.frac)
  {
    var s := lit.Spelling() + rest;
    var l := LayoutOf(lit);
    SpellingSlices(lit, rest);
    NumberEnds(lit, rest);
    if lit.frac.Some? {
      assert s[l.i1] == s[l.i1..l.k][0] == '.';
      assert s[l.i1 + 1..l.k] == s[l.i1..l.k][1..] == lit.frac.value;
      if l.k < l.j {
        assert s[l.k] == s[l.k..l.j][0];
      }
      FractionFound(s, l.i0, l.i1, l.k);
    } else {
      if l.i1 < l.j {
        assert s[l.i1] == s[l.k..l.j][0];
      }
      FractionAbsent(s, l.i0, l.i1);
    }
  }

  lemma FractionFound(s: string, i0: nat, i1: nat, k: nat)
    requires i0 <= i1 && i1 + 1 < k <= |s| && s[i1] == '.'
    requires AllDigits(s[i1 + 1..k]) && (k == |s| || !IsDigit(s[k]))
    ensures Fraction(s, i0, i1) == Some(Some(s[i1 + 1..k]))
  {
    DigitRunStops(s, i1 + 1, k);
  }

  lemma FractionAbsent(s: string, i0: nat, i1: nat)
    requires i0 < i1 <= |s| && (i1 == |s| || s[i1] != '.')
    ensures Fraction(s, i0, i1) == Some(None)
  {
  }

  lemma ScanUnit(lit: Literal, rest: string)
    requires lit.WellFormed()
    ensures UnitAt(lit.Spelling() + rest, LayoutOf(lit).j) == Some(lit.unit)
  {
    var s := lit.Spelling() + rest;
    var j := LayoutOf(lit).j;
    SpellingSlices(lit, rest);
    assert s[j] == lit.unit[0];
    if |lit.unit| == 2 {
      assert s[j + 1] == lit.unit[1];
    }
  }

  /** Completeness of the scan: a well-formed literal followed by anything
      at all is matched, and matched as exactly that literal. Together with
      the contract of `Match` this makes the accepted strings precisely those
      that start with the spelling of a well-formed literal. */
  lemma MatchSpelling(lit: Literal, rest: string)
    requires lit.WellFormed()
    ensures Match(lit.Spelling() + rest) == Some(lit)
  {
    var s := lit.Spelling() + rest;
    var l := LayoutOf(lit);
    SpellingSlices(lit, rest);
    UnitEndsNumber(lit.unit, rest);
    ScanNumber(lit, rest);
    ScanUnit(lit, rest);
    MatchUnfolds(s, lit.plus, l.i0, l.i1, lit.frac, l.k, l.j, lit.unit);
    assert Literal(lit.plus, s[l.i0..l.i1], lit.frac, s[l.k..l.j], lit.unit) == lit;
  }

  lemma PlusPrefix(s: string, plus: bool, i0: nat)
    requires plus <==> |s| > 0 && s[0] == '+'
    requires i0 == (if plus then 1 else 0) && i0 <= |s|
    ensures s[..i0] == (if plus then "+" else "")
  {
    if plus {
      assert s[..1] == [s[0]];
    } else {
      assert s[..0] == [];
    }
  }

  /** `Match` when each step of the scan is known. */
  lemma MatchUnfolds(s: string, plus: bool, i0: nat, i1: nat, frac: Option<string>, k: nat, j: nat, unit: string)
    requires plus <==> |s| > 0 && s[0] == '+'
    requires i0 == (if plus then 1 else 0) && i0 <= |s|
    requires DigitRun(s, i0) == i1
    requires Fraction(s, i0, i1) == Some(frac)
    requires k == i1 + |FracSpelling(frac)| && k <= |s|
    requires SpaceRun(s, k) == j
    requires UnitAt(s, j) == Some(unit)
    ensures Match(s) == Some(Literal(plus, s[i0..i1], frac, s[k..j], unit))
  {
    MatchNumber(s, plus, i0, i1, frac);
    MatchUnitFound(s, plus, i0, i1, frac, k, j, unit);
  }

  /** `Match` once the number group is scanned. */
  lemma MatchNumber(s: string, plus: bool, i0: nat, i1: nat, frac: Option<string>)
    requires plus <==> |s| > 0 && s[0] == '+'
    requires i0 == (if plus then 1 else 0) && i0 <= |s|
    requires DigitRun(s, i0) == i1
    requires Fraction(s, i0, i1) == Some(frac)
    ensures i1 + |FracSpelling(frac)| <= |s|
    ensures Match(s) == MatchUnit(s, plus, i0, i1, frac)
  {
  }

  /** `MatchUnit` when the whitespace run and the unit are known. */
  lemma MatchUnitFound(s: string, plus: bool, i0: nat, i1: nat, frac: Option<string>, k: nat, j: nat, unit: string)
    requires i0 <= i1
    requires k == i1 + |FracSpelling(frac)| && k <= |s|
    requires SpaceRun(s, k) == j
    requires UnitAt(s, j) == Some(unit)
    ensures MatchUnit(s, plus, i0, i1, frac) == Some(Literal(plus, s[i0..i1], frac, s[k..j], unit))
  {
  }

  /** `parse_memory_string` on a well-formed literal followed by anything is
      the exact binary multiple the literal denotes. */
  lemma ParseSpelling(lit: Literal, rest: string)
    requires lit.WellFormed()
    ensures ParseMemoryString(lit.Spelling() + rest) == Ok(lit.Bytes())
  {
    MatchSpelling(lit, rest);
  }

  /** Only a prefix has to match (`re.match`, not `fullmatch`): whatever
      follows an accepted string leaves the result unchanged. */
  lemma TrailingIgnored(s: string, t: string)
    requires ParseMemoryString(s).Ok?
    ensures ParseMemoryString(s + t) == ParseMemoryString(s)
  {
    MatchSound(s);
    MatchExtends(s, t, Match(s).value);
  }

  /** A string that starts with a literal's spelling matches as that
      literal, however it continues. */
  lemma MatchExtends(s: string, t: string, lit: Literal)
    requires lit.WellFormed()
    requires |lit.Spelling()| <= |s| && s[..|lit.Spelling()|] == lit.Spelling()
    ensures Match(s) == Some(lit) && Match(s + t) == Some(lit)
  {
    var n := |lit.Spelling()|;
    assert s == lit.Spelling() + s[n..];
    assert s + t == lit.Spelling() + (s[n..] + t);
    MatchSpelling(lit, s[n..]);
    MatchSpelling(lit, s[n..] + t);
  }

  /** Leading whitespace is rejected: the match is anchored at index 0. */
  lemma LeadingSpaceRejected(s: string)
    requires |s| > 0 && IsSpace(s[0])
    ensures ParseMemoryString(s).Err?
  {
  }

  /** A leading minus sign is rejected: the grammar has no negative numbers. */
  lemma MinusRejected(s: string)
    requires |s| > 0 && s[0] == '-'
    ensures ParseMemoryString(s).Err?
  {
  }

  /** The unit is matched case-insensitively: spelling it in upper case
      denotes the same number of bytes. */
  lemma UnitCaseInsensitive(lit: Literal, rest: string)
    requires lit.WellFormed()
    ensures lit.(unit := UpperText(lit.unit)).WellFormed()
    ensures ParseMemoryString(lit.(unit := UpperText(lit.unit)).Spelling() + rest)
         == ParseMemoryString(lit.Spelling() + rest)
  {
    var up := lit.(unit := UpperText(lit.unit));
    assert UpperText(up.unit) == UpperText(lit.unit);
    assert up.Bytes() == lit.Bytes();
    MatchSpelling(lit, rest);
    MatchSpelling(up, rest);
  }

  /** "3 MB" is three times 1024 squared. */
  lemma ParseMegabytes()
    ensures ParseMemoryString("3 MB") == Ok(3.0 * 1048576.0)
  {
    var l := Literal(false, "3", None, " ", "MB");
    var s := l.Spelling() + "";
    assert s == "3 MB";
    MegabyteLiteral();
    ParseSpelling(l, "");
  }

  lemma MegabyteLiteral()
    ensures var l := Literal(false, "3", None, " ", "MB");
      l.WellFormed() && l.Bytes() == 3.0 * 1048576.0
  {
    assert UpperText("MB") == "MB";
    assert DigitsValue("3") == 3;
  }

  /** "3.14 PB" keeps its fraction exactly and scales it by 1024 to the fifth. */
  lemma ParsePetabytes()
    ensures ParseMemoryString("3.14 PB") == Ok(3.14 * 1125899906842624.0)
  {
    var l := Literal(false, "3", Some("14"), " ", "PB");
    var s := l.Spelling() + "";
    assert s == "3.14 PB";
    PetabyteLiteral();
    ParseSpelling(l, "");
  }

  lemma PetabyteLiteral()
    ensures var l := Literal(false, "3", Some("14"), " ", "PB");
      l.WellFormed() && l.Bytes() == 3.14 * 1125899906842624.0
  {
    assert UpperText("PB") == "PB";
    assert "14"[..1] == "1";
    assert DigitsValue("14") == 14;
  }

  lemma DigitsOfHundred()
    ensures DigitsValue("100") == 100
  {
    assert "100"[..2] == "10";
    assert "10"[..1] == "1";
  }

  lemma MixedKilobyteLiteral()
    ensures var l := Literal(false, "100", None, " ", "Kb");
      l.WellFormed() && l.Bytes() == 102400.0
  {
    DigitsOfHundred();
    assert UpperText("Kb") == "KB";
  }

  lemma SignedKilobyteLiteral()
    ensures var l := Literal(true, "100", None, " ", "KB");
      l.WellFormed() && l.Bytes() == 102400.0
  {
    DigitsOfHundred();
    assert UpperText("KB") == "KB";
  }

  /** "100 Kb" is 102400 bytes: the unit's case does not matter. */
  lemma ParseKilobytesMixedCase()
    ensures ParseMemoryString("100 Kb") == Ok(102400.0)
  {
    var l := Literal(false, "100", None, " ", "Kb");
    var s := l.Spelling() + "";
    assert s == "100 Kb";
    MixedKilobyteLiteral();
    ParseSpelling(l, "");
  }

  /** "+100 KB" is 102400 bytes: a leading plus sign is accepted. */
  lemma ParseKilobytesSigned()
    ensures ParseMemoryString("+100 KB") == Ok(102400.0)
  {
    var l := Literal(true, "100", None, " ", "KB");
    var s := l.Spelling() + "";
    assert s == "+100 KB";
    SignedKilobyteLiteral();
    ParseSpelling(l, "");
  }

  lemma ByteLiteral()
    ensures var l := Literal(true, "100", Some("0"), "   ", "b");
      l.WellFormed() && l.Bytes() == 100.0
  {
    DigitsOfHundred();
    assert UpperText("b") == "B";
  }

  /** "+100.0   b" is 100 bytes: sign, fraction, several spaces, lower-case unit. */
  lemma ParseBytes()
    ensures ParseMemoryString("+100.0   b") == Ok(100.0)
  {
    var l := Literal(true, "100", Some("0"), "   ", "b");
    var s := l.Spelling() + "";
    assert s == "+100.0   b";
    ByteLiteral();
    ParseSpelling(l, "");
  }

  /** A number not followed by a unit is rejected, whatever comes after
      it: nothing ("100", "100.0"), a scale letter without its `B`
      ("100 K"), or a letter that opens no unit ("100 NB"). */
  lemma UnitMissingRejected(lit: Literal, rest: string)
    requires lit.NumberWellFormed() && lit.unit == ""
    requires EndsNumber(rest) && UnitAt(rest, 0).None?
    ensures ParseMemoryString(lit.Spelling() + rest).Err?
  {
    var s := lit.Spelling() + rest;
    var l := LayoutOf(lit);
    assert lit.unit + rest == rest;
    ScanNumber(lit, rest);
    AfterSpaces(lit, rest);
    NoUnitAt(s, l.j, rest);
    MatchNoUnit(s, lit.plus, l.i0, l.i1, lit.frac, l.k, l.j);
  }

  /** `Match` when the scan finds no unit after the whitespace. */
  lemma MatchNoUnit(s: string, plus: bool, i0: nat, i1: nat, frac: Option<string>, k: nat, j: nat)
    requires plus <==> |s| > 0 && s[0] == '+'
    requires i0 == (if plus then 1 else 0) && i0 <= |s|
    requires DigitRun(s, i0) == i1
    requires Fraction(s, i0, i1) == Some(frac)
    requires k == i1 + |FracSpelling(frac)| && k <= |s|
    requires SpaceRun(s, k) == j
    requires UnitAt(s, j).None?
    ensures Match(s).None?
  {
    MatchNumber(s, plus, i0, i1, frac);
    MatchUnitMissing(s, plus, i0, i1, frac, k, j);
  }

  lemma MatchUnitMissing(s: string, plus: bool, i0: nat, i1: nat, frac: Option<string>, k: nat, j: nat)
    requires i0 <= i1
    requires k == i1 + |FracSpelling(frac)| && k <= |s|
    requires SpaceRun(s, k) == j
    requires UnitAt(s, j).None?
    ensures MatchUnit(s, plus, i0, i1, frac).None?
  {
  }

  /** No unit starts at `j` when none starts the text from `j` on. */
  lemma NoUnitAt(s: string, j: nat, t: string)
    requires j <= |s| && s[j..] == t && UnitAt(t, 0).None?
    ensures UnitAt(s, j).None?
  {
    if j < |s| {
      assert s[j] == t[0];
      if j + 1 < |s| {
        assert s[j + 1] == t[1];
      }
    }
  }

  /** A string that does not open with a sign, a digit or a dot is
      rejected ("Some bad string", ""): the number group is anchored at
      index 0 and needs one of them. */
  lemma NoNumberRejected(s: string)
    requires |s| == 0 || (s[0] != '+' && s[0] != '.' && !IsDigit(s[0]))
    ensures ParseMemoryString(s).Err?
  {
    DigitRunStops(s, 0, 0);
    FractionSpec(s, 0, 0);
  }

  /** A dot that no digit follows ends the match: "1.B", "+2." and "3. KB"
      are rejected, since `\.\d+` needs a digit after the dot and the unit
      cannot begin with one. */
  lemma DotWithoutDigitRejected(sign: string, digits: string, rest: string)
    requires sign == "" || sign == "+"
    requires AllDigits(digits)
    requires |rest| == 0 || !IsDigit(rest[0])
    ensures ParseMemoryString(sign + digits + "." + rest).Err?
  {
    var s := sign + digits + "." + rest;
    var i0 := |sign|;
    var i1 := |sign| + |digits|;
    assert s[i0..i1] == digits;
    assert s[i1] == '.';
    assert i1 + 1 < |s| ==> s[i1 + 1] == rest[0];
    assert |s| > 0 && s[0] == '+' <==> sign == "+" by {
      if sign == "" && |digits| > 0 { assert s[0] == digits[0]; }
    }
    DigitRunStops(s, i0, i1);
    FractionSpec(s, i0, i1);
  }

  /** A string without any `B` or `b` is rejected: every unit ends in one. */
  lemma NoByteLetterRejected(s: string)
    requires forall i :: 0 <= i < |s| ==> Upper(s[i]) != 'B'
    ensures ParseMemoryString(s).Err?
  {
    MatchSound(s);
  }

  /** The binary prefixes `sizeof_fmt` tries in order; "Yi" comes after them. */
  const Prefixes: seq<string> := ["", "Ki", "Mi", "Gi", "Ti", "Pi", "Ei", "Zi"]

  function Abs(x: real): real {
    if x < 0.0 then -x else x
  }

  /** What `sizeof_fmt` prints before the suffix: the scaled magnitude and
      the number of times it was divided by 1024. */
  datatype Scaled = Scaled(magnitude: real, power: nat) {
    function Prefix(): string {
      if power < |Prefixes| then Prefixes[power] else "Yi"
    }
  }

  /** `|num|` is at least `1024^q`. */
  predicate AtLeastPower(num: real, q: nat) {
    Abs(num) >= Pow1024(q) as real
  }

  /** `m` multiplied by 1024 `n` times; `TimesIsProduct` shows it is `m * 1024^n`. */
  function Times1024(m: real, n: nat): real {
    if n == 0 then m else 1024.0 * Times1024(m, n - 1)
  }

  lemma {:induction false} TimesIsProduct(m: real, n: nat)
    ensures Times1024(m, n) == m * Pow1024(n) as real
  {
    if n > 0 {
      TimesIsProduct(m, n - 1);
      var P := Pow1024(n - 1) as real;
      assert m * (1024.0 * P) == 1024.0 * (m * P);
    }
  }

  lemma AtLeastStep(num: real, q: nat)
    requires AtLeastPower(num / 1024.0, q)
    ensures AtLeastPower(num, q + 1)
  {
    assert Abs(num / 1024.0) * 1024.0 == Abs(num);
    assert Pow1024(q + 1) == 1024 * Pow1024(q);
  }

  /** The loop of `sizeof_fmt` entered at prefix `k` with `num` already
      divided `k` times. */
  function ScaleFrom(num: real, k: nat): (r: Scaled)
    requires k <= 8
    ensures k <= r.power <= 8
    ensures Times1024(r.magnitude, r.power - k) == num
    ensures r.power < 8 ==> Abs(r.magnitude) < 1024.0
    ensures r.power > k ==> AtLeastPower(num, r.power - k)
    decreases 8 - k
  {
    if k == 8 then Scaled(num, 8)
    else if Abs(num) < 1024.0 then Scaled(num, k)
    else
      var r := ScaleFrom(num / 1024.0, k + 1);
      assert Times1024(r.magnitude, r.power - k) == 1024.0 * Times1024(r.magnitude, r.power - (k + 1));
      if r.power > k + 1 then
        AtLeastStep(num, r.power - k - 1);
        r
      else
        assert Pow1024(1) == 1024;
        r
  }

  /** `sizeof_fmt(num)` without the `{:3.1f}` rounding: the smallest power
      `k <= 7` with `|num| / 1024^k < 1024`, else power 8 ("Yi"); the
      magnitude is `num / 1024^k`. */
  function SizeOf(num: real): (r: Scaled)
    ensures r.power <= 8
    ensures Times1024(r.magnitude, r.power) == num
    ensures r.power < 8 ==> Abs(r.magnitude) < 1024.0
    ensures r.power > 0 ==> AtLeastPower(num, r.power)
  {
    ScaleFrom(num, 0)
  }

  /** Below 1024 the value is kept as it is, with the empty prefix. */
  lemma SmallSizeUnscaled(num: real)
    requires Abs(num) < 1024.0
    ensures SizeOf(num) == Scaled(num, 0) && SizeOf(num).Prefix() == ""
  {
  }

  /** The magnitude times `1024^power` gives back the number. */
  lemma SizeOfProduct(num: real)
    ensures var r := SizeOf(num); num == r.magnitude * Pow1024(r.power) as real
  {
    ProductOfScaled(num, SizeOf(num));
  }

  lemma ProductOfScaled(num: real, r: Scaled)
    requires Times1024(r.magnitude, r.power) == num
    ensures num == r.magnitude * Pow1024(r.power) as real
  {
    TimesIsProduct(r.magnitude, r.power);
  }

  /** Powers of 1024 grow with the exponent. */
  lemma {:induction false} Pow1024Grows(q: nat, p: nat)
    requires q <= p
    ensures Pow1024(q) <= Pow1024(p)
    decreases p
  {
    if q < p {
      Pow1024Grows(q, p - 1);
    }
  }

  /** The chosen power is the least one that brings the magnitude under 1024:
      `|num| >= 1024^q` for every `q` up to the power and, below power 8,
      `|num| < 1024^(power + 1)`. */
  lemma SizeOfMinimal(num: real)
    ensures var r := SizeOf(num);
      && (forall q :: 1 <= q <= r.power ==> Abs(num) >= Pow1024(q) as real)
      && (r.power < 8 ==> Abs(num) < Pow1024(r.power + 1) as real)
  {
    var r := SizeOf(num);
    ScaledBounds(num, r);
  }

  lemma ScaledBounds(num: real, r: Scaled)
    requires Times1024(r.magnitude, r.power) == num
    requires r.power < 8 ==> Abs(r.magnitude) < 1024.0
    requires r.power > 0 ==> AtLeastPower(num, r.power)
    ensures forall q :: 1 <= q <= r.power ==> Abs(num) >= Pow1024(q) as real
    ensures r.power < 8 ==> Abs(num) < Pow1024(r.power + 1) as real
  {
    if r.power < 8 {
      TimesBelow(r.magnitude, r.power);
    }
    forall q | 1 <= q <= r.power
      ensures Abs(num) >= Pow1024(q) as real
    {
      Pow1024Grows(q, r.power);
    }
  }

  /** Scaling a magnitude below 1024 up `n` times stays below `1024^(n + 1)`. */
  lemma {:induction false} TimesBelow(m: real, n: nat)
    requires Abs(m) < 1024.0
    ensures Abs(Times1024(m, n)) < Pow1024(n + 1) as real
  {
    if n > 0 {
      TimesBelow(m, n - 1);
    }
  }

  /** `sizeof_fmt(num)`: the magnitude rendered by `render` (the `{:3.1f}`
      format, outside this model), the prefix and the suffix "B". */
  function SizeText(num: real, render: real -> string): (text: string)
    ensures exists sc: Scaled :: ScaleOf(num, sc) && text == render(sc.magnitude) + sc.Prefix() + "B"
  {
    var r := SizeOf(num);
    assert ScaleOf(num, r);
    render(r.magnitude) + r.Prefix() + "B"
  }

  /** `sc` writes `num` as a magnitude times `1024^power` (see
      `TimesIsProduct`), with the magnitude under 1024 below power 8 and
      no power larger than `|num|` reaches: the one `SizeOf` picks. */
  predicate ScaleOf(num: real, sc: Scaled) {
    && sc.power <= 8 && Times1024(sc.magnitude, sc.power) == num
    && (sc.power < 8 ==> Abs(sc.magnitude) < 1024.0)
    && (sc.power > 0 ==> AtLeastPower(num, sc.power))
  }

  /** At most one scale fits a number, so `SizeText` determines the
      magnitude and prefix it prints. */
  lemma ScaleOfUnique(num: real, a: Scaled, b: Scaled)
    requires ScaleOf(num, a) && ScaleOf(num, b)
    ensures a == b
  {
    ScaledBounds(num, a);
    ScaledBounds(num, b);
    assert a.power == b.power;
    TimesInjective(a.magnitude, b.magnitude, a.power);
  }

  lemma {:induction false} TimesInjective(m: real, n: real, k: nat)
    requires Times1024(m, k) == Times1024(n, k)
    ensures m == n
  {
    if k > 0 {
      TimesInjective(m, n, k - 1);
    }
  }

  /** The text for 2048 bytes, as in "-> 2.0KiB". */
  lemma SizeTextExample(render: real -> string)
    ensures SizeText(2048.0, render) == render(2.0) + "KiB"
  {
    SizeOfExample();
  }

  /** 2048 bytes print as 2.0 with prefix "Ki", as in "-> 2.0KiB". */
  lemma SizeOfExample()
    ensures SizeOf(2048.0) == Scaled(2.0, 1) && SizeOf(2048.0).Prefix() == "Ki"
  {
  }
}
