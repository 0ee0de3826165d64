/** Salary analysis: France Travail offers carry a salary text whose numbers
    are read and annualised; Welcome to the Jungle offers are only checked
    for a mention of pay. Both report how many offers state a salary. */
module Salary {
  import opened Values
  import opened Text
  import opened Rounding
  import opened Ranking
  import opened Preprocessing
  import Matching
  import Skills

  // ================================================================ text

  /** The non-breaking space. */
  const Nbsp: char := '\U{A0}'

  /** `s.replace(" ", " ")` */
  function ReplaceNbsp(s: string): (r: string)
    ensures |r| == |s|
    ensures forall i :: 0 <= i < |s| ==> r[i] == (if s[i] == Nbsp then ' ' else s[i])
  {
    seq(|s|, i requires 0 <= i < |s| => if s[i] == Nbsp then ' ' else s[i])
  }

  /** `normalize_text(text)`: lower case, non-breaking spaces made plain,
      whitespace runs collapsed, then stripped; "" for a non-string. The
      result is in the same normal form the matching engine uses. */
  function NormalizeText(v: Value): (r: string)
    ensures !v.VStr? ==> r == []
    ensures Matching.IsNormal(r)
  {
    if !v.VStr? then []
    else
      var l := ReplaceNbsp(Lower(v.s));
      LowerIsLowered(v.s);
      assert IsLowered(l) by {
        forall i | 0 <= i < |l| ensures LowerChar(l[i]) == l[i] {
          assert l[i] == ' ' || l[i] == Lower(v.s)[i];
        }
      }
      CollapseLowered(l);
      CollapseSpacing(l);
      StripNormal(Collapse(l));
      var r := Strip(Collapse(l));
      r
  }

  /** Normalising twice is normalising once. */
  lemma NormalizeIdempotent(v: Value)
    ensures NormalizeText(VStr(NormalizeText(v))) == NormalizeText(v)
  {
    var s := NormalizeText(v);
    LowerIsLowered(s);
    assert ReplaceNbsp(s) == s;
    CollapseSingleSpaced(s);
    StripUntrimmed(s);
  }

  // ================================================================ numbers

  /** The value of the digits after the decimal point: `d / 10**places`. */
  function Fraction(d: nat, places: nat): (f: real)
    ensures 0.0 <= f
  {
    var p := Pow10(places) as real;
    assert p > 0.0;
    d as real / p
  }

  /** The numbers `\d+(?:[.,]\d+)?` finds from position `i` on, left to right,
      each as `float` reads it once its comma is a point. */
  function Numbers(s: string, i: nat): (r: seq<real>)
    requires i <= |s|
    ensures forall k :: 0 <= k < |r| ==> 0.0 <= r[k]
    decreases |s| - i
  {
    if i == |s| then []
    else if !IsDigit(s[i]) then Numbers(s, i + 1)
    else
      var j := DigitRun(s, i);
      var whole := DigitsValue(s, i, j) as real;
      if j + 1 < |s| && (s[j] == '.' || s[j] == ',') && IsDigit(s[j + 1]) then
        var k := DigitRun(s, j + 1);
        [whole + Fraction(DigitsValue(s, j + 1, k), k - j - 1)] + Numbers(s, k)
      else
        [whole] + Numbers(s, j)
  }

  /** `extract_numbers(text)` */
  function ExtractNumbers(text: string): seq<real>
  {
    Numbers(text, 0)
  }

  /** No number is found exactly when the text has no digit. */
  lemma {:induction false} NumbersEmpty(s: string, i: nat)
    requires i <= |s|
    ensures Numbers(s, i) == [] <==> forall k :: i <= k < |s| ==> !IsDigit(s[k])
    decreases |s| - i
  {
    if i < |s| && !IsDigit(s[i]) {
      NumbersEmpty(s, i + 1);
    }
  }

  // ================================================================ units

  /** `detect_unit(text)`: an hourly mention wins over a monthly one. */
  function DetectUnit(text: string): (u: string)
    ensures u == "hourly" || u == "monthly" || u == "annual"
    ensures u == "hourly" <==> Contains(text, "horaire") || Contains(text, "/h")
    ensures u == "monthly" <==> !Contains(text, "horaire") && !Contains(text, "/h") && (Contains(text, "mois") || Contains(text, "mensuel"))
  {
    if Contains(text, "horaire") || Contains(text, "/h") then "hourly"
    else if Contains(text, "mois") || Contains(text, "mensuel") then "monthly"
    else "annual"
  }

  /** The factor that turns an amount in `unit` into a yearly amount:
      twelve months, or 151.67 hours a month for twelve months. */
  function AnnualFactor(unit: string): (f: real)
    ensures 1.0 <= f
  {
    if unit == "monthly" then 12.0 else if unit == "hourly" then 151.67 * 12.0 else 1.0
  }

  /** `to_annual(amount, unit)` */
  function ToAnnual(amount: real, unit: string): (r: real)
    ensures unit != "monthly" && unit != "hourly" ==> r == amount
  {
    if unit == "monthly" then amount * 12.0
    else if unit == "hourly" then amount * 151.67 * 12.0
    else amount
  }

  /** Annualising scales by the unit's factor, so it keeps the order of
      amounts and never shrinks a non-negative one. */
  lemma ToAnnualScales(a: real, b: real, unit: string)
    ensures ToAnnual(a, unit) == a * AnnualFactor(unit)
    ensures a <= b ==> ToAnnual(a, unit) <= ToAnnual(b, unit)
    ensures 0.0 <= a ==> a <= ToAnnual(a, unit)
  {
  }

  // ================================================================ France Travail

  function MinOf(xs: seq<real>): (m: real)
    requires xs != []
    ensures m in xs
    ensures forall k :: 0 <= k < |xs| ==> m <= xs[k]
    decreases |xs|
  {
    if |xs| == 1 then xs[0]
    else
      var rest := MinOf(xs[1..]);
      assert forall k :: 1 <= k < |xs| ==> xs[k] == xs[1..][k - 1];
      if xs[0] <= rest then xs[0] else rest
  }

  function MaxOf(xs: seq<real>): (m: real)
    requires xs != []
    ensures m in xs
    ensures forall k :: 0 <= k < |xs| ==> xs[k] <= m
    decreases |xs|
  {
    if |xs| == 1 then xs[0]
    else
      var rest := MaxOf(xs[1..]);
      assert forall k :: 1 <= k < |xs| ==> xs[k] == xs[1..][k - 1];
      if rest <= xs[0] then xs[0] else rest
  }

  /** The low and high annual salary of an offer, when it states one. */
  datatype Range = Range(low: Option<real>, high: Option<real>)

  /** `parse_salary_ft(text)` */
  function ParseSalaryFt(v: Value): Range
  {
    var text := NormalizeText(v);
    var nums := ExtractNumbers(text);
    if nums == [] then Range(None, None)
    else
      var unit := DetectUnit(text);
      if |nums| == 1 then
        var val := ToAnnual(nums[0], unit);
        Range(Some(val), Some(val))
      else Range(Some(ToAnnual(MinOf(nums), unit)), Some(ToAnnual(MaxOf(nums), unit)))
  }

  /** A salary text yields both ends or neither; neither exactly when its
      normalised form has no digit; otherwise the ends are annualised
      numbers of the text and every annualised number of the text lies
      between them: the annual minimum and maximum. */
  lemma ParseSalaryRange(v: Value)
    ensures var r := ParseSalaryFt(v);
      var text := NormalizeText(v);
      && (r.low.Some? <==> r.high.Some?)
      && (r.low.None? <==> forall k :: 0 <= k < |text| ==> !IsDigit(text[k]))
      && (r.low.Some? ==> 0.0 <= r.low.value <= r.high.value)
      && (r.low.Some? ==> exists x :: x in ExtractNumbers(text) && r.low.value == ToAnnual(x, DetectUnit(text)))
      && (r.high.Some? ==> exists x :: x in ExtractNumbers(text) && r.high.value == ToAnnual(x, DetectUnit(text)))
      && (r.low.Some? ==> forall x :: x in ExtractNumbers(text) ==>
            r.low.value <= ToAnnual(x, DetectUnit(text)) <= r.high.value)
  {
    var text := NormalizeText(v);
    var nums := ExtractNumbers(text);
    NumbersEmpty(text, 0);
    if nums != [] {
      var unit := DetectUnit(text);
      if |nums| == 1 {
        ToAnnualScales(nums[0], nums[0], unit);
        forall x | x in nums ensures x == nums[0] {
          var k :| 0 <= k < |nums| && nums[k] == x;
        }
      } else {
        ToAnnualScales(MinOf(nums), MaxOf(nums), unit);
        assert MinOf(nums) in nums;
        forall x | x in nums
          ensures ToAnnual(MinOf(nums), unit) <= ToAnnual(x, unit) <= ToAnnual(MaxOf(nums), unit)
        {
          var k :| 0 <= k < |nums| && nums[k] == x;
          ToAnnualScales(MinOf(nums), x, unit);
          ToAnnualScales(x, MaxOf(nums), unit);
        }
      }
    }
  }

  /** Parsing an already normalised salary text parses the original. */
  lemma ParseNormalised(v: Value)
    ensures ParseSalaryFt(VStr(NormalizeText(v))) == ParseSalaryFt(v)
  {
    NormalizeIdempotent(v);
  }

  // ================================================================ Welcome to the Jungle

  /** The mentions that reveal a salary. */
  const PayWords: seq<string> := ["€", "eur", "euro", "k€", "k eur", "rémunération", "salaire", "package", "brut", "net"]

  /** `has_salary_wttj(text)` */
  predicate HasSalaryWttj(text: string)
  {
    text != [] && exists p :: p in PayWords && Contains(Lower(text), p)
  }

  /** Lower-casing keeps occurrences where they are. */
  lemma LowerOccurs(s: string, t: string, i: nat)
    requires OccursAt(s, t, i)
    ensures OccursAt(Lower(s), Lower(t), i)
  {
    assert Lower(s)[i..i + |t|] == Lower(t);
  }

  /** More text never hides a mention of pay: a text that contains a text
      revealing a salary reveals one too. */
  lemma HasSalaryGrows(text: string, part: string)
    requires Contains(text, part) && HasSalaryWttj(part)
    ensures HasSalaryWttj(text)
  {
    var p :| p in PayWords && Contains(Lower(part), p);
    var i := ContainsOccurs(text, part);
    LowerOccurs(text, part, i);
    OccursContains(Lower(text), Lower(part), i);
    ContainsTrans(Lower(text), Lower(part), p);
    assert text != [] by {
      assert |part| > 0;
    }
  }

  /** An amount in euros is always recognised, in any case. */
  lemma EurosRecognised(text: string)
    requires Contains(Lower(text), "eur")
    ensures HasSalaryWttj(text)
  {
    assert "eur" in PayWords;
  }

  // ================================================================ the analysis

  const FranceTravail := "France Travail"
  const Wttj := "Welcome to the Jungle"

  /** The min, median and max of the stated salaries, when some are stated. */
  datatype Distribution = NoDistribution | EmptyDistribution | Stats(min: real, median: real, max: real)

  /** The report of `analyze_salary`. */
  datatype Report = Report(source: string, total: nat, withSalary: nat, pct: real, distribution: Distribution, rows: seq<Row>)

  /** The salary cell of an offer, read as `normalize_text` reads it. */
  function SalaryText(row: Row): string
  {
    NormalizeText(Cell(row, "salary"))
  }

  /** What the France Travail analysis reads from one offer: its normalised
      salary text and the range parsed from it. */
  datatype Reading = Reading(text: string, range: Range)

  function FtReading(row: Row): Reading
  {
    Reading(SalaryText(row), ParseSalaryFt(VStr(SalaryText(row))))
  }

  function OptNum(x: Option<real>): Value
  {
    if x.Some? then VNum(x.value) else VNone
  }

  /** An offer with the France Travail salary columns added. */
  function WithFt(row: Row, r: Reading): Row
  {
    Row(row.index, row.cells["salary_text" := VStr(r.text)]["salary_min" := OptNum(r.range.low)]
      ["salary_max" := OptNum(r.range.high)]["has_salary" := VBool(r.range.low.Some?)])
  }

  /** An offer with the Welcome to the Jungle salary columns added. */
  function WttjSalaryRow(row: Row): Row
  {
    Row(row.index, row.cells["salary_text" := VStr(SalaryText(row))]["has_salary" := VBool(HasSalaryWttj(SalaryText(row)))])
  }

  /** The number of readings with a stated salary. */
  function FtWith(rs: seq<Reading>): (n: nat)
    ensures n <= |rs|
    decreases |rs|
  {
    if rs == [] then 0
    else FtWith(rs[..|rs| - 1]) + (if rs[|rs| - 1].range.low.Some? then 1 else 0)
  }

  /** The number of Welcome to the Jungle offers that mention pay. */
  function WttjWith(rows: seq<Row>): (n: nat)
    ensures n <= |rows|
    decreases |rows|
  {
    if rows == [] then 0
    else WttjWith(rows[..|rows| - 1]) + (if HasSalaryWttj(SalaryText(rows[|rows| - 1])) then 1 else 0)
  }

  /** Both ends are stated or neither. */
  predicate BothEnds(rs: seq<Reading>)
  {
    forall k :: 0 <= k < |rs| ==> (rs[k].range.low.Some? <==> rs[k].range.high.Some?)
  }

  /** The stated low ends, in order. */
  function Lows(rs: seq<Reading>): (r: seq<real>)
    ensures |r| == FtWith(rs)
    decreases |rs|
  {
    if rs == [] then []
    else
      var low := rs[|rs| - 1].range.low;
      Lows(rs[..|rs| - 1]) + (if low.Some? then [low.value] else [])
  }

  /** The stated high ends, in order. */
  function Highs(rs: seq<Reading>): (r: seq<real>)
    requires BothEnds(rs)
    ensures |r| == FtWith(rs)
    decreases |rs|
  {
    if rs == [] then []
    else
      var high := rs[|rs| - 1].range.high;
      assert BothEnds(rs[..|rs| - 1]) by {
        forall k | 0 <= k < |rs| - 1 ensures rs[..|rs| - 1][k] == rs[k] { }
      }
      Highs(rs[..|rs| - 1]) + (if high.Some? then [high.value] else [])
  }

  /** The readings of a whole table. */
  function FtReadings(rows: seq<Row>): (rs: seq<Reading>)
    ensures |rs| == |rows|
    ensures BothEnds(rs)
  {
    var rs := seq(|rows|, k requires 0 <= k < |rows| => FtReading(rows[k]));
    assert BothEnds(rs) by {
      forall k | 0 <= k < |rows| ensures rs[k].range.low.Some? <==> rs[k].range.high.Some? {
        ParseSalaryRange(VStr(SalaryText(rows[k])));
      }
    }
    rs
  }

  /** The one-column sort key of a salary. */
  function Amount(x: real): seq<real>
  {
    [x]
  }

  /** The middle value of a sorted list, or the mean of the two middle values. */
  function Middle(s: seq<real>): real
    requires s != []
  {
    var n := |s|;
    if n % 2 == 1 then s[n / 2] else (s[n / 2 - 1] + s[n / 2]) / 2.0
  }

  /** `Series.median()`: the middle of the sorted values. */
  function Median(xs: seq<real>): real
    requires xs != []
  {
    var s := SortDesc(xs, Amount);
    SortedMember(xs, Amount, 0);
    Middle(s)
  }

  /** The middle of a list lies within any bounds of its values. */
  lemma MiddleWithin(s: seq<real>, lo: real, hi: real)
    requires s != []
    requires forall k :: 0 <= k < |s| ==> lo <= s[k] <= hi
    ensures lo <= Middle(s) <= hi
  {
  }

  /** Every value lies between the smallest and the largest. */
  lemma Bounded(xs: seq<real>, x: real)
    requires x in xs
    ensures MinOf(xs) <= x <= MaxOf(xs)
  {
    var i :| 0 <= i < |xs| && xs[i] == x;
  }

  /** The median lies between the smallest and the largest value. */
  lemma MedianBetween(xs: seq<real>)
    requires xs != []
    ensures MinOf(xs) <= Median(xs) <= MaxOf(xs)
  {
    var s := SortDesc(xs, Amount);
    SortedMember(xs, Amount, 0);
    forall k | 0 <= k < |s| ensures MinOf(xs) <= s[k] <= MaxOf(xs) {
      SortedMember(xs, Amount, k);
      Bounded(xs, s[k]);
    }
    MiddleWithin(s, MinOf(xs), MaxOf(xs));
  }

  /** The distribution of a non-empty list of salaries, rounded to units. */
  function Stated(values: seq<real>): Distribution
  {
    if values == [] then EmptyDistribution
    else Stats(Round(MinOf(values), 0), Round(Median(values), 0), Round(MaxOf(values), 0))
  }

  /** The France Travail report on offers that have a "salary" column. */
  function FtReport(rows: seq<Row>): Report
  {
    var rs := FtReadings(rows);
    var with := FtWith(rs);
    Report(FranceTravail, |rows|, with, Skills.SafePct(with, |rows|, 1), Stated(Lows(rs) + Highs(rs)),
      seq(|rows|, k requires 0 <= k < |rows| => WithFt(rows[k], rs[k])))
  }

  /** The Welcome to the Jungle report on offers that have a "salary" column. */
  function WttjReport(rows: seq<Row>): Report
  {
    var with := WttjWith(rows);
    Report(Wttj, |rows|, with, Skills.SafePct(with, |rows|, 1), NoDistribution,
      seq(|rows|, k requires 0 <= k < |rows| => WttjSalaryRow(rows[k])))
  }

  /** What `analyze_salary(df, source)` returns, with an empty report for a
      France Travail table with no offer, where the code as written fails
      (`SalaryAsWritten`). */
  function SalarySpec(t: Table, source: string): Result<Report>
  {
    if source != FranceTravail && source != Wttj then
      Err(ValueError("source doit être 'France Travail' ou 'Welcome to the Jungle'"))
    else if "salary" !in t.columns then Err(KeyError("salary"))
    else if source == FranceTravail then Ok(FtReport(t.rows))
    else Ok(WttjReport(t.rows))
  }

  /** `analyze_salary(df, source)` as written. On a France Travail table
      with no rows, `.apply` of the range parser returns an empty Series
      rather than a two-column frame, and assigning it to the two columns
      `salary_min` and `salary_max` raises ValueError. Every other input
      gives what `SalarySpec` gives. */
  function SalaryAsWritten(t: Table, source: string): Result<Report>
  {
    if source == FranceTravail && "salary" in t.columns && t.rows == [] then
      Err(ValueError("Columns must be same length as key"))
    else SalarySpec(t, source)
  }

  /** A France Travail table with a "salary" column and no offer makes the
      analysis as written fail, where the code's own guard on an offer count
      of zero shows that an empty report is meant: no offer, none with a
      salary, 0 percent and no distribution. */
  lemma EmptyFtTableFails(t: Table)
    requires "salary" in t.columns && t.rows == []
    ensures SalaryAsWritten(t, FranceTravail).Err? && SalaryAsWritten(t, FranceTravail).error.ValueError?
    ensures SalarySpec(t, FranceTravail).Ok?
    ensures var rep := SalarySpec(t, FranceTravail).value;
      rep.total == 0 && rep.withSalary == 0 && rep.pct == 0.0
      && rep.distribution == EmptyDistribution && rep.rows == []
  {
  }

  /** The two versions differ exactly on an empty France Travail table with
      a "salary" column. */
  lemma SalaryAgrees(t: Table, source: string)
    ensures SalaryAsWritten(t, source) != SalarySpec(t, source) <==>
      source == FranceTravail && "salary" in t.columns && t.rows == []
  {
  }

  /** `series.apply(f)`: `f` applied to every element, in order. */
  method Apply<A, B>(f: A -> B, xs: seq<A>) returns (ys: seq<B>)
    ensures |ys| == |xs| && forall k :: 0 <= k < |xs| ==> ys[k] == f(xs[k])
  {
    ys := [];
    var i := 0;
    while i < |xs|
      invariant 0 <= i <= |xs|
      invariant |ys| == i && forall k :: 0 <= k < i ==> ys[k] == f(xs[k])
    {
      ys := ys + [f(xs[i])];
      i := i + 1;
    }
  }

  /** The France Travail columns of `analyze_salary`: every offer's reading,
      then every offer with the four salary columns added from it. */
  method FtColumns(rows: seq<Row>) returns (out: seq<Row>, rs: seq<Reading>)
    ensures |rs| == |rows| && forall k :: 0 <= k < |rows| ==> rs[k] == FtReading(rows[k])
    ensures |out| == |rows| && forall k :: 0 <= k < |rows| ==> out[k] == WithFt(rows[k], rs[k])
  {
    rs := Apply(FtReading, rows);
    var pairs := seq(|rows|, k requires 0 <= k < |rows| => (rows[k], rs[k]));
    out := Apply((p: (Row, Reading)) => WithFt(p.0, p.1), pairs);
  }

  /** The count of offers with a salary and the stated salaries, low ends
      first, as `has_salary.sum()` and the concatenated columns give them. */
  method Tally(rs: seq<Reading>) returns (with: nat, lows: seq<real>, highs: seq<real>)
    requires BothEnds(rs)
    ensures with == FtWith(rs) && lows == Lows(rs) && highs == Highs(rs)
  {
    with, lows, highs := 0, [], [];
    var i := 0;
    while i < |rs|
      invariant 0 <= i <= |rs|
      invariant BothEnds(rs[..i])
      invariant with == FtWith(rs[..i]) && lows == Lows(rs[..i]) && highs == Highs(rs[..i])
    {
      assert rs[..i + 1][..i] == rs[..i];
      var range := rs[i].range;
      if range.low.Some? {
        with := with + 1;
        lows := lows + [range.low.value];
      }
      if range.high.Some? {
        highs := highs + [range.high.value];
      }
      i := i + 1;
    }
    assert rs[..i] == rs;
  }

  /** `int(df["has_salary"].sum())` for Welcome to the Jungle offers. */
  method CountWttj(rows: seq<Row>) returns (with: nat)
    ensures with == WttjWith(rows)
  {
    with := 0;
    var i := 0;
    while i < |rows|
      invariant 0 <= i <= |rows|
      invariant with == WttjWith(rows[..i])
    {
      assert rows[..i + 1][..i] == rows[..i];
      if HasSalaryWttj(SalaryText(rows[i])) {
        with := with + 1;
      }
      i := i + 1;
    }
    assert rows[..i] == rows;
  }

  /** The France Travail branch of `analyze_salary`. */
  method FtAnalysis(rows: seq<Row>) returns (rep: Report)
    ensures rep == FtReport(rows)
  {
    var out, rs := FtColumns(rows);
    assert rs == FtReadings(rows);
    var with, lows, highs := Tally(rs);
    assert out == seq(|rows|, k requires 0 <= k < |rows| => WithFt(rows[k], rs[k]));
    rep := Report(FranceTravail, |rows|, with, Skills.SafePct(with, |rows|, 1), Stated(lows + highs), out);
  }

  /** The Welcome to the Jungle branch of `analyze_salary`. */
  method WttjAnalysis(rows: seq<Row>) returns (rep: Report)
    ensures rep == WttjReport(rows)
  {
    var out := Apply(WttjSalaryRow, rows);
    var with := CountWttj(rows);
    assert out == seq(|rows|, k requires 0 <= k < |rows| => WttjSalaryRow(rows[k]));
    rep := Report(Wttj, |rows|, with, Skills.SafePct(with, |rows|, 1), NoDistribution, out);
  }

  /** `analyze_salary(df, source)` */
  method AnalyzeSalary(t: Table, source: string) returns (r: Result<Report>)
    ensures r == SalarySpec(t, source)
  {
    if source == FranceTravail {
      if "salary" !in t.columns {
        return Err(KeyError("salary"));
      }
      var rep := FtAnalysis(t.rows);
      r := Ok(rep);
    } else if source == Wttj {
      if "salary" !in t.columns {
        return Err(KeyError("salary"));
      }
      var rep := WttjAnalysis(t.rows);
      r := Ok(rep);
    } else {
      r := Err(ValueError("source doit être 'France Travail' ou 'Welcome to the Jungle'"));
    }
  }

  /** Only the two known sources are analysed; a report counts at most all
      offers, gives their share as a percentage in [0, 100] (0 for no
      offer), keeps one row per offer, and orders its distribution. */
  lemma SalaryReport(t: Table, source: string)
    ensures SalarySpec(t, source).Err? <==> (source != FranceTravail && source != Wttj) || "salary" !in t.columns
    ensures source != FranceTravail && source != Wttj ==> SalarySpec(t, source).error.ValueError?
    ensures SalarySpec(t, source).Ok? ==>
      var rep := SalarySpec(t, source).value;
      && rep.withSalary <= rep.total == |t.rows|
      && 0.0 <= rep.pct <= 100.0
      && (rep.total == 0 ==> rep.pct == 0.0)
      && |rep.rows| == |t.rows|
      && (rep.distribution.Stats? ==> rep.distribution.min <= rep.distribution.median <= rep.distribution.max)
      && (source == FranceTravail ==> (rep.distribution.EmptyDistribution? <==> rep.withSalary == 0))
  {
    if SalarySpec(t, source).Ok? && source == FranceTravail {
      var rs := FtReadings(t.rows);
      var values := Lows(rs) + Highs(rs);
      if values != [] {
        MedianBetween(values);
        RoundMonotone(MinOf(values), Median(values), 0);
        RoundMonotone(Median(values), MaxOf(values), 0);
      }
    }
  }
}
