/** Skill statistics over a table of offers: the skill lists of every row
    are flattened, counted and turned into percentages of the number of
    offers, then ranked by decreasing percentage. */
module Skills {
  import opened Values
  import opened Rounding
  import opened Ranking
  import opened Preprocessing

  // ================================================================ flattening

  /** The placeholders `flatten` drops: None, "" and " ". */
  predicate Blank(v: Value)
  {
    v == VNone || v == VStr("") || v == VStr(" ")
  }

  /** The items of one sublist that `flatten` keeps, in order. */
  function KeptItems(items: seq<Value>): (r: seq<Value>)
    ensures forall x :: x in r <==> x in items && !Blank(x)
    decreases |items|
  {
    if items == [] then []
    else
      var n := |items| - 1;
      assert items == items[..n] + [items[n]];
      KeptItems(items[..n]) + (if Blank(items[n]) then [] else [items[n]])
  }

  /** The kept items of every sublist that is a list, sublist after sublist. */
  function FlattenItems(subs: seq<Value>): seq<Value>
    decreases |subs|
  {
    if subs == [] then []
    else
      var n := |subs| - 1;
      FlattenItems(subs[..n]) + (if subs[n].VList? then KeptItems(subs[n].items) else [])
  }

  /** `flatten(list_of_lists)` */
  function Flatten(v: Value): (r: seq<Value>)
    ensures !v.VList? ==> r == []
  {
    if v.VList? then FlattenItems(v.items) else []
  }

  /** Some sublist that is a list holds `x`. */
  predicate InSomeList(subs: seq<Value>, x: Value)
  {
    exists k :: 0 <= k < |subs| && subs[k].VList? && x in subs[k].items
  }

  /** An item survives flattening exactly when it is no placeholder and sits
      in one of the sublists that are lists. */
  lemma {:induction false} FlattenMembers(subs: seq<Value>)
    ensures forall x :: x in FlattenItems(subs) <==> !Blank(x) && InSomeList(subs, x)
    decreases |subs|
  {
    if subs != [] {
      var n := |subs| - 1;
      FlattenMembers(subs[..n]);
      forall x ensures InSomeList(subs, x) <==> InSomeList(subs[..n], x) || (subs[n].VList? && x in subs[n].items) {
        if InSomeList(subs, x) {
          var k :| 0 <= k < |subs| && subs[k].VList? && x in subs[k].items;
          if k < n {
            assert subs[..n][k] == subs[k];
          }
        }
        if InSomeList(subs[..n], x) {
          var k :| 0 <= k < n && subs[..n][k].VList? && x in subs[..n][k].items;
          assert subs[k] == subs[..n][k];
        }
      }
    }
  }

  /** Flattening keeps the order of the sublists: it maps a concatenation of
      sublists to the concatenation of their flattenings. */
  lemma {:induction false} FlattenConcat(a: seq<Value>, b: seq<Value>)
    ensures FlattenItems(a + b) == FlattenItems(a) + FlattenItems(b)
    decreases |b|
  {
    if b == [] {
      assert a + b == a;
    } else {
      var n := |b| - 1;
      var last := if b[n].VList? then KeptItems(b[n].items) else [];
      assert (a + b)[..|a + b| - 1] == a + b[..n];
      assert (a + b)[|a + b| - 1] == b[n];
      assert FlattenItems(a + b) == FlattenItems(a + b[..n]) + last;
      FlattenConcat(a, b[..n]);
      assert FlattenItems(b) == FlattenItems(b[..n]) + last;
    }
  }

  // ================================================================ percentages

  /** `_safe_pct(count, total, ndigits)` */
  function SafePct(count: nat, total: int, nd: nat): (r: real)
    ensures total <= 0 ==> r == 0.0
    ensures 0.0 <= r
    ensures 0 < total && count <= total ==> r <= 100.0
  {
    if total <= 0 then 0.0
    else
      var x := 100.0 * count as real / total as real;
      RoundMonotone(0.0, x, nd);
      RoundOfInt(0, nd);
      if count <= total then
        RoundWithin(x, 0, 100, nd);
        Round(x, nd)
      else
        Round(x, nd)
  }

  /** More occurrences never give a smaller percentage. */
  lemma SafePctMonotone(c1: nat, c2: nat, total: int, nd: nat)
    requires c1 <= c2
    ensures SafePct(c1, total, nd) <= SafePct(c2, total, nd)
  {
    if total > 0 {
      var t := total as real;
      assert 100.0 * c2 as real / t - 100.0 * c1 as real / t == 100.0 * (c2 - c1) as real / t;
      RoundMonotone(100.0 * c1 as real / t, 100.0 * c2 as real / t, nd);
    }
  }

  // ================================================================ counting

  /** A value of a Counter built from the list: its number of occurrences. */
  function Count(xs: seq<Value>, x: Value): nat
  {
    multiset(xs)[x]
  }

  /** One row of a frequency table. */
  datatype SkillCount = SkillCount(skill: Value, count: nat, pct: real)

  /** The rows of a Counter over `xs`, one per given skill, in order. */
  function RowsFor(skills: seq<Value>, xs: seq<Value>, total: int): (r: seq<SkillCount>)
    ensures |r| == |skills|
    ensures forall i :: 0 <= i < |r| ==>
      r[i] == SkillCount(skills[i], Count(xs, skills[i]), SafePct(Count(xs, skills[i]), total, 2))
    decreases |skills|
  {
    if skills == [] then []
    else
      var n := |skills| - 1;
      var s := skills[n];
      RowsFor(skills[..n], xs, total) + [SkillCount(s, Count(xs, s), SafePct(Count(xs, s), total, 2))]
  }

  /** The sort key of a frequency table. */
  function PctKey(row: SkillCount): seq<real>
  {
    [row.pct]
  }

  /** A frequency table: the Counter's rows ranked by decreasing percentage,
      or no rows for an empty Counter. */
  function CountTable(xs: seq<Value>, total: int): seq<SkillCount>
  {
    if xs == [] then [] else SortDesc(RowsFor(Dedupe(xs), xs, total), PctKey)
  }

  /** The sum of the counts of a table. */
  function SumCounts(rows: seq<SkillCount>): nat
    decreases |rows|
  {
    if rows == [] then 0 else SumCounts(rows[..|rows| - 1]) + rows[|rows| - 1].count
  }

  /** The occurrences in `m` of the given values. */
  function SumOver(ds: seq<Value>, m: multiset<Value>): nat
    decreases |ds|
  {
    if ds == [] then 0 else SumOver(ds[..|ds| - 1], m) + m[ds[|ds| - 1]]
  }

  lemma {:induction false} SumRowsFor(skills: seq<Value>, xs: seq<Value>, total: int)
    ensures SumCounts(RowsFor(skills, xs, total)) == SumOver(skills, multiset(xs))
    decreases |skills|
  {
    if skills != [] {
      var n := |skills| - 1;
      SumRowsFor(skills[..n], xs, total);
      var r := RowsFor(skills, xs, total);
      assert r[..|r| - 1] == RowsFor(skills[..n], xs, total);
    }
  }

  /** One more occurrence of `x` adds one to the sum exactly when `x` is counted. */
  lemma {:induction false} SumOverAdd(ds: seq<Value>, m: multiset<Value>, x: Value)
    requires forall i, j :: 0 <= i < j < |ds| ==> ds[i] != ds[j]
    ensures SumOver(ds, m + multiset{x}) == SumOver(ds, m) + (if x in ds then 1 else 0)
    decreases |ds|
  {
    if ds != [] {
      var n := |ds| - 1;
      SumOverAdd(ds[..n], m, x);
      assert x in ds <==> x in ds[..n] || x == ds[n];
      if x == ds[n] {
        assert x !in ds[..n];
      }
    }
  }

  /** The counts of a Counter add up to the length of the list it counts. */
  lemma {:induction false} DedupeSum(xs: seq<Value>)
    ensures SumOver(Dedupe(xs), multiset(xs)) == |xs|
    decreases |xs|
  {
    if xs != [] {
      var n := |xs| - 1;
      var init := xs[..n];
      var x := xs[n];
      assert xs == init + [x];
      assert multiset(xs) == multiset(init) + multiset{x};
      DedupeSum(init);
      var d := Dedupe(init);
      if x in init {
        SumOverAdd(d, multiset(init), x);
      } else {
        SumOverAdd(d, multiset(init), x);
        assert Dedupe(xs) == d + [x];
        assert (d + [x])[..|d|] == d;
      }
    }
  }

  /** Removing one row takes its count off the sum. */
  lemma {:induction false} SumRemove(rows: seq<SkillCount>, j: nat)
    requires j < |rows|
    ensures SumCounts(rows) == SumCounts(rows[..j] + rows[j + 1..]) + rows[j].count
    decreases |rows|
  {
    var n := |rows| - 1;
    if j < n {
      SumRemove(rows[..n], j);
      assert rows[..n][..j] + rows[..n][j + 1..] == (rows[..j] + rows[j + 1..])[..n - 1];
    } else {
      assert rows[..j] + rows[j + 1..] == rows[..n];
    }
  }

  /** Reordering a table keeps the sum of its counts. */
  lemma {:induction false} SumPermutation(a: seq<SkillCount>, b: seq<SkillCount>)
    requires multiset(a) == multiset(b)
    ensures SumCounts(a) == SumCounts(b)
    decreases |a|
  {
    if a == [] {
      assert |b| == |multiset(b)| == 0;
    } else {
      var n := |a| - 1;
      var x := a[n];
      assert a == a[..n] + [x];
      assert x in multiset(b);
      var j :| 0 <= j < |b| && b[j] == x;
      var a0 := a[..n];
      var b0 := b[..j] + b[j + 1..];
      assert multiset(a) == multiset(a0) + multiset{x};
      assert b == b[..j] + [x] + b[j + 1..];
      assert multiset(b) == multiset(b[..j]) + multiset{x} + multiset(b[j + 1..]);
      assert multiset(b0) == multiset(b[..j]) + multiset(b[j + 1..]);
      assert multiset(a0) == multiset(a) - multiset{x};
      assert multiset(b0) == multiset(b) - multiset{x};
      SumPermutation(a0, b0);
      SumRemove(b, j);
    }
  }

  /** Some row of the table is about `s`. */
  predicate HasSkill(rows: seq<SkillCount>, s: Value)
  {
    exists i :: 0 <= i < |rows| && rows[i].skill == s
  }

  /** A frequency table ranks its rows by decreasing percentage and has
      exactly one row per distinct value of the list, with its number of
      occurrences and its percentage of `total`. */
  lemma CountTableRows(xs: seq<Value>, total: int)
    ensures var rows := CountTable(xs, total);
      && SortedDesc(rows, PctKey)
      && (forall i, j :: 0 <= i < j < |rows| ==> rows[i].skill != rows[j].skill)
      && (forall s :: HasSkill(rows, s) <==> s in xs)
      && (forall i :: 0 <= i < |rows| ==> rows[i].count == Count(xs, rows[i].skill) && rows[i].pct == SafePct(rows[i].count, total, 2))
  {
    if xs != [] {
      var rows := CountTable(xs, total);
      var unsorted := RowsFor(Dedupe(xs), xs, total);
      PermutationMembers(rows, unsorted);
      CountTableDistinct(xs, total, rows, unsorted);
      CountTableMembers(xs, total, rows, unsorted);
      forall i | 0 <= i < |rows| ensures rows[i].count == Count(xs, rows[i].skill) && rows[i].pct == SafePct(rows[i].count, total, 2) {
        assert rows[i] in unsorted;
      }
    }
  }

  lemma CountTableDistinct(xs: seq<Value>, total: int, rows: seq<SkillCount>, unsorted: seq<SkillCount>)
    requires unsorted == RowsFor(Dedupe(xs), xs, total)
    requires multiset(rows) == multiset(unsorted)
    ensures forall i, j :: 0 <= i < j < |rows| ==> rows[i].skill != rows[j].skill
  {
    forall i, j | 0 <= i < j < |rows| ensures rows[i].skill != rows[j].skill {
      DistinctAfterSort(unsorted, rows, (row: SkillCount) => row.skill, i, j);
    }
  }

  lemma CountTableMembers(xs: seq<Value>, total: int, rows: seq<SkillCount>, unsorted: seq<SkillCount>)
    requires unsorted == RowsFor(Dedupe(xs), xs, total)
    requires forall row :: row in rows <==> row in unsorted
    ensures forall s :: HasSkill(rows, s) <==> s in xs
  {
    var d := Dedupe(xs);
    forall s ensures HasSkill(rows, s) <==> s in xs {
      if s in xs {
        var k :| 0 <= k < |d| && d[k] == s;
        assert unsorted[k] in rows;
        var i :| 0 <= i < |rows| && rows[i] == unsorted[k];
      }
      if HasSkill(rows, s) {
        var i :| 0 <= i < |rows| && rows[i].skill == s;
        assert rows[i] in unsorted;
        var k :| 0 <= k < |unsorted| && unsorted[k] == rows[i];
        assert d[k] in xs;
      }
    }
  }

  /** The counts of a frequency table add up to the length of the list. */
  lemma CountTableSum(xs: seq<Value>, total: int)
    ensures SumCounts(CountTable(xs, total)) == |xs|
  {
    if xs != [] {
      var d := Dedupe(xs);
      SumPermutation(CountTable(xs, total), RowsFor(d, xs, total));
      SumRowsFor(d, xs, total);
      DedupeSum(xs);
    }
  }

  // ================================================================ reading the table

  /** `df.get(col, []).tolist()`: the column's cells, or AttributeError when
      the column is absent (a plain list has no `tolist`). */
  function Column(t: Table, col: string): (r: Result<seq<Value>>)
    ensures r.Err? <==> col !in t.columns
    ensures r.Err? ==> r.error == AttributeError
    ensures r.Ok? ==> |r.value| == |t.rows|
  {
    if col in t.columns then Ok(seq(|t.rows|, k requires 0 <= k < |t.rows| => Cell(t.rows[k], col)))
    else Err(AttributeError)
  }

  /** `flatten` of a column. */
  function FlatColumn(t: Table, col: string): (r: Result<seq<Value>>)
    ensures r.Err? <==> col !in t.columns
    ensures r.Err? ==> r.error == AttributeError
  {
    match Column(t, col)
    case Err(e) => Err(e)
    case Ok(cells) => Ok(FlattenItems(cells))
  }

  /** Every value can be a key of a Counter. */
  predicate AllHashable(xs: seq<Value>)
  {
    forall i :: 0 <= i < |xs| ==> Hashable(xs[i])
  }

  /** The flattened column, ready for a Counter: AttributeError when the
      column is absent, TypeError when a skill is a list or a dictionary. */
  function Occurrences(t: Table, col: string): (r: Result<seq<Value>>)
    ensures r.Ok? ==> AllHashable(r.value)
  {
    match FlatColumn(t, col)
    case Err(e) => Err(e)
    case Ok(xs) => if AllHashable(xs) then Ok(xs) else Err(TypeError)
  }

  // ================================================================ France Travail

  /** One row of the hard-skill table. */
  datatype HardCount = HardCount(skill: Value, requiredCount: nat, optionalCount: nat, requiredPct: real, optionalPct: real)

  /** The sort key of the hard-skill table. */
  function HardKey(row: HardCount): seq<real>
  {
    [row.requiredPct, row.optionalPct]
  }

  /** The row of `skill` given the flattened required and optional columns. */
  function HardRow(skill: Value, req: seq<Value>, opt: seq<Value>, total: int): HardCount
  {
    HardCount(skill, Count(req, skill), Count(opt, skill),
      SafePct(Count(req, skill), total, 2), SafePct(Count(opt, skill), total, 2))
  }

  /** Both flattened columns, in the order the analysis reads and counts them. */
  function HardInputs(t: Table): (r: Result<(seq<Value>, seq<Value>)>)
    ensures r.Ok? ==> AllHashable(r.value.0) && AllHashable(r.value.1)
  {
    match FlatColumn(t, "skills_hard_required")
    case Err(e) => Err(e)
    case Ok(req) =>
      match FlatColumn(t, "skills_hard_optional")
      case Err(e) => Err(e)
      case Ok(opt) =>
        if !AllHashable(req) || !AllHashable(opt) then Err(TypeError) else Ok((req, opt))
  }

  /** Some row of the table is about `s`. */
  predicate HasHardSkill(rows: seq<HardCount>, s: Value)
  {
    exists i :: 0 <= i < |rows| && rows[i].skill == s
  }

  /** The rows of the hard-skill table, one per skill, in the (unspecified)
      order the set of skills is visited. */
  method HardRecords(req: seq<Value>, opt: seq<Value>, total: int) returns (records: seq<HardCount>)
    ensures forall i, j :: 0 <= i < j < |records| ==> records[i].skill != records[j].skill
    ensures forall i :: 0 <= i < |records| ==> records[i] == HardRow(records[i].skill, req, opt, total)
    ensures forall s :: HasHardSkill(records, s) <==> s in req || s in opt
  {
    var all := (set x | x in req) + (set x | x in opt);
    var remaining := all;
    records := [];
    while remaining != {}
      invariant remaining <= all
      invariant forall i, j :: 0 <= i < j < |records| ==> records[i].skill != records[j].skill
      invariant forall i :: 0 <= i < |records| ==> records[i] == HardRow(records[i].skill, req, opt, total)
      invariant forall s :: HasHardSkill(records, s) <==> s in all && s !in remaining
      decreases |remaining|
    {
      var skill :| skill in remaining;
      var reqCount := Count(req, skill);
      var optCount := Count(opt, skill);
      var row := HardCount(skill, reqCount, optCount, SafePct(reqCount, total, 2), SafePct(optCount, total, 2));
      HardRecordsStep(records, row, req, opt, total);
      records := records + [row];
      remaining := remaining - {skill};
    }
  }

  /** Appending the row of a skill not yet in the table keeps one correct
      row per skill. */
  lemma HardRecordsStep(records: seq<HardCount>, row: HardCount, req: seq<Value>, opt: seq<Value>, total: int)
    requires forall i, j :: 0 <= i < j < |records| ==> records[i].skill != records[j].skill
    requires forall i :: 0 <= i < |records| ==> records[i] == HardRow(records[i].skill, req, opt, total)
    requires !HasHardSkill(records, row.skill) && row == HardRow(row.skill, req, opt, total)
    ensures forall i, j :: 0 <= i < j < |records + [row]| ==> (records + [row])[i].skill != (records + [row])[j].skill
    ensures forall i :: 0 <= i < |records + [row]| ==> (records + [row])[i] == HardRow((records + [row])[i].skill, req, opt, total)
    ensures forall s :: HasHardSkill(records + [row], s) <==> HasHardSkill(records, s) || s == row.skill
  {
    HasHardSkillAppend(records, row);
    forall i | 0 <= i < |records| ensures records[i].skill != row.skill {
      assert records[i].skill == row.skill ==> HasHardSkill(records, row.skill);
    }
  }

  /** Appending a row adds its skill and no other. */
  lemma HasHardSkillAppend(rows: seq<HardCount>, row: HardCount)
    ensures forall s :: HasHardSkill(rows + [row], s) <==> HasHardSkill(rows, s) || s == row.skill
  {
    forall s | HasHardSkill(rows + [row], s) && s != row.skill ensures HasHardSkill(rows, s) {
      var i :| 0 <= i < |rows + [row]| && (rows + [row])[i].skill == s;
      assert rows[i].skill == s;
    }
    forall s | HasHardSkill(rows, s) ensures HasHardSkill(rows + [row], s) {
      var i :| 0 <= i < |rows| && rows[i].skill == s;
      assert (rows + [row])[i].skill == s;
    }
    assert (rows + [row])[|rows|].skill == row.skill;
  }

  /** `analyze_hard_skills_ft(df)` */
  method AnalyzeHardSkillsFt(t: Table) returns (r: Result<seq<HardCount>>)
    ensures |t.rows| == 0 ==> r == Ok([])
    ensures |t.rows| > 0 && HardInputs(t).Err? ==> r == Err(HardInputs(t).error)
    ensures |t.rows| > 0 && HardInputs(t).Ok? ==> r.Ok? && HardTable(HardInputs(t).value.0, HardInputs(t).value.1, |t.rows|, r.value)
  {
    var total := |t.rows|;
    if total == 0 {
      return Ok([]);
    }
    var inputs := HardInputs(t);
    if inputs.Err? {
      return Err(inputs.error);
    }
    var req := inputs.value.0;
    var opt := inputs.value.1;
    var records := HardRecords(req, opt, total);
    if records == [] {
      return Ok([]);
    }
    var rows := SortDesc(records, HardKey);
    SortedHardTable(req, opt, total, records);
    r := Ok(rows);
  }

  /** Ranking the rows of the hard-skill table keeps every row and adds none,
      so the ranked table still holds one correct row per skill. */
  lemma SortedHardTable(req: seq<Value>, opt: seq<Value>, total: int, records: seq<HardCount>)
    requires forall i, j :: 0 <= i < j < |records| ==> records[i].skill != records[j].skill
    requires forall i :: 0 <= i < |records| ==> records[i] == HardRow(records[i].skill, req, opt, total)
    requires forall s :: HasHardSkill(records, s) <==> s in req || s in opt
    ensures HardTable(req, opt, total, SortDesc(records, HardKey))
  {
    var rows := SortDesc(records, HardKey);
    PermutationMembers(rows, records);
    SortedHardSkills(records, rows);
    SortedHardRows(req, opt, total, records, rows);
    forall i, j | 0 <= i < j < |rows| ensures rows[i].skill != rows[j].skill {
      DistinctAfterSort(records, rows, (row: HardCount) => row.skill, i, j);
    }
  }

  /** Two tables with the same rows cover the same skills. */
  lemma SortedHardSkills(records: seq<HardCount>, rows: seq<HardCount>)
    requires forall x :: x in rows <==> x in records
    ensures forall s :: HasHardSkill(rows, s) <==> HasHardSkill(records, s)
  {
    forall s ensures HasHardSkill(rows, s) <==> HasHardSkill(records, s) {
      if HasHardSkill(rows, s) {
        var i :| 0 <= i < |rows| && rows[i].skill == s;
        assert rows[i] in records;
        var k :| 0 <= k < |records| && records[k] == rows[i];
      }
      if HasHardSkill(records, s) {
        var i :| 0 <= i < |records| && records[i].skill == s;
        assert records[i] in rows;
        var k :| 0 <= k < |rows| && rows[k] == records[i];
      }
    }
  }

  /** Rows taken from a table of correct rows are correct. */
  lemma SortedHardRows(req: seq<Value>, opt: seq<Value>, total: int, records: seq<HardCount>, rows: seq<HardCount>)
    requires forall i :: 0 <= i < |records| ==> records[i] == HardRow(records[i].skill, req, opt, total)
    requires forall x :: x in rows ==> x in records
    ensures forall i :: 0 <= i < |rows| ==> rows[i] == HardRow(rows[i].skill, req, opt, total)
  {
    forall i | 0 <= i < |rows| ensures rows[i] == HardRow(rows[i].skill, req, opt, total) {
      assert rows[i] in records;
      var k :| 0 <= k < |records| && records[k] == rows[i];
    }
  }

  /** What the hard-skill table holds: one row per skill that is required or
      optional somewhere, with its counts and percentages, ranked by
      decreasing required and then optional percentage. */
  ghost predicate HardTable(req: seq<Value>, opt: seq<Value>, total: int, rows: seq<HardCount>)
  {
    && SortedDesc(rows, HardKey)
    && (forall i, j :: 0 <= i < j < |rows| ==> rows[i].skill != rows[j].skill)
    && (forall i :: 0 <= i < |rows| ==> rows[i] == HardRow(rows[i].skill, req, opt, total))
    && (forall s :: HasHardSkill(rows, s) <==> s in req || s in opt)
  }

  /** `analyze_soft_skills_ft(df)` */
  function SoftSkillsFt(t: Table): (r: Result<seq<SkillCount>>)
    ensures |t.rows| == 0 ==> r == Ok([])
  {
    if |t.rows| == 0 then Ok([])
    else
      match Occurrences(t, "skills_soft")
      case Err(e) => Err(e)
      case Ok(xs) => Ok(CountTable(xs, |t.rows|))
  }

  /** The rows of a table whose required percentage lies in [lo, hi], in order. */
  function InRange(rows: seq<HardCount>, lo: real, hi: real): (r: seq<HardCount>)
    ensures forall row :: row in r <==> row in rows && lo <= row.requiredPct <= hi
    decreases |rows|
  {
    if rows == [] then []
    else
      var n := |rows| - 1;
      assert rows == rows[..n] + [rows[n]];
      InRange(rows[..n], lo, hi) + (if lo <= rows[n].requiredPct <= hi then [rows[n]] else [])
  }

  /** The sort key of the emerging-skill table. */
  function RequiredKey(row: HardCount): seq<real>
  {
    [row.requiredPct]
  }

  const DefaultMinPct := 5.0
  const DefaultMaxPct := 15.0

  /** `detect_emerging_skills_ft(df_hard_skills, min_pct, max_pct)` */
  function DetectEmerging(rows: seq<HardCount>, minPct: real, maxPct: real): seq<HardCount>
  {
    if rows == [] then rows else SortDesc(InRange(rows, minPct, maxPct), RequiredKey)
  }

  /** The emerging skills are exactly the rows whose required percentage lies
      in [minPct, maxPct], each kept as often as it came, ranked by
      decreasing required percentage. */
  lemma EmergingSpec(rows: seq<HardCount>, minPct: real, maxPct: real)
    ensures var e := DetectEmerging(rows, minPct, maxPct);
      && SortedDesc(e, RequiredKey)
      && multiset(e) == multiset(InRange(rows, minPct, maxPct))
      && (forall row :: row in e <==> row in rows && minPct <= row.requiredPct <= maxPct)
  {
    var e := DetectEmerging(rows, minPct, maxPct);
    if rows != [] {
      PermutationMembers(e, InRange(rows, minPct, maxPct));
    }
  }

  /** The three tables of the France Travail analysis. */
  datatype FtSkills = FtSkills(hard: seq<HardCount>, soft: seq<SkillCount>, emerging: seq<HardCount>)

  /** `analyze_skills_ft(df_jobs)` */
  method AnalyzeSkillsFt(t: Table) returns (r: Result<FtSkills>)
    ensures r.Ok? ==> SoftSkillsFt(t) == Ok(r.value.soft)
    ensures r.Ok? ==> r.value.emerging == DetectEmerging(r.value.hard, DefaultMinPct, DefaultMaxPct)
    ensures r.Ok? && |t.rows| > 0 ==> HardInputs(t).Ok? && HardTable(HardInputs(t).value.0, HardInputs(t).value.1, |t.rows|, r.value.hard)
    ensures r.Err? <==> |t.rows| > 0 && (HardInputs(t).Err? || SoftSkillsFt(t).Err?)
  {
    var hard := AnalyzeHardSkillsFt(t);
    if hard.Err? {
      return Err(hard.error);
    }
    var soft := SoftSkillsFt(t);
    if soft.Err? {
      return Err(soft.error);
    }
    r := Ok(FtSkills(hard.value, soft.value, DetectEmerging(hard.value, DefaultMinPct, DefaultMaxPct)));
  }

  // ================================================================ Welcome to the Jungle

  /** The two tables of the Welcome to the Jungle analysis. */
  datatype WttjSkills = WttjSkills(hard: seq<SkillCount>, soft: seq<SkillCount>)

  /** `analyze_skills_wttj(df)`: hard skills are counted from the required
      column only, since this source has no optional skills. */
  function SkillsWttj(t: Table): (r: Result<WttjSkills>)
    ensures |t.rows| == 0 ==> r == Ok(WttjSkills([], []))
  {
    if |t.rows| == 0 then Ok(WttjSkills([], []))
    else
      match Occurrences(t, "skills_hard_required")
      case Err(e) => Err(e)
      case Ok(hard) =>
        match Occurrences(t, "skills_soft")
        case Err(e) => Err(e)
        case Ok(soft) => Ok(WttjSkills(CountTable(hard, |t.rows|), CountTable(soft, |t.rows|)))
  }

  /** The hard-skill counts of a Welcome to the Jungle table add up to the
      number of flattened required skills, and a skill has a row exactly
      when it is required somewhere. */
  lemma WttjHardCounts(t: Table)
    requires SkillsWttj(t).Ok? && |t.rows| > 0
    ensures var hard := Occurrences(t, "skills_hard_required").value;
      var rows := SkillsWttj(t).value.hard;
      && SumCounts(rows) == |hard|
      && (forall s :: HasSkill(rows, s) <==> s in hard)
  {
    CountTableRows(Occurrences(t, "skills_hard_required").value, |t.rows|);
    CountTableSum(Occurrences(t, "skills_hard_required").value, |t.rows|);
  }
}
