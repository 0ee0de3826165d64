/** The source normaliser: offers from Welcome to the Jungle and from France
    Travail, each a table of JSON-like rows, are mapped onto one common
    record, then concatenated with their missing texts replaced by "". */
module Preprocessing {
  import opened Values
  import opened Text

  /** A row of the common table, one field per column. */
  datatype Offer = Offer(
    id: Value, title: Value, description: Value, company: Value, location: Value,
    contract: Value, salary: Value, date: Value, industry: Value, experience: Value,
    education: Value, skillsHardRequired: Value, skillsHardOptional: Value, skillsSoft: Value,
    languagesRequired: Value, languagesOptional: Value, source: Value, url: Value)

  /** A row of an input table, with its index label. */
  datatype Row = Row(index: nat, cells: map<string, Value>)

  /** An input table: the names of its columns and its rows. */
  datatype Table = Table(columns: set<string>, rows: seq<Row>)

  /** A cell; an absent or missing one reads as None. */
  function Cell(row: Row, col: string): Value
  {
    Get(row.cells, col)
  }

  // ================================================================ helpers

  /** `safe_list(x)`: the list itself, or [] for anything else. */
  function SafeList(x: Value): (r: seq<Value>)
    ensures x.VList? ==> r == x.items
    ensures !x.VList? ==> r == []
  {
    if x.VList? then x.items else []
  }

  /** The `libelle` of each item whose `exigence` is `level`, in order; an
      item that is not a dictionary has no `get` and raises AttributeError. */
  function Labels(items: seq<Value>, level: string): (r: Result<seq<Value>>)
    ensures r.Err? ==> r.error == AttributeError
    ensures r.Ok? ==> |r.value| <= |items|
    decreases |items|
  {
    if items == [] then Ok([])
    else
      var last := items[|items| - 1];
      match Labels(items[..|items| - 1], level)
      case Err(e) => Err(e)
      case Ok(rest) =>
        if !last.VDict? then Err(AttributeError)
        else if Get(last.fields, "exigence") == VStr(level) then Ok(rest + [Get(last.fields, "libelle")])
        else Ok(rest)
  }

  /** `item` is a dictionary whose `exigence` is `level`. */
  predicate HasLevel(item: Value, level: string)
  {
    item.VDict? && Get(item.fields, "exigence") == VStr(level)
  }

  /** A list fails exactly when it holds a non-dictionary; otherwise a label
      is kept exactly when some item at that level carries it. */
  lemma {:induction false} LabelsMembers(items: seq<Value>, level: string)
    ensures Labels(items, level).Err? <==> exists k :: 0 <= k < |items| && !items[k].VDict?
    ensures Labels(items, level).Ok? ==> forall v :: v in Labels(items, level).value <==>
      exists k :: 0 <= k < |items| && HasLevel(items[k], level) && Get(items[k].fields, "libelle") == v
    decreases |items|
  {
    if items != [] {
      var n := |items| - 1;
      var init := items[..n];
      LabelsMembers(init, level);
      assert forall k :: 0 <= k < n ==> init[k] == items[k];
      if exists k :: 0 <= k < |items| && !items[k].VDict? {
        var k :| 0 <= k < |items| && !items[k].VDict?;
        if k < n {
          assert !init[k].VDict?;
        }
      }
      if Labels(items, level).Ok? {
        forall v ensures v in Labels(items, level).value <==>
          exists k :: 0 <= k < |items| && HasLevel(items[k], level) && Get(items[k].fields, "libelle") == v
        {
          if exists k :: 0 <= k < |items| && HasLevel(items[k], level) && Get(items[k].fields, "libelle") == v {
            var k :| 0 <= k < |items| && HasLevel(items[k], level) && Get(items[k].fields, "libelle") == v;
            if k < n {
              assert HasLevel(init[k], level) && Get(init[k].fields, "libelle") == v;
            }
          }
        }
      }
    }
  }

  /** Labels of a concatenation are the labels of the parts, in order. */
  lemma {:induction false} LabelsConcat(a: seq<Value>, b: seq<Value>, level: string)
    requires Labels(a + b, level).Ok?
    ensures Labels(a, level).Ok? && Labels(b, level).Ok?
    ensures Labels(a + b, level).value == Labels(a, level).value + Labels(b, level).value
    decreases |b|
  {
    if b == [] {
      assert a + b == a;
    } else {
      var n := |b| - 1;
      assert (a + b)[..|a + b| - 1] == a + b[..n];
      LabelsConcat(a, b[..n], level);
    }
  }

  /** The required and the optional labels of a list. */
  datatype Split = Split(required: seq<Value>, optional: seq<Value>)

  /** `extract_required_optional(items)` */
  function ExtractRequiredOptional(x: Value): (r: Result<Split>)
    ensures r.Err? ==> r.error == AttributeError
    ensures !x.VList? ==> r == Ok(Split([], []))
  {
    if !x.VList? then Ok(Split([], []))
    else
      match Labels(x.items, "E")
      case Err(e) => Err(e)
      case Ok(req) =>
        match Labels(x.items, "S")
        case Err(e) => Err(e)
        case Ok(opt) => Ok(Split(req, opt))
  }

  /** An item is never both required and optional, so the two lists together
      are no longer than the input; items at any other level are dropped. */
  lemma {:induction false} SplitCount(items: seq<Value>)
    requires Labels(items, "E").Ok? && Labels(items, "S").Ok?
    ensures |Labels(items, "E").value| + |Labels(items, "S").value| <= |items|
    decreases |items|
  {
    if items != [] {
      SplitCount(items[..|items| - 1]);
    }
  }

  /** What `extract_required_optional` returns for a list: AttributeError
      exactly when an item is not a dictionary, and otherwise the labels of
      the "E" items and of the "S" items, together no more than the items. */
  lemma ExtractCases(x: Value)
    requires x.VList?
    ensures ExtractRequiredOptional(x).Err? <==> exists k :: 0 <= k < |x.items| && !x.items[k].VDict?
    ensures ExtractRequiredOptional(x).Ok? ==>
      var s := ExtractRequiredOptional(x).value;
      && |s.required| + |s.optional| <= |x.items|
      && (forall v :: v in s.required <==>
            exists k :: 0 <= k < |x.items| && HasLevel(x.items[k], "E") && Get(x.items[k].fields, "libelle") == v)
      && (forall v :: v in s.optional <==>
            exists k :: 0 <= k < |x.items| && HasLevel(x.items[k], "S") && Get(x.items[k].fields, "libelle") == v)
  {
    LabelsMembers(x.items, "E");
    LabelsMembers(x.items, "S");
    if ExtractRequiredOptional(x).Ok? {
      SplitCount(x.items);
    }
  }

  // ================================================================ Welcome to the Jungle

  /** The list columns `preprocess_wttj` maps with `apply`: absent, the
      lookup gives None or [] and neither has `apply`. */
  const WttjListColumns: seq<string> := ["competences_techniques", "savoir_faire", "savoir_etre", "langues"]

  /** The common record of one Welcome to the Jungle row. The source has no
      notion of required and optional, so all hard skills are required and
      all languages optional. */
  function WttjOffer(row: Row): Offer
  {
    Offer(
      id := VStr(Decimal(row.index)),
      title := Cell(row, "title"),
      description := Cell(row, "description"),
      company := Cell(row, "company"),
      location := Cell(row, "location"),
      contract := Cell(row, "contract"),
      salary := Cell(row, "salary"),
      date := Cell(row, "date"),
      industry := Cell(row, "industry_category"),
      experience := Cell(row, "experience"),
      education := Cell(row, "education"),
      skillsHardRequired := VList(SafeList(Cell(row, "competences_techniques")) + SafeList(Cell(row, "savoir_faire"))),
      skillsHardOptional := VList([]),
      skillsSoft := VList(SafeList(Cell(row, "savoir_etre"))),
      languagesRequired := VList([]),
      languagesOptional := VList(SafeList(Cell(row, "langues"))),
      source := VStr("Welcome to the Jungle"),
      url := Cell(row, "link"))
  }

  /** `preprocess_wttj(df)`: one record per row, or AttributeError when a
      list column is absent. */
  function PreprocessWttj(t: Table): (r: Result<seq<Offer>>)
    ensures r.Err? ==> r.error == AttributeError
    ensures r.Ok? ==> |r.value| == |t.rows| && forall k :: 0 <= k < |t.rows| ==> r.value[k] == WttjOffer(t.rows[k])
  {
    if exists c :: c in WttjListColumns && c !in t.columns then Err(AttributeError)
    else Ok(seq(|t.rows|, k requires 0 <= k < |t.rows| => WttjOffer(t.rows[k])))
  }

  /** A Welcome to the Jungle record has no optional skills and no required
      languages, its required skills are the techniques followed by the
      savoir-faire, and its id reads back as the row's index. */
  lemma WttjOfferShape(row: Row)
    ensures var r := WttjOffer(row);
      var tech := SafeList(Cell(row, "competences_techniques"));
      && r.skillsHardOptional == VList([]) && r.languagesRequired == VList([])
      && r.skillsHardRequired.items[..|tech|] == tech
      && r.skillsHardRequired.items[|tech|..] == SafeList(Cell(row, "savoir_faire"))
      && r.id.VStr? && DigitsValue(r.id.s, 0, |r.id.s|) == row.index
  {
    DecimalValue(row.index);
  }

  // ================================================================ France Travail

  /** The labels of a list of qualities, or AttributeError for a
      non-dictionary item; anything but a list gives []. */
  function SoftLabels(x: Value): (r: Result<seq<Value>>)
    ensures r.Err? ==> r.error == AttributeError
    ensures !x.VList? ==> r == Ok([])
  {
    if x.VList? then AllLabels(x.items) else Ok([])
  }

  /** The `libelle` of every item, in order. */
  function AllLabels(items: seq<Value>): (r: Result<seq<Value>>)
    ensures r.Err? ==> r.error == AttributeError
    ensures r.Err? <==> exists k :: 0 <= k < |items| && !items[k].VDict?
    ensures r.Ok? ==> |r.value| == |items| && forall k :: 0 <= k < |items| ==> r.value[k] == Get(items[k].fields, "libelle")
    decreases |items|
  {
    if items == [] then Ok([])
    else
      var n := |items| - 1;
      var last := items[n];
      var rest := AllLabels(items[..n]);
      assert forall k :: 0 <= k < n ==> items[..n][k] == items[k];
      if rest.Err? then Err(rest.error)
      else if !last.VDict? then Err(AttributeError)
      else Ok(rest.value + [Get(last.fields, "libelle")])
  }

  /** A France Travail row from which a record can be built. */
  predicate FtRowOk(row: Row)
  {
    ExtractRequiredOptional(Cell(row, "competences")).Ok?
    && ExtractRequiredOptional(Cell(row, "langues")).Ok?
    && SoftLabels(Cell(row, "qualitesProfessionnelles")).Ok?
  }

  /** The common record of one France Travail row, from its skill and
      language lists already split by level. */
  function FtOffer(row: Row, skills: Split, languages: Split, soft: seq<Value>): Offer
  {
    Offer(
      id := Cell(row, "id"),
      title := Cell(row, "intitule"),
      description := Cell(row, "description"),
      company := Cell(row, "entreprise.nom"),
      location := Cell(row, "lieuTravail.libelle"),
      contract := Cell(row, "typeContratLibelle"),
      salary := Cell(row, "salaire.libelle"),
      date := Cell(row, "dateCreation"),
      industry := Cell(row, "secteurActiviteLibelle"),
      experience := Cell(row, "experienceLibelle"),
      education := Cell(row, "formations"),
      skillsHardRequired := VList(skills.required),
      skillsHardOptional := VList(skills.optional),
      skillsSoft := VList(soft),
      languagesRequired := VList(languages.required),
      languagesOptional := VList(languages.optional),
      source := VStr("France Travail"),
      url := Cell(row, "origineOffre.urlOrigine"))
  }

  /** The record of a row that can be built. */
  function FtRow(row: Row): Offer
    requires FtRowOk(row)
  {
    FtOffer(row, ExtractRequiredOptional(Cell(row, "competences")).value,
      ExtractRequiredOptional(Cell(row, "langues")).value,
      SoftLabels(Cell(row, "qualitesProfessionnelles")).value)
  }

  /** What `preprocess_ft(df)` returns: one record per row, or AttributeError
      when a row holds an item that is not a dictionary or the qualities
      column is absent. */
  function FtSpec(t: Table): (r: Result<seq<Offer>>)
    ensures r.Err? ==> r.error == AttributeError
  {
    if "qualitesProfessionnelles" !in t.columns || exists k :: 0 <= k < |t.rows| && !FtRowOk(t.rows[k]) then
      Err(AttributeError)
    else Ok(seq(|t.rows|, k requires 0 <= k < |t.rows| => FtRow(t.rows[k])))
  }

  /** The qualities column mapped to labels, row by row. */
  function SoftColumn(rows: seq<Row>): (r: Result<seq<seq<Value>>>)
    ensures r.Err? ==> r.error == AttributeError
    ensures r.Err? <==> exists k :: 0 <= k < |rows| && SoftLabels(Cell(rows[k], "qualitesProfessionnelles")).Err?
    ensures r.Ok? ==> |r.value| == |rows|
    ensures r.Ok? ==> forall k :: 0 <= k < |rows| ==> r.value[k] == SoftLabels(Cell(rows[k], "qualitesProfessionnelles")).value
    decreases |rows|
  {
    if rows == [] then Ok([])
    else
      var n := |rows| - 1;
      var rest := SoftColumn(rows[..n]);
      var last := SoftLabels(Cell(rows[n], "qualitesProfessionnelles"));
      assert forall k :: 0 <= k < n ==> rows[..n][k] == rows[k];
      if rest.Err? then Err(rest.error)
      else if last.Err? then Err(last.error)
      else Ok(rest.value + [last.value])
  }

  /** `preprocess_ft(df)` */
  method PreprocessFt(t: Table) returns (r: Result<seq<Offer>>)
    ensures r == FtSpec(t)
  {
    var skillsRequired: seq<seq<Value>> := [];
    var skillsOptional: seq<seq<Value>> := [];
    var languagesRequired: seq<seq<Value>> := [];
    var languagesOptional: seq<seq<Value>> := [];
    var i := 0;
    while i < |t.rows|
      invariant 0 <= i <= |t.rows|
      invariant |skillsRequired| == |skillsOptional| == |languagesRequired| == |languagesOptional| == i
      invariant forall k :: 0 <= k < i ==>
        && ExtractRequiredOptional(Cell(t.rows[k], "competences")) == Ok(Split(skillsRequired[k], skillsOptional[k]))
        && ExtractRequiredOptional(Cell(t.rows[k], "langues")) == Ok(Split(languagesRequired[k], languagesOptional[k]))
    {
      var skills := ExtractRequiredOptional(Cell(t.rows[i], "competences"));
      if skills.Err? {
        assert !FtRowOk(t.rows[i]);
        return Err(skills.error);
      }
      skillsRequired := skillsRequired + [skills.value.required];
      skillsOptional := skillsOptional + [skills.value.optional];

      var languages := ExtractRequiredOptional(Cell(t.rows[i], "langues"));
      if languages.Err? {
        assert !FtRowOk(t.rows[i]);
        return Err(languages.error);
      }
      languagesRequired := languagesRequired + [languages.value.required];
      languagesOptional := languagesOptional + [languages.value.optional];
      i := i + 1;
    }
    if "qualitesProfessionnelles" !in t.columns {
      return Err(AttributeError);
    }
    var soft := SoftColumn(t.rows);
    if soft.Err? {
      var k :| 0 <= k < |t.rows| && SoftLabels(Cell(t.rows[k], "qualitesProfessionnelles")).Err?;
      assert !FtRowOk(t.rows[k]);
      return Err(soft.error);
    }
    assert forall k :: 0 <= k < |t.rows| ==> FtRowOk(t.rows[k]);
    var offers := seq(|t.rows|, k requires 0 <= k < |t.rows| =>
      FtOffer(t.rows[k], Split(skillsRequired[k], skillsOptional[k]),
        Split(languagesRequired[k], languagesOptional[k]), soft.value[k]));
    assert offers == seq(|t.rows|, k requires 0 <= k < |t.rows| => FtRow(t.rows[k]));
    r := Ok(offers);
  }

  // ================================================================ merging

  /** The text columns whose missing cells become "". */
  const TextColumns: seq<string> := ["title", "description", "company", "location", "industry", "experience", "education", "url"]

  /** `fillna("")` on one cell. */
  function Filled(v: Value): (r: Value)
    ensures r != VNone
    ensures v != VNone ==> r == v
  {
    if v == VNone then VStr("") else v
  }

  /** `fillna("")` on the named column of one record; every column of the
      common schema exists, so a text column is always found. */
  function FillColumn(o: Offer, col: string): Offer
  {
    if col == "title" then o.(title := Filled(o.title))
    else if col == "description" then o.(description := Filled(o.description))
    else if col == "company" then o.(company := Filled(o.company))
    else if col == "location" then o.(location := Filled(o.location))
    else if col == "industry" then o.(industry := Filled(o.industry))
    else if col == "experience" then o.(experience := Filled(o.experience))
    else if col == "education" then o.(education := Filled(o.education))
    else if col == "url" then o.(url := Filled(o.url))
    else o
  }

  /** `fillna("")` on the given columns of a record, in order. */
  function FillColumns(o: Offer, cols: seq<string>): Offer
    decreases |cols|
  {
    if cols == [] then o else FillColumn(FillColumns(o, cols[..|cols| - 1]), cols[|cols| - 1])
  }

  /** No text column of the record is missing. */
  predicate TextFilled(o: Offer)
  {
    o.title != VNone && o.description != VNone && o.company != VNone && o.location != VNone
    && o.industry != VNone && o.experience != VNone && o.education != VNone && o.url != VNone
  }

  /** Filling the first four text columns. */
  lemma FillFirstColumns(o: Offer)
    ensures FillColumns(o, TextColumns[..4]) == o.(title := Filled(o.title), description := Filled(o.description),
      company := Filled(o.company), location := Filled(o.location))
  {
    var c := TextColumns;
    assert c[..1][..0] == [];
    assert FillColumns(o, c[..1]) == o.(title := Filled(o.title));
    assert c[..2][..1] == c[..1];
    assert FillColumns(o, c[..2]) == FillColumn(FillColumns(o, c[..1]), "description");
    assert c[..3][..2] == c[..2];
    assert FillColumns(o, c[..3]) == FillColumn(FillColumns(o, c[..2]), "company");
    assert c[..4][..3] == c[..3];
    assert FillColumns(o, c[..4]) == FillColumn(FillColumns(o, c[..3]), "location");
  }

  /** Filling the text columns one after the other fills each of them once,
      keeps every text that was there and leaves every other column alone. */
  lemma FillTextColumns(o: Offer)
    ensures var r := FillColumns(o, TextColumns);
      && TextFilled(r)
      && r == o.(title := Filled(o.title), description := Filled(o.description),
        company := Filled(o.company), location := Filled(o.location),
        industry := Filled(o.industry), experience := Filled(o.experience),
        education := Filled(o.education), url := Filled(o.url))
  {
    var c := TextColumns;
    FillFirstColumns(o);
    var p := FillColumns(o, c[..4]);
    assert c[..5][..4] == c[..4];
    assert FillColumns(o, c[..5]) == p.(industry := Filled(o.industry));
    assert c[..6][..5] == c[..5];
    assert FillColumns(o, c[..6]) == FillColumn(FillColumns(o, c[..5]), "experience");
    assert c[..7][..6] == c[..6];
    assert FillColumns(o, c[..7]) == FillColumn(FillColumns(o, c[..6]), "education");
    assert c[..8][..7] == c[..7] && c[..8] == c;
    assert FillColumns(o, c) == FillColumn(FillColumns(o, c[..7]), "url");
  }

  /** After the fill no text column is missing. */
  lemma TextColumnsFilled(o: Offer)
    ensures TextFilled(FillColumns(o, TextColumns))
  {
    FillTextColumns(o);
  }

  /** `df[col] = df[col].fillna("")` over every record. */
  function FillTable(rows: seq<Offer>, col: string): (r: seq<Offer>)
    ensures |r| == |rows|
    ensures forall k :: 0 <= k < |rows| ==> r[k] == FillColumn(rows[k], col)
  {
    seq(|rows|, k requires 0 <= k < |rows| => FillColumn(rows[k], col))
  }

  /** An input that `merge_sources` uses: given and neither rowless nor columnless. */
  predicate Usable(t: Option<Table>)
  {
    t.Some? && |t.value.rows| > 0 && t.value.columns != {}
  }

  /** What `merge_sources(df_wttj, df_ft)` returns: the usable inputs mapped
      and concatenated, Welcome to the Jungle first, with the text columns
      filled; an empty table when neither input is usable. */
  function MergeSpec(wttj: Option<Table>, ft: Option<Table>): Result<seq<Offer>>
  {
    match (if Usable(wttj) then PreprocessWttj(wttj.value) else Ok([]))
    case Err(e) => Err(e)
    case Ok(a) =>
      match (if Usable(ft) then FtSpec(ft.value) else Ok([]))
      case Err(e) => Err(e)
      case Ok(b) =>
        if !Usable(wttj) && !Usable(ft) then Ok([])
        else Ok(seq(|a + b|, k requires 0 <= k < |a + b| => FillColumns((a + b)[k], TextColumns)))
  }

  /** `merge_sources(df_wttj, df_ft)` */
  method MergeSources(wttj: Option<Table>, ft: Option<Table>) returns (r: Result<seq<Offer>>)
    ensures r == MergeSpec(wttj, ft)
  {
    var frames: seq<seq<Offer>> := [];
    ghost var a: seq<Offer> := [];
    ghost var b: seq<Offer> := [];
    if Usable(wttj) {
      var w := PreprocessWttj(wttj.value);
      if w.Err? {
        return Err(w.error);
      }
      frames := frames + [w.value];
      a := w.value;
    }
    if Usable(ft) {
      var f := PreprocessFt(ft.value);
      if f.Err? {
        return Err(f.error);
      }
      frames := frames + [f.value];
      b := f.value;
    }
    if frames == [] {
      return Ok([]);
    }
    var df := frames[0];
    if |frames| == 2 {
      df := df + frames[1];
    }
    assert df == a + b;
    df := FillText(df);
    r := Ok(df);
  }

  /** The cleaning loop of `merge_sources`: each text column filled in turn. */
  method FillText(rows: seq<Offer>) returns (df: seq<Offer>)
    ensures df == seq(|rows|, k requires 0 <= k < |rows| => FillColumns(rows[k], TextColumns))
  {
    df := rows;
    var j := 0;
    while j < |TextColumns|
      invariant 0 <= j <= |TextColumns|
      invariant |df| == |rows|
      invariant forall k :: 0 <= k < |rows| ==> df[k] == FillColumns(rows[k], TextColumns[..j])
    {
      assert TextColumns[..j + 1][..j] == TextColumns[..j];
      df := FillTable(df, TextColumns[j]);
      j := j + 1;
    }
    assert TextColumns[..j] == TextColumns;
  }

  /** With no usable input the merge is empty; otherwise it holds one record
      per input row, the Welcome to the Jungle rows first and then the France
      Travail rows, each with its text columns filled. */
  lemma MergeShape(wttj: Option<Table>, ft: Option<Table>)
    requires MergeSpec(wttj, ft).Ok?
    ensures !Usable(wttj) && !Usable(ft) ==> MergeSpec(wttj, ft).value == []
    ensures var r := MergeSpec(wttj, ft).value;
      var n := if Usable(wttj) then |wttj.value.rows| else 0;
      var m := if Usable(ft) then |ft.value.rows| else 0;
      && |r| == n + m
      && (forall k :: 0 <= k < n ==> r[k] == FillColumns(WttjOffer(wttj.value.rows[k]), TextColumns))
      && (forall k :: 0 <= k < m ==> FtRowOk(ft.value.rows[k]) && r[n + k] == FillColumns(FtRow(ft.value.rows[k]), TextColumns))
      && (forall k :: 0 <= k < |r| ==> TextFilled(r[k]))
  {
    var r := MergeSpec(wttj, ft).value;
    forall k | 0 <= k < |r| ensures TextFilled(r[k]) {
      var a: seq<Offer> := if Usable(wttj) then PreprocessWttj(wttj.value).value else [];
      var b: seq<Offer> := if Usable(ft) then FtSpec(ft.value).value else [];
      TextColumnsFilled((a + b)[k]);
    }
  }
}
