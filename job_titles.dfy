/** Related job titles: titles are cleaned to lower-case words, counted, and
    the distinct ones close enough to the cleaned query (by the embedding
    similarity, here the oracle `sim(query, title)`) are ranked by
    similarity, then by number of offers, and cut to the first `top_n`. */
module JobTitles {
  import opened Values
  import opened Text
  import opened Rounding
  import opened Ranking
  import opened Preprocessing
  import Matching

  // ---------------------------------------------------------------- cleaning a title

  /** The letters `[a-zàâçéèêëîïôûùüÿñæœ]` a cleaned title keeps. */
  predicate IsTitleLetter(c: char)
  {
    'a' <= c <= 'z' || c in {'à', 'â', 'ç', 'é', 'è', 'ê', 'ë', 'î', 'ï', 'ô', 'û', 'ù', 'ü', 'ÿ', 'ñ', 'æ', 'œ'}
  }

  /** Where `.*?\)` ends in `t`: the first `)`, unless a line break (which
      `.` does not match) comes first. */
  function Close(t: string): (r: Option<nat>)
    ensures r.Some? ==> r.value < |t| && t[r.value] == ')'
    ensures r.Some? ==> forall k :: 0 <= k < r.value ==> t[k] != ')' && t[k] != '\n'
    decreases |t|
  {
    if t == [] then None
    else if t[0] == ')' then Some(0)
    else if t[0] == '\n' then None
    else
      var c := Close(t[1..]);
      if c.Some? then Some(c.value + 1) else None
  }

  /** `re.sub(r"\(.*?\)", "", s)`: every parenthesised span that closes on
      its own line is removed, scanning left to right. */
  function RemoveParens(s: string): (r: string)
    ensures |r| <= |s|
    ensures forall c :: c in r ==> c in s
    decreases |s|
  {
    if s == [] then []
    else if s[0] == '(' && Close(s[1..]).Some? then
      var rest := s[Close(s[1..]).value + 2..];
      assert forall c :: c in rest ==> c in s;
      RemoveParens(rest)
    else
      assert forall c :: c in s[1..] ==> c in s;
      [s[0]] + RemoveParens(s[1..])
  }

  /** `re.sub(r"[^a-zàâçéèêëîïôûùüÿñæœ\s]", " ", s)` */
  function KeepLetters(s: string): (r: string)
    ensures |r| == |s|
    ensures forall i :: 0 <= i < |s| ==> r[i] == (if IsTitleLetter(s[i]) || IsSpace(s[i]) then s[i] else ' ')
  {
    seq(|s|, i requires 0 <= i < |s| => if IsTitleLetter(s[i]) || IsSpace(s[i]) then s[i] else ' ')
  }

  /** The letters a title keeps are lower case already. */
  lemma TitleLetterLowered(c: char)
    requires IsTitleLetter(c) || c == ' '
    ensures LowerChar(c) == c
  {
  }

  /** Title letters and single spaces only. */
  predicate TitleChars(s: string)
  {
    forall i :: 0 <= i < |s| ==> IsTitleLetter(s[i]) || s[i] == ' '
  }

  /** Collapsing a text of title letters and whitespace leaves title letters
      and spaces. */
  lemma {:induction false} CollapsedLetters(k: string)
    requires forall i :: 0 <= i < |k| ==> IsTitleLetter(k[i]) || IsSpace(k[i])
    ensures TitleChars(Collapse(k))
    decreases |k|
  {
    if k != [] {
      var n := if IsSpace(k[0]) then SpaceRun(k, 1) else 1;
      var t := k[n..];
      assert forall i :: 0 <= i < |t| ==> t[i] == k[n + i];
      CollapsedLetters(t);
      var c := Collapse(t);
      if IsSpace(k[0]) {
        assert Collapse(k) == [' '] + c;
      } else {
        assert Collapse(k) == [k[0]] + c;
      }
    }
  }

  /** Title letters and spaces are lower case. */
  lemma TitleCharsLowered(c: string)
    requires TitleChars(c)
    ensures IsLowered(c)
  {
    forall i | 0 <= i < |c| ensures LowerChar(c[i]) == c[i] {
      TitleLetterLowered(c[i]);
    }
  }

  /** Stripping keeps a text of title letters and spaces one. */
  lemma StrippedLetters(c: string)
    requires TitleChars(c)
    ensures TitleChars(Strip(c))
  {
    var r := Strip(c);
    forall i | 0 <= i < |r| ensures IsTitleLetter(r[i]) || r[i] == ' ' {
      assert r[i] == c[StripStart(c) + i];
    }
  }

  /** Collapsing and stripping a text of title letters and whitespace leaves
      a normal text of title letters and single spaces. */
  lemma CleanLetters(k: string)
    requires forall i :: 0 <= i < |k| ==> IsTitleLetter(k[i]) || IsSpace(k[i])
    ensures Matching.IsNormal(Strip(Collapse(k))) && TitleChars(Strip(Collapse(k)))
  {
    var c := Collapse(k);
    CollapseSpacing(k);
    CollapsedLetters(k);
    TitleCharsLowered(c);
    StrippedLetters(c);
    StripNormal(c);
  }

  /** `normalize_title(title)` */
  function NormalizeTitle(v: Value): (r: string)
    ensures !v.VStr? ==> r == []
    ensures Matching.IsNormal(r)
    ensures TitleChars(r)
  {
    if !v.VStr? then []
    else
      var k := KeepLetters(RemoveParens(Lower(v.s)));
      CleanLetters(k);
      Strip(Collapse(k))
  }

  /** No parenthesised span is left: an opening parenthesis that survives has
      no closing one after it on its line. */
  predicate NoSpan(r: string)
  {
    forall i :: 0 <= i < |r| && r[i] == '(' ==> Close(r[i + 1..]).None?
  }

  /** Removing spans from a text with no closing parenthesis before its
      first line break leaves one with none either. */
  lemma {:induction false} RemoveParensUnclosed(t: string)
    requires Close(t).None?
    ensures Close(RemoveParens(t)).None?
    decreases |t|
  {
    if t != [] {
      assert t[0] != ')';
      if t[0] != '\n' {
        assert Close(t[1..]).None?;
        RemoveParensUnclosed(t[1..]);
        if t[0] == '(' {
          assert RemoveParens(t) == ['('] + RemoveParens(t[1..]);
        }
        var r := RemoveParens(t);
        assert r == [t[0]] + RemoveParens(t[1..]);
        assert r[1..] == RemoveParens(t[1..]);
      }
    }
  }

  /** `re.sub(r"\(.*?\)", "", s)` leaves no span to remove. */
  lemma {:induction false} RemoveParensComplete(s: string)
    ensures NoSpan(RemoveParens(s))
    decreases |s|
  {
    if s != [] {
      if s[0] == '(' && Close(s[1..]).Some? {
        RemoveParensComplete(s[Close(s[1..]).value + 2..]);
      } else {
        var t := RemoveParens(s[1..]);
        var r := RemoveParens(s);
        assert r == [s[0]] + t;
        RemoveParensComplete(s[1..]);
        forall i | 0 <= i < |r| && r[i] == '(' ensures Close(r[i + 1..]).None? {
          if i == 0 {
            RemoveParensUnclosed(s[1..]);
            assert r[1..] == t;
          } else {
            assert r[i] == t[i - 1];
            assert r[i + 1..] == t[i..];
          }
        }
      }
    }
  }

  /** A text without an opening parenthesis has no span to remove. */
  lemma {:induction false} RemoveParensNone(s: string)
    requires '(' !in s
    ensures RemoveParens(s) == s
    decreases |s|
  {
    if s != [] {
      assert s[0] in s;
      assert forall c :: c in s[1..] ==> c in s;
      RemoveParensNone(s[1..]);
    }
  }

  /** Cleaning a cleaned title changes nothing. */
  lemma {:induction false} NormalizeTitleIdempotent(v: Value)
    ensures NormalizeTitle(VStr(NormalizeTitle(v))) == NormalizeTitle(v)
  {
    var r := NormalizeTitle(v);
    LowerIsLowered(r);
    assert Lower(r) == r;
    assert '(' !in r by {
      forall i | 0 <= i < |r| ensures r[i] != '(' {
      }
    }
    RemoveParensNone(r);
    assert KeepLetters(r) == r;
    CollapseSingleSpaced(r);
    StripUntrimmed(r);
  }

  // ---------------------------------------------------------------- related titles

  /** One row of the result: a title, its rounded similarity to the query
      and the number of offers carrying it. */
  datatype Related = Related(jobTitle: string, similarity: real, nbOffres: nat)

  /** The sort key `["similarity", "nb_offres"]`. */
  function RelatedKey(r: Related): seq<real>
  {
    [r.similarity, r.nbOffres as real]
  }

  /** A title the loop keeps: similar enough to the query, and not the query
      itself. */
  predicate Wanted(sim: (string, string) -> real, q: string, title: string, minSim: real)
  {
    sim(q, title) >= minSim && title != q
  }

  /** The row the loop appends for a title. */
  function RowFor(sim: (string, string) -> real, q: string, counts: multiset<string>, title: string): Related
  {
    Related(title, Round(sim(q, title), 3), counts[title])
  }

  /** The rows the loop appends, in the order of the distinct titles. */
  function Candidates(sim: (string, string) -> real, q: string, counts: multiset<string>,
                      titles: seq<string>, minSim: real): (rs: seq<Related>)
    ensures |rs| <= |titles|
    decreases |titles|
  {
    if titles == [] then []
    else
      var n := |titles| - 1;
      Candidates(sim, q, counts, titles[..n], minSim)
        + (if Wanted(sim, q, titles[n], minSim) then [RowFor(sim, q, counts, titles[n])] else [])
  }

  /** The loop keeps one row per wanted title, and nothing else. */
  lemma {:induction false} CandidatesMember(sim: (string, string) -> real, q: string, counts: multiset<string>,
                                            titles: seq<string>, minSim: real, r: Related)
    ensures r in Candidates(sim, q, counts, titles, minSim) <==>
      r.jobTitle in titles && Wanted(sim, q, r.jobTitle, minSim) && r == RowFor(sim, q, counts, r.jobTitle)
    decreases |titles|
  {
    if titles != [] {
      var n := |titles| - 1;
      CandidatesMember(sim, q, counts, titles[..n], minSim, r);
      assert titles == titles[..n] + [titles[n]];
    }
  }

  /** No two rows share a title. */
  predicate DistinctTitles(rs: seq<Related>)
  {
    forall i, j :: 0 <= i < j < |rs| ==> rs[i].jobTitle != rs[j].jobTitle
  }

  /** Distinct titles give rows with distinct titles. */
  lemma {:induction false} CandidatesDistinct(sim: (string, string) -> real, q: string, counts: multiset<string>,
                                              titles: seq<string>, minSim: real)
    requires forall i, j :: 0 <= i < j < |titles| ==> titles[i] != titles[j]
    ensures DistinctTitles(Candidates(sim, q, counts, titles, minSim))
    decreases |titles|
  {
    if titles != [] {
      var n := |titles| - 1;
      var init := Candidates(sim, q, counts, titles[..n], minSim);
      var rs := Candidates(sim, q, counts, titles, minSim);
      CandidatesDistinct(sim, q, counts, titles[..n], minSim);
      if Wanted(sim, q, titles[n], minSim) {
        assert rs == init + [RowFor(sim, q, counts, titles[n])];
        forall i, j | 0 <= i < j < |rs| ensures rs[i].jobTitle != rs[j].jobTitle {
          assert rs[i] == init[i];
          if j < |init| {
            assert rs[j] == init[j];
          } else {
            assert rs[j] == RowFor(sim, q, counts, titles[n]);
            assert init[i] in init;
            CandidatesMember(sim, q, counts, titles[..n], minSim, init[i]);
            var k :| 0 <= k < n && titles[..n][k] == init[i].jobTitle;
            assert titles[k] == titles[..n][k];
            assert titles[k] != titles[n];
          }
        }
      } else {
        assert rs == init;
      }
    }
  }

  /** `df["title"].apply(normalize_title)`: the cleaned titles, or KeyError
      when the table has no "title" column. */
  function CleanTitles(t: Table): (r: Result<seq<string>>)
    ensures "title" !in t.columns <==> r == Err(KeyError("title"))
    ensures r.Ok? ==> |r.value| == |t.rows|
    ensures r.Ok? ==> forall k :: 0 <= k < |t.rows| ==> r.value[k] == NormalizeTitle(Cell(t.rows[k], "title"))
  {
    if "title" !in t.columns then Err(KeyError("title"))
    else Ok(seq(|t.rows|, k requires 0 <= k < |t.rows| => NormalizeTitle(Cell(t.rows[k], "title"))))
  }

  /** The rows the loop builds from the cleaned titles: one per distinct
      title, in first-seen order, that is wanted for the cleaned query. */
  function RowsOf(cleaned: seq<string>, q: string, minSim: real, sim: (string, string) -> real): seq<Related>
  {
    Candidates(sim, q, multiset(cleaned), Dedupe(cleaned), minSim)
  }

  /** `find_related_job_titles(df, query_title, top_n, min_similarity)` as
      written: when no title is wanted, the table built from no rows has no
      "similarity" column, and sorting it raises KeyError. */
  function RelatedAsWritten(t: Table, query: Value, topN: int, minSim: real,
                            sim: (string, string) -> real): Result<seq<Related>>
  {
    match CleanTitles(t)
    case Err(e) => Err(e)
    case Ok(cleaned) =>
      if Dedupe(cleaned) == [] then Ok([])
      else
        var rows := RowsOf(cleaned, NormalizeTitle(query), minSim, sim);
        if rows == [] then Err(KeyError("similarity"))
        else Ok(Head(SortDesc(rows, RelatedKey), topN))
  }

  /** `find_related_job_titles` with an empty result when no title is
      wanted: the wanted rows, ranked by similarity then number of offers,
      and cut to `top_n`. */
  function RelatedSpec(t: Table, query: Value, topN: int, minSim: real,
                       sim: (string, string) -> real): Result<seq<Related>>
  {
    match CleanTitles(t)
    case Err(e) => Err(e)
    case Ok(cleaned) => Ok(Head(SortDesc(RowsOf(cleaned, NormalizeTitle(query), minSim, sim), RelatedKey), topN))
  }

  /** No wanted title, no rows. */
  lemma {:induction false} NoneWanted(sim: (string, string) -> real, q: string, counts: multiset<string>,
                                      titles: seq<string>, minSim: real)
    requires forall t :: t in titles ==> !Wanted(sim, q, t, minSim)
    ensures Candidates(sim, q, counts, titles, minSim) == []
    decreases |titles|
  {
    if titles != [] {
      var n := |titles| - 1;
      assert titles[n] in titles;
      NoneWanted(sim, q, counts, titles[..n], minSim);
    }
  }

  /** When no title is similar enough to the query, the search as written
      fails on any table of titles, where an empty result is meant. */
  lemma NothingRelatedFails(t: Table, query: Value, topN: int, minSim: real, sim: (string, string) -> real)
    requires "title" in t.columns && t.rows != []
    requires forall a, b :: sim(a, b) < minSim
    ensures RelatedAsWritten(t, query, topN, minSim, sim) == Err(KeyError("similarity"))
    ensures RelatedSpec(t, query, topN, minSim, sim) == Ok([])
  {
    var cleaned := CleanTitles(t).value;
    var q := NormalizeTitle(query);
    var unique := Dedupe(cleaned);
    DedupeEmpty(cleaned);
    NoneWanted(sim, q, multiset(cleaned), unique, minSim);
  }

  /** For instance: a constant similarity of 0 with the default threshold
      0.7. */
  lemma NothingRelatedAtDefault(t: Table, query: Value, topN: int)
    requires "title" in t.columns && t.rows != []
    ensures RelatedAsWritten(t, query, topN, 0.7, (a: string, b: string) => 0.0) == Err(KeyError("similarity"))
  {
    NothingRelatedFails(t, query, topN, 0.7, (a: string, b: string) => 0.0);
  }

  /** The two versions differ only where the one as written fails. */
  lemma RelatedAgrees(t: Table, query: Value, topN: int, minSim: real, sim: (string, string) -> real)
    ensures RelatedAsWritten(t, query, topN, minSim, sim) != RelatedSpec(t, query, topN, minSim, sim) <==>
      RelatedAsWritten(t, query, topN, minSim, sim) == Err(KeyError("similarity"))
      && RelatedSpec(t, query, topN, minSim, sim) == Ok([])
  {
  }

  /** The loop of `find_related_job_titles`: walks the distinct titles in
      order and appends a row for each wanted one. */
  method CollectRows(unique: seq<string>, q: string, counts: multiset<string>, minSim: real,
                     sim: (string, string) -> real)
    returns (results: seq<Related>)
    ensures results == Candidates(sim, q, counts, unique, minSim)
  {
    results := [];
    var i := 0;
    while i < |unique|
      invariant 0 <= i <= |unique|
      invariant results == Candidates(sim, q, counts, unique[..i], minSim)
    {
      var title := unique[i];
      assert unique[..i + 1][..i] == unique[..i];
      if sim(q, title) >= minSim && title != q {
        results := results + [Related(title, Round(sim(q, title), 3), counts[title])];
      }
      i := i + 1;
    }
    assert unique[..i] == unique;
  }

  /** `find_related_job_titles(df, query_title, top_n, min_similarity)`:
      cleans and counts the titles, collects the wanted ones, then ranks the
      rows and cuts them to `top_n`. */
  method FindRelatedJobTitles(t: Table, query: Value, topN: int, minSim: real, sim: (string, string) -> real)
    returns (r: Result<seq<Related>>)
    ensures r == RelatedSpec(t, query, topN, minSim, sim)
  {
    var column := CleanTitles(t);
    if column.Err? {
      return Err(column.error);
    }
    var cleaned := column.value;
    var unique := Dedupe(cleaned);
    if unique == [] {
      return Ok([]);
    }
    var q := NormalizeTitle(query);
    var results := CollectRows(unique, q, multiset(cleaned), minSim, sim);
    if results == [] {
      return Ok([]);
    }
    r := Ok(Head(SortDesc(results, RelatedKey), topN));
  }

  /** Ranking rows with distinct titles and keeping the first `n` keeps the
      titles distinct. */
  lemma RankedDistinct(rows: seq<Related>, n: int)
    requires DistinctTitles(rows)
    ensures DistinctTitles(Head(SortDesc(rows, RelatedKey), n))
  {
    var sorted := SortDesc(rows, RelatedKey);
    var rs := Head(sorted, n);
    forall i, j | 0 <= i < j < |rs| ensures rs[i].jobTitle != rs[j].jobTitle {
      assert rs[i] == sorted[i] && rs[j] == sorted[j];
      DistinctAfterSort(rows, sorted, (r: Related) => r.jobTitle, i, j);
    }
  }

  /** Ranking rows and keeping the first `n`: the kept rows are ranked, come
      from the rows, and every row left out ranks at or below every row
      kept. */
  lemma RankedTop(rows: seq<Related>, n: int)
    ensures var rs := Head(SortDesc(rows, RelatedKey), n);
      && SortedDesc(rs, RelatedKey)
      && (forall r :: r in rs ==> r in rows)
      && (forall row :: row in rows ==> row in rs || forall r :: r in rs ==> KeyLe(RelatedKey(row), RelatedKey(r)))
  {
    var sorted := SortDesc(rows, RelatedKey);
    var rs := Head(sorted, n);
    PermutationMembers(rows, sorted);
    SortedPrefix(sorted, |rs|, RelatedKey);
    HeadTop(sorted, n, RelatedKey);
  }

  /** What the search promises: ranked rows, one per distinct wanted title,
      each with its rounded similarity and its number of offers, at most
      `top_n` of them, and no wanted title left out that ranks above a row
      kept; when fewer than `top_n` rows come back, every wanted title is
      among them. No titles give no rows. */
  lemma RelatedShape(t: Table, query: Value, topN: int, minSim: real, sim: (string, string) -> real)
    requires "title" in t.columns
    ensures RelatedSpec(t, query, topN, minSim, sim).Ok?
    ensures t.rows == [] ==> RelatedSpec(t, query, topN, minSim, sim) == Ok([])
    ensures var rs := RelatedSpec(t, query, topN, minSim, sim).value;
      var cleaned := CleanTitles(t).value;
      var q := NormalizeTitle(query);
      && SortedDesc(rs, RelatedKey)
      && (0 <= topN ==> |rs| <= topN)
      && DistinctTitles(rs)
      && (forall r :: r in rs ==>
            (r.jobTitle in cleaned && Wanted(sim, q, r.jobTitle, minSim)
             && r == RowFor(sim, q, multiset(cleaned), r.jobTitle)))
      && (forall title :: title in cleaned && Wanted(sim, q, title, minSim) ==>
            (RowFor(sim, q, multiset(cleaned), title) in rs
             || forall r :: r in rs ==> KeyLe(RelatedKey(RowFor(sim, q, multiset(cleaned), title)), RelatedKey(r))))
      && (0 <= topN && |rs| < topN ==>
            forall title :: title in cleaned && Wanted(sim, q, title, minSim) ==>
              RowFor(sim, q, multiset(cleaned), title) in rs)
  {
    var cleaned := CleanTitles(t).value;
    var q := NormalizeTitle(query);
    var unique := Dedupe(cleaned);
    var counts := multiset(cleaned);
    var rows := RowsOf(cleaned, q, minSim, sim);
    CandidatesDistinct(sim, q, counts, unique, minSim);
    RankedDistinct(rows, topN);
    RankedTop(rows, topN);
    var rs := Head(SortDesc(rows, RelatedKey), topN);
    assert RelatedSpec(t, query, topN, minSim, sim).value == rs;
    forall r | r in rs
      ensures r.jobTitle in cleaned && Wanted(sim, q, r.jobTitle, minSim) && r == RowFor(sim, q, counts, r.jobTitle)
    {
      CandidatesMember(sim, q, counts, unique, minSim, r);
    }
    forall title | title in cleaned && Wanted(sim, q, title, minSim)
      ensures RowFor(sim, q, counts, title) in rows
    {
      CandidatesMember(sim, q, counts, unique, minSim, RowFor(sim, q, counts, title));
    }
    if 0 <= topN && |rs| < topN {
      var sorted := SortDesc(rows, RelatedKey);
      assert rs == sorted;
      PermutationMembers(rows, sorted);
    }
    if t.rows == [] {
      assert cleaned == [];
    }
  }
}
