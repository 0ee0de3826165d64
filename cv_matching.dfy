/** The older exact-only matcher: lower-cased sets of skills, four weighted
    coverages and no description term. It trims nothing and drops nothing,
    and an element that is not a string stops it with an AttributeError. */
module CvMatching {
  import opened Values
  import opened Text
  import opened Rounding
  import opened Ranking
  import Matching

  // ================================================================ sets of skills

  /** The lower-cased elements of a list, or AttributeError when one of them
      is not a string. */
  function LowerSet(items: seq<Value>): (r: Result<set<string>>)
    decreases |items|
  {
    if items == [] then Ok({})
    else
      var last := items[|items| - 1];
      match LowerSet(items[..|items| - 1])
      case Err(e) => Err(e)
      case Ok(rest) => if last.VStr? then Ok(rest + {Lower(last.s)}) else Err(AttributeError)
  }

  /** A list fails exactly when it holds a non-string; otherwise its set holds
      exactly the lower-cased forms of its elements. */
  lemma {:induction false} LowerSetMembers(items: seq<Value>)
    ensures LowerSet(items).Err? <==> exists k :: 0 <= k < |items| && !items[k].VStr?
    ensures LowerSet(items).Err? ==> LowerSet(items).error == AttributeError
    ensures LowerSet(items).Ok? ==>
      forall z :: z in LowerSet(items).value <==> exists k :: 0 <= k < |items| && items[k].VStr? && Lower(items[k].s) == z
    decreases |items|
  {
    if items != [] {
      var init := items[..|items| - 1];
      var n := |items| - 1;
      LowerSetMembers(init);
      assert forall k :: 0 <= k < n ==> init[k] == items[k];
      if exists k :: 0 <= k < |items| && !items[k].VStr? {
        var k :| 0 <= k < |items| && !items[k].VStr?;
        if k < n {
          assert !init[k].VStr?;
        }
      }
      if LowerSet(items).Ok? {
        forall z ensures z in LowerSet(items).value <==> exists k :: 0 <= k < |items| && items[k].VStr? && Lower(items[k].s) == z {
          if exists k :: 0 <= k < |items| && items[k].VStr? && Lower(items[k].s) == z {
            var k :| 0 <= k < |items| && items[k].VStr? && Lower(items[k].s) == z;
            if k < n {
              assert init[k].VStr? && Lower(init[k].s) == z;
            }
          }
        }
      }
    }
  }

  /** `to_set(x)`: the empty set for anything but a list. */
  function ToSet(x: Value): (r: Result<set<string>>)
    ensures !x.VList? ==> r == Ok({})
    ensures x.VList? ==> r == LowerSet(x.items)
  {
    if x.VList? then LowerSet(x.items) else Ok({})
  }

  // ================================================================ one CV against one job

  /** The weights used when the caller passes none. */
  const DefaultWeights: map<string, real> := map[
    "hard_required" := 0.6, "hard_optional" := 0.2, "soft" := 0.1, "languages" := 0.1]

  /** Every weight the score reads is present. */
  predicate HasWeights(w: map<string, real>)
  {
    "hard_required" in w && "hard_optional" in w && "soft" in w && "languages" in w
  }

  /** The first weight the score reads that is absent. */
  function MissingWeight(w: map<string, real>): (r: Option<string>)
    ensures r.None? <==> HasWeights(w)
    ensures r.Some? ==> r.value !in w
  {
    if "hard_required" !in w then Some("hard_required")
    else if "hard_optional" !in w then Some("hard_optional")
    else if "soft" !in w then Some("soft")
    else if "languages" !in w then Some("languages")
    else None
  }

  /** The weighted sum behind the score; the weights are used as given. */
  function Total(w: map<string, real>, hardReq: real, hardOpt: real, soft: real, lang: real): real
    requires HasWeights(w)
  {
    w["hard_required"] * hardReq + w["hard_optional"] * hardOpt + w["soft"] * soft + w["languages"] * lang
  }

  function WeightSum(w: map<string, real>): real
    requires HasWeights(w)
  {
    w["hard_required"] + w["hard_optional"] + w["soft"] + w["languages"]
  }

  /** With non-negative weights and every part in [0, 1], the weighted sum
      lies between 0 and the sum of the weights. */
  lemma TotalBounds(w: map<string, real>, hardReq: real, hardOpt: real, soft: real, lang: real)
    requires HasWeights(w)
    requires forall k :: k in w ==> 0.0 <= w[k]
    requires 0.0 <= hardReq <= 1.0 && 0.0 <= hardOpt <= 1.0 && 0.0 <= soft <= 1.0 && 0.0 <= lang <= 1.0
    ensures 0.0 <= Total(w, hardReq, hardOpt, soft, lang) <= WeightSum(w)
  {
    var a, b, c, d := w["hard_required"], w["hard_optional"], w["soft"], w["languages"];
    assert 0.0 <= a && 0.0 <= b && 0.0 <= c && 0.0 <= d;
    Matching.ScaledUnit(a, hardReq);
    Matching.ScaledUnit(b, hardOpt);
    Matching.ScaledUnit(c, soft);
    Matching.ScaledUnit(d, lang);
    var x1, x2, x3, x4 := a * hardReq, b * hardOpt, c * soft, d * lang;
    assert Total(w, hardReq, hardOpt, soft, lang) == x1 + x2 + x3 + x4;
    assert x1 <= a && x2 <= b && x3 <= c && x4 <= d;
    assert x1 + x2 + x3 + x4 <= a + b + c + d;
  }

  /** The dictionary `match_cv_job` returns. Its missing lists come from
      sets, in an order Python does not fix, so the model keeps them as sets. */
  datatype CvMatch = CvMatch(
    score: real,
    hardRequiredMissing: set<string>,
    hardOptionalMissing: set<string>,
    softSkillsMissing: set<string>,
    languagesMissing: set<string>,
    hardRequiredCoverage: real,
    hardOptionalCoverage: real,
    softCoverage: real,
    languagesCoverage: real)

  /** The seven skill sets `match_cv_job` reads. */
  datatype Sets = Sets(
    cvHard: set<string>, cvSoft: set<string>, cvLang: set<string>,
    jobReq: set<string>, jobOpt: set<string>, jobSoft: set<string>, jobLangReq: set<string>)

  /** The seven sets, or the AttributeError the first bad list raises. */
  function ReadSets(cv: map<string, Value>, job: map<string, Value>): Result<Sets>
  {
    var cvHard, cvSoft, cvLang := ToSet(Get(cv, "skills_hard")), ToSet(Get(cv, "skills_soft")), ToSet(Get(cv, "languages"));
    var jobReq, jobOpt := ToSet(Get(job, "skills_hard_required")), ToSet(Get(job, "skills_hard_optional"));
    var jobSoft, jobLangReq := ToSet(Get(job, "skills_soft")), ToSet(Get(job, "languages_required"));
    if cvHard.Err? || cvSoft.Err? || cvLang.Err? || jobReq.Err? || jobOpt.Err? || jobSoft.Err? || jobLangReq.Err? then
      Err(AttributeError)
    else
      Ok(Sets(cvHard.value, cvSoft.value, cvLang.value, jobReq.value, jobOpt.value, jobSoft.value, jobLangReq.value))
  }

  /** The result built from the sets, or the KeyError of a missing weight. */
  function Assemble(w: map<string, real>, s: Sets): Result<CvMatch>
  {
    if !HasWeights(w) then Err(KeyError(MissingWeight(w).value))
    else
      var hardReq := Matching.Coverage(s.cvHard, s.jobReq);
      var hardOpt := Matching.Coverage(s.cvHard, s.jobOpt);
      var soft := Matching.Coverage(s.cvSoft, s.jobSoft);
      var lang := Matching.Coverage(s.cvLang, s.jobLangReq);
      Ok(CvMatch(
        Round(Total(w, hardReq, hardOpt, soft, lang) * 100.0, 1),
        s.jobReq - s.cvHard, s.jobOpt - s.cvHard, s.jobSoft - s.cvSoft, s.jobLangReq - s.cvLang,
        Round(hardReq, 2), Round(hardOpt, 2), Round(soft, 2), Round(lang, 2)))
  }

  /** What `match_cv_job(cv, job, weights)` returns, or the error it raises. */
  function MatchSpec(cv: map<string, Value>, job: map<string, Value>, weights: Option<map<string, real>>)
    : Result<CvMatch>
  {
    match ReadSets(cv, job)
    case Err(e) => Err(e)
    case Ok(s) => Assemble(if weights.None? then DefaultWeights else weights.value, s)
  }

  /** A field that `to_set` rejects: a list holding a non-string. */
  predicate BadList(d: map<string, Value>, key: string)
  {
    key in d && d[key].VList? && exists k :: 0 <= k < |d[key].items| && !d[key].items[k].VStr?
  }

  /** `ToSet` of a field fails exactly when the field is a list holding a non-string. */
  lemma ToSetFails(d: map<string, Value>, key: string)
    ensures ToSet(Get(d, key)).Err? <==> BadList(d, key)
  {
    if key in d && d[key].VList? {
      LowerSetMembers(d[key].items);
    }
  }

  /** `match_cv_job` raises AttributeError exactly when one of the seven
      lists holds a non-string, and otherwise KeyError exactly when the
      caller's weights lack a key the score reads. */
  lemma MatchErrors(cv: map<string, Value>, job: map<string, Value>, weights: Option<map<string, real>>)
    ensures var bad := BadList(cv, "skills_hard") || BadList(cv, "skills_soft") || BadList(cv, "languages")
        || BadList(job, "skills_hard_required") || BadList(job, "skills_hard_optional")
        || BadList(job, "skills_soft") || BadList(job, "languages_required");
      && (MatchSpec(cv, job, weights) == Err(AttributeError) <==> bad)
      && (!bad ==> (MatchSpec(cv, job, weights).Err? <==> weights.Some? && !HasWeights(weights.value)))
  {
    ToSetFails(cv, "skills_hard");
    ToSetFails(cv, "skills_soft");
    ToSetFails(cv, "languages");
    ToSetFails(job, "skills_hard_required");
    ToSetFails(job, "skills_hard_optional");
    ToSetFails(job, "skills_soft");
    ToSetFails(job, "languages_required");
    assert HasWeights(DefaultWeights);
    var s := ReadSets(cv, job);
    if s.Ok? {
      var w := if weights.None? then DefaultWeights else weights.value;
      assert MatchSpec(cv, job, weights) == Assemble(w, s.value);
      assert Assemble(w, s.value).Err? <==> !HasWeights(w);
    }
  }

  /** The skills a job asks for under `key`: the lower-cased strings of its list. */
  ghost predicate Asks(d: map<string, Value>, key: string, z: string)
  {
    key in d && d[key].VList? && exists k :: 0 <= k < |d[key].items| && d[key].items[k].VStr? && Lower(d[key].items[k].s) == z
  }

  /** The members of a set `to_set` builds from a field. */
  lemma ToSetMembers(d: map<string, Value>, key: string)
    requires ToSet(Get(d, key)).Ok?
    ensures forall z :: z in ToSet(Get(d, key)).value <==> Asks(d, key, z)
  {
    if key in d && d[key].VList? {
      LowerSetMembers(d[key].items);
    }
  }

  /** A skill is reported missing exactly when the job's list names it (up to
      case) and the CV's list does not, and each reported coverage is 1 when
      nothing is missing; all four coverages lie in [0, 1]. */
  lemma MatchMissing(cv: map<string, Value>, job: map<string, Value>, weights: Option<map<string, real>>)
    requires MatchSpec(cv, job, weights).Ok?
    ensures var m := MatchSpec(cv, job, weights).value;
      && (forall z :: z in m.hardRequiredMissing <==> Asks(job, "skills_hard_required", z) && !Asks(cv, "skills_hard", z))
      && (forall z :: z in m.hardOptionalMissing <==> Asks(job, "skills_hard_optional", z) && !Asks(cv, "skills_hard", z))
      && (forall z :: z in m.softSkillsMissing <==> Asks(job, "skills_soft", z) && !Asks(cv, "skills_soft", z))
      && (forall z :: z in m.languagesMissing <==> Asks(job, "languages_required", z) && !Asks(cv, "languages", z))
      && (m.hardRequiredMissing == {} ==> m.hardRequiredCoverage == 1.0)
      && (m.hardOptionalMissing == {} ==> m.hardOptionalCoverage == 1.0)
      && (m.softSkillsMissing == {} ==> m.softCoverage == 1.0)
      && (m.languagesMissing == {} ==> m.languagesCoverage == 1.0)
      && 0.0 <= m.hardRequiredCoverage <= 1.0 && 0.0 <= m.hardOptionalCoverage <= 1.0
      && 0.0 <= m.softCoverage <= 1.0 && 0.0 <= m.languagesCoverage <= 1.0
  {
    ToSetMembers(cv, "skills_hard");
    ToSetMembers(cv, "skills_soft");
    ToSetMembers(cv, "languages");
    ToSetMembers(job, "skills_hard_required");
    ToSetMembers(job, "skills_hard_optional");
    ToSetMembers(job, "skills_soft");
    ToSetMembers(job, "languages_required");
    var s := ReadSets(cv, job).value;
    CoverageRounded(s.cvHard, s.jobReq);
    CoverageRounded(s.cvHard, s.jobOpt);
    CoverageRounded(s.cvSoft, s.jobSoft);
    CoverageRounded(s.cvLang, s.jobLangReq);
  }

  /** The rounded coverage stays in [0, 1] and is 1 when nothing is missing. */
  lemma CoverageRounded(cv: set<string>, job: set<string>)
    ensures 0.0 <= Round(Matching.Coverage(cv, job), 2) <= 1.0
    ensures job - cv == {} ==> Round(Matching.Coverage(cv, job), 2) == 1.0
  {
    RoundWithin(Matching.Coverage(cv, job), 0, 1, 2);
    if job - cv == {} {
      forall z | z in job ensures z in cv {
        assert z !in job - cv;
      }
      RoundOfInt(1, 2);
    }
  }

  /** With the default weights, any sets give a score in [0, 100]. */
  lemma AssembleInRange(s: Sets)
    ensures Assemble(DefaultWeights, s).Ok?
    ensures 0.0 <= Assemble(DefaultWeights, s).value.score <= 100.0
  {
    var w := DefaultWeights;
    var hardReq := Matching.Coverage(s.cvHard, s.jobReq);
    var hardOpt := Matching.Coverage(s.cvHard, s.jobOpt);
    var soft := Matching.Coverage(s.cvSoft, s.jobSoft);
    var lang := Matching.Coverage(s.cvLang, s.jobLangReq);
    assert HasWeights(w) && WeightSum(w) == 1.0;
    TotalBounds(w, hardReq, hardOpt, soft, lang);
    var t := Total(w, hardReq, hardOpt, soft, lang);
    RoundWithin(t * 100.0, 0, 100, 1);
  }

  /** With the default weights the score lies between 0 and 100. */
  lemma ScoreInRange(cv: map<string, Value>, job: map<string, Value>)
    requires MatchSpec(cv, job, None).Ok?
    ensures 0.0 <= MatchSpec(cv, job, None).value.score <= 100.0
  {
    AssembleInRange(ReadSets(cv, job).value);
  }

  // ================================================================ one CV against the market

  /** One row of the ranked table: the job's identification, then the match. */
  datatype CvRow = CvRow(
    jobTitle: Value, company: Value, location: Value, source: Value, url: Value,
    result: CvMatch)

  /** The row of a job that scored well enough; absent columns read as None. */
  function RowOf(job: map<string, Value>, m: CvMatch): (row: CvRow)
    ensures row.result == m
    ensures "title" !in job ==> row.jobTitle == VNone
  {
    CvRow(Get(job, "title"), Get(job, "company"), Get(job, "location"), Get(job, "source"), Get(job, "url"), m)
  }

  /** The sort key: the score alone. */
  function ScoreKey(row: CvRow): seq<real>
  {
    [row.result.score]
  }

  /** The match of the CV against each job, with the default weights. */
  function Matcher(cv: map<string, Value>): map<string, Value> -> Result<CvMatch>
  {
    job => MatchSpec(cv, job, None)
  }

  /** The rows of the jobs scoring at least `minScore`, in job order, or the
      error of the first job whose match fails. */
  function Qualifying(jobs: seq<map<string, Value>>, scorer: map<string, Value> -> Result<CvMatch>, minScore: real)
    : Result<seq<CvRow>>
    decreases |jobs|
  {
    if jobs == [] then Ok([])
    else
      match Qualifying(jobs[..|jobs| - 1], scorer, minScore)
      case Err(e) => Err(e)
      case Ok(rows) =>
        var job := jobs[|jobs| - 1];
        var m := scorer(job);
        if m.Err? then Err(m.error)
        else if m.value.score >= minScore then Ok(rows + [RowOf(job, m.value)])
        else Ok(rows)
  }

  /** `match_cv_market(cv, df_jobs, min_score)` as written: sorting the
      table built from no rows fails, because that table has no "score" column. */
  function MarketAsWritten(cv: map<string, Value>, jobs: seq<map<string, Value>>, minScore: real): Result<seq<CvRow>>
  {
    match Qualifying(jobs, Matcher(cv), minScore)
    case Err(e) => Err(e)
    case Ok(rows) => if rows == [] then Err(KeyError("score")) else Ok(SortDesc(rows, ScoreKey))
  }

  /** With no jobs at all, the market match as written raises KeyError. */
  lemma NoJobsFails(cv: map<string, Value>, minScore: real)
    ensures MarketAsWritten(cv, [], minScore) == Err(KeyError("score"))
  {
  }

  /** A job that scores below the threshold also leaves the table empty and
      makes the market match as written fail. */
  lemma NoQualifyingJobFails(cv: map<string, Value>, job: map<string, Value>, minScore: real)
    requires MatchSpec(cv, job, None).Ok? && MatchSpec(cv, job, None).value.score < minScore
    ensures MarketAsWritten(cv, [job], minScore) == Err(KeyError("score"))
  {
    assert [job][..0] == [] && [job][0] == job;
    assert Matcher(cv)(job) == MatchSpec(cv, job, None);
    assert Qualifying([job], Matcher(cv), minScore) == Ok([]);
  }

  /** `match_cv_market` with the guard the later matcher adds: no qualifying
      row gives an empty table. */
  function Market(cv: map<string, Value>, jobs: seq<map<string, Value>>, minScore: real): Result<seq<CvRow>>
  {
    match Qualifying(jobs, Matcher(cv), minScore)
    case Err(e) => Err(e)
    case Ok(rows) => if rows == [] then Ok([]) else Ok(SortDesc(rows, ScoreKey))
  }

  /** Once a prefix of the jobs fails, every longer prefix fails the same way. */
  lemma {:induction false} QualifyingErrSticks(jobs: seq<map<string, Value>>, scorer: map<string, Value> -> Result<CvMatch>,
                                               minScore: real, k: nat, n: nat)
    requires k <= n <= |jobs|
    requires Qualifying(jobs[..k], scorer, minScore).Err?
    ensures Qualifying(jobs[..n], scorer, minScore) == Qualifying(jobs[..k], scorer, minScore)
    decreases n
  {
    if n > k {
      QualifyingErrSticks(jobs, scorer, minScore, k, n - 1);
      assert jobs[..n][..n - 1] == jobs[..n - 1];
    }
  }

  /** One more job, after a prefix that succeeded. */
  lemma QualifyingNext(jobs: seq<map<string, Value>>, scorer: map<string, Value> -> Result<CvMatch>,
                       minScore: real, i: nat, rows: seq<CvRow>)
    requires i < |jobs| && Qualifying(jobs[..i], scorer, minScore) == Ok(rows)
    ensures scorer(jobs[i]).Err? ==> Qualifying(jobs, scorer, minScore) == Err(scorer(jobs[i]).error)
    ensures scorer(jobs[i]).Ok? ==>
      Qualifying(jobs[..i + 1], scorer, minScore) ==
        if scorer(jobs[i]).value.score >= minScore then Ok(rows + [RowOf(jobs[i], scorer(jobs[i]).value)]) else Ok(rows)
  {
    assert jobs[..i + 1][..i] == jobs[..i];
    if scorer(jobs[i]).Err? {
      QualifyingErrSticks(jobs, scorer, minScore, i + 1, |jobs|);
      assert jobs[..|jobs|] == jobs;
    }
  }

  /** `match_cv_market(cv, df_jobs, min_score)`, with the empty-table guard. */
  method MatchCvMarket(cv: map<string, Value>, jobs: seq<map<string, Value>>, minScore: real)
    returns (r: Result<seq<CvRow>>)
    ensures r == Market(cv, jobs, minScore)
  {
    ghost var scorer := Matcher(cv);
    var results: seq<CvRow> := [];
    var i := 0;
    while i < |jobs|
      invariant 0 <= i <= |jobs|
      invariant Qualifying(jobs[..i], scorer, minScore) == Ok(results)
    {
      var m := MatchSpec(cv, jobs[i], None);
      assert m == scorer(jobs[i]);
      QualifyingNext(jobs, scorer, minScore, i, results);
      if m.Err? {
        return Err(m.error);
      }
      if m.value.score >= minScore {
        results := results + [RowOf(jobs[i], m.value)];
      }
      i := i + 1;
    }
    assert jobs[..i] == jobs;
    if results == [] {
      return Ok([]);
    }
    r := Ok(SortDesc(results, ScoreKey));
  }

  /** A row qualifies exactly when it is the row of some job whose match
      succeeds with a score of at least `minScore`. */
  lemma {:induction false} QualifyingMembers(jobs: seq<map<string, Value>>, scorer: map<string, Value> -> Result<CvMatch>,
                                             minScore: real)
    requires Qualifying(jobs, scorer, minScore).Ok?
    ensures forall row :: row in Qualifying(jobs, scorer, minScore).value <==>
      exists k :: 0 <= k < |jobs| && Qualifies(jobs[k], scorer, minScore, row)
    decreases |jobs|
  {
    if jobs != [] {
      var init := jobs[..|jobs| - 1];
      QualifyingMembers(init, scorer, minScore);
      forall row ensures row in Qualifying(jobs, scorer, minScore).value <==>
        exists k :: 0 <= k < |jobs| && Qualifies(jobs[k], scorer, minScore, row)
      {
        if exists k :: 0 <= k < |jobs| && Qualifies(jobs[k], scorer, minScore, row) {
          var k :| 0 <= k < |jobs| && Qualifies(jobs[k], scorer, minScore, row);
          if k < |jobs| - 1 {
            assert Qualifies(init[k], scorer, minScore, row);
          }
        }
        if exists k :: 0 <= k < |init| && Qualifies(init[k], scorer, minScore, row) {
          var k :| 0 <= k < |init| && Qualifies(init[k], scorer, minScore, row);
          assert Qualifies(jobs[k], scorer, minScore, row);
        }
      }
    }
  }

  /** `row` is the row of `job`, whose match succeeds with a score of at least `minScore`. */
  predicate Qualifies(job: map<string, Value>, scorer: map<string, Value> -> Result<CvMatch>, minScore: real, row: CvRow)
  {
    scorer(job).Ok? && scorer(job).value.score >= minScore && row == RowOf(job, scorer(job).value)
  }

  /** The corrected market match: the table holds exactly the qualifying
      rows, as often as the jobs produce them, with scores never increasing
      down the table; with no jobs it is empty. */
  lemma MarketRanked(cv: map<string, Value>, jobs: seq<map<string, Value>>, minScore: real)
    requires Market(cv, jobs, minScore).Ok?
    ensures var rows := Market(cv, jobs, minScore).value;
      && multiset(rows) == multiset(Qualifying(jobs, Matcher(cv), minScore).value)
      && (forall i, j :: 0 <= i < j < |rows| ==> rows[j].result.score <= rows[i].result.score)
      && (forall row :: row in rows <==> exists k :: 0 <= k < |jobs| && Qualifies(jobs[k], Matcher(cv), minScore, row))
      && (jobs == [] ==> rows == [])
  {
    var scorer := Matcher(cv);
    var q := Qualifying(jobs, scorer, minScore).value;
    var rows := Market(cv, jobs, minScore).value;
    QualifyingMembers(jobs, scorer, minScore);
    PermutationMembers(rows, q);
    forall i, j | 0 <= i < j < |rows| ensures rows[j].result.score <= rows[i].result.score {
      KeyLeSingle(rows[j].result.score, rows[i].result.score);
    }
  }

  /** The corrected version differs from the code as written only where the
      code fails on an empty table. */
  lemma MarketAgrees(cv: map<string, Value>, jobs: seq<map<string, Value>>, minScore: real)
    ensures MarketAsWritten(cv, jobs, minScore) != Market(cv, jobs, minScore) <==>
      MarketAsWritten(cv, jobs, minScore) == Err(KeyError("score")) && Market(cv, jobs, minScore) == Ok([])
  {
  }
}
