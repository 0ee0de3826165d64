/** The older `semantic_overlap`: the job skills are split by their best
    similarity against the CV skills, without normalising either list, and
    an empty list on either side counts as no coverage at all. The embedding
    model behind the similarity is the oracle `sim(jobSkill, cvSkill)`. */
module SemanticMatching {
  import opened Rounding
  import opened Matching

  /** What `semantic_overlap(cv_skills, job_skills, threshold)` returns. */
  function LegacyOverlap(sim: (string, string) -> real, cvs: seq<string>, jobs: seq<string>, threshold: real): (o: Overlap)
    ensures cvs == [] || jobs == [] ==> o == Overlap([], jobs, 0.0)
    ensures 0.0 <= o.coverage <= 1.0
    ensures multiset(o.matched) + multiset(o.missing) == multiset(jobs)
  {
    if cvs == [] || jobs == [] then Overlap([], jobs, 0.0)
    else
      var matched := Kept(sim, cvs, jobs, threshold);
      KeptDroppedPartition(sim, cvs, jobs, threshold);
      var share := Ratio(|matched|, |jobs|);
      RoundWithin(share, 0, 1, 2);
      Overlap(matched, Dropped(sim, cvs, jobs, threshold), Round(share, 2))
  }

  /** `semantic_overlap(cv_skills, job_skills, threshold)` */
  method SemanticOverlap(sim: (string, string) -> real, cvs: seq<string>, jobs: seq<string>, threshold: real)
    returns (o: Overlap)
    ensures o == LegacyOverlap(sim, cvs, jobs, threshold)
  {
    if cvs == [] || jobs == [] {
      return Overlap([], jobs, 0.0);
    }
    var matched, missing := Split(sim, cvs, jobs, threshold);
    o := Overlap(matched, missing, Round(Ratio(|matched|, |jobs|), 2));
  }

  /** With both lists non-empty, a job skill is matched exactly when some CV
      skill is similar enough to it, missing exactly when none is, and the
      coverage is the rounded share of matched skills, repeats counted. */
  lemma LegacySplit(sim: (string, string) -> real, cvs: seq<string>, jobs: seq<string>, threshold: real)
    requires cvs != [] && jobs != []
    ensures var o := LegacyOverlap(sim, cvs, jobs, threshold);
      && (forall x :: x in o.matched <==> x in jobs && exists c :: c in cvs && sim(x, c) >= threshold)
      && (forall x :: x in o.missing <==> x in jobs && forall c :: c in cvs ==> sim(x, c) < threshold)
      && o.coverage == Round(Ratio(|o.matched|, |jobs|), 2)
      && o == OverlapOf(sim, cvs, jobs, threshold)
  {
    OverlapSplit(sim, cvs, jobs, threshold);
  }

  /** The two versions disagree on a job that asks for nothing: the older
      one reports no coverage, the later one full coverage. */
  lemma EmptyJobPolicies(sim: (string, string) -> real, cvs: seq<string>, threshold: real)
    ensures LegacyOverlap(sim, cvs, [], threshold).coverage == 0.0
    ensures OverlapOf(sim, cvs, [], threshold).coverage == 1.0
  {
  }
}
