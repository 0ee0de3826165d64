/** The CV-to-job matching engine: normalisation of skill lists, exact set
    coverage, the threshold-based semantic fallback over a similarity oracle,
    the weighted score with its explainability lists, and the ranking of a
    whole job market against one CV.

    The sentence-embedding model and its cosine similarity are replaced by an
    oracle `sim(a, b)`: the similarity the model would report between the
    texts `a` and `b`. Nothing is assumed about it unless a lemma says so. */
module Matching {
  import opened Values
  import opened Text
  import opened Rounding
  import opened Ranking

  // ================================================================ normalisation

  /** What `norm_text` produces: lower case, whitespace only as single plain
      spaces between other characters. */
  predicate IsNormal(s: string)
  {
    IsLowered(s) && SingleSpaced(s) && Trimmed(s)
  }

  /** `norm_text` on a string: strip, lower-case, collapse whitespace runs. */
  function NormStr(s: string): (r: string)
    ensures IsNormal(r)
    ensures |r| <= |s|
    ensures r == [] <==> forall i :: 0 <= i < |s| ==> IsSpace(s[i])
  {
    var t := Strip(s);
    var l := Lower(t);
    var r := Collapse(l);
    CollapseEnds(l);
    CollapseSpacing(l);
    CollapseChars(l);
    assert IsLowered(r) by {
      forall i | 0 <= i < |r| ensures LowerChar(r[i]) == r[i] {
        if r[i] != ' ' {
          var k :| 0 <= k < |l| && l[k] == r[i];
        }
      }
    }
    StripEmpty(s);
    r
  }

  /** `norm_text(s)`: anything but a string normalises to "". */
  function NormText(v: Value): (r: string)
    ensures !v.VStr? ==> r == []
    ensures v.VStr? ==> r == NormStr(v.s)
  {
    if v.VStr? then NormStr(v.s) else []
  }

  /** A normalised string is a fixed point of the normaliser. */
  lemma NormalIsFixed(s: string)
    requires IsNormal(s)
    ensures NormStr(s) == s
  {
    StripUntrimmed(s);
    LowerIsLowered(s);
    CollapseSingleSpaced(s);
  }

  /** `norm_text` is idempotent. */
  lemma NormTextIdempotent(v: Value)
    ensures NormText(VStr(NormText(v))) == NormText(v)
  {
    NormalIsFixed(NormText(v));
  }

  /** The items that `f` maps to a non-empty string, mapped, in order. */
  function FilterMap(items: seq<Value>, f: Value -> string): (r: seq<string>)
    ensures |r| <= |items|
  {
    if items == [] then []
    else
      var x := f(items[|items| - 1]);
      var rest := FilterMap(items[..|items| - 1], f);
      if x != [] then rest + [x] else rest
  }

  /** An output element is the non-empty image of some input item, and every
      such image is output. */
  lemma {:induction false} FilterMapMembers(items: seq<Value>, f: Value -> string)
    ensures forall x :: x in FilterMap(items, f) <==> x != [] && exists k :: 0 <= k < |items| && f(items[k]) == x
  {
    if items != [] {
      var init := items[..|items| - 1];
      FilterMapMembers(init, f);
      forall x ensures x in FilterMap(items, f) <==> x != [] && exists k :: 0 <= k < |items| && f(items[k]) == x {
        if x in FilterMap(items, f) && x in FilterMap(init, f) {
          var k :| 0 <= k < |init| && f(init[k]) == x;
          assert items[k] == init[k];
        }
        if x != [] && exists k :: 0 <= k < |items| && f(items[k]) == x {
          var k :| 0 <= k < |items| && f(items[k]) == x;
          if k < |init| {
            assert init[k] == items[k];
          }
        }
      }
    }
  }

  /** Filtering a concatenation filters each part, so the input order is kept. */
  lemma {:induction false} FilterMapConcat(a: seq<Value>, b: seq<Value>, f: Value -> string)
    ensures FilterMap(a + b, f) == FilterMap(a, f) + FilterMap(b, f)
    decreases |b|
  {
    if b == [] {
      assert a + b == a;
    } else {
      var b' := b[..|b| - 1];
      assert (a + b)[..|a + b| - 1] == a + b';
      FilterMapConcat(a, b', f);
    }
  }

  /** The list comprehension shared by `norm_list` and `semantic_overlap`:
      keep the strings whose normal form is non-empty, normalised, in order. */
  function NormItems(items: seq<Value>): (r: seq<string>)
    ensures |r| <= |items|
    ensures forall i :: 0 <= i < |r| ==> r[i] != [] && IsNormal(r[i])
  {
    var r := FilterMap(items, NormText);
    FilterMapMembers(items, NormText);
    assert forall i :: 0 <= i < |r| ==> r[i] in r;
    r
  }

  /** `norm_list` keeps exactly the non-empty normal forms of its string items. */
  lemma NormItemsMembers(items: seq<Value>)
    ensures forall x :: x in NormItems(items) <==> x != [] && exists k :: 0 <= k < |items| && NormText(items[k]) == x
  {
    FilterMapMembers(items, NormText);
  }

  /** `norm_list` distributes over list concatenation, so it keeps the input order. */
  lemma NormItemsConcat(a: seq<Value>, b: seq<Value>)
    ensures NormItems(a + b) == NormItems(a) + NormItems(b)
  {
    FilterMapConcat(a, b, NormText);
  }

  /** Filtering strings that the map leaves as they are, and none of which is
      empty, gives them back. */
  lemma {:induction false} FilterMapFixed(ys: seq<string>, f: Value -> string)
    requires forall i :: 0 <= i < |ys| ==> ys[i] != [] && f(VStr(ys[i])) == ys[i]
    ensures FilterMap(Strs(ys), f) == ys
  {
    if ys != [] {
      var n := |ys| - 1;
      var v := Strs(ys);
      assert v[..n] == Strs(ys[..n]);
      FilterMapFixed(ys[..n], f);
      assert ys[..n] + [ys[n]] == ys;
    }
  }

  /** A list of normal, non-empty strings is left as it is. */
  lemma NormItemsOfNormal(ys: seq<string>)
    requires forall i :: 0 <= i < |ys| ==> ys[i] != [] && IsNormal(ys[i])
    ensures NormItems(Strs(ys)) == ys
  {
    forall i | 0 <= i < |ys| ensures NormText(VStr(ys[i])) == ys[i] {
      NormalIsFixed(ys[i]);
    }
    FilterMapFixed(ys, NormText);
  }

  /** `norm_list` is idempotent. */
  lemma NormItemsIdempotent(items: seq<Value>)
    ensures NormItems(Strs(NormItems(items))) == NormItems(items)
  {
    NormItemsOfNormal(NormItems(items));
  }

  /** Every element is a non-empty normalised string. */
  predicate NormalList(xs: seq<string>)
  {
    forall i :: 0 <= i < |xs| ==> xs[i] != [] && IsNormal(xs[i])
  }

  /** What `norm_list(x)` returns: [] for anything but a list; for a list, the
      non-empty normalised forms of its string elements, in order. */
  function NormListOf(x: Value): (r: seq<string>)
    ensures NormalList(r)
    ensures !x.VList? ==> r == []
  {
    if x.VList? then NormItems(x.items) else []
  }

  /** The members of `norm_list(x)` for a list `x`: the non-empty normalised
      forms of its elements. */
  lemma NormListMembers(x: Value)
    requires x.VList?
    ensures forall z :: z in NormListOf(x) <==> z != [] && exists k :: 0 <= k < |x.items| && NormText(x.items[k]) == z
  {
    NormItemsMembers(x.items);
  }

  /** `norm_list(x)` */
  method NormList(x: Value) returns (out: seq<string>)
    ensures out == NormListOf(x)
  {
    if !x.VList? {
      return [];
    }
    var items := x.items;
    out := [];
    var i := 0;
    while i < |items|
      invariant 0 <= i <= |items|
      invariant out == NormItems(items[..i])
    {
      var v := items[i];
      assert items[..i + 1][..i] == items[..i];
      if v.VStr? {
        var vv := NormText(v);
        if vv != [] {
          out := out + [vv];
        }
      }
      i := i + 1;
    }
    assert items[..i] == items;
  }

  /** The set of the elements of a list (`set(xs)`). */
  function Elements(xs: seq<string>): (r: set<string>)
    ensures forall z :: z in r <==> z in xs
  {
    set z | z in xs
  }

  /** `to_set(x)`: the set of the normalised strings of a list. */
  function ToSet(x: Value): (r: set<string>)
    ensures !x.VList? ==> r == {}
    ensures x.VList? ==> forall z :: z in r <==> z != [] && exists k :: 0 <= k < |x.items| && NormText(x.items[k]) == z
  {
    if x.VList? then NormListMembers(x); Elements(NormListOf(x)) else {}
  }

  // ================================================================ exact coverage

  lemma SubsetCard(a: set<string>, b: set<string>)
    requires a <= b
    ensures |a| <= |b|
    ensures |a| == |b| ==> a == b
  {
    assert b == a + (b - a);
    assert a !! (b - a);
    assert |b| == |a| + |b - a|;
    if |a| == |b| {
      assert |b - a| == 0;
    }
  }

  /** `coverage(cv, job)`: the share of the job's items the CV has; an empty
      requirement is fully covered. */
  function Coverage(cv: set<string>, job: set<string>): (r: real)
    ensures job == {} ==> r == 1.0
    ensures 0.0 <= r <= 1.0
    ensures r == 1.0 <==> job <= cv
    ensures r == 0.0 <==> job != {} && cv * job == {}
    ensures cv == {} && job != {} ==> r == 0.0
  {
    if job == {} then 1.0
    else
      SubsetCard(cv * job, job);
      assert job <= cv ==> cv * job == job;
      Ratio(|cv * job|, |job|)
  }

  // ================================================================ semantic overlap

  /** `sim[i].max()`: the best similarity of the job item `j` to any CV item. */
  function MaxSim(sim: (string, string) -> real, j: string, cvs: seq<string>): (m: real)
    requires cvs != []
    ensures forall c :: c in cvs ==> sim(j, c) <= m
    ensures exists c :: c in cvs && sim(j, c) == m
  {
    if |cvs| == 1 then sim(j, cvs[0])
    else
      var m := MaxSim(sim, j, cvs[1..]);
      assert forall c :: c in cvs[1..] ==> c in cvs;
      if sim(j, cvs[0]) >= m then sim(j, cvs[0]) else m
  }

  /** The job item `j` counts as present in the CV. */
  predicate Matches(sim: (string, string) -> real, j: string, cvs: seq<string>, threshold: real)
    requires cvs != []
  {
    MaxSim(sim, j, cvs) >= threshold
  }

  /** An item is matched exactly when some CV item is similar enough to it. */
  lemma MatchesIff(sim: (string, string) -> real, j: string, cvs: seq<string>, threshold: real)
    requires cvs != []
    ensures Matches(sim, j, cvs, threshold) <==> exists c :: c in cvs && sim(j, c) >= threshold
  {
  }

  /** The job items that are matched, in order. */
  function Kept(sim: (string, string) -> real, cvs: seq<string>, jobs: seq<string>, threshold: real): (r: seq<string>)
    requires cvs != []
    ensures |r| <= |jobs|
  {
    if jobs == [] then []
    else
      var j := jobs[|jobs| - 1];
      Kept(sim, cvs, jobs[..|jobs| - 1], threshold) + (if Matches(sim, j, cvs, threshold) then [j] else [])
  }

  /** The job items that are not matched, in order. */
  function Dropped(sim: (string, string) -> real, cvs: seq<string>, jobs: seq<string>, threshold: real): (r: seq<string>)
    requires cvs != []
    ensures |r| <= |jobs|
  {
    if jobs == [] then []
    else
      var j := jobs[|jobs| - 1];
      Dropped(sim, cvs, jobs[..|jobs| - 1], threshold) + (if Matches(sim, j, cvs, threshold) then [] else [j])
  }

  /** The matched items are the job items similar enough to the CV, the
      missing ones the others. */
  lemma {:induction false} KeptDroppedMembers(sim: (string, string) -> real, cvs: seq<string>, jobs: seq<string>, threshold: real)
    requires cvs != []
    ensures forall x :: x in Kept(sim, cvs, jobs, threshold) <==> x in jobs && Matches(sim, x, cvs, threshold)
    ensures forall x :: x in Dropped(sim, cvs, jobs, threshold) <==> x in jobs && !Matches(sim, x, cvs, threshold)
  {
    if jobs != [] {
      var init := jobs[..|jobs| - 1];
      assert jobs == init + [jobs[|jobs| - 1]];
      KeptDroppedMembers(sim, cvs, init, threshold);
    }
  }

  /** Matched and missing items split the job list: every item lands in
      exactly one of them, duplicates included. */
  lemma {:induction false} KeptDroppedPartition(sim: (string, string) -> real, cvs: seq<string>, jobs: seq<string>, threshold: real)
    requires cvs != []
    ensures multiset(Kept(sim, cvs, jobs, threshold)) + multiset(Dropped(sim, cvs, jobs, threshold)) == multiset(jobs)
    ensures |Kept(sim, cvs, jobs, threshold)| + |Dropped(sim, cvs, jobs, threshold)| == |jobs|
  {
    if jobs != [] {
      var init := jobs[..|jobs| - 1];
      assert jobs == init + [jobs[|jobs| - 1]];
      KeptDroppedPartition(sim, cvs, init, threshold);
    }
  }

  /** Splitting a concatenation splits each part, so the matched items keep the job order. */
  lemma {:induction false} KeptConcat(sim: (string, string) -> real, cvs: seq<string>, a: seq<string>, b: seq<string>, threshold: real)
    requires cvs != []
    ensures Kept(sim, cvs, a + b, threshold) == Kept(sim, cvs, a, threshold) + Kept(sim, cvs, b, threshold)
    decreases |b|
  {
    if b == [] {
      assert a + b == a;
    } else {
      var b' := b[..|b| - 1];
      assert (a + b)[..|a + b| - 1] == a + b';
      KeptConcat(sim, cvs, a, b', threshold);
    }
  }

  /** Splitting a concatenation splits each part, so the missing items keep the job order. */
  lemma {:induction false} DroppedConcat(sim: (string, string) -> real, cvs: seq<string>, a: seq<string>, b: seq<string>, threshold: real)
    requires cvs != []
    ensures Dropped(sim, cvs, a + b, threshold) == Dropped(sim, cvs, a, threshold) + Dropped(sim, cvs, b, threshold)
    decreases |b|
  {
    if b == [] {
      assert a + b == a;
    } else {
      var b' := b[..|b| - 1];
      assert (a + b)[..|a + b| - 1] == a + b';
      DroppedConcat(sim, cvs, a, b', threshold);
    }
  }

  /** The result of `semantic_overlap`. */
  datatype Overlap = Overlap(matched: seq<string>, missing: seq<string>, coverage: real)

  /** `semantic_overlap` once both lists are normalised: nothing required
      means fully covered, an empty CV misses everything, and otherwise the
      job list is split by the threshold. */
  function OverlapOf(sim: (string, string) -> real, cvs: seq<string>, jobs: seq<string>, threshold: real): (o: Overlap)
    ensures 0.0 <= o.coverage <= 1.0
    ensures jobs == [] ==> o == Overlap([], [], 1.0)
    ensures jobs != [] && cvs == [] ==> o == Overlap([], jobs, 0.0)
    ensures multiset(o.matched) + multiset(o.missing) == multiset(jobs)
  {
    if jobs == [] then Overlap([], [], 1.0)
    else if cvs == [] then Overlap([], jobs, 0.0)
    else
      var matched := Kept(sim, cvs, jobs, threshold);
      KeptDroppedPartition(sim, cvs, jobs, threshold);
      var share := Ratio(|matched|, |jobs|);
      RoundWithin(share, 0, 1, 2);
      Overlap(matched, Dropped(sim, cvs, jobs, threshold), Round(share, 2))
  }

  /** With a non-empty CV, an item is matched exactly when some CV item is
      similar enough to it, and coverage is the rounded share of matched
      items, duplicates counted. */
  lemma OverlapSplit(sim: (string, string) -> real, cvs: seq<string>, jobs: seq<string>, threshold: real)
    requires cvs != [] && jobs != []
    ensures var o := OverlapOf(sim, cvs, jobs, threshold);
      && (forall x :: x in o.matched <==> x in jobs && exists c :: c in cvs && sim(x, c) >= threshold)
      && (forall x :: x in o.missing <==> x in jobs && forall c :: c in cvs ==> sim(x, c) < threshold)
      && o.coverage == Round(Ratio(|o.matched|, |jobs|), 2)
  {
    KeptDroppedMembers(sim, cvs, jobs, threshold);
    forall x {
      MatchesIff(sim, x, cvs, threshold);
    }
  }

  /** What `semantic_overlap(cv_items, job_items, threshold)` returns. */
  function OverlapSpec(sim: (string, string) -> real, cvItems: seq<Value>, jobItems: seq<Value>, threshold: real): (o: Overlap)
    ensures o == OverlapOf(sim, NormItems(cvItems), NormItems(jobItems), threshold)
  {
    OverlapOf(sim, NormItems(cvItems), NormItems(jobItems), threshold)
  }

  /** Lists that are already normalised reach the split unchanged. */
  lemma OverlapOfNormal(sim: (string, string) -> real, cvs: seq<string>, jobs: seq<string>, threshold: real)
    requires forall i :: 0 <= i < |cvs| ==> cvs[i] != [] && IsNormal(cvs[i])
    requires forall i :: 0 <= i < |jobs| ==> jobs[i] != [] && IsNormal(jobs[i])
    ensures OverlapSpec(sim, Strs(cvs), Strs(jobs), threshold) == OverlapOf(sim, cvs, jobs, threshold)
  {
    NormItemsOfNormal(cvs);
    NormItemsOfNormal(jobs);
  }

  /** The loop of `semantic_overlap`: each job item goes to the matched or
      the missing list by its best similarity against the CV items. */
  method Split(sim: (string, string) -> real, cvs: seq<string>, jobs: seq<string>, threshold: real)
    returns (matched: seq<string>, missing: seq<string>)
    requires cvs != []
    ensures matched == Kept(sim, cvs, jobs, threshold)
    ensures missing == Dropped(sim, cvs, jobs, threshold)
  {
    matched, missing := [], [];
    var i := 0;
    while i < |jobs|
      invariant 0 <= i <= |jobs|
      invariant matched == Kept(sim, cvs, jobs[..i], threshold)
      invariant missing == Dropped(sim, cvs, jobs[..i], threshold)
    {
      assert jobs[..i + 1][..i] == jobs[..i];
      if MaxSim(sim, jobs[i], cvs) >= threshold {
        matched := matched + [jobs[i]];
      } else {
        missing := missing + [jobs[i]];
      }
      i := i + 1;
    }
    assert jobs[..i] == jobs;
  }

  /** `semantic_overlap(cv_items, job_items, threshold)` */
  method SemanticOverlap(sim: (string, string) -> real, cvItems: seq<Value>, jobItems: seq<Value>, threshold: real)
    returns (o: Overlap)
    ensures o == OverlapSpec(sim, cvItems, jobItems, threshold)
  {
    var cvs := NormList(VList(cvItems));
    var jobs := NormList(VList(jobItems));
    if jobs == [] {
      return Overlap([], [], 1.0);
    }
    if cvs == [] {
      return Overlap([], jobs, 0.0);
    }
    var matched, missing := Split(sim, cvs, jobs, threshold);
    var cov := Ratio(|matched|, |jobs|);
    o := Overlap(matched, missing, Round(cov, 2));
  }

  /** `semantic_similarity_text(cv_text, job_text)` */
  function SemanticSimilarityText(sim: (string, string) -> real, cvText: string, jobText: string): (r: real)
  {
    var c := NormStr(cvText);
    var j := NormStr(jobText);
    if c == [] || j == [] then 0.0 else Round(sim(c, j), 3)
  }

  /** When either text is blank the answer is 0.0 whatever the model says, so
      the model is never consulted; otherwise the rounded similarity of the
      normalised texts stays within the oracle's range [-1, 1]. */
  lemma SimilarityTextCases(sim: (string, string) -> real, other: (string, string) -> real, cvText: string, jobText: string)
    ensures (forall i :: 0 <= i < |cvText| ==> IsSpace(cvText[i])) ==> SemanticSimilarityText(sim, cvText, jobText) == 0.0
    ensures (forall i :: 0 <= i < |jobText| ==> IsSpace(jobText[i])) ==> SemanticSimilarityText(sim, cvText, jobText) == 0.0
    ensures NormStr(cvText) == [] || NormStr(jobText) == [] ==>
      SemanticSimilarityText(sim, cvText, jobText) == SemanticSimilarityText(other, cvText, jobText)
    ensures (forall a, b :: -1.0 <= sim(a, b) <= 1.0) ==> -1.0 <= SemanticSimilarityText(sim, cvText, jobText) <= 1.0
    ensures (forall a, b :: 0.0 <= sim(a, b) <= 1.0) ==> 0.0 <= SemanticSimilarityText(sim, cvText, jobText) <= 1.0
  {
    var c := NormStr(cvText);
    var j := NormStr(jobText);
    if c != [] && j != [] && forall a, b :: -1.0 <= sim(a, b) <= 1.0 {
      RoundWithin(sim(c, j), -1, 1, 3);
    }
    if c != [] && j != [] && forall a, b :: 0.0 <= sim(a, b) <= 1.0 {
      RoundWithin(sim(c, j), 0, 1, 3);
    }
  }

  // ================================================================ one CV against one job

  /** The keyword options of `match_cv_job`; `weights` is None when not given. */
  datatype Options = Options(
    useSemanticSkills: bool,
    skillThreshold: real,
    useDescriptionSemantic: bool,
    weights: Option<map<string, real>>)

  /** The options a caller gets by passing none. */
  const DefaultOptions := Options(true, 0.75, true, None)

  /** The weights used when the caller passes none: skills are the
      constraints, the description helps ranking. */
  const DefaultWeights: map<string, real> := map[
    "hard_required" := 0.45, "hard_optional" := 0.15, "soft" := 0.10,
    "languages" := 0.10, "description" := 0.20]

  /** The dictionary `match_cv_job` returns. */
  datatype MatchResult = MatchResult(
    score: real,
    hardRequiredCoverage: real,
    hardOptionalCoverage: real,
    softCoverage: real,
    languagesRequiredCoverage: real,
    descriptionSimilarity: real,
    hardRequiredMissing: seq<string>,
    hardOptionalMissing: seq<string>,
    softSkillsMissing: seq<string>,
    languagesRequiredMissing: seq<string>,
    languagesOptionalMissing: seq<string>,
    usedSemanticSkills: bool,
    skillThreshold: real,
    usedDescriptionSemantic: bool,
    weights: map<string, real>)

  /** Every weight the score reads is present. */
  predicate HasWeights(w: map<string, real>)
  {
    "hard_required" in w && "hard_optional" in w && "soft" in w && "languages" in w && "description" in w
  }

  /** The first weight the score reads that is absent, in the order the sum reads them. */
  function MissingWeight(w: map<string, real>): (r: Option<string>)
    ensures r.None? <==> HasWeights(w)
    ensures r.Some? ==> r.value !in w
  {
    if "hard_required" !in w then Some("hard_required")
    else if "hard_optional" !in w then Some("hard_optional")
    else if "soft" !in w then Some("soft")
    else if "languages" !in w then Some("languages")
    else if "description" !in w then Some("description")
    else None
  }

  /** The weighted sum behind the score. The weights are used as given, not
      renormalised. */
  function Total(w: map<string, real>, hardReq: real, hardOpt: real, soft: real, lang: real, desc: real): real
    requires HasWeights(w)
  {
    w["hard_required"] * hardReq + w["hard_optional"] * hardOpt + w["soft"] * soft
    + w["languages"] * lang + w["description"] * desc
  }

  function WeightSum(w: map<string, real>): real
    requires HasWeights(w)
  {
    w["hard_required"] + w["hard_optional"] + w["soft"] + w["languages"] + w["description"]
  }

  lemma ScaledUnit(w: real, c: real)
    requires 0.0 <= w && 0.0 <= c <= 1.0
    ensures 0.0 <= w * c <= w
  {
  }

  /** With non-negative weights and every part in [0, 1], the weighted sum
      lies between 0 and the sum of the weights. */
  lemma TotalBounds(w: map<string, real>, hardReq: real, hardOpt: real, soft: real, lang: real, desc: real)
    requires HasWeights(w)
    requires forall k :: k in w ==> 0.0 <= w[k]
    requires 0.0 <= hardReq <= 1.0 && 0.0 <= hardOpt <= 1.0 && 0.0 <= soft <= 1.0
    requires 0.0 <= lang <= 1.0 && 0.0 <= desc <= 1.0
    ensures 0.0 <= Total(w, hardReq, hardOpt, soft, lang, desc) <= WeightSum(w)
  {
    var a, b, c, d, e := w["hard_required"], w["hard_optional"], w["soft"], w["languages"], w["description"];
    assert 0.0 <= a && 0.0 <= b && 0.0 <= c && 0.0 <= d && 0.0 <= e;
    assert WeightSum(w) == a + b + c + d + e;
    ScaledUnit(a, hardReq);
    ScaledUnit(b, hardOpt);
    ScaledUnit(c, soft);
    ScaledUnit(d, lang);
    ScaledUnit(e, desc);
    var x1, x2, x3, x4, x5 := a * hardReq, b * hardOpt, c * soft, d * lang, e * desc;
    assert Total(w, hardReq, hardOpt, soft, lang, desc) == x1 + x2 + x3 + x4 + x5;
    assert x1 <= a && x2 <= b && x3 <= c && x4 <= d && x5 <= e;
    assert 0.0 <= x1 && 0.0 <= x2 && 0.0 <= x3 && 0.0 <= x4 && 0.0 <= x5;
    assert x1 + x2 + x3 + x4 + x5 <= a + b + c + d + e;
  }

  /** The job items the CV lacks, exactly (`job_set - cv_set`), in job order. */
  function Without(job: seq<string>, cv: seq<string>): (r: seq<string>)
    ensures forall z :: z in r <==> z in job && z !in cv
  {
    if job == [] then []
    else
      var rest := Without(job[..|job| - 1], cv);
      var z := job[|job| - 1];
      assert forall y :: y in job <==> y in job[..|job| - 1] || y == z;
      if z in cv then rest else rest + [z]
  }

  /** The semantic detail of one category: computed only when the fallback is
      enabled, the job lists something and the CV lacks part of it. */
  function Detail(sim: (string, string) -> real, opts: Options, cvList: seq<string>, jobList: seq<string>): Option<Overlap>
  {
    if opts.useSemanticSkills && jobList != [] && Elements(jobList) - Elements(cvList) != {} then
      Some(OverlapSpec(sim, Strs(cvList), Strs(jobList), opts.skillThreshold))
    else None
  }

  /** A category's coverage: the semantic one when it was computed, else the exact one. */
  function Chosen(detail: Option<Overlap>, exact: real): real
  {
    if detail.Some? then detail.value.coverage else exact
  }

  /** A category's missing list: the semantic one when it was computed, else
      the exact difference; deduplicated and sorted either way. */
  function MissingOf(detail: Option<Overlap>, jobList: seq<string>, cvList: seq<string>): seq<string>
  {
    SortedSet(if detail.Some? then detail.value.missing else Without(jobList, cvList))
  }

  /** The normalised inputs `match_cv_job` reads from the CV and the job. */
  datatype Inputs = Inputs(
    cvHard: seq<string>, cvSoft: seq<string>, cvLang: seq<string>, cvText: string,
    jobReq: seq<string>, jobOpt: seq<string>, jobSoft: seq<string>,
    jobLangReq: seq<string>, jobLangOpt: seq<string>, jobDesc: string)

  function ReadInputs(cv: map<string, Value>, job: map<string, Value>): Inputs
  {
    Inputs(
      NormListOf(Get(cv, "skills_hard")), NormListOf(Get(cv, "skills_soft")),
      NormListOf(Get(cv, "languages")), NormText(GetOr(cv, "text", VStr(""))),
      NormListOf(Get(job, "skills_hard_required")), NormListOf(Get(job, "skills_hard_optional")),
      NormListOf(Get(job, "skills_soft")), NormListOf(Get(job, "languages_required")),
      NormListOf(Get(job, "languages_optional")), NormText(GetOr(job, "description", VStr(""))))
  }

  /** The per-category sub-scores and the semantic details behind them. */
  datatype Subscores = Subscores(
    hardReq: real, hardOpt: real, soft: real, langReq: real, desc: real,
    reqDetail: Option<Overlap>, optDetail: Option<Overlap>, langDetail: Option<Overlap>)

  function SubscoresOf(sim: (string, string) -> real, opts: Options, inp: Inputs): Subscores
  {
    var reqDetail := Detail(sim, opts, inp.cvHard, inp.jobReq);
    var optDetail := Detail(sim, opts, inp.cvHard, inp.jobOpt);
    var langDetail := Detail(sim, opts, inp.cvLang, inp.jobLangReq);
    Subscores(
      Chosen(reqDetail, Coverage(Elements(inp.cvHard), Elements(inp.jobReq))),
      Chosen(optDetail, Coverage(Elements(inp.cvHard), Elements(inp.jobOpt))),
      Coverage(Elements(inp.cvSoft), Elements(inp.jobSoft)),
      Chosen(langDetail, Coverage(Elements(inp.cvLang), Elements(inp.jobLangReq))),
      if opts.useDescriptionSemantic then SemanticSimilarityText(sim, inp.cvText, inp.jobDesc) else 0.0,
      reqDetail, optDetail, langDetail)
  }

  /** The score out of 100: the weighted sum of the sub-scores, scaled and rounded to one decimal. */
  function Score(w: map<string, real>, sub: Subscores): real
    requires HasWeights(w)
  {
    Round(Total(w, sub.hardReq, sub.hardOpt, sub.soft, sub.langReq, sub.desc) * 100.0, 1)
  }

  /** The result dictionary built from the sub-scores, or the KeyError raised
      when the weights lack a key the score reads. */
  function Assemble(w: map<string, real>, opts: Options, inp: Inputs, sub: Subscores): Result<MatchResult>
  {
    if !HasWeights(w) then Err(KeyError(MissingWeight(w).value))
    else
      Ok(MatchResult(
        Score(w, sub),
        Round(sub.hardReq, 2), Round(sub.hardOpt, 2), Round(sub.soft, 2), Round(sub.langReq, 2),
        Round(sub.desc, 3),
        MissingOf(sub.reqDetail, inp.jobReq, inp.cvHard),
        MissingOf(sub.optDetail, inp.jobOpt, inp.cvHard),
        SortedSet(Without(inp.jobSoft, inp.cvSoft)),
        MissingOf(sub.langDetail, inp.jobLangReq, inp.cvLang),
        SortedSet(Without(inp.jobLangOpt, inp.cvLang)),
        opts.useSemanticSkills, opts.skillThreshold, opts.useDescriptionSemantic, w))
  }

  /** The weights the score uses. */
  function WeightsOf(opts: Options): map<string, real>
  {
    if opts.weights.None? then DefaultWeights else opts.weights.value
  }

  /** What `match_cv_job(cv, job, ...)` returns, or the KeyError it raises. */
  function MatchSpec(sim: (string, string) -> real, cv: map<string, Value>, job: map<string, Value>, opts: Options)
    : Result<MatchResult>
  {
    var inp := ReadInputs(cv, job);
    Assemble(WeightsOf(opts), opts, inp, SubscoresOf(sim, opts, inp))
  }

  /** The normalised inputs `match_cv_job` reads (its first block). */
  method ReadCvJob(cv: map<string, Value>, job: map<string, Value>) returns (inp: Inputs)
    ensures inp == ReadInputs(cv, job)
  {
    var cvHard := NormList(Get(cv, "skills_hard"));
    var cvSoft := NormList(Get(cv, "skills_soft"));
    var cvLang := NormList(Get(cv, "languages"));
    var cvText := NormText(GetOr(cv, "text", VStr("")));
    var jobReq := NormList(Get(job, "skills_hard_required"));
    var jobOpt := NormList(Get(job, "skills_hard_optional"));
    var jobSoft := NormList(Get(job, "skills_soft"));
    var jobLangReq := NormList(Get(job, "languages_required"));
    var jobLangOpt := NormList(Get(job, "languages_optional"));
    var jobDesc := NormText(GetOr(job, "description", VStr("")));
    inp := Inputs(cvHard, cvSoft, cvLang, cvText, jobReq, jobOpt, jobSoft, jobLangReq, jobLangOpt, jobDesc);
  }

  /** One category's coverage: the exact one, replaced by the semantic one
      when the fallback is on, the job lists something and the CV lacks part of it. */
  method Fallback(sim: (string, string) -> real, opts: Options, cvList: seq<string>, jobList: seq<string>)
    returns (detail: Option<Overlap>, cov: real)
    ensures detail == Detail(sim, opts, cvList, jobList)
    ensures cov == Chosen(detail, Coverage(Elements(cvList), Elements(jobList)))
  {
    var cvSet, jobSet := Elements(cvList), Elements(jobList);
    cov := Coverage(cvSet, jobSet);
    detail := None;
    if opts.useSemanticSkills && jobList != [] && |jobSet - cvSet| > 0 {
      var d := SemanticOverlap(sim, Strs(cvList), Strs(jobList), opts.skillThreshold);
      detail := Some(d);
      cov := d.coverage;
    }
  }

  /** The sub-scores of `match_cv_job`, before weighting. */
  method ScoreParts(sim: (string, string) -> real, opts: Options, inp: Inputs) returns (sub: Subscores)
    ensures sub == SubscoresOf(sim, opts, inp)
  {
    var reqDetail, hardReq := Fallback(sim, opts, inp.cvHard, inp.jobReq);
    var optDetail, hardOpt := Fallback(sim, opts, inp.cvHard, inp.jobOpt);
    var langDetail, langReq := Fallback(sim, opts, inp.cvLang, inp.jobLangReq);
    var soft := Coverage(Elements(inp.cvSoft), Elements(inp.jobSoft));
    var desc := 0.0;
    if opts.useDescriptionSemantic {
      desc := SemanticSimilarityText(sim, inp.cvText, inp.jobDesc);
    }
    sub := Subscores(hardReq, hardOpt, soft, langReq, desc, reqDetail, optDetail, langDetail);
  }

  /** `match_cv_job(cv, job, ...)` */
  method MatchCvJob(sim: (string, string) -> real, cv: map<string, Value>, job: map<string, Value>, opts: Options)
    returns (r: Result<MatchResult>)
    ensures r == MatchSpec(sim, cv, job, opts)
  {
    var weights := if opts.weights.None? then DefaultWeights else opts.weights.value;
    var inp := ReadCvJob(cv, job);
    var sub := ScoreParts(sim, opts, inp);

    var absent := MissingWeight(weights);
    if absent.Some? {
      return Err(KeyError(absent.value));
    }

    var hardRequiredMissing := Without(inp.jobReq, inp.cvHard);
    var hardOptionalMissing := Without(inp.jobOpt, inp.cvHard);
    var softMissing := Without(inp.jobSoft, inp.cvSoft);
    var languagesRequiredMissing := Without(inp.jobLangReq, inp.cvLang);
    var languagesOptionalMissing := Without(inp.jobLangOpt, inp.cvLang);
    if sub.reqDetail.Some? {
      hardRequiredMissing := sub.reqDetail.value.missing;
    }
    if sub.optDetail.Some? {
      hardOptionalMissing := sub.optDetail.value.missing;
    }
    if sub.langDetail.Some? {
      languagesRequiredMissing := sub.langDetail.value.missing;
    }

    r := Ok(MatchResult(
      Score(weights, sub),
      Round(sub.hardReq, 2), Round(sub.hardOpt, 2), Round(sub.soft, 2), Round(sub.langReq, 2), Round(sub.desc, 3),
      SortedSet(hardRequiredMissing), SortedSet(hardOptionalMissing), SortedSet(softMissing),
      SortedSet(languagesRequiredMissing), SortedSet(languagesOptionalMissing),
      opts.useSemanticSkills, opts.skillThreshold, opts.useDescriptionSemantic, weights));
  }

  // ================================================================ properties of one match

  /** The fallback runs for a category exactly when it is enabled and the
      exact coverage falls short of 1. */
  lemma FallbackPolicy(sim: (string, string) -> real, opts: Options, cvList: seq<string>, jobList: seq<string>)
    ensures Detail(sim, opts, cvList, jobList).Some? <==>
      opts.useSemanticSkills && Coverage(Elements(cvList), Elements(jobList)) < 1.0
  {
    var c, j := Elements(cvList), Elements(jobList);
    if jobList == [] {
      assert j == {};
    }
    if j - c == {} {
      forall z | z in j ensures z in c {
        assert z !in j - c;
      }
    }
    if j <= c {
      assert j - c == {};
    }
  }

  /** What one category contributes: the coverage lies in [0, 1] and the
      missing list is sorted without repeats. Without the fallback both are
      exact; with it and an empty CV nothing is matched; otherwise an item is
      missing exactly when no CV item is similar enough to it, and the
      coverage is the rounded share of matched job items. */
  lemma CategoryOutcome(sim: (string, string) -> real, opts: Options, cvList: seq<string>, jobList: seq<string>)
    requires NormalList(cvList) && NormalList(jobList)
    ensures var exact := Coverage(Elements(cvList), Elements(jobList));
      var d := Detail(sim, opts, cvList, jobList);
      var cov := Chosen(d, exact);
      var miss := MissingOf(d, jobList, cvList);
      && 0.0 <= cov <= 1.0
      && StrictlySorted(miss)
      && (d.None? <==> !opts.useSemanticSkills || exact == 1.0)
      && (d.None? ==> cov == exact && forall z :: z in miss <==> z in jobList && z !in cvList)
      && (d.Some? && cvList == [] ==> cov == 0.0 && forall z :: z in miss <==> z in jobList)
      && (d.Some? && cvList != [] ==>
           && cov == Round(Ratio(|d.value.matched|, |jobList|), 2)
           && forall z :: z in miss <==> z in jobList && forall c :: c in cvList ==> sim(z, c) < opts.skillThreshold)
  {
    FallbackPolicy(sim, opts, cvList, jobList);
    var d := Detail(sim, opts, cvList, jobList);
    if d.Some? {
      OverlapOfNormal(sim, cvList, jobList, opts.skillThreshold);
      assert jobList != [];
      if cvList != [] {
        OverlapSplit(sim, cvList, jobList, opts.skillThreshold);
      }
    }
  }

  /** `match_cv_job` fails exactly when the caller passes weights that lack a
      key the score reads, and then names such a key. */
  lemma MatchErrors(sim: (string, string) -> real, cv: map<string, Value>, job: map<string, Value>, opts: Options)
    ensures MatchSpec(sim, cv, job, opts).Err? <==> opts.weights.Some? && !HasWeights(opts.weights.value)
    ensures MatchSpec(sim, cv, job, opts).Err? ==>
      exists k :: k !in opts.weights.value && MatchSpec(sim, cv, job, opts).error == KeyError(k)
  {
    assert HasWeights(DefaultWeights);
    var r := MatchSpec(sim, cv, job, opts);
    if r.Err? {
      assert r.error == KeyError(MissingWeight(opts.weights.value).value);
    }
  }

  /** With non-negative weights, every sub-score in [0, 1] gives a score
      between 0 and 100 times the sum of the weights (rounded alike). */
  lemma ScoreBounds(w: map<string, real>, sub: Subscores)
    requires HasWeights(w)
    requires forall k :: k in w ==> 0.0 <= w[k]
    requires 0.0 <= sub.hardReq <= 1.0 && 0.0 <= sub.hardOpt <= 1.0 && 0.0 <= sub.soft <= 1.0
    requires 0.0 <= sub.langReq <= 1.0 && 0.0 <= sub.desc <= 1.0
    ensures 0.0 <= Score(w, sub) <= Round(WeightSum(w) * 100.0, 1)
  {
    var t := Total(w, sub.hardReq, sub.hardOpt, sub.soft, sub.langReq, sub.desc);
    TotalBounds(w, sub.hardReq, sub.hardOpt, sub.soft, sub.langReq, sub.desc);
    RoundMonotone(0.0, t * 100.0, 1);
    RoundOfInt(0, 1);
    RoundMonotone(t * 100.0, WeightSum(w) * 100.0, 1);
  }

  /** The sub-scores of one match: every coverage in [0, 1], the soft
      coverage always exact, and the description similarity 0 when switched
      off and in [0, 1] when the oracle is. */
  lemma SubscoresRange(sim: (string, string) -> real, opts: Options, inp: Inputs)
    requires NormalList(inp.cvHard) && NormalList(inp.cvLang)
    requires NormalList(inp.jobReq) && NormalList(inp.jobOpt) && NormalList(inp.jobLangReq)
    ensures var sub := SubscoresOf(sim, opts, inp);
      && 0.0 <= sub.hardReq <= 1.0 && 0.0 <= sub.hardOpt <= 1.0 && 0.0 <= sub.langReq <= 1.0
      && sub.soft == Coverage(Elements(inp.cvSoft), Elements(inp.jobSoft))
      && (!opts.useDescriptionSemantic ==> sub.desc == 0.0)
      && ((forall a, b :: 0.0 <= sim(a, b) <= 1.0) ==> 0.0 <= sub.desc <= 1.0)
  {
    CategoryOutcome(sim, opts, inp.cvHard, inp.jobReq);
    CategoryOutcome(sim, opts, inp.cvHard, inp.jobOpt);
    CategoryOutcome(sim, opts, inp.cvLang, inp.jobLangReq);
    SimilarityTextCases(sim, sim, inp.cvText, inp.jobDesc);
  }

  /** The normalised inputs are normal lists. */
  lemma ReadInputsNormal(cv: map<string, Value>, job: map<string, Value>)
    ensures var inp := ReadInputs(cv, job);
      && NormalList(inp.cvHard) && NormalList(inp.cvSoft) && NormalList(inp.cvLang)
      && NormalList(inp.jobReq) && NormalList(inp.jobOpt) && NormalList(inp.jobSoft)
      && NormalList(inp.jobLangReq) && NormalList(inp.jobLangOpt)
  {
  }

  /** With the default weights, parts in [0, 1] give a score in [0, 100]. */
  lemma DefaultScoreBounds(sub: Subscores)
    requires 0.0 <= sub.hardReq <= 1.0 && 0.0 <= sub.hardOpt <= 1.0 && 0.0 <= sub.soft <= 1.0
    requires 0.0 <= sub.langReq <= 1.0 && 0.0 <= sub.desc <= 1.0
    ensures 0.0 <= Score(DefaultWeights, sub) <= 100.0
  {
    assert HasWeights(DefaultWeights);
    assert WeightSum(DefaultWeights) * 100.0 == 100 as real;
    ScoreBounds(DefaultWeights, sub);
    RoundOfInt(100, 1);
  }

  /** With every weight present the result is built, carrying the score. */
  lemma AssembleScore(w: map<string, real>, opts: Options, inp: Inputs, sub: Subscores)
    requires HasWeights(w)
    ensures Assemble(w, opts, inp, sub).Ok? && Assemble(w, opts, inp, sub).value.score == Score(w, sub)
  {
  }

  /** With the default weights, and the description similarity either
      switched off or drawn from an oracle in [0, 1], `match_cv_job` always
      succeeds with a score between 0 and 100. */
  lemma ScoreInRange(sim: (string, string) -> real, cv: map<string, Value>, job: map<string, Value>, opts: Options)
    requires opts.weights.None?
    requires opts.useDescriptionSemantic ==> forall a, b :: 0.0 <= sim(a, b) <= 1.0
    ensures MatchSpec(sim, cv, job, opts).Ok?
    ensures 0.0 <= MatchSpec(sim, cv, job, opts).value.score <= 100.0
  {
    var inp := ReadInputs(cv, job);
    ReadInputsNormal(cv, job);
    SubscoresRange(sim, opts, inp);
    var sub := SubscoresOf(sim, opts, inp);
    assert WeightsOf(opts) == DefaultWeights;
    assert HasWeights(DefaultWeights);
    AssembleScore(DefaultWeights, opts, inp, sub);
    DefaultScoreBounds(sub);
  }

  /** The missing lists of a successful match are sorted without repeats;
      the soft and optional-language ones are always the exact differences,
      and with the fallback switched off so are the other three. */
  lemma MissingListsExact(sim: (string, string) -> real, w: map<string, real>, opts: Options, inp: Inputs)
    requires HasWeights(w)
    requires NormalList(inp.cvHard) && NormalList(inp.cvLang)
    requires NormalList(inp.jobReq) && NormalList(inp.jobOpt) && NormalList(inp.jobLangReq)
    ensures var r := Assemble(w, opts, inp, SubscoresOf(sim, opts, inp)).value;
      && StrictlySorted(r.hardRequiredMissing) && StrictlySorted(r.hardOptionalMissing)
      && StrictlySorted(r.softSkillsMissing) && StrictlySorted(r.languagesRequiredMissing)
      && StrictlySorted(r.languagesOptionalMissing)
      && (forall z :: z in r.softSkillsMissing <==> z in inp.jobSoft && z !in inp.cvSoft)
      && (forall z :: z in r.languagesOptionalMissing <==> z in inp.jobLangOpt && z !in inp.cvLang)
      && (!opts.useSemanticSkills ==>
           && (forall z :: z in r.hardRequiredMissing <==> z in inp.jobReq && z !in inp.cvHard)
           && (forall z :: z in r.hardOptionalMissing <==> z in inp.jobOpt && z !in inp.cvHard)
           && (forall z :: z in r.languagesRequiredMissing <==> z in inp.jobLangReq && z !in inp.cvLang))
  {
    CategoryOutcome(sim, opts, inp.cvHard, inp.jobReq);
    CategoryOutcome(sim, opts, inp.cvHard, inp.jobOpt);
    CategoryOutcome(sim, opts, inp.cvLang, inp.jobLangReq);
  }

  /** The fallback counts repeated job items while the exact coverage counts
      distinct ones, so the semantic coverage that replaces an exact one can
      be the smaller of the two: a CV with "python" against a job asking for
      "python", "sql", "sql", with an oracle that only recognises equal
      strings, covers half of the job exactly but a third semantically. */
  lemma FallbackCountsRepeats()
    ensures var sim := (a: string, b: string) => if a == b then 1.0 else 0.0;
      var cvs, jobs := ["python"], ["python", "sql", "sql"];
      && Coverage(Elements(cvs), Elements(jobs)) == 0.5
      && OverlapOf(sim, cvs, jobs, 0.75).coverage == 0.33
  {
    CoverageRepeats();
    KeptRepeats();
    RoundThird();
  }

  lemma CoverageRepeats()
    ensures Coverage(Elements(["python"]), Elements(["python", "sql", "sql"])) == 0.5
  {
    var jobSet, cvSet := Elements(["python", "sql", "sql"]), Elements(["python"]);
    assert "python" != "sql";
    assert jobSet == {"python", "sql"};
    assert cvSet * jobSet == {"python"};
    assert |jobSet| == 2;
    assert Coverage(cvSet, jobSet) == Ratio(1, 2);
  }

  lemma KeptRepeats()
    ensures var sim := (a: string, b: string) => if a == b then 1.0 else 0.0;
      Kept(sim, ["python"], ["python", "sql", "sql"], 0.75) == ["python"]
  {
    var sim := (a: string, b: string) => if a == b then 1.0 else 0.0;
    var cvs, jobs := ["python"], ["python", "sql", "sql"];
    assert "python" != "sql";
    assert MaxSim(sim, "sql", cvs) == 0.0;
    assert MaxSim(sim, "python", cvs) == 1.0;
    assert jobs[..1] == ["python"];
    assert jobs[..2] == ["python", "sql"];
    assert jobs[..2][..1] == ["python"];
    assert Kept(sim, cvs, jobs[..1], 0.75) == ["python"];
    assert Kept(sim, cvs, jobs[..2], 0.75) == ["python"];
  }

  lemma RoundThird()
    ensures Round(Ratio(1, 3), 2) == 0.33
  {
    assert Scale(Ratio(1, 3), 2) == 100.0 / 3.0;
    assert (100.0 / 3.0).Floor == 33;
    assert RoundInt(100.0 / 3.0) == 33;
    assert Shrink(33.0, 1) == 3.3;
    assert Shrink(33.0, 2) == 0.33;
  }

  // ================================================================ one CV against the market

  /** The score below which `match_cv_market` drops a job when the caller
      passes no threshold. */
  const DefaultMinScore := 40.0

  /** One row of the ranked table: the job's identification, then the match. */
  datatype MarketRow = MarketRow(
    jobTitle: Value, company: Value, location: Value, source: Value, url: Value,
    result: MatchResult)

  /** The row for a job that scored well enough; absent columns read as "". */
  function RowOf(job: map<string, Value>, m: MatchResult): (row: MarketRow)
    ensures row.result == m
    ensures "title" !in job ==> row.jobTitle == VStr("")
    ensures "url" in job ==> row.url == job["url"]
  {
    MarketRow(
      GetOr(job, "title", VStr("")), GetOr(job, "company", VStr("")), GetOr(job, "location", VStr("")),
      GetOr(job, "source", VStr("")), GetOr(job, "url", VStr("")), m)
  }

  /** The sort key: score, then required hard-skill coverage, then description similarity. */
  function RowKey(row: MarketRow): seq<real>
  {
    [row.result.score, row.result.hardRequiredCoverage, row.result.descriptionSimilarity]
  }

  /** The match of the CV against each job, as `match_cv_market` calls it. */
  function Matcher(sim: (string, string) -> real, cv: map<string, Value>, opts: Options)
    : map<string, Value> -> Result<MatchResult>
  {
    job => MatchSpec(sim, cv, job, opts)
  }

  /** The rows of the jobs scoring at least `minScore`, in job order, or the
      error of the first job whose match fails. */
  function Qualifying(jobs: seq<map<string, Value>>, scorer: map<string, Value> -> Result<MatchResult>, minScore: real)
    : Result<seq<MarketRow>>
    decreases |jobs|
  {
    if jobs == [] then Ok([])
    else
      match Qualifying(jobs[..|jobs| - 1], scorer, minScore)
      case Err(e) => Err(e)
      case Ok(rows) =>
        var job := jobs[|jobs| - 1];
        var m := scorer(job);
        if m.Err? then Err(m.error)
        else if m.value.score >= minScore then Ok(rows + [RowOf(job, m.value)])
        else Ok(rows)
  }

  /** What `match_cv_market(cv, df_jobs, ...)` returns: the qualifying rows
      ranked by decreasing key, an empty table when none qualifies. */
  function MarketSpec(sim: (string, string) -> real, cv: map<string, Value>, jobs: seq<map<string, Value>>,
                      opts: Options, minScore: real): Result<seq<MarketRow>>
  {
    match Qualifying(jobs, Matcher(sim, cv, opts), minScore)
    case Err(e) => Err(e)
    case Ok(rows) => if rows == [] then Ok([]) else Ok(SortDesc(rows, RowKey))
  }

  /** Once a prefix of the jobs fails, every longer prefix fails the same way. */
  lemma {:induction false} QualifyingErrSticks(jobs: seq<map<string, Value>>, scorer: map<string, Value> -> Result<MatchResult>,
                                               minScore: real, k: nat, n: nat)
    requires k <= n <= |jobs|
    requires Qualifying(jobs[..k], scorer, minScore).Err?
    ensures Qualifying(jobs[..n], scorer, minScore) == Qualifying(jobs[..k], scorer, minScore)
    decreases n
  {
    if n > k {
      QualifyingErrSticks(jobs, scorer, minScore, k, n - 1);
      assert jobs[..n][..n - 1] == jobs[..n - 1];
    }
  }

  /** One more job, after a prefix that succeeded. */
  lemma QualifyingNext(jobs: seq<map<string, Value>>, scorer: map<string, Value> -> Result<MatchResult>,
                       minScore: real, i: nat, rows: seq<MarketRow>)
    requires i < |jobs| && Qualifying(jobs[..i], scorer, minScore) == Ok(rows)
    ensures scorer(jobs[i]).Err? ==> Qualifying(jobs, scorer, minScore) == Err(scorer(jobs[i]).error)
    ensures scorer(jobs[i]).Ok? ==>
      Qualifying(jobs[..i + 1], scorer, minScore) ==
        if scorer(jobs[i]).value.score >= minScore then Ok(rows + [RowOf(jobs[i], scorer(jobs[i]).value)]) else Ok(rows)
  {
    assert jobs[..i + 1][..i] == jobs[..i];
    if scorer(jobs[i]).Err? {
      QualifyingErrSticks(jobs, scorer, minScore, i + 1, |jobs|);
      assert jobs[..|jobs|] == jobs;
    }
  }

  /** `match_cv_market(cv, df_jobs, ...)` */
  method MatchCvMarket(sim: (string, string) -> real, cv: map<string, Value>, jobs: seq<map<string, Value>>,
                       opts: Options, minScore: real)
    returns (r: Result<seq<MarketRow>>)
    ensures r == MarketSpec(sim, cv, jobs, opts, minScore)
  {
    ghost var scorer := Matcher(sim, cv, opts);
    var results: seq<MarketRow> := [];
    var i := 0;
    while i < |jobs|
      invariant 0 <= i <= |jobs|
      invariant Qualifying(jobs[..i], scorer, minScore) == Ok(results)
    {
      var m := MatchCvJob(sim, cv, jobs[i], opts);
      assert m == scorer(jobs[i]);
      QualifyingNext(jobs, scorer, minScore, i, results);
      if m.Err? {
        return Err(m.error);
      }
      if m.value.score >= minScore {
        results := results + [RowOf(jobs[i], m.value)];
      }
      i := i + 1;
    }
    assert jobs[..i] == jobs;
    if results == [] {
      return Ok([]);
    }
    r := Ok(SortDesc(results, RowKey));
  }

  /** The jobs fail exactly when the match of one of them fails. */
  lemma {:induction false} QualifyingErrors(jobs: seq<map<string, Value>>, scorer: map<string, Value> -> Result<MatchResult>,
                                            minScore: real)
    ensures Qualifying(jobs, scorer, minScore).Err? <==> exists k :: 0 <= k < |jobs| && scorer(jobs[k]).Err?
    decreases |jobs|
  {
    if jobs != [] {
      var init := jobs[..|jobs| - 1];
      QualifyingErrors(init, scorer, minScore);
      if exists k :: 0 <= k < |jobs| && scorer(jobs[k]).Err? {
        var k :| 0 <= k < |jobs| && scorer(jobs[k]).Err?;
        if k < |jobs| - 1 {
          assert scorer(init[k]).Err?;
        }
      }
      if exists k :: 0 <= k < |init| && scorer(init[k]).Err? {
        var k :| 0 <= k < |init| && scorer(init[k]).Err?;
        assert scorer(jobs[k]).Err?;
      }
    }
  }

  /** `match_cv_market` fails exactly when there is at least one job and the
      caller's weights lack a key the score reads; with no jobs it returns an
      empty table whatever the weights. */
  lemma MarketErrors(sim: (string, string) -> real, cv: map<string, Value>,
                     jobs: seq<map<string, Value>>, opts: Options, minScore: real)
    ensures MarketSpec(sim, cv, jobs, opts, minScore).Err? <==>
      jobs != [] && opts.weights.Some? && !HasWeights(opts.weights.value)
    ensures jobs == [] ==> MarketSpec(sim, cv, jobs, opts, minScore) == Ok([])
  {
    var scorer := Matcher(sim, cv, opts);
    var bad := opts.weights.Some? && !HasWeights(opts.weights.value);
    forall job ensures scorer(job).Err? <==> bad {
      MatchErrors(sim, cv, job, opts);
    }
    QualifyingErrors(jobs, scorer, minScore);
    if jobs != [] {
      assert scorer(jobs[0]).Err? <==> bad;
    }
  }

  /** A row qualifies exactly when it is the row of some job whose match
      succeeds with a score of at least `minScore`. */
  lemma {:induction false} QualifyingMembers(jobs: seq<map<string, Value>>, scorer: map<string, Value> -> Result<MatchResult>,
                                             minScore: real)
    requires Qualifying(jobs, scorer, minScore).Ok?
    ensures forall row :: row in Qualifying(jobs, scorer, minScore).value <==>
      exists k :: 0 <= k < |jobs| && Qualifies(jobs[k], scorer, minScore, row)
    decreases |jobs|
  {
    if jobs != [] {
      var init := jobs[..|jobs| - 1];
      QualifyingMembers(init, scorer, minScore);
      forall row ensures row in Qualifying(jobs, scorer, minScore).value <==>
        exists k :: 0 <= k < |jobs| && Qualifies(jobs[k], scorer, minScore, row)
      {
        if exists k :: 0 <= k < |jobs| && Qualifies(jobs[k], scorer, minScore, row) {
          var k :| 0 <= k < |jobs| && Qualifies(jobs[k], scorer, minScore, row);
          if k < |jobs| - 1 {
            assert Qualifies(init[k], scorer, minScore, row);
          }
        }
        if exists k :: 0 <= k < |init| && Qualifies(init[k], scorer, minScore, row) {
          var k :| 0 <= k < |init| && Qualifies(init[k], scorer, minScore, row);
          assert Qualifies(jobs[k], scorer, minScore, row);
        }
      }
    }
  }

  /** `row` is the row of `job`, whose match succeeds with a score of at least `minScore`. */
  predicate Qualifies(job: map<string, Value>, scorer: map<string, Value> -> Result<MatchResult>, minScore: real, row: MarketRow)
  {
    scorer(job).Ok? && scorer(job).value.score >= minScore && row == RowOf(job, scorer(job).value)
  }

  /** The ranked table holds exactly the qualifying rows, each as often as
      the jobs produce it, ordered by decreasing score, then hard-required
      coverage, then description similarity; in particular scores never
      increase down the table, and none is below `minScore`. */
  lemma MarketRanked(sim: (string, string) -> real, cv: map<string, Value>,
                     jobs: seq<map<string, Value>>, opts: Options, minScore: real)
    requires MarketSpec(sim, cv, jobs, opts, minScore).Ok?
    ensures var rows := MarketSpec(sim, cv, jobs, opts, minScore).value;
      && multiset(rows) == multiset(Qualifying(jobs, Matcher(sim, cv, opts), minScore).value)
      && SortedDesc(rows, RowKey)
      && (forall i, j :: 0 <= i < j < |rows| ==> rows[j].result.score <= rows[i].result.score)
      && (forall row :: row in rows <==>
            exists k :: 0 <= k < |jobs| && Qualifies(jobs[k], Matcher(sim, cv, opts), minScore, row))
  {
    var scorer := Matcher(sim, cv, opts);
    var q := Qualifying(jobs, scorer, minScore).value;
    var rows := MarketSpec(sim, cv, jobs, opts, minScore).value;
    QualifyingMembers(jobs, scorer, minScore);
    PermutationMembers(rows, q);
    forall i, j | 0 <= i < j < |rows| ensures rows[j].result.score <= rows[i].result.score {
      assert KeyLe(RowKey(rows[j]), RowKey(rows[i]));
    }
  }
}
