# Job market explorer: a verified model of the analysis core

The job market explorer collects job offers from two sources. France Travail
is a public job-search API. Welcome to the Jungle is a job board the tool
scrapes. The explorer maps both into one schema of offers and analyses them:
- it counts hard and soft skills and detects emerging ones;
- it reads salary mentions;
- it groups job titles related to a query;
- it scores a CV against one offer or against the whole market.

This project models, in Dafny, the parts of that system that compute:
- the CV/job matching engine, in its later (`analysis/matching.py`) and earlier
  (`analysis/cv_matching.py`, `analysis/semantic_matching.py`) versions;
- the preprocessing that merges both sources into the common schema;
- the skill frequency tables;
- the salary analysis;
- the related-title search;
- the pure helpers of the Welcome to the Jungle scraper:
  - contract normalisation;
  - the location, contract and experience filters;
  - reading years of experience from a job posting's metadata;
  - deduplication by link;
  - the filter pass over the collected table.

Each operation is proved against a specification: a function whose
properties are stated as lemmas, or a contract of its own. Each entry in the
table below names the member whose contract carries a property the source
promises. The few contracts stated weaker than the source are listed under
"Left out".

Modules:
- `Values`: Python's dynamic values (None, booleans, numbers, strings, lists,
  dictionaries), `Option`, `Result`, and the exceptions the code raises
  (`KeyError`, `AttributeError`, `TypeError`, `ValueError`).
- `Text`: `str.lower`/`upper`/`strip`, `re.sub(r"\s+", " ", ·)`, substring
  search, digit runs, `str(n)` for naturals, string order and `sorted(set(·))`.
- `Rounding`: Python's `round(x, n)` on exact reals (half to even).
- `Ranking`: `sort_values(..., ascending=False)` as a sort by a lexicographic
  key, proved sorted and a permutation. It also holds `head(n)` and the
  first-seen order of the keys of a `Counter` or dictionary.
- `Matching`, `CvMatching`, `SemanticMatching`, `Preprocessing`, `Skills`,
  `Salary`, `CollectWttj`, `JobTitles`: one module per source file.

Three things the code depends on are given to the model from outside:
- The sentence-embedding model becomes a similarity oracle `sim(a, b): real`,
  passed as a parameter.
- Python's `float(string)` becomes a parameter `parseFloat`.
- A DataFrame becomes a `Table`: a list of columns and a list of rows, each row
  a map from column names to values.

Two error paths of the matchers are modelled as the code has them:
- The later matcher reads all five weight keys with `weights[...]`
  (`analysis/matching.py:234-240`), so a weight set naming only
  `hard_required` raises `KeyError`. This is modelled in
  `Matching.MissingWeight` and `Matching.MatchErrors`.
- The earlier matcher calls `.lower()` on every list item
  (`analysis/cv_matching.py:11`), so a non-string item raises
  `AttributeError` (`CvMatching.MatchErrors`).

## Model

| member | source | states |
|---|---|---|
| Matching.NormStr | analysis/matching.py:29-35 | the normal form of a string is lower case, trimmed and single-spaced, never longer than the input, and empty exactly when the input is all whitespace |
| Matching.NormText | analysis/matching.py:29-35 | anything but a string normalises to ""; a string normalises as above |
| Matching.NormalIsFixed | analysis/matching.py:29-35 | a string already in normal form is left unchanged |
| Matching.NormTextIdempotent | analysis/matching.py:29-35 | `norm_text` is idempotent |
| Matching.NormItems | analysis/matching.py:88-89 | the comprehension keeps at most as many items as it is given, each non-empty and in normal form |
| Matching.NormItemsMembers | analysis/matching.py:38-48 | a string is kept exactly when it is the non-empty normal form of some string item |
| Matching.NormItemsConcat | analysis/matching.py:43-48 | normalising a concatenation concatenates the normalised parts, so input order is kept |
| Matching.NormItemsOfNormal | analysis/matching.py:38-48 | a list of non-empty normal strings comes back unchanged |
| Matching.NormItemsIdempotent | analysis/matching.py:38-48 | `norm_list` is idempotent |
| Matching.NormListOf | analysis/matching.py:38-41 | anything but a list gives []; the result is a list of non-empty normal strings |
| Matching.NormListMembers | analysis/matching.py:38-48 | for a list, the members of `norm_list` are exactly the non-empty normal forms of its items |
| Matching.NormList | analysis/matching.py:38-48 | the loop computes `NormListOf` |
| Matching.ToSet | analysis/matching.py:51-52 | the set holds exactly the non-empty normal forms of a list's items; anything but a list gives the empty set |
| Matching.Coverage | analysis/matching.py:55-59 | an empty requirement is fully covered; coverage lies in [0, 1], is 1 exactly when the CV holds every job item, and is 0 exactly when a non-empty job shares nothing with the CV |
| Matching.MaxSim | analysis/matching.py:104 | the best similarity bounds every CV item's similarity and is reached by one |
| Matching.MatchesIff | analysis/matching.py:104 | a job item is matched exactly when some CV item is at least `threshold` similar to it |
| Matching.KeptDroppedMembers | analysis/matching.py:102-107 | the matched list holds exactly the job items that are matched, and the missing list the others |
| Matching.KeptDroppedPartition | analysis/matching.py:102-107 | matched and missing split the job list as multisets, duplicates included |
| Matching.KeptConcat | analysis/matching.py:103-105 | the matched items keep the job order |
| Matching.DroppedConcat | analysis/matching.py:106-107 | the missing items keep the job order |
| Matching.OverlapOf | analysis/matching.py:91-110 | no job items: nothing matched or missing and coverage 1.0; no CV items: everything missing and coverage 0.0; coverage in [0, 1]; matched and missing partition the job items |
| Matching.OverlapSplit | analysis/matching.py:97-110 | with both lists non-empty, an item is matched exactly when some CV item is similar enough; otherwise it is missing; coverage is the share of matched items rounded to 2 digits |
| Matching.OverlapOfNormal | analysis/matching.py:88-89 | already normalised lists reach the split unchanged |
| Matching.Split | analysis/matching.py:102-107 | the loop builds exactly the matched and the missing lists |
| Matching.SemanticOverlap | analysis/matching.py:79-110 | the method returns the normalise-then-split result characterised by `OverlapOf` and `OverlapSplit` |
| Matching.SimilarityTextCases | analysis/matching.py:113-131 | a blank CV or job text gives 0.0 without consulting the model; the result stays in [-1, 1], or in [0, 1], whenever the oracle does |
| Matching.MissingWeight | analysis/matching.py:234-240 | no key is reported exactly when all five weights the sum reads are present; a reported key is absent from the weights |
| Matching.TotalBounds | analysis/matching.py:234-240 | with non-negative weights and parts in [0, 1], the weighted sum lies between 0 and the sum of the weights |
| Matching.Without | analysis/matching.py:243-247 | the exact missing items are exactly the job items the CV lacks |
| Matching.ReadCvJob | analysis/matching.py:173-195 | the method reads the normalised CV and job inputs |
| Matching.Fallback | analysis/matching.py:204-226 | one category's coverage: the semantic one replaces the exact one only when the fallback runs |
| Matching.ScoreParts | analysis/matching.py:197-231 | the method computes the five sub-scores |
| Matching.MatchCvJob | analysis/matching.py:137-279 | the method returns the match result, or the KeyError of a missing weight |
| Matching.FallbackPolicy | analysis/matching.py:212-226 | the semantic fallback runs for a category exactly when it is enabled and the exact coverage is below 1 |
| Matching.CategoryOutcome | analysis/matching.py:198-226 | per category: coverage in [0, 1]; missing list sorted without repeats; without fallback both are exact; with fallback and an empty CV everything is missing; otherwise missing means no CV item is similar enough |
| Matching.MatchErrors | analysis/matching.py:164-171 | `match_cv_job` fails exactly when the caller's weights lack a key the score reads, and the error names such a key |
| Matching.ScoreBounds | analysis/matching.py:234-258 | with non-negative weights and parts in [0, 1], the score lies between 0 and 100 times the sum of the weights |
| Matching.SubscoresRange | analysis/matching.py:197-231 | each coverage lies in [0, 1]; soft coverage is always exact; description similarity is 0 when disabled and in [0, 1] when the oracle is |
| Matching.ReadInputsNormal | analysis/matching.py:174-189 | every list read from the CV and the job is a list of non-empty normal strings |
| Matching.DefaultScoreBounds | analysis/matching.py:164-171 | with the default weights, parts in [0, 1] give a score in [0, 100] |
| Matching.AssembleScore | analysis/matching.py:256-258 | with every weight present the result is built and carries the score |
| Matching.ScoreInRange | analysis/matching.py:137-279 | with default weights, and the oracle in [0, 1] whenever description similarity is on, the match succeeds with a score in [0, 100] |
| Matching.MissingListsExact | analysis/matching.py:243-272 | every missing list is sorted without repeats; soft and optional-language lists are the exact set differences; so are the other three when the fallback is off |
| Matching.FallbackCountsRepeats | analysis/matching.py:214-216 | the exact coverage counts distinct job items while the fallback counts repeats, so for ["python"] against ["python","sql","sql"] they give 0.5 and 0.33 |
| Matching.RowOf | analysis/matching.py:312-319 | a market row carries the match result, with "" for an absent title and the job's own url when present |
| Matching.QualifyingErrSticks | analysis/matching.py:301-309 | once matching a job fails, the whole loop fails with that error |
| Matching.QualifyingNext | analysis/matching.py:301-319 | one loop step: a failing match ends the loop with its error; a good enough score appends the job's row |
| Matching.MatchCvMarket | analysis/matching.py:285-328 | the method returns the qualifying rows ranked by score, required coverage and description similarity; an empty table when nothing qualifies |
| Matching.QualifyingErrors | analysis/matching.py:301-309 | the loop fails exactly when matching some job fails |
| Matching.MarketErrors | analysis/matching.py:299-322 | the market match fails exactly when there is a job and the weights lack a key; with no jobs it is an empty table |
| Matching.QualifyingMembers | analysis/matching.py:311-319 | a row is collected exactly when it is the row of a job whose match succeeds with a score of at least `min_score` |
| Matching.MarketRanked | analysis/matching.py:321-328 | the ranked table is a permutation of the qualifying rows, ordered by decreasing score, then hard-required coverage, then description similarity; none is below `min_score` |
| CvMatching.LowerSetMembers | analysis/cv_matching.py:10-11 | a list fails with AttributeError exactly when it holds a non-string; otherwise its set holds exactly the lower-cased items |
| CvMatching.ToSet | analysis/cv_matching.py:8-12 | anything but a list gives the empty set; a list gives its lower-cased set or fails |
| CvMatching.MissingWeight | analysis/cv_matching.py:61-66 | no key is reported exactly when all four weights are present; a reported key is absent |
| CvMatching.TotalBounds | analysis/cv_matching.py:61-66 | with non-negative weights and parts in [0, 1], the sum lies between 0 and the sum of the weights |
| CvMatching.ToSetFails | analysis/cv_matching.py:8-12 | reading a field fails exactly when it is a list holding a non-string |
| CvMatching.MatchErrors | analysis/cv_matching.py:25-81 | `match_cv_job` raises AttributeError exactly when one of the seven lists holds a non-string; otherwise it raises KeyError exactly when the caller's weights lack a key |
| CvMatching.ToSetMembers | analysis/cv_matching.py:8-12 | the set of a field holds exactly the lower-cased strings of its list |
| CvMatching.MatchMissing | analysis/cv_matching.py:55-81 | a skill is missing exactly when the job names it (up to case) and the CV does not; a category with nothing missing has coverage 1; all coverages lie in [0, 1] |
| CvMatching.CoverageRounded | analysis/cv_matching.py:77-80 | a rounded coverage stays in [0, 1] and is 1 when nothing is missing |
| CvMatching.AssembleInRange | analysis/cv_matching.py:35-69 | with the default weights, any sets give a result with a score in [0, 100] |
| CvMatching.ScoreInRange | analysis/cv_matching.py:25-81 | with the default weights a successful match scores in [0, 100] |
| CvMatching.RowOf | analysis/cv_matching.py:102-109 | a row carries the match, with None for an absent title |
| CvMatching.NoJobsFails | analysis/cv_matching.py:111-115 | the market match as written raises KeyError("score") when there are no jobs |
| CvMatching.NoQualifyingJobFails | analysis/cv_matching.py:101-115 | it raises the same when the only job scores below the threshold |
| CvMatching.QualifyingErrSticks | analysis/cv_matching.py:98-99 | once matching a job fails, the whole loop fails with that error |
| CvMatching.QualifyingNext | analysis/cv_matching.py:98-109 | one loop step: a failing match ends the loop; a good enough score appends the row |
| CvMatching.MatchCvMarket | analysis/cv_matching.py:87-115 | the method returns the corrected market table, which is empty when nothing qualifies |
| CvMatching.QualifyingMembers | analysis/cv_matching.py:101-109 | a row is collected exactly when it is the row of a job whose match succeeds with a score of at least `min_score` |
| CvMatching.MarketRanked | analysis/cv_matching.py:111-115 | the corrected table is a permutation of the qualifying rows with scores never increasing; with no jobs it is empty |
| CvMatching.MarketAgrees | analysis/cv_matching.py:111-115 | the corrected and the as-written versions differ only where the latter raises KeyError("score") and the former returns an empty table |
| SemanticMatching.LegacyOverlap | analysis/semantic_matching.py:21-58 | an empty CV or job list gives everything missing and coverage 0.0; coverage in [0, 1]; matched and missing partition the job skills |
| SemanticMatching.SemanticOverlap | analysis/semantic_matching.py:42-58 | the method computes `LegacyOverlap` |
| SemanticMatching.LegacySplit | analysis/semantic_matching.py:37-58 | with both lists non-empty, matched and missing are split by the threshold, coverage is the rounded share, and the result equals the later version's |
| SemanticMatching.EmptyJobPolicies | analysis/semantic_matching.py:30-35 | a job asking for nothing gets coverage 0.0 here but 1.0 in the later matcher |
| Preprocessing.SafeList | data/preprocessing.py:6-8 | a list is kept; anything else becomes [] |
| Preprocessing.Labels | data/preprocessing.py:18-19 | only AttributeError can be raised; the labels are no more than the items |
| Preprocessing.LabelsMembers | data/preprocessing.py:18-19 | failure exactly when an item is not a dictionary; otherwise a label is kept exactly when some item at that level carries it |
| Preprocessing.LabelsConcat | data/preprocessing.py:18-19 | labels of a concatenation are the labels of the parts, in order |
| Preprocessing.ExtractRequiredOptional | data/preprocessing.py:11-21 | anything but a list gives two empty lists; the only error is AttributeError |
| Preprocessing.SplitCount | data/preprocessing.py:18-19 | no item is both required and optional, so the two lists together are no longer than the input |
| Preprocessing.ExtractCases | data/preprocessing.py:11-21 | for a list: AttributeError exactly when an item is not a dictionary; otherwise the "E" labels and the "S" labels, exactly |
| Preprocessing.PreprocessWttj | data/preprocessing.py:27-63 | one record per row, each the row's mapping, or AttributeError when a list column is absent |
| Preprocessing.WttjOfferShape | data/preprocessing.py:33-63 | a record has no optional skills and no required languages; its required skills are the techniques then the savoir-faire; its id reads back as the row index |
| Preprocessing.SoftLabels | data/preprocessing.py:108-110 | anything but a list gives []; the only error is AttributeError |
| Preprocessing.AllLabels | data/preprocessing.py:109 | failure exactly when an item is not a dictionary; otherwise each item's `libelle`, in order |
| Preprocessing.FtSpec | data/preprocessing.py:69-118 | the only error is AttributeError |
| Preprocessing.SoftColumn | data/preprocessing.py:108-110 | failure exactly when some row's qualities fail; otherwise one label list per row |
| Preprocessing.PreprocessFt | data/preprocessing.py:69-118 | the loop and the column mapping produce `FtSpec` |
| Preprocessing.Filled | data/preprocessing.py:151 | a filled cell is never missing and a present cell is unchanged |
| Preprocessing.FillTextColumns | data/preprocessing.py:146-151 | the cleaning loop fills each text column once and changes nothing else |
| Preprocessing.TextColumnsFilled | data/preprocessing.py:146-151 | after the cleaning no text column is missing |
| Preprocessing.FillTable | data/preprocessing.py:151 | one column of every record is filled |
| Preprocessing.MergeSources | data/preprocessing.py:124-153 | the method computes the merge characterised by `MergeShape` |
| Preprocessing.FillText | data/preprocessing.py:146-151 | the loop fills the text columns of every record |
| Preprocessing.MergeShape | data/preprocessing.py:132-153 | no usable input gives an empty table; otherwise the Welcome to the Jungle records, then the France Travail ones, one per row and each with its text filled |
| Skills.KeptItems | analysis/skills.py:16-17 | an item is kept exactly when it is not None, "" or " " |
| Skills.Flatten | analysis/skills.py:8-11 | anything but a list flattens to [] |
| Skills.FlattenMembers | analysis/skills.py:12-18 | an item survives exactly when it is not a placeholder and sits in a sublist that is a list |
| Skills.FlattenConcat | analysis/skills.py:12-18 | flattening keeps the order of the sublists |
| Skills.SafePct | analysis/skills.py:21-25 | no jobs give 0.0; the percentage is never negative and at most 100 when the count is at most the total |
| Skills.SafePctMonotone | analysis/skills.py:21-25 | more occurrences never give a smaller percentage |
| Skills.CountTableRows | analysis/skills.py:105-117 | a frequency table is ranked by percentage and has exactly one row per distinct skill, with its count and percentage |
| Skills.CountTableSum | analysis/skills.py:100-112 | the counts of a frequency table add up to the number of flattened skills |
| Skills.Column | analysis/skills.py:50 | a column is read exactly when it exists; otherwise AttributeError |
| Skills.FlatColumn | analysis/skills.py:50-51 | flattening a column fails exactly when it is absent |
| Skills.Occurrences | analysis/skills.py:99-100 | a counted column holds only hashable skills |
| Skills.HardInputs | analysis/skills.py:50-54 | both counted columns hold only hashable skills |
| Skills.HardRecords | analysis/skills.py:56-69 | the loop builds one row per skill that is required or optional, each with its counts and percentages |
| Skills.AnalyzeHardSkillsFt | analysis/skills.py:32-86 | no jobs give an empty table; otherwise a column error, or a hard-skill table ranked by required then optional percentage with one correct row per skill |
| Skills.SortedHardTable | analysis/skills.py:82-86 | ranking the records keeps one correct row per skill |
| Skills.SoftSkillsFt | analysis/skills.py:95-97 | no jobs give an empty table |
| Skills.InRange | analysis/skills.py:135-138 | a row is kept exactly when its required percentage lies in [min, max] |
| Skills.EmergingSpec | analysis/skills.py:121-141 | the emerging skills are the rows within [min, max], each kept as often as it came, ranked by required percentage |
| Skills.AnalyzeSkillsFt | analysis/skills.py:144-157 | the soft table is the soft analysis; the emerging table is computed from the hard table; the hard table is as above; failure exactly when a column read fails |
| Skills.SkillsWttj | analysis/skills.py:170-177 | no jobs give two empty tables |
| Skills.WttjHardCounts | analysis/skills.py:180-192 | the hard counts add up to the flattened required skills, and a skill has a row exactly when it is required somewhere |
| Salary.ReplaceNbsp | analysis/salary.py:13 | each non-breaking space becomes a plain space and nothing else changes |
| Salary.NormalizeText | analysis/salary.py:9-15 | a non-string gives ""; the result is lower case, single-spaced and trimmed |
| Salary.NormalizeIdempotent | analysis/salary.py:9-15 | normalising twice is normalising once |
| Salary.Numbers | analysis/salary.py:24-25 | every number found is non-negative |
| Salary.NumbersEmpty | analysis/salary.py:21-25 | no number is found exactly when the text has no digit |
| Salary.DetectUnit | analysis/salary.py:28-33 | hourly exactly when "horaire" or "/h" occurs; monthly exactly when not hourly and "mois" or "mensuel" occurs; annual otherwise |
| Salary.ToAnnualScales | analysis/salary.py:36-41 | annualising multiplies by 1, 12 or 151.67 × 12, so it keeps the order of amounts and never shrinks a non-negative one |
| Salary.ParseSalaryRange | analysis/salary.py:44-60 | both ends or neither; neither exactly when the text has no digit; otherwise both ends are annualised numbers of the text and every annualised number of the text lies between them, so they are the annualised minimum and maximum |
| Salary.ParseNormalised | analysis/salary.py:44-45 | parsing a normalised text gives the same as parsing the original |
| Salary.HasSalaryGrows | analysis/salary.py:66-81 | a text containing a text that reveals a salary reveals one too |
| Salary.EurosRecognised | analysis/salary.py:74-81 | a text holding "eur" in any case ("EUR", "Euros") is recognised as mentioning pay |
| Salary.FtReadings | analysis/salary.py:98-105 | one reading per offer, each with both ends or neither |
| Salary.MedianBetween | analysis/salary.py:114-119 | the median lies between the minimum and the maximum |
| Salary.Apply | analysis/salary.py:98 | `apply` maps every element, in order |
| Salary.FtColumns | analysis/salary.py:98-105 | corrected (see ## Findings): every offer's reading, and every offer with its salary columns added, also for a table with no offer |
| Salary.Tally | analysis/salary.py:105-111 | the count of offers with a salary and the stated ends, low ends first |
| Salary.CountWttj | analysis/salary.py:136-138 | the count of Welcome to the Jungle offers that mention pay |
| Salary.FtAnalysis | analysis/salary.py:97-131 | corrected (see ## Findings): the France Travail branch computes its report, an empty one for a table with no offer |
| Salary.WttjAnalysis | analysis/salary.py:134-150 | the Welcome to the Jungle branch computes its report |
| Salary.AnalyzeSalary | analysis/salary.py:87-153 | corrected (see ## Findings): the method dispatches on the source and returns the report or the error |
| Salary.EmptyFtTableFails | analysis/salary.py:97-131 | as written, a France Travail table with a "salary" column and no offer raises ValueError; corrected, it gives a report of 0 offers, 0 with a salary, 0 percent and an empty distribution |
| Salary.SalaryAgrees | analysis/salary.py:87-153 | the as-written and corrected analyses differ exactly on that empty table |
| Salary.SalaryReport | analysis/salary.py:87-153 | corrected (see ## Findings): failure exactly for an unknown source (ValueError) or a table without "salary"; a report counts at most all offers; its share lies in [0, 100] and is 0 with no offers; it keeps one row per offer; min ≤ median ≤ max; a France Travail distribution is empty exactly when no offer states a salary |
| CollectWttj.NormalizeContract | data/collect_wtj.py:53-61 | the category is one of four, chosen by the first group of words found in the upper-cased, stripped text: internship, then fixed-term, then permanent |
| CollectWttj.NormalizeContractIdempotent | data/collect_wtj.py:53-61 | normalising a category gives it back |
| CollectWttj.AnyHit | data/collect_wtj.py:90 | true exactly when some non-blank filter occurs in the lower-cased location |
| CollectWttj.LocationMatch | data/collect_wtj.py:86-90 | no filters accept everything; otherwise a location matches exactly when some non-blank filter, lower-cased and stripped, occurs in it |
| CollectWttj.LocationIgnoresCase | data/collect_wtj.py:86-90 | the location test ignores case on both sides |
| CollectWttj.BlankFiltersRejectAll | data/collect_wtj.py:86-90 | a list of blank filters rejects every offer |
| CollectWttj.MoreFiltersMatchMore | data/collect_wtj.py:86-90 | adding filters never rejects an offer that matched |
| CollectWttj.ContractMatch | data/collect_wtj.py:93-97 | no filter accepts everything; otherwise a contract matches exactly when some allowed value, upper-cased and stripped, equals it |
| CollectWttj.ContractFilterOnCategory | data/collect_wtj.py:93-97 | on a normalised contract the filter accepts exactly the offers whose category is allowed, and a filter naming no category rejects every offer |
| CollectWttj.ExperienceMatch | data/collect_wtj.py:100-109 | unknown experience matches exactly when no bound is set; known experience matches exactly when it lies within the bounds set |
| CollectWttj.ExperienceWiden | data/collect_wtj.py:100-109 | widening the range never rejects a match, and a bounded range accepts only known experience |
| CollectWttj.ToFloat | data/collect_wtj.py:70 | a number converts to itself; a list, a dictionary or None does not convert |
| CollectWttj.MonthsYears | data/collect_wtj.py:65-72 | stated months give the nearest whole number of years |
| CollectWttj.FindYears | data/collect_wtj.py:77 | `re.search` returns the leftmost place where the pattern matches, or none when it matches nowhere |
| CollectWttj.TextYears | data/collect_wtj.py:74-82 | a number of years is found exactly when the text is a string whose lower-cased form contains the pattern, and it is non-negative |
| CollectWttj.ExtractExperienceYears | data/collect_wtj.py:64-83 | months win; then the requirements text; then the description; no years exactly when all three give nothing |
| CollectWttj.YearsPhrase | data/collect_wtj.py:74-82 | a lower-case text holding "N ans" after a digit-free start reads as N years |
| CollectWttj.ExperienceLabelYears | data/collect_wtj.py:272-273 | a consistency illustration: the label "N ans d’expérience" stored beside the years reads as N years under the same "N ans" pattern (no code reads the label again) |
| CollectWttj.LinkIndex | data/collect_wtj.py:203 | the dictionary's keys are the distinct links, in the order each is first seen (`FirstSeenOrder`) |
| CollectWttj.LinkIndexLast | data/collect_wtj.py:203 | each link maps to the last card scraped with it |
| CollectWttj.UniqueJobs | data/collect_wtj.py:203 | one card per distinct link, each the last card with that link, the links in the order each is first seen (`FirstSeenOrder`) |
| CollectWttj.UniqueJobsShape | data/collect_wtj.py:203 | links are distinct, every scraped link is kept, every card kept was scraped, and the links come in first-seen order |
| CollectWttj.Filter | data/collect_wtj.py:300-312 | an offer is kept exactly when all three tests accept it |
| CollectWttj.FilterConcat | data/collect_wtj.py:300-312 | filtering keeps the order of the table |
| CollectWttj.FilterIdempotent | data/collect_wtj.py:300-312 | filtering twice is filtering once |
| CollectWttj.Mask | data/collect_wtj.py:300-310 | corrected (see ## Findings): the mask holds, per offer, whether all three tests accept the offer's scraped values |
| CollectWttj.ApplyFilters | data/collect_wtj.py:296-312 | corrected (see ## Findings): the filter pass keeps exactly the offers `Filter` keeps |
| CollectWttj.ExperienceMatchCell | data/collect_wtj.py:305-309 | a NaN cell passes any bounds; other cells are tested as the value they hold |
| CollectWttj.MaskAsWritten | data/collect_wtj.py:300-310 | the mask read from the table's cells has one entry per offer |
| CollectWttj.UnknownExperienceSlipsThrough | data/collect_wtj.py:300-312 | with a minimum of 2 years, an offer of unknown experience next to one of 3 years is kept by the mask as written, though `_experience_match` rejects it |
| CollectWttj.MaskOnValues | data/collect_wtj.py:300-310 | read as the scraped values, the mask is exactly the filter |
| JobTitles.Close | analysis/job_titles.py:22 | the lazy `.*?\)` ends at the first `)`, with no line break before it |
| JobTitles.RemoveParens | analysis/job_titles.py:22 | removing spans never lengthens the text or adds a character |
| JobTitles.KeepLetters | analysis/job_titles.py:23 | each character that is neither a title letter nor whitespace becomes a space |
| JobTitles.RemoveParensComplete | analysis/job_titles.py:22 | after the substitution no closed span is left |
| JobTitles.RemoveParensNone | analysis/job_titles.py:22 | a text without "(" is unchanged |
| JobTitles.NormalizeTitle | analysis/job_titles.py:18-25 | a non-string gives ""; a cleaned title is lower case, trimmed and single-spaced, made of title letters and spaces |
| JobTitles.NormalizeTitleIdempotent | analysis/job_titles.py:18-25 | cleaning a cleaned title changes nothing |
| JobTitles.CandidatesMember | analysis/job_titles.py:71-78 | a row is collected exactly when its title is a wanted distinct title and the row carries its rounded similarity and count |
| JobTitles.CandidatesDistinct | analysis/job_titles.py:57-78 | the collected rows have distinct titles |
| JobTitles.CleanTitles | analysis/job_titles.py:53-54 | KeyError exactly when there is no "title" column; otherwise each row's cleaned title, in order |
| JobTitles.NoneWanted | analysis/job_titles.py:71-78 | no wanted title gives no rows |
| JobTitles.NothingRelatedFails | analysis/job_titles.py:80-88 | when titles exist but none is similar enough, the search as written raises KeyError("similarity"), where the corrected one returns an empty table |
| JobTitles.NothingRelatedAtDefault | analysis/job_titles.py:35-88 | for example, with the default threshold 0.7 and a similarity that is always 0 |
| JobTitles.RelatedAgrees | analysis/job_titles.py:59-88 | the two versions differ only where the one as written fails |
| JobTitles.CollectRows | analysis/job_titles.py:71-78 | the loop collects exactly the wanted rows, in first-seen order |
| JobTitles.FindRelatedJobTitles | analysis/job_titles.py:35-88 | the method returns the corrected search |
| JobTitles.RankedTop | analysis/job_titles.py:80-88 | the kept rows are ranked and come from the collected ones; each row left out ranks at or below every kept row |
| JobTitles.RelatedShape | analysis/job_titles.py:35-88 | with a "title" column the search succeeds, with these properties: empty for no rows; ranked; at most `top_n` rows; distinct titles; each a wanted cleaned title with its similarity and count; no wanted title left out that ranks above a kept one; when fewer than `top_n` rows come back, every wanted title is among them |
| Text.Lower | analysis/matching.py:33 | `lower` maps each character and keeps the length |
| Text.Strip | analysis/matching.py:33 | the stripped string neither starts nor ends with whitespace |
| Text.StripEmpty | analysis/matching.py:33 | stripping leaves nothing exactly when the string is all whitespace |
| Text.CollapseSpacing | analysis/matching.py:34 | after collapsing, whitespace is single plain spaces |
| Text.CollapseSingleSpaced | analysis/matching.py:34 | collapsing a single-spaced string changes nothing |
| Text.DecimalValue | data/collect_wtj.py:80 | reading back the digits of `str(n)` gives `n` |
| Text.SortedSet | analysis/matching.py:268-272 | `sorted(set(xs))` is strictly increasing and holds exactly the elements of xs |
| Text.StrictlySortedUnique | analysis/matching.py:268-272 | two strictly sorted lists with the same elements are equal |
| Rounding.RoundInt | analysis/salary.py:116-118 | the nearest integer: the floor or the next integer, never more than one half away, and the even one on a tie |
| Rounding.RoundMonotone | analysis/skills.py:25 | rounding keeps the order of values |
| Rounding.RoundWithin | analysis/skills.py:25 | a value between two whole numbers rounds to a value between them |
| Rounding.RoundIdempotent | analysis/matching.py:216 | rounding an already rounded coverage again changes nothing |
| Rounding.Ratio | analysis/matching.py:59 | a share of counts lies in [0, 1], is 1 exactly for all and 0 exactly for none |
| Ranking.SortDesc | analysis/skills.py:84 | the sorted table is ranked by decreasing key and is a permutation of the table |
| Ranking.Dedupe | analysis/job_titles.py:57-59 | each value once, no value lost, in the order of first occurrence: every prefix of the list that holds a value holds every value listed before it |
| Ranking.Head | analysis/job_titles.py:86 | `head(n)` is the prefix of length n, or of length `len + n` for a negative n |
| Ranking.HeadTop | analysis/job_titles.py:80-86 | `head(n)` of a ranked table drops only rows ranking at or below every row it keeps |
| Values.Get | analysis/matching.py:174 | `d.get(key)` is the field, or None when absent |

## Left out

- The sentence-embedding model, cosine similarity and float arithmetic are left out. Similarity is an oracle function, and real numbers are exact. `round` is modelled exactly: half to even, with no binary floating-point error.
- The text model leaves out Unicode. `lower`/`upper`, `\s`, `\d` and `\w` cover ASCII and the Latin-1 letters the title pattern names. Unicode case mapping and Unicode digits are not modelled.
- `float(string)` is a parameter (`parseFloat`), not a parser.
- All of Selenium and the network are left out:
  - `create_driver`;
  - the listing and detail page loops;
  - `_build_url_with_query`;
  - pagination;
  - progress callbacks;
  - reading JSON-LD from a page.
  The scraper's pure helpers, its deduplication and its filter pass are modelled.
- DataFrame index labels, column dtypes and `reset_index` are left out. A table is a list of rows.
- Sort stability is not modelled. Rows with equal keys may come in any order, and the model proves only that the table is ranked and a permutation.
- The order in which a Python set is visited is left out: the hard-skill loop (`analysis/skills.py:59`) and `list(job_req - cv_hard)` (`analysis/cv_matching.py:72-75`). Those results are sets or unordered.
- Python's `1 == True` equality between numbers and booleans, which merges them as dictionary and Counter keys, is not modelled.
- `geography.py`, `app.py`, `collect_ft.py`, `ft_auth.py` and `build_dataset.py` are not part of this model.
- CvMatching.RowOf, Matching.RowOf: these state only the result, the title and the url. The other columns (company, location, source) are copied the same way and are not restated.
- Salary.Numbers: states only that the numbers are non-negative. Which substrings are read is captured by `NumbersEmpty` and `ParseSalaryRange`, not by a full regex model.
- Preprocessing.FtSpec: states only that its one error is AttributeError. Its record shape is stated by `MergeShape`.
- Skills.SoftSkillsFt, Skills.SkillsWttj: state only the empty-table case. The table contents follow from `Skills.CountTableRows`.
- CollectWttj.MonthsYears: bounds the result within one half of the exact months / 12. It does not fix which side a tie rounds to.

## Findings

| source | as written | input that shows it | evidently intended | confidence | as-written member | corrected member |
|---|---|---|---|---|---|---|
| analysis/cv_matching.py:111-115 | `pd.DataFrame(results).sort_values("score")` with no results sorts a table without a "score" column, which raises KeyError | no jobs at all, or one job scoring below `min_score` | an empty table, as the later matcher returns (`analysis/matching.py:321-322`) | not executed | CvMatching.NoQualifyingJobFails | CvMatching.MarketRanked |
| data/collect_wtj.py:300-312 | the experience test reads `experience_years` back from the DataFrame. A column holding ints and None stores None as NaN, NaN is not None, and every comparison with NaN is false, so an offer of unknown experience passes any bounds | `min_experience_years=2`, one offer with 3 years and one with unknown experience | `_experience_match` rejects unknown experience when a bound is set, so that offer should be dropped | not executed | CollectWttj.UnknownExperienceSlipsThrough | CollectWttj.ApplyFilters |
| analysis/salary.py:100-103 | on an empty table, `.apply` returns an empty Series, not a two-column frame; assigning it to `df[["salary_min", "salary_max"]]` raises ValueError ("Columns must be same length as key", as pandas 1.5 and later do) | `analyze_salary` of a France Travail table with a "salary" column and no row | a report of 0 offers and 0 percent, as the guard `if total_offres else 0` (`analysis/salary.py:127-128`) provides for | not executed | Salary.EmptyFtTableFails | Salary.SalaryReport |
| analysis/job_titles.py:80-88 | when no title is wanted, `pd.DataFrame([]).sort_values(["similarity", "nb_offres"])` raises KeyError | a table of titles none of which reaches `min_similarity` (e.g. similarity 0 with the default 0.7) | an empty table, as for a table without titles (`analysis/job_titles.py:61-62`) | not executed | JobTitles.NothingRelatedFails | JobTitles.RelatedShape |
