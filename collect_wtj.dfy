/** The pure helpers of the Welcome to the Jungle scraper: the contract
    normaliser, the three filter predicates applied to every scraped offer,
    the reader of required experience, the dedupe of listing cards by link
    and the filter pass over the scraped table. The browser session, the
    page waits and the JSON-LD scraping are outside the model; a scraped
    offer arrives as a `Posting` and a JSON-LD document as a map of values. */
module CollectWttj {
  import opened Values
  import opened Text
  import opened Rounding
  import opened Ranking

  // ---------------------------------------------------------------- contracts

  /** The four categories an employment type is reduced to. */
  const Categories: set<string> := {"INTERN", "TEMPORAIN", "FULL_TIME", "OTHER"}

  /** `(val or "").upper().strip()` */
  function ContractText(val: Option<string>): string
  {
    Strip(Upper(if val.Some? then val.value else ""))
  }

  predicate InternWord(s: string)
  {
    Contains(s, "INTERN") || Contains(s, "INTERNSHIP") || Contains(s, "STAGE")
  }

  predicate TempWord(s: string)
  {
    Contains(s, "TEMP") || Contains(s, "TEMPORARY") || Contains(s, "CDD") || Contains(s, "CONTRACT")
  }

  predicate FullWord(s: string)
  {
    Contains(s, "FULL") || Contains(s, "CDI")
  }

  /** `_normalize_contract(val)`: the first category whose words occur in the
      upper-cased text, internships before fixed-term before permanent. */
  function NormalizeContract(val: Option<string>): (r: string)
    ensures r in Categories
    ensures var s := ContractText(val);
      && (r == "INTERN" <==> InternWord(s))
      && (r == "TEMPORAIN" <==> !InternWord(s) && TempWord(s))
      && (r == "FULL_TIME" <==> !InternWord(s) && !TempWord(s) && FullWord(s))
      && (r == "OTHER" <==> !InternWord(s) && !TempWord(s) && !FullWord(s))
  {
    var s := ContractText(val);
    if InternWord(s) then "INTERN"
    else if TempWord(s) then "TEMPORAIN"
    else if FullWord(s) then "FULL_TIME"
    else "OTHER"
  }

  /** A pattern does not occur when, at every place it could start, its
      `j`-th character differs from the text. */
  lemma {:induction false} Absent(s: string, pat: string, j: nat)
    requires j < |pat|
    requires forall i :: j <= i && i - j + |pat| <= |s| ==> s[i] != pat[j]
    ensures !Contains(s, pat)
    decreases |s|
  {
    if |pat| <= |s| {
      assert s[j] != pat[j];
    }
    if s != [] {
      forall i | j <= i && i - j + |pat| <= |s[1..]| ensures s[1..][i] != pat[j] {
        assert s[1..][i] == s[i + 1];
      }
      Absent(s[1..], pat, j);
    }
  }

  /** Upper-casing changes nothing on a string without lower-case letters. */
  lemma UpperFixed(s: string)
    requires forall c :: c in s ==> !IsLowerLetter(c)
    ensures Upper(s) == s
  {
    forall i | 0 <= i < |s| ensures Upper(s)[i] == s[i] {
      assert s[i] in s;
    }
  }

  /** Upper-casing and stripping change nothing on a category name. */
  lemma CategoryText(r: string)
    requires r in Categories
    ensures Upper(r) == r
    ensures ContractText(Some(r)) == r
  {
    UpperFixed(r);
    StripUntrimmed(r);
  }

  /** A pattern with a character the text lacks does not occur in it. */
  lemma CharAbsent(s: string, pat: string, j: nat)
    requires j < |pat| && pat[j] !in s
    ensures !Contains(s, pat)
  {
    Absent(s, pat, j);
  }

  // The category names are passed as parameters so that the verifier does
  // not evaluate the substring tests on literals.

  lemma InternCategory(r: string)
    requires r == "INTERN"
    ensures NormalizeContract(Some(r)) == r
  {
    CategoryText(r);
    assert "INTERN" <= r;
  }

  lemma TemporainWords(r: string)
    requires r == "TEMPORAIN"
    ensures !InternWord(r) && TempWord(r)
  {
    Absent(r, "INTERN", 0);
    CharAbsent(r, "INTERNSHIP", 7);
    CharAbsent(r, "STAGE", 0);
    assert "TEMP" <= r;
  }

  lemma TemporainCategory(r: string)
    requires r == "TEMPORAIN"
    ensures NormalizeContract(Some(r)) == r
  {
    CategoryText(r);
    TemporainWords(r);
  }

  /** Neither "FULL_TIME" nor "OTHER" holds an internship word. */
  lemma NoInternWord(r: string)
    requires r == "FULL_TIME" || r == "OTHER"
    ensures !InternWord(r)
  {
    CharAbsent(r, "INTERN", 1);
    CharAbsent(r, "INTERNSHIP", 1);
    CharAbsent(r, "STAGE", 0);
  }

  /** Neither "FULL_TIME" nor "OTHER" holds a fixed-term word. */
  lemma NoTempWord(r: string)
    requires r == "FULL_TIME" || r == "OTHER"
    ensures !TempWord(r)
  {
    CharAbsent(r, "TEMP", 3);
    CharAbsent(r, "TEMPORARY", 3);
    CharAbsent(r, "CDD", 0);
    CharAbsent(r, "CONTRACT", 0);
  }

  lemma FullTimeCategory(r: string)
    requires r == "FULL_TIME"
    ensures NormalizeContract(Some(r)) == r
  {
    CategoryText(r);
    NoInternWord(r);
    NoTempWord(r);
    assert "FULL" <= r;
  }

  /** "OTHER" holds no word of any category. */
  lemma OtherWords(r: string)
    requires r == "OTHER"
    ensures !InternWord(r) && !TempWord(r) && !FullWord(r)
  {
    NoInternWord(r);
    NoTempWord(r);
    CharAbsent(r, "FULL", 0);
    CharAbsent(r, "CDI", 0);
  }

  lemma OtherCategory(r: string)
    requires r == "OTHER"
    ensures NormalizeContract(Some(r)) == r
  {
    CategoryText(r);
    OtherWords(r);
  }

  /** Normalising a category name gives it back: `_normalize_contract` is
      idempotent. */
  lemma NormalizeContractIdempotent(val: Option<string>)
    ensures NormalizeContract(Some(NormalizeContract(val))) == NormalizeContract(val)
  {
    var r := NormalizeContract(val);
    if r == "INTERN" {
      InternCategory(r);
    } else if r == "TEMPORAIN" {
      TemporainCategory(r);
    } else if r == "FULL_TIME" {
      FullTimeCategory(r);
    } else {
      OtherCategory(r);
    }
  }

  // ---------------------------------------------------------------- location filter

  /** A location filter that hits: not blank, and its lower-cased, stripped
      text occurs in the lower-cased location. */
  predicate Hits(loc: string, f: string)
  {
    Strip(f) != [] && Contains(loc, Strip(Lower(f)))
  }

  /** `any(... for f in filters if f.strip())` */
  function AnyHit(loc: string, filters: seq<string>): (b: bool)
    ensures b <==> exists i :: 0 <= i < |filters| && Hits(loc, filters[i])
    decreases |filters|
  {
    if filters == [] then false
    else Hits(loc, filters[0]) || AnyHit(loc, filters[1..])
  }

  /** `_location_match(location, filters)` */
  function LocationMatch(location: Option<string>, filters: Option<seq<string>>): (b: bool)
    ensures filters.None? || filters.value == [] ==> b
    ensures filters.Some? && filters.value != [] ==>
      (b <==> exists f :: f in filters.value && Strip(f) != []
                && Contains(Lower(if location.Some? then location.value else ""), Strip(Lower(f))))
  {
    if filters.None? || filters.value == [] then true
    else
      var loc := Lower(if location.Some? then location.value else "");
      var b := AnyHit(loc, filters.value);
      assert b <==> exists f :: f in filters.value && Hits(loc, f) by {
        if b {
          var i :| 0 <= i < |filters.value| && Hits(loc, filters.value[i]);
          assert filters.value[i] in filters.value;
        }
      }
      b
  }

  /** Lower-casing twice is lower-casing once. */
  lemma LowerTwice(s: string)
    ensures Lower(Lower(s)) == Lower(s)
  {
    LowerIsLowered(s);
    LowerIsLowered(Lower(s));
  }

  /** Lower-casing an upper-cased string is lower-casing it. */
  lemma LowerUpper(s: string)
    ensures Lower(Upper(s)) == Lower(s)
  {
  }

  /** The location test ignores case on both sides: the location and every
      filter may be written in upper or lower case. */
  lemma LocationIgnoresCase(location: string, filters: seq<string>)
    ensures LocationMatch(Some(Lower(location)), Some(filters)) == LocationMatch(Some(location), Some(filters))
    ensures LocationMatch(Some(location), Some(seq(|filters|, i requires 0 <= i < |filters| => Upper(filters[i]))))
      == LocationMatch(Some(location), Some(filters))
  {
    LowerTwice(location);
    var up := seq(|filters|, i requires 0 <= i < |filters| => Upper(filters[i]));
    if filters != [] {
      var loc := Lower(location);
      forall i | 0 <= i < |filters| ensures Hits(loc, up[i]) == Hits(loc, filters[i]) {
        LowerUpper(filters[i]);
        StripEmpty(up[i]);
        StripEmpty(filters[i]);
      }
      assert AnyHit(loc, up) == AnyHit(loc, filters);
    }
  }

  /** A filter list whose every entry is blank lets no offer through. */
  lemma BlankFiltersRejectAll(location: Option<string>, filters: seq<string>)
    requires filters != []
    requires forall i :: 0 <= i < |filters| ==> Strip(filters[i]) == []
    ensures !LocationMatch(location, Some(filters))
  {
  }

  /** Adding filters never rejects an offer that already matched. */
  lemma MoreFiltersMatchMore(location: Option<string>, filters: seq<string>, extra: seq<string>)
    requires filters != [] && LocationMatch(location, Some(filters))
    ensures LocationMatch(location, Some(filters + extra))
  {
    var loc := Lower(if location.Some? then location.value else "");
    var i :| 0 <= i < |filters| && Hits(loc, filters[i]);
    assert (filters + extra)[i] == filters[i];
  }

  // ---------------------------------------------------------------- contract filter

  /** `_contract_match(contract_norm, allowed)` */
  function ContractMatch(contractNorm: string, allowed: Option<seq<string>>): (b: bool)
    ensures allowed.None? || allowed.value == [] ==> b
    ensures allowed.Some? && allowed.value != [] ==>
      (b <==> exists a :: a in allowed.value && Strip(Upper(a)) == Upper(contractNorm))
  {
    if allowed.None? || allowed.value == [] then true
    else
      var allowedSet := set a | a in allowed.value :: Strip(Upper(a));
      Upper(contractNorm) in allowedSet
  }

  /** On a normalised contract the filter accepts exactly the offers whose
      category is named among the allowed values, in any case and padding;
      a filter naming no category (a raw "CDI", say) rejects every offer. */
  lemma ContractFilterOnCategory(val: Option<string>, allowed: seq<string>)
    requires allowed != []
    ensures var r := NormalizeContract(val);
      ContractMatch(r, Some(allowed)) <==> exists a :: a in allowed && Strip(Upper(a)) == r
    ensures (forall a :: a in allowed ==> Strip(Upper(a)) !in Categories) ==>
      !ContractMatch(NormalizeContract(val), Some(allowed))
  {
    CategoryText(NormalizeContract(val));
  }

  // ---------------------------------------------------------------- experience filter

  /** `_experience_match(years, min_years, max_years)` */
  function ExperienceMatch(years: Option<int>, minYears: Option<int>, maxYears: Option<int>): (b: bool)
    ensures years.None? ==> (b <==> minYears.None? && maxYears.None?)
    ensures years.Some? ==>
      (b <==> (minYears.Some? ==> minYears.value <= years.value) && (maxYears.Some? ==> years.value <= maxYears.value))
  {
    if years.None? then minYears.None? && maxYears.None?
    else if minYears.Some? && years.value < minYears.value then false
    else if maxYears.Some? && years.value > maxYears.value then false
    else true
  }

  /** Widening the accepted range never rejects an offer that matched, and an
      offer of unknown experience matches only when no bound is set. */
  lemma ExperienceWiden(years: Option<int>, lo: int, hi: int, lo2: int, hi2: int)
    requires lo2 <= lo && hi <= hi2
    ensures ExperienceMatch(years, Some(lo), Some(hi)) ==> ExperienceMatch(years, Some(lo2), Some(hi2))
    ensures ExperienceMatch(years, Some(lo), Some(hi)) ==> years.Some?
  {
  }

  // ---------------------------------------------------------------- required experience

  /** `float(v)` on a JSON value: booleans count as 0 and 1, a string goes
      through `parseFloat` (None when Python refuses it), and a list, a
      dictionary or null raise, which the caller catches. */
  function ToFloat(v: Value, parseFloat: string -> Option<real>): (r: Option<real>)
    ensures v.VNum? ==> r == Some(v.n)
    ensures v.VList? || v.VDict? || v.VNone? ==> r.None?
  {
    match v
    case VBool(b) => Some(if b then 1.0 else 0.0)
    case VNum(x) => Some(x)
    case VStr(s) => parseFloat(s)
    case _ => None
  }

  /** The years given by `monthsOfExperience`, when the document states a
      convertible one: `int(round(float(months) / 12))`. */
  function MonthsYears(meta: map<string, Value>, parseFloat: string -> Option<real>): (r: Option<int>)
    ensures r.Some? ==> Get(meta, "experienceRequirements").VDict?
    ensures r.Some? ==>
      var months := ToFloat(Get(Get(meta, "experienceRequirements").fields, "monthsOfExperience"), parseFloat);
      months.Some? && (months.value / 12.0) - 0.5 <= r.value as real <= (months.value / 12.0) + 0.5
  {
    var exp := Get(meta, "experienceRequirements");
    if !exp.VDict? then None
    else
      var months := Get(exp.fields, "monthsOfExperience");
      if months.VNone? then None
      else
        var x := ToFloat(months, parseFloat);
        if x.None? then None else Some(RoundInt(x.value / 12.0))
  }

  /** A word boundary (`\b`) after a word character at `i`. */
  predicate BoundaryAt(s: string, i: nat)
  {
    i >= |s| || !IsWordChar(s[i])
  }

  /** The pattern `(\d+)\s*(ans|an)\b` matches at `j`: a run of digits, any
      whitespace, then "an" or "ans" closing a word. */
  predicate YearsAt(s: string, j: nat)
  {
    j < |s| && IsDigit(s[j]) &&
    var k := SpaceRun(s, DigitRun(s, j));
    k + 2 <= |s| && s[k] == 'a' && s[k + 1] == 'n'
    && (BoundaryAt(s, k + 2) || (s[k + 2] == 's' && BoundaryAt(s, k + 3)))
  }

  /** `re.search` from `i`: the leftmost place the pattern matches. */
  function FindYears(s: string, i: nat): (r: Option<nat>)
    ensures r.Some? ==> i <= r.value < |s| && YearsAt(s, r.value)
    ensures r.Some? ==> forall j :: i <= j < r.value ==> !YearsAt(s, j)
    ensures r.None? ==> forall j :: i <= j < |s| ==> !YearsAt(s, j)
    decreases |s| - i
  {
    if i >= |s| then None
    else if YearsAt(s, i) then Some(i)
    else FindYears(s, i + 1)
  }

  /** The number of years a text states, as `int(m.group(1))` of the first
      match in the lower-cased text; None for a non-string or no match. */
  function TextYears(v: Value): (r: Option<int>)
    ensures r.Some? ==> v.VStr? && 0 <= r.value
    ensures r.None? <==> !v.VStr? || forall j :: 0 <= j < |v.s| ==> !YearsAt(Lower(v.s), j)
  {
    if !v.VStr? then None
    else
      var t := Lower(v.s);
      var p := FindYears(t, 0);
      if p.None? then None else Some(DigitsValue(t, p.value, DigitRun(t, p.value)))
  }

  /** `_extract_experience_years(meta)` with `float` of a string abstracted as
      `parseFloat`: the months of experience first, then the "N an(s)"
      pattern in the requirements text, then in the description. */
  function ExtractExperienceYears(meta: map<string, Value>, parseFloat: string -> Option<real>): (r: Option<int>)
    ensures MonthsYears(meta, parseFloat).Some? ==> r == MonthsYears(meta, parseFloat)
    ensures MonthsYears(meta, parseFloat).None? ==>
      r == (if TextYears(Get(meta, "experienceRequirements")).Some?
            then TextYears(Get(meta, "experienceRequirements"))
            else TextYears(Get(meta, "description")))
    ensures r.None? <==>
      MonthsYears(meta, parseFloat).None?
      && TextYears(Get(meta, "experienceRequirements")).None?
      && TextYears(Get(meta, "description")).None?
  {
    var m := MonthsYears(meta, parseFloat);
    if m.Some? then m
    else
      var a := TextYears(Get(meta, "experienceRequirements"));
      if a.Some? then a else TextYears(Get(meta, "description"))
  }

  /** Every character of the digits of a number is its own lower case. */
  lemma DecimalLowered(n: nat)
    ensures IsLowered(Decimal(n))
  {
  }

  /** The value of a run of digits does not depend on where it sits. */
  lemma {:induction false} DigitsValueShift(s: string, i: nat, t: string, j: nat)
    requires i + j <= |s| && j <= |t| && s[i..i + j] == t[..j]
    ensures DigitsValue(s, i, i + j) == DigitsValue(t, 0, j)
    decreases j
  {
    if j > 0 {
      assert s[i..i + j - 1] == t[..j - 1] by {
        assert s[i..i + j - 1] == s[i..i + j][..j - 1];
        assert t[..j - 1] == t[..j][..j - 1];
      }
      assert s[i + j - 1] == s[i..i + j][j - 1] == t[..j][j - 1] == t[j - 1];
      DigitsValueShift(s, i, t, j - 1);
    }
  }

  /** The text of a "N ans" phrase is already in lower case. */
  lemma {:induction false} PhraseLowered(s: string, pre: string, n: nat, post: string)
    requires s == pre + Decimal(n) + " ans" + post
    requires IsLowered(pre) && IsLowered(post)
    ensures Lower(s) == s
  {
    var d := Decimal(n);
    var e := |pre| + |d|;
    DecimalLowered(n);
    forall i | 0 <= i < |s| ensures LowerChar(s[i]) == s[i] {
      if i < |pre| {
        assert s[i] == pre[i];
      } else if i < e {
        assert s[i] == d[i - |pre|];
      } else if i < e + 4 {
        assert s[i] == " ans"[i - e];
      } else {
        assert s[i] == post[i - e - 4];
      }
    }
    LowerIsLowered(s);
  }

  /** `re.search` finds the leftmost match. */
  lemma FindLeftmost(s: string, i: nat, j: nat)
    requires i <= j && YearsAt(s, j)
    requires forall k :: i <= k < j ==> !YearsAt(s, k)
    ensures FindYears(s, i) == Some(j)
  {
  }

  /** Digits from `p` to `e`, then " ans" closing a word: the pattern
      matches at `p` and its digits end at `e`. */
  lemma AnsAt(s: string, p: nat, e: nat)
    requires p < e && e + 4 <= |s|
    requires forall k :: p <= k < e ==> IsDigit(s[k])
    requires s[e] == ' ' && s[e + 1] == 'a' && s[e + 2] == 'n' && s[e + 3] == 's'
    requires e + 4 == |s| || !IsWordChar(s[e + 4])
    ensures YearsAt(s, p) && DigitRun(s, p) == e
  {
    assert DigitRun(s, p) == e;
    assert SpaceRun(s, e) == e + 1;
  }

  /** In a "N ans" phrase after a digit-free start, the pattern matches
      where the digits of N begin and nowhere before. */
  lemma {:induction false} PhraseParts(s: string, pre: string, n: nat, post: string)
    requires s == pre + Decimal(n) + " ans" + post
    requires forall i :: 0 <= i < |pre| ==> !IsDigit(pre[i])
    requires post == [] || !IsWordChar(post[0])
    ensures YearsAt(s, |pre|)
    ensures forall k :: 0 <= k < |pre| ==> !YearsAt(s, k)
    ensures DigitRun(s, |pre|) == |pre| + |Decimal(n)|
    ensures s[|pre|..|pre| + |Decimal(n)|] == Decimal(n)
  {
    var d := Decimal(n);
    var e := |pre| + |d|;
    assert s[|pre|..e] == d;
    assert forall k :: |pre| <= k < e ==> s[k] == d[k - |pre|];
    assert s[e..e + 4] == " ans";
    assert s[e] == ' ' && s[e + 1] == 'a' && s[e + 2] == 'n' && s[e + 3] == 's';
    assert e + 4 == |s| || s[e + 4] == post[0];
    AnsAt(s, |pre|, e);
    forall k | 0 <= k < |pre| ensures !YearsAt(s, k) {
      assert s[k] == pre[k];
    }
  }

  /** The digits of N inside a text read as N. */
  lemma DigitsOfDecimal(s: string, p: nat, n: nat)
    requires p + |Decimal(n)| <= |s| && s[p..p + |Decimal(n)|] == Decimal(n)
    ensures DigitsValue(s, p, p + |Decimal(n)|) == n
  {
    var d := Decimal(n);
    assert d[..|d|] == d;
    DigitsValueShift(s, p, d, |d|);
    DecimalValue(n);
  }

  /** ... so that is where `re.search` finds it, and its digits read as N. */
  lemma {:induction false} PhraseMatch(s: string, pre: string, n: nat, post: string)
    requires s == pre + Decimal(n) + " ans" + post
    requires forall i :: 0 <= i < |pre| ==> !IsDigit(pre[i])
    requires post == [] || !IsWordChar(post[0])
    ensures FindYears(s, 0) == Some(|pre|)
    ensures DigitRun(s, |pre|) == |pre| + |Decimal(n)|
    ensures DigitsValue(s, |pre|, |pre| + |Decimal(n)|) == n
  {
    PhraseParts(s, pre, n, post);
    FindLeftmost(s, 0, |pre|);
    DigitsOfDecimal(s, |pre|, n);
  }

  /** A lower-case text whose first match has the digits of `n` reads as `n`. */
  lemma ReadYears(s: string, p: nat, e: nat, n: nat)
    requires Lower(s) == s && FindYears(s, 0) == Some(p)
    requires DigitRun(s, p) == e && DigitsValue(s, p, e) == n
    ensures TextYears(VStr(s)) == Some(n)
  {
  }

  /** A lower-case text holding "N ans" after a digit-free start reads as N
      years; the "N ans d’expérience" label the scraper writes for an offer
      is one such text. */
  lemma {:induction false} YearsPhrase(pre: string, n: nat, post: string)
    requires forall i :: 0 <= i < |pre| ==> !IsDigit(pre[i])
    requires IsLowered(pre) && IsLowered(post)
    requires post == [] || !IsWordChar(post[0])
    ensures TextYears(VStr(pre + Decimal(n) + " ans" + post)) == Some(n)
  {
    PhraseYears(pre + Decimal(n) + " ans" + post, pre, n, post);
  }

  /** The same, with the text given whole. */
  lemma {:induction false} PhraseYears(s: string, pre: string, n: nat, post: string)
    requires s == pre + Decimal(n) + " ans" + post
    requires forall i :: 0 <= i < |pre| ==> !IsDigit(pre[i])
    requires IsLowered(pre) && IsLowered(post)
    requires post == [] || !IsWordChar(post[0])
    ensures TextYears(VStr(s)) == Some(n)
  {
    PhraseLowered(s, pre, n, post);
    PhraseMatch(s, pre, n, post);
    ReadYears(s, |pre|, |pre| + |Decimal(n)|, n);
  }

  /** The label `f"{years} ans d’expérience"` is a "N ans" phrase. */
  lemma LabelPhrase(d: string)
    ensures [] + d + " ans" + " d’expérience" == d + " ans d’expérience"
  {
    assert " ans" + " d’expérience" == " ans d’expérience";
  }

  /** A consistency illustration: the label `f"{years} ans d’expérience"`,
      stored beside the years themselves, agrees with them under the same
      reading of "N ans" that the years were taken from. No code reads the
      label again. */
  lemma {:induction false} ExperienceLabelYears(n: nat)
    ensures TextYears(VStr(Decimal(n) + " ans d’expérience")) == Some(n)
  {
    var post := " d’expérience";
    assert IsLowered(post);
    YearsPhrase([], n, post);
    LabelPhrase(Decimal(n));
  }

  // ---------------------------------------------------------------- dedupe by link

  /** A card of the search listing: its title, link, company and date. */
  datatype Card = Card(title: string, link: Option<string>, company: string, date: Option<string>)

  function Links(jobs: seq<Card>): (r: seq<Option<string>>)
    ensures |r| == |jobs| && forall i :: 0 <= i < |jobs| ==> r[i] == jobs[i].link
  {
    seq(|jobs|, i requires 0 <= i < |jobs| => jobs[i].link)
  }

  /** The last card carrying `link`. */
  function LastWithLink(jobs: seq<Card>, link: Option<string>): (c: Card)
    requires link in Links(jobs)
    ensures c in jobs && c.link == link
    decreases |jobs|
  {
    var n := |jobs| - 1;
    if jobs[n].link == link then jobs[n]
    else
      assert Links(jobs[..n]) == Links(jobs)[..n];
      assert link in Links(jobs[..n]) by {
        var i :| 0 <= i < |jobs| && Links(jobs)[i] == link;
        assert i < n;
      }
      LastWithLink(jobs[..n], link)
  }

  /** The dictionary `{j["link"]: j for j in all_jobs}`: its keys in insertion
      order and its contents. */
  function LinkIndex(jobs: seq<Card>): (d: (seq<Option<string>>, map<Option<string>, Card>))
    ensures d.0 == Dedupe(Links(jobs))
    ensures FirstSeenOrder(Links(jobs), d.0)
    ensures d.1.Keys == set l | l in Links(jobs)
    decreases |jobs|
  {
    if jobs == [] then ([], map[])
    else
      var n := |jobs| - 1;
      var init := jobs[..n];
      assert Links(init) == Links(jobs)[..n];
      assert Links(jobs) == Links(init) + [jobs[n].link];
      var (keys, last) := LinkIndex(init);
      var c := jobs[n];
      (if c.link in last then keys else keys + [c.link], last[c.link := c])
  }

  /** Each link of the dictionary maps to the last card scraped with it. */
  lemma {:induction false} LinkIndexLast(jobs: seq<Card>)
    ensures forall l :: l in LinkIndex(jobs).1 ==> l in Links(jobs) && LinkIndex(jobs).1[l] == LastWithLink(jobs, l)
    decreases |jobs|
  {
    if jobs != [] {
      var n := |jobs| - 1;
      var init := jobs[..n];
      assert Links(init) == Links(jobs)[..n];
      LinkIndexLast(init);
      var last := LinkIndex(init).1;
      var c := jobs[n];
      assert LinkIndex(jobs).1 == last[c.link := c];
      forall l | l in LinkIndex(jobs).1 ensures l in Links(jobs) && LinkIndex(jobs).1[l] == LastWithLink(jobs, l) {
        if l != c.link {
          assert l in Links(init);
          var i :| 0 <= i < n && Links(init)[i] == l;
          assert Links(jobs)[i] == l;
        } else {
          assert Links(jobs)[n] == l;
        }
      }
    }
  }

  /** `list({j["link"]: j for j in all_jobs}.values())` */
  function UniqueJobs(jobs: seq<Card>): (u: seq<Card>)
    ensures |u| == |Dedupe(Links(jobs))|
    ensures forall i :: 0 <= i < |u| ==> u[i] == LastWithLink(jobs, Dedupe(Links(jobs))[i])
    ensures FirstSeenOrder(Links(jobs), Links(u))
  {
    var (keys, last) := LinkIndex(jobs);
    LinkIndexLast(jobs);
    var u := seq(|keys|, i requires 0 <= i < |keys| => last[keys[i]]);
    assert Links(u) == keys;
    u
  }

  /** One card per link, every link kept, each card the last one scraped
      with its link, in the order the links were first seen. */
  lemma UniqueJobsShape(jobs: seq<Card>)
    ensures var u := UniqueJobs(jobs);
      && (forall i, j :: 0 <= i < j < |u| ==> u[i].link != u[j].link)
      && (forall c :: c in jobs ==> exists i :: 0 <= i < |u| && u[i].link == c.link)
      && (forall i :: 0 <= i < |u| ==> u[i] in jobs && u[i].link == Dedupe(Links(jobs))[i])
      && FirstSeenOrder(Links(jobs), Links(u))
  {
    var u := UniqueJobs(jobs);
    var keys := Dedupe(Links(jobs));
    forall c | c in jobs ensures exists i :: 0 <= i < |u| && u[i].link == c.link {
      var p :| 0 <= p < |jobs| && jobs[p] == c;
      assert c.link in Links(jobs);
      var i :| 0 <= i < |keys| && keys[i] == c.link;
      assert u[i].link == c.link;
    }
  }

  // ---------------------------------------------------------------- the filter pass

  /** A scraped offer: the three columns the filters read, and the others. */
  datatype Posting = Posting(location: string, contractNorm: string, experienceYears: Option<int>,
                             others: map<string, Value>)

  /** The filters passed to `fetch_wttj_offers`. */
  datatype Filters = Filters(locations: Option<seq<string>>, contracts: Option<seq<string>>,
                             minYears: Option<int>, maxYears: Option<int>)

  /** An offer survives when all three predicates accept it. */
  predicate Keeps(p: Posting, f: Filters)
  {
    LocationMatch(Some(p.location), f.locations)
    && ContractMatch(p.contractNorm, f.contracts)
    && ExperienceMatch(p.experienceYears, f.minYears, f.maxYears)
  }

  /** The offers `df[mask]` keeps, in order. */
  function Filter(ps: seq<Posting>, f: Filters): (r: seq<Posting>)
    ensures |r| <= |ps|
    ensures forall p :: p in r <==> p in ps && Keeps(p, f)
    decreases |ps|
  {
    if ps == [] then []
    else
      var n := |ps| - 1;
      assert ps == ps[..n] + [ps[n]];
      Filter(ps[..n], f) + (if Keeps(ps[n], f) then [ps[n]] else [])
  }

  /** Filtering keeps the order of the table: it distributes over
      concatenation. */
  lemma {:induction false} FilterConcat(a: seq<Posting>, b: seq<Posting>, f: Filters)
    ensures Filter(a + b, f) == Filter(a, f) + Filter(b, f)
    decreases |b|
  {
    if b != [] {
      var n := |b| - 1;
      var ab := a + b;
      var last := if Keeps(b[n], f) then [b[n]] else [];
      assert ab[..|ab| - 1] == a + b[..n] && ab[|ab| - 1] == b[n];
      assert Filter(ab, f) == Filter(a + b[..n], f) + last;
      assert Filter(b, f) == Filter(b[..n], f) + last;
      FilterConcat(a, b[..n], f);
    } else {
      assert a + b == a;
    }
  }

  /** Filtering a filtered table changes nothing. */
  lemma {:induction false} FilterIdempotent(ps: seq<Posting>, f: Filters)
    ensures Filter(Filter(ps, f), f) == Filter(ps, f)
    decreases |ps|
  {
    if ps != [] {
      var n := |ps| - 1;
      FilterIdempotent(ps[..n], f);
      var last := if Keeps(ps[n], f) then [ps[n]] else [];
      FilterConcat(Filter(ps[..n], f), last, f);
      if Keeps(ps[n], f) {
        assert Filter(last, f) == Filter([], f) + [ps[n]];
      } else {
        assert Filter(last, f) == [];
      }
    }
  }

  /** The mask of the filter pass, built offer by offer. */
  method Mask(ps: seq<Posting>, f: Filters) returns (mask: seq<bool>)
    ensures |mask| == |ps| && forall k :: 0 <= k < |ps| ==> mask[k] == Keeps(ps[k], f)
  {
    mask := [];
    var i := 0;
    while i < |ps|
      invariant 0 <= i <= |ps|
      invariant |mask| == i && forall k :: 0 <= k < i ==> mask[k] == Keeps(ps[k], f)
    {
      var r := ps[i];
      var ok := true;
      ok := ok && LocationMatch(Some(r.location), f.locations);
      ok := ok && ContractMatch(r.contractNorm, f.contracts);
      ok := ok && ExperienceMatch(r.experienceYears, f.minYears, f.maxYears);
      mask := mask + [ok];
      i := i + 1;
    }
  }

  /** The filter pass of `fetch_wttj_offers`: the offers its mask keeps. */
  method ApplyFilters(ps: seq<Posting>, f: Filters) returns (kept: seq<Posting>)
    ensures kept == Filter(ps, f)
  {
    if ps == [] {
      return ps;
    }
    var mask := Mask(ps, f);
    kept := [];
    var i := 0;
    while i < |ps|
      invariant 0 <= i <= |ps|
      invariant kept == Filter(ps[..i], f)
    {
      assert ps[..i + 1][..i] == ps[..i];
      if mask[i] {
        kept := kept + [ps[i]];
      }
      i := i + 1;
    }
    assert ps[..i] == ps;
  }

  // ---------------------------------------------------------------- the table's column types

  /** A cell of the `experience_years` column once the scraped rows become a
      DataFrame: a column mixing integers and None is stored as floats, so
      the missing entries become NaN; a column of None only keeps None. */
  datatype YearsCell = Missing | NotANumber | Years(y: int)

  function YearsColumn(ps: seq<Posting>): (cells: seq<YearsCell>)
    ensures |cells| == |ps|
  {
    var mixed := exists k :: 0 <= k < |ps| && ps[k].experienceYears.Some?;
    seq(|ps|, k requires 0 <= k < |ps| =>
      if ps[k].experienceYears.Some? then Years(ps[k].experienceYears.value)
      else if mixed then NotANumber else Missing)
  }

  /** `_experience_match` on a stored cell: NaN is not None, and every
      comparison with NaN is false, so a NaN cell passes any bounds. */
  function ExperienceMatchCell(cell: YearsCell, minYears: Option<int>, maxYears: Option<int>): (b: bool)
    ensures cell.NotANumber? ==> b
    ensures cell.Missing? ==> b == ExperienceMatch(None, minYears, maxYears)
    ensures cell.Years? ==> b == ExperienceMatch(Some(cell.y), minYears, maxYears)
  {
    match cell
    case Missing => minYears.None? && maxYears.None?
    case NotANumber => true
    case Years(y) => ExperienceMatch(Some(y), minYears, maxYears)
  }

  /** The mask as the scraper computes it from the DataFrame's cells. */
  function MaskAsWritten(ps: seq<Posting>, f: Filters): (mask: seq<bool>)
    ensures |mask| == |ps|
  {
    var cells := YearsColumn(ps);
    seq(|ps|, k requires 0 <= k < |ps| =>
      LocationMatch(Some(ps[k].location), f.locations)
      && ContractMatch(ps[k].contractNorm, f.contracts)
      && ExperienceMatchCell(cells[k], f.minYears, f.maxYears))
  }

  /** With a minimum of two years, an offer of unknown experience is kept by
      the scraper's mask as soon as another offer states its experience,
      although `_experience_match` rejects unknown experience under a bound. */
  lemma UnknownExperienceSlipsThrough()
    ensures var known := Posting("Paris", "FULL_TIME", Some(3), map[]);
      var unknown := Posting("Paris", "FULL_TIME", None, map[]);
      var f := Filters(None, None, Some(2), None);
      && MaskAsWritten([known, unknown], f)[1]
      && !Keeps(unknown, f)
      && Filter([known, unknown], f) == [known]
  {
    var known := Posting("Paris", "FULL_TIME", Some(3), map[]);
    var unknown := Posting("Paris", "FULL_TIME", None, map[]);
    var f := Filters(None, None, Some(2), None);
    assert [known, unknown][0].experienceYears.Some?;
    assert YearsColumn([known, unknown])[1] == NotANumber;
    assert [known, unknown][..1] == [known];
  }

  /** Reading the cells as the scraped values (None stays None) gives exactly
      the filter the three predicates describe. */
  lemma MaskOnValues(ps: seq<Posting>, f: Filters)
    requires forall k :: 0 <= k < |ps| ==> ps[k].experienceYears.Some?
    ensures forall k :: 0 <= k < |ps| ==> MaskAsWritten(ps, f)[k] == Keeps(ps[k], f)
  {
  }
}
