/** Character classes and string rewrites shared by the normalisers of the
    matching engine, the salary parser, the title cleaner and the scraper's
    filters. Case mapping covers ASCII and the Latin-1 letters (the French
    accented letters the job data uses); whitespace is the set of characters
    Python's `str.isspace` accepts in that range. */
module Text {

  // ---------------------------------------------------------------- characters

  predicate IsSpace(c: char)
  {
    c == ' ' || c == '\t' || c == '\n' || c == '\r' || c == '\U{0B}' || c == '\U{0C}'
    || ('\U{1C}' <= c <= '\U{1F}') || c == '\U{85}' || c == '\U{A0}'
  }

  predicate IsDigit(c: char)
  {
    '0' <= c <= '9'
  }

  predicate IsUpperLetter(c: char)
  {
    'A' <= c <= 'Z' || ('\U{C0}' <= c <= '\U{DE}' && c != '\U{D7}')
  }

  predicate IsLowerLetter(c: char)
  {
    'a' <= c <= 'z' || ('\U{E0}' <= c <= '\U{FE}' && c != '\U{F7}')
  }

  /** A character of a regex word (`\w`): letter, digit or underscore. */
  predicate IsWordChar(c: char)
  {
    IsUpperLetter(c) || IsLowerLetter(c) || IsDigit(c) || c == '_' || c == '\U{DF}' || c == '\U{FF}'
  }

  function LowerChar(c: char): (d: char)
    ensures IsSpace(d) <==> IsSpace(c)
    ensures !IsUpperLetter(d)
  {
    if IsUpperLetter(c) then (c as int + 32) as char else c
  }

  function UpperChar(c: char): (d: char)
    ensures IsSpace(d) <==> IsSpace(c)
    ensures !IsLowerLetter(d)
  {
    if IsLowerLetter(c) then (c as int - 32) as char else c
  }

  // ---------------------------------------------------------------- case

  /** `s.lower()` */
  function Lower(s: string): (r: string)
    ensures |r| == |s|
    ensures forall i :: 0 <= i < |s| ==> r[i] == LowerChar(s[i])
  {
    seq(|s|, i requires 0 <= i < |s| => LowerChar(s[i]))
  }

  /** `s.upper()` */
  function Upper(s: string): (r: string)
    ensures |r| == |s|
    ensures forall i :: 0 <= i < |s| ==> r[i] == UpperChar(s[i])
  {
    seq(|s|, i requires 0 <= i < |s| => UpperChar(s[i]))
  }

  /** Every character is already in lower case. */
  predicate IsLowered(s: string)
  {
    forall i :: 0 <= i < |s| ==> LowerChar(s[i]) == s[i]
  }

  lemma LowerIsLowered(s: string)
    ensures IsLowered(Lower(s))
    ensures IsLowered(s) ==> Lower(s) == s
  {
  }

  // ---------------------------------------------------------------- strip

  /** Where `s.strip()` starts: the end of the leading whitespace. */
  function StripStart(s: string): (k: nat)
    ensures k <= |s|
    ensures forall m :: 0 <= m < k ==> IsSpace(s[m])
    ensures k == |s| || !IsSpace(s[k])
  {
    SpaceRun(s, 0)
  }

  /** The start of the run of whitespace that ends at `j`, not going below `lo`. */
  function SpaceRunBack(s: string, lo: nat, j: nat): (k: nat)
    requires lo <= j <= |s|
    ensures lo <= k <= j
    ensures forall m :: k <= m < j ==> IsSpace(s[m])
    ensures k == lo || !IsSpace(s[k - 1])
    decreases j
  {
    if j > lo && IsSpace(s[j - 1]) then SpaceRunBack(s, lo, j - 1) else j
  }

  /** Where `s.strip()` ends: the start of the trailing whitespace. */
  function StripEnd(s: string): (k: nat)
    ensures StripStart(s) <= k <= |s|
    ensures forall m :: k <= m < |s| ==> IsSpace(s[m])
    ensures k == StripStart(s) || !IsSpace(s[k - 1])
  {
    SpaceRunBack(s, StripStart(s), |s|)
  }

  /** `s.strip()`: `s` without its leading and trailing whitespace. */
  function Strip(s: string): (r: string)
    ensures |r| <= |s|
    ensures r == [] || (!IsSpace(r[0]) && !IsSpace(r[|r| - 1]))
  {
    s[StripStart(s)..StripEnd(s)]
  }

  /** Stripping leaves nothing exactly when the string is all whitespace. */
  lemma StripEmpty(s: string)
    ensures Strip(s) == [] <==> forall i :: 0 <= i < |s| ==> IsSpace(s[i])
  {
  }

  /** Dropping leading and trailing whitespace changes nothing on a string
      that has none. */
  lemma StripUntrimmed(s: string)
    requires s == [] || (!IsSpace(s[0]) && !IsSpace(s[|s| - 1]))
    ensures Strip(s) == s
  {
  }

  // ---------------------------------------------------------------- whitespace runs

  /** No whitespace but the plain space, and no two spaces in a row. */
  predicate SingleSpaced(s: string)
  {
    forall i :: 0 <= i < |s| && IsSpace(s[i]) ==> s[i] == ' ' && (i + 1 < |s| ==> !IsSpace(s[i + 1]))
  }

  /** Neither starts nor ends with whitespace. */
  predicate Trimmed(s: string)
  {
    s == [] || (!IsSpace(s[0]) && !IsSpace(s[|s| - 1]))
  }

  /** `re.sub(r"\s+", " ", s)`: every maximal run of whitespace becomes one space. */
  function Collapse(s: string): (r: string)
    decreases |s|
  {
    if s == [] then []
    else if IsSpace(s[0]) then [' '] + Collapse(s[SpaceRun(s, 1)..])
    else [s[0]] + Collapse(s[1..])
  }

  /** Collapsing keeps the string empty or not, and keeps whether it starts
      and whether it ends with whitespace. */
  lemma {:induction false} CollapseEnds(s: string)
    decreases |s|
    ensures var r := Collapse(s);
      && |r| <= |s|
      && (r == [] <==> s == [])
      && (s != [] ==> (IsSpace(r[0]) <==> IsSpace(s[0])) && (IsSpace(r[|r| - 1]) <==> IsSpace(s[|s| - 1])))
  {
    if s == [] {
    } else if IsSpace(s[0]) {
      var t := s[SpaceRun(s, 1)..];
      CollapseEnds(t);
      if t != [] {
        assert t[|t| - 1] == s[|s| - 1];
      } else if |s| > 1 {
        assert IsSpace(s[1..][|s| - 2]);
      }
    } else {
      CollapseEnds(s[1..]);
      if s[1..] != [] {
        assert s[1..][|s| - 2] == s[|s| - 1];
      }
    }
  }

  /** After collapsing, whitespace is single plain spaces. */
  lemma {:induction false} CollapseSpacing(s: string)
    decreases |s|
    ensures SingleSpaced(Collapse(s))
  {
    if s == [] {
    } else if IsSpace(s[0]) {
      var t := s[SpaceRun(s, 1)..];
      CollapseSpacing(t);
      CollapseEnds(t);
      var c := Collapse(t);
      assert Collapse(s) == [' '] + c;
    } else {
      CollapseSpacing(s[1..]);
      var c := Collapse(s[1..]);
      assert Collapse(s) == [s[0]] + c;
    }
  }

  /** Collapsing introduces no character but the space. */
  lemma {:induction false} CollapseChars(s: string)
    decreases |s|
    ensures forall i :: 0 <= i < |Collapse(s)| ==> Collapse(s)[i] == ' ' || Collapse(s)[i] in s
  {
    if s == [] {
    } else if IsSpace(s[0]) {
      var t := s[SpaceRun(s, 1)..];
      CollapseChars(t);
      var c := Collapse(t);
      assert Collapse(s) == [' '] + c;
      assert forall x :: x in t ==> x in s;
    } else {
      CollapseChars(s[1..]);
      var c := Collapse(s[1..]);
      assert Collapse(s) == [s[0]] + c;
      assert forall x :: x in s[1..] ==> x in s;
    }
  }

  /** Collapsing is the identity on a single-spaced string. */
  lemma {:induction false} CollapseSingleSpaced(s: string)
    requires SingleSpaced(s)
    ensures Collapse(s) == s
    decreases |s|
  {
    if s != [] {
      assert SingleSpaced(s[1..]) by {
        forall i | 0 <= i < |s[1..]| && IsSpace(s[1..][i])
          ensures s[1..][i] == ' ' && (i + 1 < |s[1..]| ==> !IsSpace(s[1..][i + 1]))
        {
          assert s[1..][i] == s[i + 1];
        }
      }
      if IsSpace(s[0]) {
        assert SpaceRun(s, 1) == 1;
      }
      CollapseSingleSpaced(s[1..]);
    }
  }

  /** A contiguous slice of a single-spaced string is single-spaced. */
  lemma SliceSingleSpaced(s: string, k: nat, n: nat)
    requires k + n <= |s| && SingleSpaced(s)
    ensures SingleSpaced(s[k..k + n])
  {
    var t := s[k..k + n];
    forall i | 0 <= i < |t| && IsSpace(t[i]) ensures t[i] == ' ' && (i + 1 < |t| ==> !IsSpace(t[i + 1])) {
      assert t[i] == s[k + i];
      if i + 1 < |t| { assert t[i + 1] == s[k + i + 1]; }
    }
  }

  /** Stripping a single-spaced string leaves it single-spaced and trimmed,
      and keeps it lower case. */
  lemma StripNormal(s: string)
    requires SingleSpaced(s)
    ensures SingleSpaced(Strip(s)) && Trimmed(Strip(s))
    ensures IsLowered(s) ==> IsLowered(Strip(s))
  {
    var k := StripStart(s);
    var r := Strip(s);
    SliceSingleSpaced(s, k, StripEnd(s) - k);
    assert r == s[k..k + (StripEnd(s) - k)];
    if IsLowered(s) {
      forall i | 0 <= i < |r| ensures LowerChar(r[i]) == r[i] {
        assert r[i] == s[k + i];
      }
    }
  }

  /** Collapsing whitespace keeps a string lower case. */
  lemma {:induction false} CollapseLowered(s: string)
    requires IsLowered(s)
    ensures IsLowered(Collapse(s))
    decreases |s|
  {
    if s != [] {
      var n := if IsSpace(s[0]) then SpaceRun(s, 1) else 1;
      var t := s[n..];
      assert forall i :: 0 <= i < |t| ==> t[i] == s[n + i];
      CollapseLowered(t);
      var c := Collapse(t);
      if IsSpace(s[0]) {
        assert Collapse(s) == [' '] + c;
      } else {
        assert Collapse(s) == [s[0]] + c;
      }
    }
  }

  // ---------------------------------------------------------------- substrings

  /** `pat in s` for strings. */
  predicate Contains(s: string, pat: string)
  {
    pat <= s || (s != [] && Contains(s[1..], pat))
  }

  /** `pat` occurs in `s` at position `i`. */
  predicate OccursAt(s: string, pat: string, i: nat)
  {
    i + |pat| <= |s| && s[i..i + |pat|] == pat
  }

  /** An occurrence anywhere is found by `Contains`. */
  lemma {:induction false} OccursContains(s: string, pat: string, i: nat)
    requires OccursAt(s, pat, i)
    ensures Contains(s, pat)
  {
    if i == 0 {
      assert pat <= s;
    } else {
      assert s[1..][i - 1..i - 1 + |pat|] == s[i..i + |pat|];
      OccursContains(s[1..], pat, i - 1);
    }
  }

  /** `Contains` only reports real occurrences. */
  lemma {:induction false} ContainsOccurs(s: string, pat: string) returns (i: nat)
    requires Contains(s, pat)
    ensures OccursAt(s, pat, i)
  {
    if pat <= s {
      i := 0;
      assert s[..|pat|] == pat;
    } else {
      var k := ContainsOccurs(s[1..], pat);
      i := k + 1;
      assert s[i..i + |pat|] == s[1..][k..k + |pat|];
    }
  }

  /** A string that contains `p` contains everything `p` contains. */
  lemma ContainsTrans(s: string, p: string, q: string)
    requires Contains(s, p) && Contains(p, q)
    ensures Contains(s, q)
  {
    var i := ContainsOccurs(s, p);
    var j := ContainsOccurs(p, q);
    forall k | 0 <= k < |q| ensures s[i + j + k] == q[k] {
      assert q[k] == p[j + k] == s[i + j + k];
    }
    assert s[i + j..i + j + |q|] == q;
    OccursContains(s, q, i + j);
  }

  // ---------------------------------------------------------------- digit runs

  /** The end of the maximal run of digits that starts at `i`. */
  function DigitRun(s: string, i: nat): (j: nat)
    requires i <= |s|
    ensures i <= j <= |s|
    ensures forall k :: i <= k < j ==> IsDigit(s[k])
    ensures j == |s| || !IsDigit(s[j])
    decreases |s| - i
  {
    if i < |s| && IsDigit(s[i]) then DigitRun(s, i + 1) else i
  }

  /** The end of the maximal run of whitespace that starts at `i` (`\s*`). */
  function SpaceRun(s: string, i: nat): (j: nat)
    requires i <= |s|
    ensures i <= j <= |s|
    ensures forall k :: i <= k < j ==> IsSpace(s[k])
    ensures j == |s| || !IsSpace(s[j])
    decreases |s| - i
  {
    if i < |s| && IsSpace(s[i]) then SpaceRun(s, i + 1) else i
  }

  /** The decimal value of the digits `s[i..j]`. */
  function DigitsValue(s: string, i: nat, j: nat): nat
    requires i <= j <= |s|
    decreases j - i
  {
    if i == j then 0
    else 10 * DigitsValue(s, i, j - 1) + ((s[j - 1] as int - '0' as int) % 10)
  }

  /** The digit character for `d`. */
  function DigitChar(d: nat): (c: char)
    requires d < 10
    ensures IsDigit(c)
    ensures (c as int - '0' as int) % 10 == d
  {
    ('0' as int + d) as char
  }

  /** `str(n)` for a natural number: its decimal digits, most significant first. */
  function Decimal(n: nat): (s: string)
    ensures 1 <= |s|
    ensures forall i :: 0 <= i < |s| ==> IsDigit(s[i])
    decreases n
  {
    if n < 10 then [DigitChar(n)] else Decimal(n / 10) + [DigitChar(n % 10)]
  }

  /** The value of a run of digits depends only on that run. */
  lemma {:induction false} DigitsValuePrefix(s: string, t: string, j: nat)
    requires j <= |s|
    ensures DigitsValue(s + t, 0, j) == DigitsValue(s, 0, j)
    decreases j
  {
    if j > 0 {
      DigitsValuePrefix(s, t, j - 1);
    }
  }

  /** Reading back the digits of `str(n)` gives `n`. */
  lemma {:induction false} DecimalValue(n: nat)
    ensures DigitsValue(Decimal(n), 0, |Decimal(n)|) == n
    decreases n
  {
    if n >= 10 {
      var s := Decimal(n / 10);
      DecimalValue(n / 10);
      DigitsValuePrefix(s, [DigitChar(n % 10)], |s|);
    }
  }

  // ---------------------------------------------------------------- ordering and sorted sets

  /** Python's `<` on strings: lexicographic by code point. */
  predicate StrLt(a: string, b: string)
  {
    if a == [] then b != []
    else b != [] && (a[0] < b[0] || (a[0] == b[0] && StrLt(a[1..], b[1..])))
  }

  lemma {:induction false} StrLtIrreflexive(a: string)
    ensures !StrLt(a, a)
  {
    if a != [] { StrLtIrreflexive(a[1..]); }
  }

  lemma {:induction false} StrLtTrans(a: string, b: string, c: string)
    requires StrLt(a, b) && StrLt(b, c)
    ensures StrLt(a, c)
  {
    if a != [] && b != [] && c != [] && a[0] == b[0] == c[0] {
      StrLtTrans(a[1..], b[1..], c[1..]);
    }
  }

  lemma {:induction false} StrLtTotal(a: string, b: string)
    requires a != b
    ensures StrLt(a, b) || StrLt(b, a)
  {
    if a != [] && b != [] && a[0] == b[0] {
      assert a == [a[0]] + a[1..] && b == [b[0]] + b[1..];
      StrLtTotal(a[1..], b[1..]);
    }
  }

  /** Strictly increasing, hence sorted and free of duplicates. */
  predicate StrictlySorted(xs: seq<string>)
  {
    forall i, j :: 0 <= i < j < |xs| ==> StrLt(xs[i], xs[j])
  }

  function InsertUnique(x: string, ys: seq<string>): (r: seq<string>)
    requires StrictlySorted(ys)
    ensures StrictlySorted(r)
    ensures forall z :: z in r <==> z == x || z in ys
  {
    if ys == [] then [x]
    else if x == ys[0] then ys
    else if StrLt(x, ys[0]) then
      assert forall j :: 0 < j < |ys| ==> StrLt(x, ys[j]) by {
        forall j | 0 < j < |ys| ensures StrLt(x, ys[j]) { StrLtTrans(x, ys[0], ys[j]); }
      }
      [x] + ys
    else
      StrLtTotal(x, ys[0]);
      var t := InsertUnique(x, ys[1..]);
      assert forall z :: z in t ==> StrLt(ys[0], z) by {
        forall z | z in t ensures StrLt(ys[0], z) {
          if z != x {
            var j :| 0 <= j < |ys[1..]| && ys[1..][j] == z;
            assert ys[j + 1] == z;
          }
        }
      }
      [ys[0]] + t
  }

  /** `sorted(set(xs))`: the distinct elements of `xs`, in increasing order. */
  function SortedSet(xs: seq<string>): (r: seq<string>)
    ensures StrictlySorted(r)
    ensures forall z :: z in r <==> z in xs
    ensures |r| <= |xs|
  {
    if xs == [] then []
    else
      var t := SortedSet(xs[1..]);
      var r := InsertUnique(xs[0], t);
      assert |r| <= |t| + 1 by { InsertUniqueLength(xs[0], t); }
      r
  }

  lemma {:induction false} InsertUniqueLength(x: string, ys: seq<string>)
    requires StrictlySorted(ys)
    ensures |InsertUnique(x, ys)| <= |ys| + 1
  {
    if ys != [] && x != ys[0] && !StrLt(x, ys[0]) {
      InsertUniqueLength(x, ys[1..]);
    }
  }

  lemma {:induction false} StrLtAsym(a: string, b: string)
    requires StrLt(a, b)
    ensures !StrLt(b, a)
  {
    if a != [] && b != [] && a[0] == b[0] {
      StrLtAsym(a[1..], b[1..]);
    }
  }

  /** The head of a strictly sorted list is below every other element. */
  lemma FirstIsLeast(xs: seq<string>, z: string)
    requires StrictlySorted(xs) && z in xs
    ensures z == xs[0] || StrLt(xs[0], z)
  {
  }

  lemma NoElementsIsEmpty(xs: seq<string>)
    ensures (forall z :: z !in xs) ==> xs == []
  {
    if xs != [] { assert xs[0] in xs; }
  }

  /** Two strictly sorted lists with the same elements are equal, so
      `SortedSet` depends only on the set of its input's elements. */
  lemma {:induction false} StrictlySortedUnique(a: seq<string>, b: seq<string>)
    requires StrictlySorted(a) && StrictlySorted(b)
    requires forall z :: z in a <==> z in b
    ensures a == b
  {
    if a == [] {
      NoElementsIsEmpty(b);
    } else if b == [] {
      NoElementsIsEmpty(a);
    } else {
      assert a[0] in a && b[0] in b;
      FirstIsLeast(a, b[0]);
      FirstIsLeast(b, a[0]);
      if a[0] != b[0] {
        StrLtAsym(a[0], b[0]);
        assert false;
      }
      forall z | z in a[1..] ensures z in b[1..] {
        var i :| 0 <= i < |a[1..]| && a[1..][i] == z;
        assert StrLt(a[0], a[i + 1]);
        StrLtIrreflexive(z);
        assert z in b && z != b[0];
      }
      forall z | z in b[1..] ensures z in a[1..] {
        var i :| 0 <= i < |b[1..]| && b[1..][i] == z;
        assert StrLt(b[0], b[i + 1]);
        StrLtIrreflexive(z);
        assert z in a && z != a[0];
      }
      StrictlySortedUnique(a[1..], b[1..]);
    }
  }
}
