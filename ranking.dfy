/** Ranking of table rows as `DataFrame.sort_values(keys, ascending=False)`
    does it: rows in non-increasing lexicographic order of their sort keys.
    Rows with equal keys may come in any order (pandas' default sort is not
    stable), so the model promises only order and permutation. */
module Ranking {

  /** Lexicographic `<=` on sort keys. */
  predicate KeyLe(a: seq<real>, b: seq<real>)
  {
    a == [] || (b != [] && (a[0] < b[0] || (a[0] == b[0] && KeyLe(a[1..], b[1..]))))
  }

  lemma {:induction false} KeyLeTotal(a: seq<real>, b: seq<real>)
    ensures KeyLe(a, b) || KeyLe(b, a)
  {
    if a != [] && b != [] && a[0] == b[0] {
      KeyLeTotal(a[1..], b[1..]);
    }
  }

  lemma {:induction false} KeyLeTrans(a: seq<real>, b: seq<real>, c: seq<real>)
    requires KeyLe(a, b) && KeyLe(b, c)
    ensures KeyLe(a, c)
  {
    if a != [] && b != [] && c != [] && a[0] == b[0] == c[0] {
      KeyLeTrans(a[1..], b[1..], c[1..]);
    }
  }

  /** For one-column keys the order is the order of the reals. */
  lemma KeyLeSingle(x: real, y: real)
    ensures KeyLe([x], [y]) <==> x <= y
  {
    assert [x][1..] == [] && [y][1..] == [];
  }

  /** Every row's key is at least the key of every later row. */
  ghost predicate SortedDesc<T>(xs: seq<T>, key: T -> seq<real>)
  {
    forall i, j :: 0 <= i < j < |xs| ==> KeyLe(key(xs[j]), key(xs[i]))
  }

  /** A row whose key is at least the head's goes in front of a sorted table. */
  lemma InsertFront<T>(x: T, ys: seq<T>, key: T -> seq<real>)
    requires SortedDesc(ys, key) && ys != [] && KeyLe(key(ys[0]), key(x))
    ensures SortedDesc([x] + ys, key)
  {
    forall j | 0 < j < |ys| ensures KeyLe(key(ys[j]), key(x)) {
      KeyLeTrans(key(ys[j]), key(ys[0]), key(x));
    }
  }

  /** A head with a larger key than every row of a sorted table stays in front. */
  lemma InsertBehind<T>(x: T, ys: seq<T>, t: seq<T>, key: T -> seq<real>)
    requires SortedDesc(ys, key) && ys != [] && KeyLe(key(x), key(ys[0]))
    requires SortedDesc(t, key) && multiset(t) == multiset(ys[1..]) + multiset{x}
    ensures SortedDesc([ys[0]] + t, key)
  {
    forall z | z in t ensures KeyLe(key(z), key(ys[0])) {
      assert z in multiset(t);
      if z != x {
        assert z in multiset(ys[1..]);
        var j :| 0 <= j < |ys[1..]| && ys[1..][j] == z;
        assert ys[j + 1] == z;
      }
    }
    var r := [ys[0]] + t;
    forall i, j | 0 <= i < j < |r| ensures KeyLe(key(r[j]), key(r[i])) {
      if i == 0 { assert r[j] in t; } else { assert r[i] == t[i - 1] && r[j] == t[j - 1]; }
    }
  }

  /** Insertion of one row into a table sorted by decreasing key. */
  function Insert<T>(x: T, ys: seq<T>, key: T -> seq<real>): (r: seq<T>)
    requires SortedDesc(ys, key)
    ensures SortedDesc(r, key)
    ensures multiset(r) == multiset(ys) + multiset{x}
  {
    if ys == [] then [x]
    else if KeyLe(key(ys[0]), key(x)) then
      InsertFront(x, ys, key);
      [x] + ys
    else
      KeyLeTotal(key(ys[0]), key(x));
      var t := Insert(x, ys[1..], key);
      InsertBehind(x, ys, t, key);
      assert ys == [ys[0]] + ys[1..];
      [ys[0]] + t
  }

  /** `sort_values(..., ascending=False)` on the given keys. */
  function SortDesc<T>(xs: seq<T>, key: T -> seq<real>): (r: seq<T>)
    ensures SortedDesc(r, key)
    ensures multiset(r) == multiset(xs)
  {
    if xs == [] then []
    else
      assert xs == [xs[0]] + xs[1..];
      Insert(xs[0], SortDesc(xs[1..], key), key)
  }

  /** A permutation keeps the membership of every row. */
  lemma PermutationMembers<T>(xs: seq<T>, ys: seq<T>)
    requires multiset(xs) == multiset(ys)
    ensures |xs| == |ys|
    ensures forall z :: z in xs <==> z in ys
  {
    assert |multiset(xs)| == |multiset(ys)|;
    forall z ensures z in xs <==> z in ys {
      assert z in xs <==> z in multiset(xs);
      assert z in ys <==> z in multiset(ys);
    }
  }

  /** `r` lists values in the order they first occur in `xs`: every prefix
      of `xs` that holds a value of `r` holds every value before it. */
  ghost predicate FirstSeenOrder<T>(xs: seq<T>, r: seq<T>)
  {
    forall i, j, p :: 0 <= i < j < |r| && 0 <= p <= |xs| && r[j] in xs[..p] ==> r[i] in xs[..p]
  }

  /** Each value once, in the order of its first occurrence, as the keys of a
      `Counter` or of a dictionary built from the list come. */
  function Dedupe<T(==,!new)>(xs: seq<T>): (r: seq<T>)
    ensures forall x :: x in r <==> x in xs
    ensures forall i, j :: 0 <= i < j < |r| ==> r[i] != r[j]
    ensures FirstSeenOrder(xs, r)
    decreases |xs|
  {
    if xs == [] then []
    else
      var n := |xs| - 1;
      var d := Dedupe(xs[..n]);
      assert xs == xs[..n] + [xs[n]];
      if xs[n] in xs[..n] then
        FirstSeenExtend(xs, n, d);
        d
      else
        FirstSeenAppend(xs, n, d);
        d + [xs[n]]
  }

  /** An element already seen leaves the first-seen order of the values
      before it as it was. */
  lemma FirstSeenExtend<T>(xs: seq<T>, n: nat, d: seq<T>)
    requires n < |xs| && FirstSeenOrder(xs[..n], d)
    requires forall x :: x in d <==> x in xs[..n]
    ensures FirstSeenOrder(xs, d)
  {
    forall i, j, p | 0 <= i < j < |d| && 0 <= p <= |xs| && d[j] in xs[..p] ensures d[i] in xs[..p] {
      if p <= n {
        assert xs[..p] == xs[..n][..p];
      } else {
        assert d[i] in xs[..n];
        var k :| 0 <= k < n && xs[..n][k] == d[i];
        assert xs[..p][k] == d[i];
      }
    }
  }

  /** A value not seen before goes last in the first-seen order. */
  lemma FirstSeenAppend<T>(xs: seq<T>, n: nat, d: seq<T>)
    requires n < |xs| && FirstSeenOrder(xs[..n], d)
    requires forall x :: x in d <==> x in xs[..n]
    requires xs[n] !in xs[..n]
    ensures FirstSeenOrder(xs, d + [xs[n]])
  {
    FirstSeenExtend(xs, n, d);
    forall p | 0 <= p <= n ensures xs[n] !in xs[..p] {
      assert xs[..p] == xs[..n][..p];
    }
    var r := d + [xs[n]];
    forall i, j, p | 0 <= i < j < |r| && 0 <= p <= |xs| && r[j] in xs[..p] ensures r[i] in xs[..p] {
      assert r[i] == d[i];
      if j == |d| {
        assert d[i] in xs[..n];
        var k :| 0 <= k < n && xs[..n][k] == d[i];
        assert xs[..p][k] == d[i];
      } else {
        assert r[j] == d[j];
      }
    }
  }

  /** Every row of the sorted table is a row of the table. */
  lemma SortedMember<T>(xs: seq<T>, key: T -> seq<real>, i: nat)
    requires i < |SortDesc(xs, key)|
    ensures |SortDesc(xs, key)| == |xs| && SortDesc(xs, key)[i] in xs
  {
    var s := SortDesc(xs, key);
    PermutationMembers(s, xs);
    assert s[i] in multiset(s);
    assert s[i] in multiset(xs);
  }

  /** Only the empty sequence has no distinct elements. */
  lemma DedupeEmpty<T(!new)>(xs: seq<T>)
    ensures Dedupe(xs) == [] <==> xs == []
  {
    if xs != [] {
      assert xs[0] in xs;
    }
  }

  /** In a table with distinct keys every row occurs once. */
  lemma OccursOnce<T, K>(a: seq<T>, key: T -> K, p: nat)
    requires forall i, j :: 0 <= i < j < |a| ==> key(a[i]) != key(a[j])
    requires p < |a|
    ensures multiset(a)[a[p]] == 1
  {
    assert a == a[..p] + [a[p]] + a[p + 1..];
    forall r | 0 <= r < |a| && r != p ensures a[r] != a[p] {
      if r < p { assert key(a[r]) != key(a[p]); } else { assert key(a[p]) != key(a[r]); }
    }
    assert a[p] !in a[..p];
    assert a[p] !in a[p + 1..];
  }

  /** A row at two places of a table occurs at least twice. */
  lemma OccursTwice<T>(b: seq<T>, i: nat, j: nat)
    requires i < j < |b|
    ensures b[i] == b[j] ==> multiset(b)[b[i]] >= 2
  {
    assert b == b[..i] + [b[i]] + b[i + 1..j] + [b[j]] + b[j + 1..];
  }

  /** Rows with distinct keys stay distinct after reordering. */
  lemma DistinctAfterSort<T, K>(a: seq<T>, b: seq<T>, key: T -> K, i: nat, j: nat)
    requires multiset(a) == multiset(b)
    requires forall p, q :: 0 <= p < q < |a| ==> key(a[p]) != key(a[q])
    requires i < j < |b|
    ensures key(b[i]) != key(b[j])
  {
    assert b[i] in multiset(a) && b[j] in multiset(a);
    var p :| 0 <= p < |a| && a[p] == b[i];
    var q :| 0 <= q < |a| && a[q] == b[j];
    OccursOnce(a, key, p);
    OccursTwice(b, i, j);
    assert p != q;
    if p < q {
      assert key(a[p]) != key(a[q]);
    } else {
      assert key(a[q]) != key(a[p]);
    }
  }

  /** `DataFrame.head(n)`: the first n rows; a negative n drops the last -n rows. */
  function Head<T>(xs: seq<T>, n: int): (r: seq<T>)
    ensures |r| <= |xs| && r == xs[..|r|]
    ensures 0 <= n ==> |r| == (if n < |xs| then n else |xs|)
    ensures n < 0 ==> |r| == (if |xs| + n < 0 then 0 else |xs| + n)
  {
    if 0 <= n then (if n < |xs| then xs[..n] else xs)
    else if |xs| + n < 0 then []
    else xs[..|xs| + n]
  }

  /** `head(n)` of a sorted table: every row it drops ranks at or below
      every row it keeps. */
  lemma HeadTop<T>(xs: seq<T>, n: int, key: T -> seq<real>)
    requires SortedDesc(xs, key)
    ensures forall x :: x in xs ==> x in Head(xs, n) || forall y :: y in Head(xs, n) ==> KeyLe(key(x), key(y))
  {
    var h := Head(xs, n);
    forall x | x in xs ensures x in h || forall y :: y in h ==> KeyLe(key(x), key(y)) {
      var p :| 0 <= p < |xs| && xs[p] == x;
      if p < |h| {
        assert h[p] == x;
      } else {
        forall y | y in h ensures KeyLe(key(x), key(y)) {
          var i :| 0 <= i < |h| && h[i] == y;
          assert xs[i] == y;
        }
      }
    }
  }

  /** A prefix of a sorted table is sorted. */
  lemma SortedPrefix<T>(xs: seq<T>, k: nat, key: T -> seq<real>)
    requires SortedDesc(xs, key) && k <= |xs|
    ensures SortedDesc(xs[..k], key)
  {
  }
}
