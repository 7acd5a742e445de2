// Sequence vocabulary for result sets: the rows a WHERE clause keeps (in
// table order), duplicate-free row lists, and the ordering an ORDER BY
// clause imposes.
module Seqs {

  /** The elements of s that satisfy f, in the order s has them. */
  function Filter<T(==,!new)>(s: seq<T>, f: T -> bool): (r: seq<T>)
    ensures |r| <= |s|
    ensures forall x :: x in r <==> x in s && f(x)
    decreases |s|
  {
    if s == [] then []
    else
      var init, last := s[..|s| - 1], s[|s| - 1];
      assert s == init + [last];
      Filter(init, f) + (if f(last) then [last] else [])
  }

  /** A filter keeps every copy of an element that passes and no copy of one that fails. */
  lemma {:induction false} FilterMultiset<T(!new)>(s: seq<T>, f: T -> bool)
    ensures forall x :: multiset(Filter(s, f))[x] == if f(x) then multiset(s)[x] else 0
    decreases |s|
  {
    if s != [] {
      var init, last := s[..|s| - 1], s[|s| - 1];
      assert s == init + [last];
      FilterMultiset(init, f);
    }
  }

  predicate Distinct<T(==)>(s: seq<T>) {
    forall i, j :: 0 <= i < j < |s| ==> s[i] != s[j]
  }

  lemma {:induction false} FilterDistinct<T(!new)>(s: seq<T>, f: T -> bool)
    requires Distinct(s)
    ensures Distinct(Filter(s, f))
    decreases |s|
  {
    if s != [] {
      var init, last := s[..|s| - 1], s[|s| - 1];
      FilterDistinct(init, f);
      assert last !in init;
    }
  }

  /** Filtering twice is filtering once by the conjunction, provided the
      combined test agrees with both on the elements of s. */
  lemma {:induction false} FilterFusion<T(!new)>(s: seq<T>, f: T -> bool, g: T -> bool, h: T -> bool)
    requires forall x :: x in s ==> h(x) == (f(x) && g(x))
    ensures Filter(Filter(s, f), g) == Filter(s, h)
    decreases |s|
  {
    if s != [] {
      var init, last := s[..|s| - 1], s[|s| - 1];
      assert s == init + [last];
      assert forall x :: x in init ==> x in s;
      FilterFusion(init, f, g, h);
      var fi := Filter(init, f);
      assert last in s && h(last) == (f(last) && g(last));
      assert Filter(s, h) == Filter(init, h) + (if h(last) then [last] else []);
      if f(last) {
        assert Filter(s, f) == fi + [last];
        FilterSnoc(fi, last, g);
      } else {
        assert Filter(s, f) == fi;
      }
    }
  }

  /** Filtering s + [x] is filtering s, then keeping x if it passes. */
  lemma FilterSnoc<T(!new)>(s: seq<T>, x: T, f: T -> bool)
    ensures Filter(s + [x], f) == Filter(s, f) + (if f(x) then [x] else [])
  {
    assert (s + [x])[..|s|] == s;
  }

  /** The position of the first occurrence of x in s. */
  function Pos<T(==)>(s: seq<T>, x: T): (i: nat)
    requires x in s
    ensures i < |s| && s[i] == x
    ensures forall j :: 0 <= j < i ==> s[j] != x
    decreases |s|
  {
    if s[0] == x then 0 else 1 + Pos(s[1..], x)
  }

  lemma PosInPrefix<T>(s: seq<T>, x: T, n: nat)
    requires n <= |s| && x in s[..n]
    ensures Pos(s, x) == Pos(s[..n], x)
  {
    var i := Pos(s[..n], x);
    assert s[i] == x;
    var k := Pos(s, x);
    assert k <= i;
    assert s[..n][k] == x;
  }

  /** A filter keeps the relative order of the rows it keeps. */
  lemma {:induction false} FilterKeepsOrder<T(!new)>(s: seq<T>, f: T -> bool, i: nat, j: nat)
    requires Distinct(s)
    requires i < j < |Filter(s, f)|
    ensures Pos(s, Filter(s, f)[i]) < Pos(s, Filter(s, f)[j])
    decreases |s|
  {
    var n := |s|;
    var init, last := s[..n - 1], s[n - 1];
    assert Distinct(init) by {
      forall a, b | 0 <= a < b < |init| ensures init[a] != init[b] {
        assert init[a] == s[a] && init[b] == s[b];
      }
    }
    var r, r' := Filter(s, f), Filter(init, f);
    assert r == r' + (if f(last) then [last] else []);
    assert r[i] == r'[i];
    assert r'[i] in init;
    PosInPrefix(s, r'[i], n - 1);
    if j < |r'| {
      assert r[j] == r'[j];
      assert r'[j] in init;
      PosInPrefix(s, r'[j], n - 1);
      FilterKeepsOrder(init, f, i, j);
    } else {
      assert r[j] == last;
      assert Pos(s, last) == n - 1;
    }
  }

  lemma DistinctConcat<T>(x: seq<T>, y: seq<T>)
    requires Distinct(x) && Distinct(y)
    requires forall e :: e in x ==> e !in y
    ensures Distinct(x + y)
  {
    var r := x + y;
    forall i, j | 0 <= i < j < |r| ensures r[i] != r[j] {
      if j >= |x| {
        assert r[j] == y[j - |x|];
        if i >= |x| {
          assert r[i] == y[i - |x|];
        } else {
          assert r[i] == x[i] && x[i] in x;
        }
      }
    }
  }

  /** Position k of a + b + c lies in the block (0, 1 or 2) it falls in. */
  lemma RankAt<T>(a: seq<T>, b: seq<T>, c: seq<T>, rank: T -> nat, s: seq<T>, k: nat)
    requires forall x :: x in a ==> x in s && rank(x) == 0
    requires forall x :: x in b ==> x in s && rank(x) == 1
    requires forall x :: x in c ==> x in s && rank(x) == 2
    requires k < |a + b + c|
    ensures (a + b + c)[k] in s
    ensures rank((a + b + c)[k]) == if k < |a| then 0 else if k < |a| + |b| then 1 else 2
  {
    var r := a + b + c;
    if k < |a| {
      assert r[k] == a[k] && a[k] in a;
    } else if k < |a| + |b| {
      assert r[k] == b[k - |a|] && b[k - |a|] in b;
    } else {
      assert r[k] == c[k - |a| - |b|] && c[k - |a| - |b|] in c;
    }
  }

  /** Rows picked from s as a block of at most one row of rank 0, then the
      rows of rank 1, then the rows of rank 2, each block filtered from s,
      come ordered by rank and, within a rank, by position in s. */
  lemma {:induction false} GroupedConcatOrdered<T(!new)>(s: seq<T>, a: seq<T>, fb: T -> bool, fc: T -> bool,
                                               rank: T -> nat, i: nat, j: nat)
    requires Distinct(s) && |a| <= 1
    requires forall x :: x in a ==> x in s && rank(x) == 0
    requires forall x :: x in Filter(s, fb) ==> rank(x) == 1
    requires forall x :: x in Filter(s, fc) ==> rank(x) == 2
    requires i < j < |a + Filter(s, fb) + Filter(s, fc)|
    ensures var r := a + Filter(s, fb) + Filter(s, fc);
      r[i] in s && r[j] in s &&
      (rank(r[i]) < rank(r[j]) || (rank(r[i]) == rank(r[j]) && Pos(s, r[i]) < Pos(s, r[j])))
  {
    var b, c := Filter(s, fb), Filter(s, fc);
    RankAt(a, b, c, rank, s, i);
    RankAt(a, b, c, rank, s, j);
    var r := a + b + c;
    var na, nb := |a|, |a| + |b|;
    if na <= i && j < nb {
      assert r[i] == b[i - na] && r[j] == b[j - na];
      FilterKeepsOrder(s, fb, i - na, j - na);
    } else if nb <= i {
      assert r[i] == c[i - nb] && r[j] == c[j - nb];
      FilterKeepsOrder(s, fc, i - nb, j - nb);
    }
  }

  /** Each element of a duplicate-free list occurs at most once. */
  lemma {:induction false} DistinctCount<T>(s: seq<T>, x: T)
    requires Distinct(s)
    ensures multiset(s)[x] <= 1
    decreases |s|
  {
    if s != [] {
      assert s == [s[0]] + s[1..];
      assert Distinct(s[1..]) by {
        forall i, j | 0 <= i < j < |s[1..]| ensures s[1..][i] != s[1..][j] {
          assert s[1..][i] == s[i + 1] && s[1..][j] == s[j + 1];
        }
      }
      DistinctCount(s[1..], x);
      if x == s[0] {
        assert x !in s[1..];
      }
    }
  }

  /** An element at two positions occurs at least twice. */
  lemma RepeatedCount<T>(s: seq<T>, i: nat, j: nat)
    requires i < j < |s| && s[i] == s[j]
    ensures multiset(s)[s[i]] >= 2
  {
    assert s == s[..j] + s[j..];
    assert s[i] in s[..j];
    assert s[j..][0] == s[j];
  }

  // ---- ORDER BY --------------------------------------------------------------

  ghost predicate TotalPreorder<T(!new)>(le: (T, T) -> bool) {
    && (forall a, b :: le(a, b) || le(b, a))
    && (forall a, b, c :: le(a, b) && le(b, c) ==> le(a, c))
  }

  predicate Sorted<T>(s: seq<T>, le: (T, T) -> bool) {
    forall i, j :: 0 <= i < j < |s| ==> le(s[i], s[j])
  }

  lemma SortedCons<T>(h: T, s: seq<T>, le: (T, T) -> bool)
    requires Sorted(s, le)
    requires forall k :: 0 <= k < |s| ==> le(h, s[k])
    ensures Sorted([h] + s, le)
  {
    var r := [h] + s;
    forall i, j | 0 <= i < j < |r| ensures le(r[i], r[j]) {
      assert r[j] == s[j - 1];
      if i > 0 {
        assert r[i] == s[i - 1];
      }
    }
  }

  /** Whatever bounds x and every element of t from below also bounds a
      rearrangement of t with x added. */
  lemma LowerBoundOfInsert<T>(h: T, x: T, t: seq<T>, r: seq<T>, le: (T, T) -> bool)
    requires le(h, x)
    requires forall k :: 0 <= k < |t| ==> le(h, t[k])
    requires multiset(r) == multiset(t) + multiset{x}
    ensures forall k :: 0 <= k < |r| ==> le(h, r[k])
  {
    forall k | 0 <= k < |r| ensures le(h, r[k]) {
      assert r[k] in multiset(r);
      if r[k] != x {
        assert r[k] in multiset(t);
        var m :| 0 <= m < |t| && t[m] == r[k];
      }
    }
  }

  /** Insert x into the sorted list s, before the first element it does not follow. */
  function Insert<T(!new)>(x: T, s: seq<T>, le: (T, T) -> bool): (r: seq<T>)
    requires TotalPreorder(le) && Sorted(s, le)
    ensures Sorted(r, le)
    ensures multiset(r) == multiset(s) + multiset{x}
    decreases |s|
  {
    if s == [] then [x]
    else if le(x, s[0]) then
      SortedCons(x, s, le);
      [x] + s
    else
      var rest := Insert(x, s[1..], le);
      assert s == [s[0]] + s[1..];
      LowerBoundOfInsert(s[0], x, s[1..], rest, le);
      SortedCons(s[0], rest, le);
      [s[0]] + rest
  }

  /** A sorted permutation of s (insertion sort; ties keep their order in s). */
  function Sort<T(!new)>(s: seq<T>, le: (T, T) -> bool): (r: seq<T>)
    requires TotalPreorder(le)
    ensures Sorted(r, le)
    ensures multiset(r) == multiset(s)
    decreases |s|
  {
    if s == [] then []
    else
      assert s == [s[0]] + s[1..];
      Insert(s[0], Sort(s[1..], le), le)
  }
}
