/** Sequence helpers that stand in for SQL `WHERE` filters, `ORDER BY`
    clauses and string comparison. */
module Seqs {
  import opened Wrappers

  /** The first element of `s` that satisfies `p` (a `QueryRow` lookup);
      `None` when no row matches. */
  function Find<T>(s: seq<T>, p: T -> bool): (r: Option<T>)
    ensures r.Some? ==> r.value in s && p(r.value)
    ensures r.None? <==> forall i :: 0 <= i < |s| ==> !p(s[i])
  {
    if s == [] then None
    else if p(s[0]) then Some(s[0])
    else
      assert forall i :: 0 <= i < |s[1..]| ==> s[1..][i] == s[i + 1];
      Find(s[1..], p)
  }

  /** The element `Find` returns sits at an index no earlier match precedes. */
  lemma {:induction false} FindIsFirst<T>(s: seq<T>, p: T -> bool)
    requires Find(s, p).Some?
    ensures exists i :: 0 <= i < |s| && s[i] == Find(s, p).value && forall j :: 0 <= j < i ==> !p(s[j])
  {
    if !p(s[0]) {
      var tail := s[1..];
      FindIsFirst(tail, p);
      var i :| 0 <= i < |tail| && tail[i] == Find(tail, p).value && forall j :: 0 <= j < i ==> !p(tail[j]);
      assert s[i + 1] == tail[i];
      forall j | 0 <= j < i + 1 ensures !p(s[j]) {
        if j > 0 { assert s[j] == tail[j - 1]; }
      }
    }
  }

  /** `Find` returns the element at the first index that satisfies `p`. */
  lemma FindFirst<T>(s: seq<T>, p: T -> bool, k: nat)
    requires k < |s| && p(s[k])
    requires forall j :: 0 <= j < k ==> !p(s[j])
    ensures Find(s, p) == Some(s[k])
  {
    var r := Find(s, p);
    FindIsFirst(s, p);
    var i :| 0 <= i < |s| && s[i] == r.value && forall j :: 0 <= j < i ==> !p(s[j]);
  }

  /** Sequences with the same members have a match for `p` or lack one together. */
  lemma FindSameMembers<T>(a: seq<T>, b: seq<T>, p: T -> bool)
    requires forall i :: 0 <= i < |a| ==> a[i] in b
    requires forall i :: 0 <= i < |b| ==> b[i] in a
    ensures Find(a, p).None? <==> Find(b, p).None?
  {
    if Find(a, p).Some? {
      var k :| 0 <= k < |b| && b[k] == Find(a, p).value;
    }
    if Find(b, p).Some? {
      var k :| 0 <= k < |a| && a[k] == Find(b, p).value;
    }
  }

  /** Two sequences that agree on every element satisfying `p`, at the same
      indices, give the same `Find` result. */
  lemma {:induction false} FindAgree<T>(s: seq<T>, t: seq<T>, p: T -> bool)
    requires |s| <= |t|
    requires forall i :: 0 <= i < |s| ==> (p(s[i]) <==> p(t[i])) && (p(s[i]) ==> s[i] == t[i])
    requires forall i :: |s| <= i < |t| ==> !p(t[i])
    ensures Find(s, p) == Find(t, p)
  {
    if s == [] {
      assert forall i :: 0 <= i < |t| ==> !p(t[i]);
    } else if !p(s[0]) {
      assert forall i :: 0 <= i < |s| - 1 ==> s[1..][i] == s[i + 1] && t[1..][i] == t[i + 1];
      assert forall i :: |s| - 1 <= i < |t| - 1 ==> t[1..][i] == t[i + 1];
      FindAgree(s[1..], t[1..], p);
    }
  }

  /** The rows of `s` that satisfy `p`, in their original order (a `WHERE` clause). */
  function Filter<T>(s: seq<T>, p: T -> bool): (r: seq<T>)
    ensures |r| <= |s|
    ensures forall i :: 0 <= i < |r| ==> r[i] in s && p(r[i])
    ensures forall i :: 0 <= i < |s| && p(s[i]) ==> s[i] in r
    ensures multiset(r) <= multiset(s)
  {
    if s == [] then []
    else
      assert s == [s[0]] + s[1..];
      if p(s[0]) then [s[0]] + Filter(s[1..], p)
      else Filter(s[1..], p)
  }

  lemma {:induction false} FilterAppend<T>(a: seq<T>, b: seq<T>, p: T -> bool)
    ensures Filter(a + b, p) == Filter(a, p) + Filter(b, p)
  {
    if a == [] {
      assert a + b == b;
    } else {
      assert (a + b)[1..] == a[1..] + b;
      FilterAppend(a[1..], b, p);
    }
  }

  /** A relation that holds between every earlier and later element of `s`
      still holds in `Filter(s, p)`, which keeps the original order. */
  lemma {:induction false} FilterPairwise<T>(s: seq<T>, p: T -> bool, rel: (T, T) -> bool)
    requires forall i, j :: 0 <= i < j < |s| ==> rel(s[i], s[j])
    ensures forall i, j :: 0 <= i < j < |Filter(s, p)| ==> rel(Filter(s, p)[i], Filter(s, p)[j])
  {
    if s != [] {
      var tail := s[1..];
      assert forall i :: 0 <= i < |tail| ==> tail[i] == s[i + 1];
      FilterPairwise(tail, p, rel);
      var rest := Filter(tail, p);
      if p(s[0]) {
        FilterFirstRelated(s[0], tail, p, rel);
        var r := [s[0]] + rest;
        assert r == Filter(s, p);
        forall i, j | 0 <= i < j < |r| ensures rel(r[i], r[j]) {
          if i == 0 {
            assert r[j] == rest[j - 1];
          } else {
            assert r[i] == rest[i - 1] && r[j] == rest[j - 1];
          }
        }
      }
    }
  }

  /** An element related to every element of `s` is related to every element of `Filter(s, p)`. */
  lemma FilterFirstRelated<T>(x: T, s: seq<T>, p: T -> bool, rel: (T, T) -> bool)
    requires forall k :: 0 <= k < |s| ==> rel(x, s[k])
    ensures forall j :: 0 <= j < |Filter(s, p)| ==> rel(x, Filter(s, p)[j])
  {
    var r := Filter(s, p);
    forall j | 0 <= j < |r| ensures rel(x, r[j]) {
      var k :| 0 <= k < |s| && s[k] == r[j];
    }
  }

  /** Every element of `s` is ordered before its successor by `le`. */
  ghost predicate SortedBy<T>(s: seq<T>, le: (T, T) -> bool) {
    forall i :: 0 <= i < |s| - 1 ==> le(s[i], s[i + 1])
  }

  /** Every element of `s` is ordered before every later element by `le`. */
  ghost predicate Ordered<T>(s: seq<T>, le: (T, T) -> bool) {
    forall i, j :: 0 <= i < j < |s| ==> le(s[i], s[j])
  }

  ghost predicate Transitive<T(!new)>(le: (T, T) -> bool) {
    forall a, b, c :: le(a, b) && le(b, c) ==> le(a, c)
  }

  /** For a transitive key, ordering neighbours orders every pair. */
  lemma SortedByOrdered<T(!new)>(s: seq<T>, le: (T, T) -> bool)
    requires Transitive(le) && SortedBy(s, le)
    ensures Ordered(s, le)
  {
    forall i, j | 0 <= i < j < |s| ensures le(s[i], s[j]) {
      SortedByFrom(s, le, i, j);
    }
  }

  lemma {:induction false} SortedByFrom<T(!new)>(s: seq<T>, le: (T, T) -> bool, i: nat, j: nat)
    requires Transitive(le) && SortedBy(s, le) && i < j < |s|
    ensures le(s[i], s[j])
    decreases j - i
  {
    if i + 1 < j {
      SortedByFrom(s, le, i, j - 1);
    }
  }

  /** `le` relates every pair one way or the other, as an `ORDER BY` key does. */
  ghost predicate Total<T(!new)>(le: (T, T) -> bool) {
    forall a, b :: le(a, b) || le(b, a)
  }

  /** Places `x` in front of the first element it is ordered before;
      equal elements keep `x` first, so sorting is stable. */
  function Insert<T>(x: T, s: seq<T>, le: (T, T) -> bool): (r: seq<T>)
    ensures |r| == |s| + 1
    ensures multiset(r) == multiset{x} + multiset(s)
    ensures r[0] == x || (s != [] && r[0] == s[0])
  {
    if s == [] then [x]
    else if le(x, s[0]) then [x] + s
    else
      assert s == [s[0]] + s[1..];
      [s[0]] + Insert(x, s[1..], le)
  }

  /** Stable insertion sort: the model of an `ORDER BY` clause. */
  function SortBy<T>(s: seq<T>, le: (T, T) -> bool): (r: seq<T>)
    ensures |r| == |s|
    ensures multiset(r) == multiset(s)
  {
    if s == [] then []
    else
      assert s == [s[0]] + s[1..];
      Insert(s[0], SortBy(s[1..], le), le)
  }

  lemma {:induction false} InsertSorted<T(!new)>(x: T, s: seq<T>, le: (T, T) -> bool)
    requires Total(le)
    requires SortedBy(s, le)
    ensures SortedBy(Insert(x, s, le), le)
  {
    if s != [] && !le(x, s[0]) {
      var t := Insert(x, s[1..], le);
      assert SortedBy(s[1..], le) by {
        forall i | 0 <= i < |s[1..]| - 1 ensures le(s[1..][i], s[1..][i + 1]) {
          assert s[1..][i] == s[i + 1] && s[1..][i + 1] == s[i + 2];
        }
      }
      InsertSorted(x, s[1..], le);
      assert le(s[0], t[0]) by {
        if t[0] != x { assert t[0] == s[1]; }
      }
      var r := [s[0]] + t;
      forall i | 0 <= i < |r| - 1 ensures le(r[i], r[i + 1]) {
        if i > 0 { assert r[i] == t[i - 1] && r[i + 1] == t[i]; }
      }
    }
  }

  lemma {:induction false} SortBySorted<T(!new)>(s: seq<T>, le: (T, T) -> bool)
    requires Total(le)
    ensures SortedBy(SortBy(s, le), le)
  {
    if s != [] {
      SortBySorted(s[1..], le);
      InsertSorted(s[0], SortBy(s[1..], le), le);
    }
  }

  lemma SortByMembers<T>(s: seq<T>, le: (T, T) -> bool)
    ensures forall x :: x in SortBy(s, le) <==> x in s
  {
    var r := SortBy(s, le);
    forall x ensures x in r <==> x in s {
      assert x in r <==> x in multiset(r);
      assert x in s <==> x in multiset(s);
    }
  }

  /** `WHERE p ORDER BY le`: the rows of `s` that satisfy `p`, sorted stably. */
  function SelectOrdered<T(!new)>(s: seq<T>, p: T -> bool, le: (T, T) -> bool): (r: seq<T>)
    requires Total(le)
    ensures forall i :: 0 <= i < |r| ==> r[i] in s && p(r[i])
    ensures forall i :: 0 <= i < |s| && p(s[i]) ==> s[i] in r
    ensures multiset(r) == multiset(Filter(s, p))
    ensures SortedBy(r, le)
    ensures Transitive(le) ==> Ordered(r, le)
  {
    var f := Filter(s, p);
    SortBySorted(f, le);
    SortByMembers(f, le);
    var r := SortBy(f, le);
    assert forall i :: 0 <= i < |r| ==> r[i] in f;
    assert Transitive(le) ==> Ordered(r, le) by {
      if Transitive(le) { SortedByOrdered(r, le); }
    }
    r
  }

  /** Code-point order on strings, the order PostgreSQL's "C" collation
      gives: a proper prefix comes first, otherwise the first differing
      character decides. */
  predicate LexLe(a: string, b: string)
  {
    if |a| == 0 then true
    else if |b| == 0 then false
    else if a[0] != b[0] then a[0] < b[0]
    else LexLe(a[1..], b[1..])
  }

  lemma {:induction false} LexLeTotal(a: string, b: string)
    ensures LexLe(a, b) || LexLe(b, a)
  {
    if |a| > 0 && |b| > 0 && a[0] == b[0] {
      LexLeTotal(a[1..], b[1..]);
    }
  }

  lemma {:induction false} LexLeAntisymmetric(a: string, b: string)
    requires LexLe(a, b) && LexLe(b, a)
    ensures a == b
  {
    if |a| > 0 && |b| > 0 {
      LexLeAntisymmetric(a[1..], b[1..]);
      assert a == [a[0]] + a[1..] && b == [b[0]] + b[1..];
    }
  }

  lemma {:induction false} LexLeTransitive(a: string, b: string, c: string)
    requires LexLe(a, b) && LexLe(b, c)
    ensures LexLe(a, c)
  {
    if |a| > 0 && |b| > 0 && |c| > 0 && a[0] == b[0] && b[0] == c[0] {
      LexLeTransitive(a[1..], b[1..], c[1..]);
    }
  }

  /** `s` with later repetitions removed: JavaScript's `Array.from(new Set(s))`,
      which adds the elements in order and ignores those already present. */
  function Distinct<T(==)>(s: seq<T>): (r: seq<T>)
    ensures forall i :: 0 <= i < |r| ==> r[i] in s
    ensures forall i :: 0 <= i < |s| ==> s[i] in r
    ensures forall i, j :: 0 <= i < j < |r| ==> r[i] != r[j]
  {
    if s == [] then []
    else
      var d := Distinct(s[..|s| - 1]);
      var last := s[|s| - 1];
      assert forall i :: 0 <= i < |s| - 1 ==> s[i] == s[..|s| - 1][i];
      if last in d then d else d + [last]
  }

  /** First-occurrence order: the distinct elements of a prefix of `s` are a
      prefix of the distinct elements of `s`. */
  lemma {:induction false} DistinctPrefix<T>(s: seq<T>, n: nat)
    requires n <= |s|
    ensures Distinct(s[..n]) <= Distinct(s)
    decreases |s| - n
  {
    if n < |s| {
      DistinctPrefix(s, n + 1);
      assert s[..n + 1][..n] == s[..n];
    } else {
      assert s[..n] == s;
    }
  }

  /** Threads a state through `step` over the first `n` elements of `xs`,
      collecting the outputs in order; `inv` holds of every state passed. */
  ghost function Thread<S(!new), X(!new), L>(s: S, xs: seq<X>, n: nat, step: (S, X) --> (L, S), inv: S -> bool): (r: (seq<L>, S))
    requires n <= |xs| && inv(s)
    requires forall t, x :: inv(t) ==> step.requires(t, x) && inv(step(t, x).1)
    ensures |r.0| == n && inv(r.1)
  {
    if n == 0 then ([], s)
    else
      var prev := Thread(s, xs, n - 1, step, inv);
      var next := step(prev.1, xs[n - 1]);
      (prev.0 + [next.0], next.1)
  }

  /** Output `k` of the threading is what `step` gives for element `k` on
      the state the first `k` steps left behind. */
  lemma {:induction false} ThreadOutput<S(!new), X(!new), L>(s: S, xs: seq<X>, n: nat, k: nat, step: (S, X) --> (L, S), inv: S -> bool)
    requires k < n <= |xs| && inv(s)
    requires forall t, x :: inv(t) ==> step.requires(t, x) && inv(step(t, x).1)
    ensures Thread(s, xs, n, step, inv).0[k] == step(Thread(s, xs, k, step, inv).1, xs[k]).0
  {
    if k < n - 1 {
      ThreadOutput(s, xs, n - 1, k, step, inv);
    }
  }
}
