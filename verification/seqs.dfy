/** Sequence helpers shared by the tables of the store: filtering (a
    DELETE ... WHERE, a queryset .filter()), lookup, sums, and the pairwise
    predicates in which uniqueness and ordering constraints are written. */
module Seqs {
  import opened Outcomes

  /** `r` can be obtained from `s` by deleting elements (greedy matching). */
  predicate IsSubseq<T(==)>(r: seq<T>, s: seq<T>)
    decreases |s|
  {
    if r == [] then true
    else if s == [] then false
    else if r[0] == s[0] then IsSubseq(r[1..], s[1..])
    else IsSubseq(r, s[1..])
  }

  /** The elements of `s` satisfying `f`, in their original order. */
  function Filter<T(!new)>(f: T -> bool, s: seq<T>): (r: seq<T>)
    ensures |r| <= |s|
    ensures forall x :: x in r <==> x in s && f(x)
    ensures IsSubseq(r, s)
  {
    if s == [] then []
    else if f(s[0]) then [s[0]] + Filter(f, s[1..])
    else Filter(f, s[1..])
  }

  /** The first element of `s` satisfying `f`, if any. */
  function Find<T(!new)>(f: T -> bool, s: seq<T>): (r: Option<T>)
    ensures r.Some? ==> r.value in s && f(r.value)
    ensures r.None? <==> forall x :: x in s ==> !f(x)
  {
    if s == [] then None
    else if f(s[0]) then Some(s[0])
    else Find(f, s[1..])
  }

  /** The position of the first element of `s` satisfying `f`, if any. */
  function FindIndex<T>(f: T -> bool, s: seq<T>): (r: Option<nat>)
    ensures r.Some? ==> r.value < |s| && f(s[r.value])
    ensures r.Some? ==> forall i :: 0 <= i < r.value ==> !f(s[i])
    ensures r.None? <==> forall i :: 0 <= i < |s| ==> !f(s[i])
    decreases |s|
  {
    if s == [] then None
    else if f(s[0]) then Some(0)
    else match FindIndex(f, s[1..])
      case None => None
      case Some(k) => Some(k + 1)
  }

  function Sum(xs: seq<int>): int
  {
    if xs == [] then 0 else xs[0] + Sum(xs[1..])
  }

  /** `s` in the opposite order. */
  function Reverse<T(!new)>(s: seq<T>): (r: seq<T>)
    ensures |r| == |s|
    ensures forall x :: x in r <==> x in s
    ensures forall i :: 0 <= i < |s| ==> r[i] == s[|s| - 1 - i]
  {
    if s == [] then [] else Reverse(s[1..]) + [s[0]]
  }

  /** Every earlier element relates to every later one by `P`. */
  predicate Pairwise<T>(s: seq<T>, P: (T, T) -> bool)
  {
    forall i, j :: 0 <= i < j < |s| ==> P(s[i], s[j])
  }

  lemma {:induction false} SubseqMembers<T>(r: seq<T>, s: seq<T>)
    requires IsSubseq(r, s)
    ensures forall x :: x in r ==> x in s
    decreases |s|
  {
    if r == [] {
    } else if r[0] == s[0] {
      SubseqMembers(r[1..], s[1..]);
      assert r == [r[0]] + r[1..];
      assert s == [s[0]] + s[1..];
    } else {
      SubseqMembers(r, s[1..]);
      assert s == [s[0]] + s[1..];
    }
  }

  /** Deleting elements keeps every pairwise (uniqueness or ordering) constraint. */
  lemma {:induction false} SubseqKeepsPairwise<T>(r: seq<T>, s: seq<T>, P: (T, T) -> bool)
    requires IsSubseq(r, s)
    requires Pairwise(s, P)
    ensures Pairwise(r, P)
    decreases |s|
  {
    if r == [] {
    } else if r[0] == s[0] {
      SubseqKeepsPairwise(r[1..], s[1..], P);
      SubseqMembers(r[1..], s[1..]);
      forall j | 0 < j < |r|
        ensures P(r[0], r[j])
      {
        assert r[j] == r[1..][j - 1];
        assert r[j] in r[1..];
        assert r[j] in s[1..];
        var k :| 0 <= k < |s[1..]| && s[1..][k] == r[j];
        assert s[k + 1] == r[j];
      }
      forall i, j | 0 <= i < j < |r|
        ensures P(r[i], r[j])
      {
        if i > 0 {
          assert r[i] == r[1..][i - 1] && r[j] == r[1..][j - 1];
        }
      }
    } else {
      SubseqKeepsPairwise(r, s[1..], P);
    }
  }

  /** Appending `x` keeps `P` when every present element relates to `x`. */
  lemma AppendKeepsPairwise<T>(s: seq<T>, x: T, P: (T, T) -> bool)
    requires Pairwise(s, P)
    requires forall y :: y in s ==> P(y, x)
    ensures Pairwise(s + [x], P)
  {
    var t := s + [x];
    forall i, j | 0 <= i < j < |t|
      ensures P(t[i], t[j])
    {
      assert t[i] == s[i];
      if j < |s| {
        assert t[j] == s[j];
      }
    }
  }

  /** Replacing one element keeps `P` when the new element relates to the
      others the same way the old one did. */
  lemma ReplaceKeepsPairwise<T>(s: seq<T>, k: nat, x: T, P: (T, T) -> bool)
    requires k < |s|
    requires Pairwise(s, P)
    requires forall i :: 0 <= i < k ==> P(s[i], x)
    requires forall j :: k < j < |s| ==> P(x, s[j])
    ensures Pairwise(s[k := x], P)
  {
  }

  /** Filtering distributes over concatenation. */
  lemma {:induction false} FilterAppend<T(!new)>(f: T -> bool, a: seq<T>, b: seq<T>)
    ensures Filter(f, a + b) == Filter(f, a) + Filter(f, b)
    decreases |a|
  {
    if a == [] {
      assert a + b == b;
    } else {
      var ab := a + b;
      assert ab != [] && ab[0] == a[0];
      assert ab[1..] == a[1..] + b;
      FilterAppend(f, a[1..], b);
      if f(a[0]) {
        calc {
          Filter(f, ab);
          [a[0]] + Filter(f, a[1..] + b);
          [a[0]] + (Filter(f, a[1..]) + Filter(f, b));
          ([a[0]] + Filter(f, a[1..])) + Filter(f, b);
        }
      }
    }
  }

  /** Filtering by a condition every element meets changes nothing. */
  lemma {:induction false} FilterAll<T(!new)>(f: T -> bool, s: seq<T>)
    requires forall x :: x in s ==> f(x)
    ensures Filter(f, s) == s
    decreases |s|
  {
    if s != [] {
      FilterAll(f, s[1..]);
      assert s == [s[0]] + s[1..];
    }
  }

  /** Sums of bounded elements are bounded. */
  lemma {:induction false} SumBounds(xs: seq<int>, lo: int, hi: int)
    requires forall i :: 0 <= i < |xs| ==> lo <= xs[i] <= hi
    ensures lo * |xs| <= Sum(xs) <= hi * |xs|
    decreases |xs|
  {
    if xs != [] {
      SumBounds(xs[1..], lo, hi);
    }
  }
}
