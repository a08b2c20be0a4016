/** Generic sequence queries that stand for the repository's `findOne`,
    `find` and JavaScript's `Array.prototype.filter`. */
module Seqs {
  import opened Common

  /** `r` lists elements of `s` in their order in `s` (an order-preserving
      selection). */
  predicate IsSubsequence<T(==)>(r: seq<T>, s: seq<T>)
    decreases |s|
  {
    if r == [] then true
    else if s == [] then false
    else if r[0] == s[0] then IsSubsequence(r[1..], s[1..])
    else IsSubsequence(r, s[1..])
  }

  predicate Distinct<T(==)>(s: seq<T>) {
    forall i, j :: 0 <= i < j < |s| ==> s[i] != s[j]
  }

  /** The first element satisfying `p`, as `findOne` returns it. */
  function FindFirst<T>(s: seq<T>, p: T -> bool): (r: Option<nat>)
    ensures r.Some? ==> r.value < |s| && p(s[r.value])
    ensures r.Some? ==> forall k :: 0 <= k < r.value ==> !p(s[k])
    ensures r.None? <==> forall k :: 0 <= k < |s| ==> !p(s[k])
  {
    if s == [] then None
    else if p(s[0]) then Some(0)
    else match FindFirst(s[1..], p)
      case None => None
      case Some(i) => Some(i + 1)
  }

  /** The elements of `s` satisfying `p`, in their original order. */
  function Filter<T(==)>(s: seq<T>, p: T -> bool): (r: seq<T>)
    ensures |r| <= |s|
    ensures forall x :: x in r ==> x in s && p(x)
    ensures forall x :: x in s && p(x) ==> x in r
    ensures IsSubsequence(r, s)
  {
    if s == [] then []
    else if p(s[0]) then [s[0]] + Filter(s[1..], p)
    else Filter(s[1..], p)
  }

  /** Filtering keeps everything exactly when everything satisfies `p`. */
  lemma {:induction false} FilterAll<T>(s: seq<T>, p: T -> bool)
    ensures Filter(s, p) == s <==> forall x :: x in s ==> p(x)
  {
    if s != [] {
      FilterAll(s[1..], p);
      if !p(s[0]) {
        assert |Filter(s, p)| < |s| by { assert Filter(s, p) == Filter(s[1..], p); }
      }
    }
  }

  /** Filtering distributes over concatenation. */
  lemma {:induction false} FilterConcat<T>(a: seq<T>, b: seq<T>, p: T -> bool)
    ensures Filter(a + b, p) == Filter(a, p) + Filter(b, p)
  {
    if a == [] {
      assert a + b == b;
    } else {
      assert (a + b)[1..] == a[1..] + b;
      FilterConcat(a[1..], b, p);
    }
  }

  /** The set of elements of `s`. */
  function Elements<T(==)>(s: seq<T>): set<T> {
    set x | x in s
  }

  /** A sequence has at most as many different elements as entries, and
      exactly as many when no element repeats. */
  lemma {:induction false} DistinctCount<T>(s: seq<T>)
    ensures |Elements(s)| <= |s|
    ensures |Elements(s)| == |s| <==> Distinct(s)
  {
    if s != [] {
      var rest := s[1..];
      DistinctCount(rest);
      assert Elements(s) == {s[0]} + Elements(rest);
      if s[0] in rest {
        assert Elements(s) == Elements(rest);
        var j :| 0 <= j < |rest| && rest[j] == s[0];
        assert s[0] == s[j + 1];
      } else {
        assert Distinct(s) <==> Distinct(rest) by {
          if Distinct(rest) {
            forall i, j | 0 <= i < j < |s|
              ensures s[i] != s[j]
            {
              if i == 0 {
                assert s[j] == rest[j - 1];
              } else {
                assert s[i] == rest[i - 1] && s[j] == rest[j - 1];
              }
            }
          }
          if Distinct(s) {
            forall i, j | 0 <= i < j < |rest|
              ensures rest[i] != rest[j]
            {
              assert rest[i] == s[i + 1] && rest[j] == s[j + 1];
            }
          }
        }
      }
    }
  }

  /** A subset is no larger, and a subset as large as its superset is the
      superset. */
  lemma SubsetCount<T>(a: set<T>, b: set<T>)
    requires a <= b
    ensures |a| <= |b|
    ensures |a| == |b| ==> a == b
  {
    assert b == a + (b - a);
    if a != b {
      var x :| x in b && x !in a;
      assert x in b - a;
    }
  }
}
