/**
 * The array operations the source uses (`findIndex`, `find`, `map` followed
 * by a null filter) and order-preserving subsequences.
 */
module Seqs {
  import opened Wrappers

  /** `s.findIndex(p)`: the first index whose element satisfies `p`, or -1. */
  function FindIndex<T>(s: seq<T>, p: T -> bool): (r: int)
    ensures -1 <= r < |s|
    ensures r >= 0 ==> p(s[r]) && forall j :: 0 <= j < r ==> !p(s[j])
    ensures r == -1 ==> forall j :: 0 <= j < |s| ==> !p(s[j])
  {
    if |s| == 0 then -1
    else if p(s[0]) then 0
    else
      var k := FindIndex(s[1..], p);
      if k == -1 then -1 else k + 1
  }

  /** `s.find(p)`: the first element satisfying `p`, or `None`. */
  function Find<T>(s: seq<T>, p: T -> bool): (r: Option<T>)
    ensures r.None? <==> forall j :: 0 <= j < |s| ==> !p(s[j])
    ensures r.Some? ==> p(r.value) && exists j :: 0 <= j < |s| && s[j] == r.value && forall i :: 0 <= i < j ==> !p(s[i])
  {
    var k := FindIndex(s, p);
    if k == -1 then None else Some(s[k])
  }

  /** `a` is `b` with some elements left out and the rest kept in order. */
  ghost predicate IsSubsequence<T>(a: seq<T>, b: seq<T>)
    decreases |b|
  {
    if a == [] then true
    else if b == [] then false
    else (a[0] == b[0] && IsSubsequence(a[1..], b[1..])) || IsSubsequence(a, b[1..])
  }

  /** Two searches that test corresponding elements alike find the same index. */
  lemma FindIndexAgree<T, U>(a: seq<T>, p: T -> bool, b: seq<U>, q: U -> bool)
    requires |a| == |b|
    requires forall i :: 0 <= i < |a| ==> p(a[i]) == q(b[i])
    ensures FindIndex(a, p) == FindIndex(b, q)
  {
    var r1, r2 := FindIndex(a, p), FindIndex(b, q);
    if r1 >= 0 {
      assert q(b[r1]);
    }
    if r2 >= 0 {
      assert p(a[r2]);
    }
  }

  /** `s.map(f).filter(x => x !== null)`, with `None` standing for `null`. */
  function FilterMap<T, U>(s: seq<T>, f: T -> Option<U>): (r: seq<U>)
    ensures |r| <= |s|
  {
    if s == [] then []
    else match f(s[0])
      case None => FilterMap(s[1..], f)
      case Some(y) => [y] + FilterMap(s[1..], f)
  }

  /** The mapping works element by element: it distributes over concatenation. */
  lemma {:induction false} FilterMapAppend<T, U>(a: seq<T>, b: seq<T>, f: T -> Option<U>)
    ensures FilterMap(a + b, f) == FilterMap(a, f) + FilterMap(b, f)
  {
    if a == [] {
      assert a + b == b;
    } else {
      var ab := a + b;
      assert ab[0] == a[0] && ab[1..] == a[1..] + b;
      FilterMapAppend(a[1..], b, f);
      match f(a[0])
      case None =>
      case Some(y) =>
        assert [y] + (FilterMap(a[1..], f) + FilterMap(b, f)) == ([y] + FilterMap(a[1..], f)) + FilterMap(b, f);
    }
  }

  /** An element is kept exactly when some input element maps to it. */
  lemma {:induction false} FilterMapMember<T, U>(s: seq<T>, f: T -> Option<U>, y: U)
    ensures y in FilterMap(s, f) <==> exists i :: 0 <= i < |s| && f(s[i]) == Some(y)
  {
    if s != [] {
      var rest := s[1..];
      FilterMapMember(rest, f, y);
      if exists i :: 0 <= i < |s| && f(s[i]) == Some(y) {
        var i :| 0 <= i < |s| && f(s[i]) == Some(y);
        if i > 0 {
          assert rest[i - 1] == s[i];
        }
      }
      if exists i :: 0 <= i < |rest| && f(rest[i]) == Some(y) {
        var i :| 0 <= i < |rest| && f(rest[i]) == Some(y);
        assert s[i + 1] == rest[i];
      }
    }
  }
}
