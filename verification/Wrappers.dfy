/** Result types shared by the components. */
module Wrappers {

  datatype Option<+T> = None | Some(value: T)

  /** A call that returns, or raises the named Python exception. */
  datatype Result<+T> = Ok(value: T) | Raise(exception: string)

  function Min(a: nat, b: nat): nat { if a < b then a else b }

  function Concat<T>(s: seq<seq<T>>): seq<T> {
    if s == [] then [] else Concat(s[..|s| - 1]) + s[|s| - 1]
  }

  lemma {:induction false} ConcatAppend<T>(a: seq<seq<T>>, b: seq<seq<T>>)
    ensures Concat(a + b) == Concat(a) + Concat(b)
  {
    if b == [] {
      assert a + b == a;
    } else {
      var n := |b| - 1;
      assert (a + b)[..|a| + n] == a + b[..n];
      ConcatAppend(a, b[..n]);
      Assoc(Concat(a), Concat(b[..n]), b[n]);
    }
  }

  lemma Assoc<T>(a: seq<T>, b: seq<T>, c: seq<T>)
    ensures a + b + c == a + (b + c)
  {
  }

  lemma Regroup<T>(a: seq<T>, b: seq<T>, c: seq<T>, d: seq<T>)
    ensures a + b + c + d == a + (b + c + d)
  {
  }

  lemma SubsetSize<T>(a: set<T>, b: set<T>)
    requires a <= b
    ensures |a| <= |b|
    ensures |a| == |b| ==> a == b
  {
    assert b == a + (b - a);
  }

  /** Python's `s[:n]`: a negative `n` counts from the end. */
  function Slice<T>(s: seq<T>, n: int): (r: seq<T>)
    ensures r <= s
    ensures 0 <= n ==> |r| == if n < |s| then n else |s|
    ensures n < 0 ==> |r| == if -n < |s| then |s| + n else 0
  {
    if 0 <= n then (if n < |s| then s[..n] else s)
    else if -n < |s| then s[..|s| + n]
    else []
  }

  ghost predicate Distinct<T>(s: seq<T>) {
    forall i, j :: 0 <= i < j < |s| ==> s[i] != s[j]
  }

  lemma DistinctSetSize<T>(s: seq<T>)
    requires Distinct(s)
    ensures |set x | x in s| == |s|
  {
    if s != [] {
      var n := |s| - 1;
      DistinctSetSize(s[..n]);
      assert (set x | x in s) == (set x | x in s[..n]) + {s[n]} by {
        assert s == s[..n] + [s[n]];
      }
      assert s[n] !in s[..n];
    }
  }

  lemma DistinctCounts<T>(s: seq<T>)
    ensures Distinct(s) <==> forall x :: multiset(s)[x] <= 1
  {
    if s != [] {
      var n := |s| - 1;
      assert s == s[..n] + [s[n]];
      DistinctCounts(s[..n]);
      if Distinct(s) {
        assert s[n] !in s[..n];
        assert s[n] !in multiset(s[..n]);
      } else if Distinct(s[..n]) {
        var i :| 0 <= i < n && s[i] == s[n];
        assert s[n] in s[..n];
        assert multiset(s)[s[n]] >= 2;
      } else {
        var x :| multiset(s[..n])[x] > 1;
        assert multiset(s)[x] > 1;
      }
    }
  }

  /** A rearrangement of distinct values is distinct. */
  lemma DistinctPermutation<T>(a: seq<T>, b: seq<T>)
    requires Distinct(a) && multiset(a) == multiset(b)
    ensures Distinct(b)
    ensures forall x :: x in a <==> x in b
  {
    DistinctCounts(a);
    DistinctCounts(b);
    forall x ensures x in a <==> x in b {
      assert x in a <==> x in multiset(a);
      assert x in b <==> x in multiset(b);
    }
  }

  /** `a` results from `b` by leaving elements out. */
  ghost predicate IsSubsequence<T>(a: seq<T>, b: seq<T>) {
    if a == [] then true
    else if b == [] then false
    else if a[0] == b[0] && IsSubsequence(a[1..], b[1..]) then true
    else IsSubsequence(a, b[1..])
  }

  lemma SubsequencePrepend<T>(a: seq<T>, front: seq<T>, b: seq<T>)
    requires IsSubsequence(a, b)
    ensures IsSubsequence(a, front + b)
  {
    if front == [] {
      assert front + b == b;
    } else {
      assert (front + b)[1..] == front[1..] + b;
      SubsequencePrepend(a, front[1..], b);
    }
  }

  lemma SubsequenceCons<T>(x: T, a: seq<T>, b: seq<T>)
    requires IsSubsequence(a, b)
    ensures IsSubsequence([x] + a, [x] + b)
  {
    assert ([x] + a)[1..] == a && ([x] + b)[1..] == b;
  }

  lemma {:induction false} SubsequenceConcat<T>(a: seq<T>, b: seq<T>, c: seq<T>, d: seq<T>)
    requires IsSubsequence(a, b) && IsSubsequence(c, d)
    ensures IsSubsequence(a + c, b + d)
  {
    if a == [] {
      assert a + c == c;
      SubsequencePrepend(c, b, d);
    } else if a[0] == b[0] && IsSubsequence(a[1..], b[1..]) {
      SubsequenceConcat(a[1..], b[1..], c, d);
      SubsequenceCons(a[0], a[1..] + c, b[1..] + d);
      assert [a[0]] + (a[1..] + c) == a + c && [b[0]] + (b[1..] + d) == b + d;
    } else {
      SubsequenceConcat(a, b[1..], c, d);
      SubsequencePrepend(a + c, [b[0]], b[1..] + d);
      assert [b[0]] + (b[1..] + d) == b + d;
    }
  }
}
