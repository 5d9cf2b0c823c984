/**
 Python's stable `sort(key=score, reverse=True)`: scores never increase along the
 result, and items of equal score keep the order they had.
 Scores are modelled as `real`; NaN is outside the model.
 */
module Ranking {

  datatype Scored<+T> = Scored(score: real, item: T)

  ghost predicate NonIncreasing(s: seq<real>) {
    forall i, j :: 0 <= i < j < |s| ==> s[i] >= s[j]
  }

  function Scores<T>(s: seq<Scored<T>>): (r: seq<real>)
    ensures |r| == |s|
    ensures forall i :: 0 <= i < |s| ==> r[i] == s[i].score
  {
    seq(|s|, i requires 0 <= i < |s| => s[i].score)
  }

  /** The items of score `v`, in order. */
  ghost function AtScore<T>(s: seq<Scored<T>>, v: real): seq<Scored<T>> {
    if s == [] then []
    else if s[0].score == v then [s[0]] + AtScore(s[1..], v)
    else AtScore(s[1..], v)
  }

  /** Puts `x` behind every item that scores at least as much. */
  function Insert<T>(s: seq<Scored<T>>, x: Scored<T>): seq<Scored<T>> {
    if s == [] then [x]
    else if s[0].score >= x.score then [s[0]] + Insert(s[1..], x)
    else [x] + s
  }

  function SortDesc<T>(s: seq<Scored<T>>): seq<Scored<T>> {
    if s == [] then []
    else Insert(SortDesc(s[..|s| - 1]), s[|s| - 1])
  }

  lemma AtScoreAppend<T>(a: seq<Scored<T>>, b: seq<Scored<T>>, v: real)
    ensures AtScore(a + b, v) == AtScore(a, v) + AtScore(b, v)
  {
    if a == [] {
      assert a + b == b;
    } else {
      assert (a + b)[1..] == a[1..] + b;
      AtScoreAppend(a[1..], b, v);
    }
  }

  lemma AtScoreMember<T>(s: seq<Scored<T>>, x: Scored<T>)
    ensures x in AtScore(s, x.score) <==> x in s
  {
    if s != [] { AtScoreMember(s[1..], x); }
  }

  lemma AtScoreBounded<T>(s: seq<Scored<T>>, v: real)
    requires forall i :: 0 <= i < |s| ==> s[i].score < v
    ensures AtScore(s, v) == []
  {
    if s != [] { AtScoreBounded(s[1..], v); }
  }

  lemma InsertMultiset<T>(s: seq<Scored<T>>, x: Scored<T>)
    ensures multiset(Insert(s, x)) == multiset(s) + multiset{x}
  {
    if s != [] {
      assert s == [s[0]] + s[1..];
      InsertMultiset(s[1..], x);
    }
  }

  lemma ConsSorted<T>(x: Scored<T>, rest: seq<Scored<T>>)
    requires NonIncreasing(Scores(rest))
    requires forall y :: y in rest ==> x.score >= y.score
    ensures NonIncreasing(Scores([x] + rest))
  {
    var s := [x] + rest;
    forall i, j | 0 <= i < j < |s| ensures Scores(s)[i] >= Scores(s)[j] {
      if i > 0 { assert Scores(rest)[i - 1] >= Scores(rest)[j - 1]; }
    }
  }

  lemma HeadBounds<T>(s: seq<Scored<T>>)
    requires s != [] && NonIncreasing(Scores(s))
    ensures forall y :: y in s ==> s[0].score >= y.score
  {
    forall y | y in s ensures s[0].score >= y.score {
      var k :| 0 <= k < |s| && s[k] == y;
      if k > 0 { assert Scores(s)[0] >= Scores(s)[k]; }
    }
  }

  lemma InsertSorted<T>(s: seq<Scored<T>>, x: Scored<T>)
    requires NonIncreasing(Scores(s))
    ensures NonIncreasing(Scores(Insert(s, x)))
  {
    if s != [] {
      HeadBounds(s);
      if s[0].score >= x.score {
        TailNonIncreasing(s);
        InsertSorted(s[1..], x);
        InsertMultiset(s[1..], x);
        forall y | y in Insert(s[1..], x) ensures s[0].score >= y.score {
          assert y in multiset(Insert(s[1..], x));
        }
        ConsSorted(s[0], Insert(s[1..], x));
      } else {
        ConsSorted(x, s);
      }
    }
  }

  lemma InsertStable<T>(s: seq<Scored<T>>, x: Scored<T>, v: real)
    requires NonIncreasing(Scores(s))
    ensures AtScore(Insert(s, x), v) == AtScore(s, v) + AtScore([x], v)
  {
    if s == [] {
    } else if s[0].score >= x.score {
      TailNonIncreasing(s);
      InsertStable(s[1..], x, v);
    } else {
      HeadBounds(s);
      AtScoreAppend([x], s, v);
      if v == x.score { AtScoreBounded(s, v); }
    }
  }

  /** What a stable descending sort promises. */
  ghost predicate IsStableSort<T(!new)>(s: seq<Scored<T>>, r: seq<Scored<T>>) {
    && NonIncreasing(Scores(r))
    && multiset(r) == multiset(s)
    && forall v :: AtScore(r, v) == AtScore(s, v)
  }

  lemma {:induction false} SortDescStable<T(!new)>(s: seq<Scored<T>>)
    ensures IsStableSort(s, SortDesc(s))
    ensures |SortDesc(s)| == |s|
  {
    if s != [] {
      var n := |s| - 1;
      assert s == s[..n] + [s[n]];
      SortDescStable(s[..n]);
      forall v ensures AtScore(SortDesc(s), v) == AtScore(s, v) {
        InsertStable(SortDesc(s[..n]), s[n], v);
        AtScoreAppend(s[..n], [s[n]], v);
      }
      InsertSorted(SortDesc(s[..n]), s[n]);
      InsertMultiset(SortDesc(s[..n]), s[n]);
    }
    assert |SortDesc(s)| == |multiset(SortDesc(s))| == |multiset(s)| == |s|;
  }

  /** The promise leaves no freedom: there is one stable descending order. */
  lemma {:induction false} StableSortUnique<T(!new)>(a: seq<Scored<T>>, b: seq<Scored<T>>)
    requires NonIncreasing(Scores(a)) && NonIncreasing(Scores(b))
    requires forall v :: AtScore(a, v) == AtScore(b, v)
    ensures a == b
  {
    SameEmptiness(a, b);
    if a != [] {
      HeadIsTop(a, b);
      HeadIsTop(b, a);
      assert AtScore(a, a[0].score)[0] == AtScore(b, a[0].score)[0];
      assert a[0] == b[0];
      forall v ensures AtScore(a[1..], v) == AtScore(b[1..], v) {
        assert AtScore(a, v) == AtScore(b, v);
        if v == a[0].score {
          assert AtScore(a, v)[1..] == AtScore(a[1..], v);
          assert AtScore(b, v)[1..] == AtScore(b[1..], v);
        }
      }
      TailNonIncreasing(a);
      TailNonIncreasing(b);
      StableSortUnique(a[1..], b[1..]);
    }
  }

  lemma SameEmptiness<T(!new)>(a: seq<Scored<T>>, b: seq<Scored<T>>)
    requires forall v :: AtScore(a, v) == AtScore(b, v)
    ensures a == [] <==> b == []
  {
    if a != [] { AtScoreMember(a, a[0]); AtScoreMember(b, a[0]); }
    if b != [] { AtScoreMember(b, b[0]); AtScoreMember(a, b[0]); }
  }

  lemma HeadIsTop<T(!new)>(a: seq<Scored<T>>, b: seq<Scored<T>>)
    requires a != [] && b != []
    requires NonIncreasing(Scores(a))
    requires forall v :: AtScore(a, v) == AtScore(b, v)
    ensures a[0].score >= b[0].score
  {
    AtScoreMember(b, b[0]);
    AtScoreMember(a, b[0]);
    HeadBounds(a);
  }

  lemma TailNonIncreasing<T>(s: seq<Scored<T>>)
    requires s != [] && NonIncreasing(Scores(s))
    ensures NonIncreasing(Scores(s[1..]))
  {
    forall i, j | 0 <= i < j < |s| - 1 ensures Scores(s[1..])[i] >= Scores(s[1..])[j] {
      assert Scores(s)[i + 1] >= Scores(s)[j + 1];
    }
  }

  /** Sorting what is already sorted changes nothing. */
  lemma SortDescFixed<T(!new)>(s: seq<Scored<T>>)
    requires NonIncreasing(Scores(s))
    ensures SortDesc(s) == s
  {
    SortDescStable(s);
    StableSortUnique(SortDesc(s), s);
  }

  /** How many entries of a score list are at least `t`. */
  ghost function CountAtLeast(s: seq<real>, t: real): nat {
    if s == [] then 0 else (if s[0] >= t then 1 else 0) + CountAtLeast(s[1..], t)
  }

  lemma CountAtLeastBound(s: seq<real>, t: real)
    ensures CountAtLeast(s, t) <= |s|
    ensures CountAtLeast(s, t) == |s| <==> forall i :: 0 <= i < |s| ==> s[i] >= t
    ensures CountAtLeast(s, t) == 0 <==> forall i :: 0 <= i < |s| ==> s[i] < t
  {
    if s != [] {
      CountAtLeastBound(s[1..], t);
      assert forall i :: 0 < i < |s| ==> s[i] == s[1..][i - 1];
    }
  }

  /** A non-increasing score list is determined by its threshold counts. */
  lemma {:induction false} CountsDetermine(a: seq<real>, b: seq<real>)
    requires NonIncreasing(a) && NonIncreasing(b)
    requires forall t :: CountAtLeast(a, t) == CountAtLeast(b, t)
    ensures a == b
  {
    if a != [] { CountAtLeastBound(a, a[0]); CountAtLeastBound(b, a[0]); }
    if b != [] { CountAtLeastBound(a, b[0]); CountAtLeastBound(b, b[0]); }
    assert a == [] <==> b == [];
    if a != [] {
      assert CountAtLeast(a, a[0]) == CountAtLeast(b, a[0]) && CountAtLeast(a, b[0]) == CountAtLeast(b, b[0]);
      assert a[0] == b[0];
      forall t ensures CountAtLeast(a[1..], t) == CountAtLeast(b[1..], t) {
        assert CountAtLeast(a, t) == CountAtLeast(b, t);
      }
      CountsDetermine(a[1..], b[1..]);
    }
  }
}
