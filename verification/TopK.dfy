/**
 What the merge promises: it is the top `k` of the best score of each distinct
 document.
 */
module TopK {
  import opened Wrappers
  import opened Ranking
  import opened Retrieval

  function Distances<M>(hits: seq<Hit<M>>): (r: seq<real>)
    ensures |r| == |hits|
  {
    seq(|hits|, i requires 0 <= i < |hits| => hits[i].distance)
  }

  ghost predicate DistinctTexts<M>(hits: seq<Hit<M>>) {
    forall i, j :: 0 <= i < j < |hits| ==> hits[i].text != hits[j].text
  }

  /** `i` is where `text` first appears. */
  ghost predicate FirstAt<M>(hits: seq<Hit<M>>, text: string, i: nat) {
    i < |hits| && hits[i].text == text && forall j :: 0 <= j < i ==> hits[j].text != text
  }

  ghost predicate SeenBefore<M>(hits: seq<Hit<M>>, a: string, b: string) {
    exists i: nat, j: nat :: FirstAt(hits, a, i) && FirstAt(hits, b, j) && i < j
  }

  /** `kept` is a top `k` of the offered triples `hits`, ties in any order. */
  ghost predicate IsTop<M(!new)>(hits: seq<Hit<M>>, k: nat, kept: seq<Hit<M>>) {
    && |kept| == Min(k, |Texts(hits)|)
    && DistinctTexts(kept)
    && (forall h :: h in kept ==> IsBest(hits, h.text, h))
    && NonIncreasing(Distances(kept))
    && (forall h, o :: h in kept && o in hits && o.text !in Texts(kept) ==> o.distance <= h.distance)
  }

  /** The simple specification of the merge: a top `k`, ties in first-seen order. */
  ghost predicate IsTopK<M(!new)>(hits: seq<Hit<M>>, k: nat, kept: seq<Hit<M>>) {
    && IsTop(hits, k, kept)
    && forall i, j :: 0 <= i < j < |kept| && kept[i].distance == kept[j].distance ==>
         SeenBefore(hits, kept[i].text, kept[j].text)
  }

  // ---------- the ranked list ----------

  lemma FirstSeenOrder<M>(hits: seq<Hit<M>>, p: nat, q: nat)
    requires p < q < |FirstSeen(hits)|
    ensures SeenBefore(hits, FirstSeen(hits)[p], FirstSeen(hits)[q])
  {
    var n := |hits| - 1;
    var before := FirstSeen(hits[..n]);
    assert hits == hits[..n] + [hits[n]];
    FirstSeenTexts(hits[..n]);
    if q < |before| {
      FirstSeenOrder(hits[..n], p, q);
      var i: nat, j: nat :| FirstAt(hits[..n], before[p], i) && FirstAt(hits[..n], before[q], j) && i < j;
      assert FirstAt(hits, before[p], i) && FirstAt(hits, before[q], j);
    } else {
      var i := FirstIndex(hits[..n], before[p]);
      assert FirstAt(hits, before[p], i);
      forall m | 0 <= m < n ensures hits[m].text != hits[n].text {
        assert hits[..n][m].text in Texts(hits[..n]);
      }
      assert FirstAt(hits, hits[n].text, n);
    }
  }

  lemma FirstIndex<M>(hits: seq<Hit<M>>, text: string) returns (i: nat)
    requires text in Texts(hits)
    ensures FirstAt(hits, text, i)
  {
    var n := |hits| - 1;
    assert hits == hits[..n] + [hits[n]];
    if text in Texts(hits[..n]) {
      i := FirstIndex(hits[..n], text);
    } else {
      i := n;
      forall j | 0 <= j < n ensures hits[j].text != text { assert hits[..n][j] in hits[..n]; }
    }
  }

  /** `a` comes strictly before `b` in `s`. */
  ghost predicate InOrder<T>(s: seq<T>, a: T, b: T) {
    exists p, q :: 0 <= p < q < |s| && s[p] == a && s[q] == b
  }

  lemma InOrderConcat<T>(x: seq<T>, y: seq<T>, a: T, b: T)
    ensures InOrder(y, a, b) ==> InOrder(x + y, a, b)
    ensures a in x && b in y ==> InOrder(x + y, a, b)
  {
    if InOrder(y, a, b) {
      var p, q :| 0 <= p < q < |y| && y[p] == a && y[q] == b;
      assert (x + y)[|x| + p] == a && (x + y)[|x| + q] == b;
    }
    if a in x && b in y {
      var p :| 0 <= p < |x| && x[p] == a;
      var q :| 0 <= q < |y| && y[q] == b;
      assert (x + y)[p] == a && (x + y)[|x| + q] == b;
    }
  }

  lemma AtScoreToFull<T>(s: seq<Scored<T>>, v: real, a: Scored<T>, b: Scored<T>)
    requires InOrder(AtScore(s, v), a, b)
    ensures InOrder(s, a, b)
  {
    var p, q :| 0 <= p < q < |AtScore(s, v)| && AtScore(s, v)[p] == a && AtScore(s, v)[q] == b;
    var tail := AtScore(s[1..], v);
    assert s == [s[0]] + s[1..];
    InOrderConcat([s[0]], s[1..], a, b);
    if s[0].score != v {
      AtScoreToFull(s[1..], v, a, b);
    } else if p == 0 {
      assert b == tail[q - 1];
      assert b.score == v by { AtScoreOnly(s[1..], v); }
      AtScoreMember(s[1..], b);
    } else {
      assert tail[p - 1] == a && tail[q - 1] == b;
      AtScoreToFull(s[1..], v, a, b);
    }
  }

  lemma AtScoreOnly<T>(s: seq<Scored<T>>, v: real)
    ensures forall x :: x in AtScore(s, v) ==> x.score == v
  {
    if s != [] { AtScoreOnly(s[1..], v); }
  }

  lemma FullToAtScore<T>(s: seq<Scored<T>>, i: nat, j: nat)
    requires i < j < |s| && s[i].score == s[j].score
    ensures InOrder(AtScore(s, s[i].score), s[i], s[j])
  {
    var v := s[i].score;
    AtScoreAppend([s[0]], s[1..], v);
    assert s == [s[0]] + s[1..];
    InOrderConcat(AtScore([s[0]], v), AtScore(s[1..], v), s[i], s[j]);
    if i > 0 {
      FullToAtScore(s[1..], i - 1, j - 1);
    } else {
      AtScoreMember(s[1..], s[j]);
    }
  }

  lemma CombinedFacts<M(!new)>(hits: seq<Hit<M>>)
    ensures |Combined(hits)| == |Texts(hits)|
    ensures DistinctTexts(Combined(hits))
    ensures forall h :: h in Combined(hits) ==> h.text in Texts(hits) && IsBest(hits, h.text, h)
    ensures forall d :: d in Texts(hits) ==> Best(hits, d) in Combined(hits)
  {
    var c, order := Combined(hits), FirstSeen(hits);
    FirstSeenTexts(hits);
    DistinctSetSize(order);
    forall i | 0 <= i < |c| ensures c[i].text == order[i] && IsBest(hits, c[i].text, c[i]) {
      assert IsBest(hits, order[i], c[i]);
    }
    forall d | d in Texts(hits) ensures Best(hits, d) in c {
      var i :| 0 <= i < |order| && order[i] == d;
      assert c[i] == Best(hits, d);
    }
  }

  /** Sorting the combined triples only rearranges them. */
  lemma SortedShape<M(!new)>(c: seq<Hit<M>>)
    requires DistinctTexts(c)
    ensures var r := Items(SortDesc(AsScored(c)));
      && |r| == |c|
      && AsScored(r) == SortDesc(AsScored(c))
      && Distinct(r)
      && NonIncreasing(Distances(r))
      && forall h :: h in r <==> h in c
  {
    var sorted := SortDesc(AsScored(c));
    var r := Items(sorted);
    SortDescStable(AsScored(c));
    DistinctPermutation(AsScored(c), sorted);
    forall i | 0 <= i < |r| ensures sorted[i] == Scored(r[i].distance, r[i]) && r[i] in c {
      assert sorted[i] in AsScored(c);
    }
    assert AsScored(r) == sorted;
    forall i, j | 0 <= i < j < |r| ensures r[i] != r[j] {
      assert sorted[i] != sorted[j];
    }
    assert Distances(r) == Scores(sorted);
    forall h | h in c ensures h in r {
      var p :| 0 <= p < |c| && c[p] == h;
      assert AsScored(c)[p] in sorted;
      var i :| 0 <= i < |sorted| && sorted[i] == AsScored(c)[p];
      assert r[i] == h;
    }
  }

  lemma {:induction false} RankedFacts<M(!new)>(hits: seq<Hit<M>>)
    ensures |RankedHits(hits)| == |Texts(hits)|
    ensures DistinctTexts(RankedHits(hits))
    ensures NonIncreasing(Distances(RankedHits(hits)))
    ensures forall h :: h in RankedHits(hits) ==> IsBest(hits, h.text, h)
    ensures Texts(RankedHits(hits)) == Texts(hits)
  {
    var c, r := Combined(hits), RankedHits(hits);
    CombinedFacts(hits);
    SortedShape(c);
    forall i, j | 0 <= i < j < |r| ensures r[i].text != r[j].text {
      assert r[i] in c && r[j] in c;
    }
    forall d | d in Texts(hits) ensures d in Texts(r) {
      assert Best(hits, d) in r;
    }
  }

  lemma TiesKeepOrder<M(!new)>(c: seq<Hit<M>>, i: nat, j: nat) returns (p: nat, q: nat)
    requires DistinctTexts(c)
    requires var r := Items(SortDesc(AsScored(c))); i < j < |r| && r[i].distance == r[j].distance
    ensures p < q < |c|
    ensures Items(SortDesc(AsScored(c)))[i] == c[p] && Items(SortDesc(AsScored(c)))[j] == c[q]
  {
    var sorted := SortDesc(AsScored(c));
    SortedShape(c);
    SortDescStable(AsScored(c));
    var v := sorted[i].score;
    FullToAtScore(sorted, i, j);
    AtScoreToFull(AsScored(c), v, sorted[i], sorted[j]);
    p, q :| 0 <= p < q < |c| && AsScored(c)[p] == sorted[i] && AsScored(c)[q] == sorted[j];
  }

  lemma RankedTies<M(!new)>(hits: seq<Hit<M>>, i: nat, j: nat)
    requires i < j < |RankedHits(hits)| && RankedHits(hits)[i].distance == RankedHits(hits)[j].distance
    ensures SeenBefore(hits, RankedHits(hits)[i].text, RankedHits(hits)[j].text)
  {
    CombinedFacts(hits);
    var p, q := TiesKeepOrder(Combined(hits), i, j);
    FirstSeenOrder(hits, p, q);
    assert IsBest(hits, FirstSeen(hits)[p], Combined(hits)[p]) && IsBest(hits, FirstSeen(hits)[q], Combined(hits)[q]);
  }

  lemma OmittedNoBetter<M(!new)>(hits: seq<Hit<M>>, n: nat, h: Hit<M>, o: Hit<M>)
    requires n <= |RankedHits(hits)|
    requires h in RankedHits(hits)[..n] && o in hits && o.text !in Texts(RankedHits(hits)[..n])
    ensures o.distance <= h.distance
  {
    var r := RankedHits(hits);
    RankedFacts(hits);
    forall x | 0 <= x < n ensures r[x].text in Texts(r[..n]) { assert r[..n][x] in r[..n]; }
    var i :| 0 <= i < n && r[i] == h;
    assert o.text in Texts(r);
    var j :| 0 <= j < |r| && r[j].text == o.text;
    assert Distances(r)[i] >= Distances(r)[j];
    assert IsBest(hits, o.text, r[j]);
  }

  /** The kept triples: the ranked list cut at `k`. */
  ghost function Kept<M(!new)>(hits: seq<Hit<M>>, k: nat): seq<Hit<M>> {
    RankedHits(hits)[..Min(k, |RankedHits(hits)|)]
  }

  lemma KeptIsTopK<M(!new)>(hits: seq<Hit<M>>, k: nat)
    ensures IsTopK(hits, k, Kept(hits, k))
  {
    var r, kept := RankedHits(hits), Kept(hits, k);
    RankedFacts(hits);
    forall h, o | h in kept && o in hits && o.text !in Texts(kept) ensures o.distance <= h.distance {
      OmittedNoBetter(hits, |kept|, h, o);
    }
    forall i, j | 0 <= i < j < |kept| && kept[i].distance == kept[j].distance
      ensures SeenBefore(hits, kept[i].text, kept[j].text)
    {
      RankedTies(hits, i, j);
    }
    forall i, j | 0 <= i < j < |kept| ensures Distances(kept)[i] >= Distances(kept)[j] {
      assert Distances(r)[i] >= Distances(r)[j];
    }
  }

  /** The merge returns, and what it returns meets the simple specification. */
  lemma {:induction false} MergeIsTopK<M(!new)>(results: seq<QueryResult<M>>, k: nat)
    requires k > 0
    ensures Merged(results, k) == Ok(Columns(Kept(AllHits(results), k)))
    ensures IsTopK(AllHits(results), k, Kept(AllHits(results), k))
  {
    var r := RankedHits(AllHits(results));
    assert Slice(r, k) == Kept(AllHits(results), k);
    KeptIsTopK(AllHits(results), k);
  }

  /** The merge raises exactly when there is something to return and the slice is empty. */
  lemma {:induction false} MergeRaises<M(!new)>(results: seq<QueryResult<M>>, k: int)
    ensures Merged(results, k).Raise? <==>
      AllHits(results) != [] && k <= 0 && (k == 0 || |Texts(AllHits(results))| <= -k)
  {
    var hits := AllHits(results);
    RankedFacts(hits);
    if hits != [] {
      assert hits[0].text in Texts(hits);
    }
  }
}
