/**
 Reranking and the hybrid cut: `RerankCompressor.acompress_documents` followed by
 the tail of `query_doc_with_hybrid_search`. The retrievers and the reranking
 model are parameters: they contribute `docs` and `scores`.
 */
module Rerank {
  import opened Wrappers
  import opened Ranking
  import opened Retrieval
  import opened TopK

  /** A document's metadata dict: its "score" entry and everything else. */
  datatype Metadata<+R> = Metadata(score: Option<real>, rest: R)
  datatype Doc<+R> = Doc(content: string, metadata: Metadata<R>)

  function Pairs<R>(docs: seq<Doc<R>>, scores: seq<real>): (r: seq<Scored<Doc<R>>>)
    ensures |r| == Min(|docs|, |scores|)
  {
    seq(Min(|docs|, |scores|), i requires 0 <= i < Min(|docs|, |scores|) => Scored(scores[i], docs[i]))
  }

  /** The pairs that reach the threshold; a threshold of zero is falsy and filters nothing. */
  function Passing<T>(pairs: seq<Scored<T>>, threshold: real): seq<Scored<T>> {
    if threshold == 0.0 then pairs
    else if pairs == [] then []
    else (if pairs[0].score >= threshold then [pairs[0]] else []) + Passing(pairs[1..], threshold)
  }

  function WithScore<R>(p: Scored<Doc<R>>): Doc<R> {
    p.item.(metadata := p.item.metadata.(score := Some(p.score)))
  }

  function WithScores<R>(s: seq<Scored<Doc<R>>>): (r: seq<Doc<R>>)
    ensures |r| == |s|
  {
    seq(|s|, i requires 0 <= i < |s| => WithScore(s[i]))
  }

  function Acompress<R>(docs: seq<Doc<R>>, scores: Option<seq<real>>, threshold: real, topN: int): seq<Doc<R>> {
    match scores
    case Some(s) => WithScores(Slice(SortDesc(Passing(Pairs(docs, s), threshold)), topN))
    case None => docs
  }

  predicate AllScored<R>(docs: seq<Doc<R>>) {
    forall i :: 0 <= i < |docs| ==> docs[i].metadata.score.Some?
  }

  function ByScore<R>(docs: seq<Doc<R>>): (r: seq<Scored<Doc<R>>>)
    requires AllScored(docs)
    ensures |r| == |docs|
  {
    seq(|docs|, i requires 0 <= i < |docs| => Scored(docs[i].metadata.score.value, docs[i]))
  }

  function ContentColumn<R>(s: seq<Scored<Doc<R>>>): seq<Cell<Metadata<R>>> {
    seq(|s|, i requires 0 <= i < |s| => Text(s[i].item.content))
  }

  function MetadataColumn<R>(s: seq<Scored<Doc<R>>>): seq<Cell<Metadata<R>>> {
    seq(|s|, i requires 0 <= i < |s| => Meta(s[i].item.metadata))
  }

  /**
   The cut. When `k < kReranker` the triples are zipped as (distance, metadata,
   document) and unpacked as (distance, document, metadata), so the two columns
   trade places; the empty result has no columns to exchange.
   */
  function HybridCut<R>(result: seq<Doc<R>>, k: int, kReranker: int): QueryResult<Metadata<R>>
    requires AllScored(result)
  {
    var all := ByScore(result);
    if k < kReranker then
      var cut := Slice(SortDesc(all), k);
      QueryResult([Scores(cut)], [MetadataColumn(cut)], [ContentColumn(cut)])
    else
      QueryResult([Scores(all)], [ContentColumn(all)], [MetadataColumn(all)])
  }

  lemma AcompressScored<R>(docs: seq<Doc<R>>, scores: seq<real>, threshold: real, topN: int)
    ensures AllScored(Acompress(docs, Some(scores), threshold, topN))
  {
  }

  /** One hybrid query over one collection, given the scores of its candidates. */
  function HybridQuery<R>(docs: seq<Doc<R>>, scores: seq<real>, threshold: real, k: int, kReranker: int)
    : QueryResult<Metadata<R>>
  {
    AcompressScored(docs, scores, threshold, kReranker);
    HybridCut(Acompress(docs, Some(scores), threshold, kReranker), k, kReranker)
  }

  // ---------- what is selected ----------

  ghost function Selected<R>(docs: seq<Doc<R>>, scores: seq<real>, threshold: real, k: nat, kReranker: nat)
    : seq<Scored<Doc<R>>>
  {
    Slice(SortDesc(Passing(Pairs(docs, scores), threshold)), Min(k, kReranker))
  }

  lemma PassingMeaning<T>(pairs: seq<Scored<T>>, threshold: real, x: Scored<T>)
    ensures multiset(Passing(pairs, threshold))[x] ==
      if threshold == 0.0 || x.score >= threshold then multiset(pairs)[x] else 0
  {
    if threshold != 0.0 && pairs != [] {
      assert pairs == [pairs[0]] + pairs[1..];
      PassingMeaning(pairs[1..], threshold, x);
    }
  }

  lemma ScoresOfPrefix<T>(s: seq<Scored<T>>, n: nat)
    requires n <= |s| && NonIncreasing(Scores(s))
    ensures NonIncreasing(Scores(s[..n]))
    ensures forall x, y :: x in s[..n] && y in s[n..] ==> x.score >= y.score
  {
    forall i, j | 0 <= i < j < n ensures Scores(s[..n])[i] >= Scores(s[..n])[j] {
      assert Scores(s)[i] >= Scores(s)[j];
    }
    forall x, y | x in s[..n] && y in s[n..] ensures x.score >= y.score {
      var i :| 0 <= i < n && s[i] == x;
      var j :| n <= j < |s| && s[j] == y;
      assert Scores(s)[i] >= Scores(s)[j];
    }
  }

  /**
   The selection is the top `min(k, kReranker)` of the pairs that pass the
   threshold: best first, nothing left behind scores more than what was kept.
   */
  lemma {:induction false} SelectedIsTop<R(!new)>(
      docs: seq<Doc<R>>, scores: seq<real>, threshold: real, k: nat, kReranker: nat)
    ensures
      var passing, kept := Passing(Pairs(docs, scores), threshold), Selected(docs, scores, threshold, k, kReranker);
      && |kept| == Min(Min(k, kReranker), |passing|)
      && NonIncreasing(Scores(kept))
      && (forall x :: x in kept ==>
            && (threshold != 0.0 ==> x.score >= threshold)
            && exists j :: 0 <= j < |docs| && j < |scores| && x == Scored(scores[j], docs[j]))
      && multiset(kept) <= multiset(passing)
      && forall x, y :: x in kept && y in multiset(passing) - multiset(kept) ==> y.score <= x.score
  {
    var passing := Passing(Pairs(docs, scores), threshold);
    var sorted, kept := SortDesc(passing), Selected(docs, scores, threshold, k, kReranker);
    SortDescStable(passing);
    ScoresOfPrefix(sorted, |kept|);
    assert sorted == kept + sorted[|kept|..];
    assert multiset(passing) == multiset(kept) + multiset(sorted[|kept|..]);
    forall x | x in kept
      ensures threshold != 0.0 ==> x.score >= threshold
      ensures exists j :: 0 <= j < |docs| && j < |scores| && x == Scored(scores[j], docs[j])
    {
      assert x in multiset(passing);
      PassingMeaning(Pairs(docs, scores), threshold, x);
      var j :| 0 <= j < |Pairs(docs, scores)| && Pairs(docs, scores)[j] == x;
      assert x == Scored(scores[j], docs[j]);
    }
  }

  /** A selected pair as the document returned for it. */
  ghost function Returned<R>(s: seq<Scored<Doc<R>>>): (r: seq<Scored<Doc<R>>>)
    ensures |r| == |s| && Scores(r) == Scores(s)
  {
    seq(|s|, i requires 0 <= i < |s| => Scored(s[i].score, WithScore(s[i])))
  }

  lemma CutOfSorted<R(!new)>(docs: seq<Doc<R>>, scores: seq<real>, threshold: real, k: nat, kReranker: nat)
    ensures var kept := Returned(Selected(docs, scores, threshold, k, kReranker));
      HybridQuery(docs, scores, threshold, k, kReranker) ==
        if k < kReranker then QueryResult([Scores(kept)], [MetadataColumn(kept)], [ContentColumn(kept)])
        else QueryResult([Scores(kept)], [ContentColumn(kept)], [MetadataColumn(kept)])
  {
    var sorted := SortDesc(Passing(Pairs(docs, scores), threshold));
    SortDescStable(Passing(Pairs(docs, scores), threshold));
    var first := Slice(sorted, kReranker);
    ScoresOfPrefix(sorted, |first|);
    AcompressScored(docs, scores, threshold, kReranker);
    var all := ByScore(Acompress(docs, Some(scores), threshold, kReranker));
    assert all == Returned(first);
    SortDescFixed(all);
    assert Slice(all, k) == Returned(Slice(first, k));
    assert Slice(first, Min(k, kReranker)) == Selected(docs, scores, threshold, k, kReranker);
    assert k >= kReranker ==> Slice(first, kReranker) == first;
  }

  /** One row of the result for every kept pair: its text and its metadata with the score in it. */
  lemma ColumnsOfKept<R>(kept: seq<Scored<Doc<R>>>)
    ensures |ContentColumn(Returned(kept))| == |MetadataColumn(Returned(kept))| == |kept|
    ensures forall i :: 0 <= i < |kept| ==>
      && ContentColumn(Returned(kept))[i] == Text(kept[i].item.content)
      && MetadataColumn(Returned(kept))[i] == Meta(kept[i].item.metadata.(score := Some(kept[i].score)))
  {
  }

  /**
   Documents stay in the "documents" column, each beside its own metadata, exactly
   when the second cut is not taken (or there is nothing to return); otherwise the
   two columns trade places. The distances are right either way.
   */
  lemma {:induction false} PairingIff<R(!new)>(
      docs: seq<Doc<R>>, scores: seq<real>, threshold: real, k: nat, kReranker: nat)
    ensures
      var kept := Selected(docs, scores, threshold, k, kReranker);
      var r := HybridQuery(docs, scores, threshold, k, kReranker);
      && |r.distances| == |r.documents| == |r.metadatas| == 1
      && |r.distances[0]| == |r.documents[0]| == |r.metadatas[0]| == |kept|
      && (forall i :: 0 <= i < |kept| ==> r.distances[0][i] == kept[i].score)
      && (forall i :: 0 <= i < |kept| ==>
            var text := Text(kept[i].item.content);
            var meta := Meta(kept[i].item.metadata.(score := Some(kept[i].score)));
            && r.documents[0][i] == (if k >= kReranker then text else meta)
            && r.metadatas[0][i] == (if k >= kReranker then meta else text))
      && ((forall i :: 0 <= i < |kept| ==> r.documents[0][i] == Text(kept[i].item.content)) <==>
            (k >= kReranker || kept == []))
  {
    var kept := Selected(docs, scores, threshold, k, kReranker);
    CutOfSorted(docs, scores, threshold, k, kReranker);
    ColumnsOfKept(kept);
    assert Scores(Returned(kept)) == Scores(kept);
  }

  // ---------- the whole query, in terms of candidate positions ----------

  /** The candidates' positions with their scores. */
  ghost function Positions(n: nat, scores: seq<real>): (r: seq<Scored<int>>)
    requires n <= |scores|
    ensures |r| == n && forall i :: 0 <= i < n ==> r[i] == Scored(scores[i], i)
  {
    seq(n, i requires 0 <= i < n => Scored(scores[i], i))
  }

  ghost predicate Within<T>(s: seq<Scored<int>>, items: seq<T>) {
    forall i :: 0 <= i < |s| ==> 0 <= s[i].item < |items|
  }

  /** Positions replaced by what stands there. */
  ghost function At<T>(s: seq<Scored<int>>, items: seq<T>): (r: seq<Scored<T>>)
    requires Within(s, items)
    ensures |r| == |s|
  {
    seq(|s|, i requires 0 <= i < |s| => Scored(s[i].score, items[s[i].item]))
  }

  lemma AtCons<T>(s: seq<Scored<int>>, items: seq<T>)
    requires s != [] && Within(s, items)
    ensures At(s, items) == [Scored(s[0].score, items[s[0].item])] + At(s[1..], items)
    ensures At(s, items)[1..] == At(s[1..], items)
  {
  }

  lemma {:induction false} PassingAt<T>(s: seq<Scored<int>>, items: seq<T>, threshold: real)
    requires Within(s, items)
    ensures Within(Passing(s, threshold), items)
    ensures Passing(At(s, items), threshold) == At(Passing(s, threshold), items)
  {
    if threshold != 0.0 && s != [] {
      AtCons(s, items);
      PassingAt(s[1..], items, threshold);
      if s[0].score >= threshold {
        var kept := [s[0]] + Passing(s[1..], threshold);
        assert Passing(s, threshold) == kept && kept[1..] == Passing(s[1..], threshold);
        AtCons(kept, items);
      }
    }
  }

  lemma {:induction false} InsertAt<T>(s: seq<Scored<int>>, x: Scored<int>, items: seq<T>)
    requires Within(s, items) && 0 <= x.item < |items|
    ensures Within(Insert(s, x), items)
    ensures Insert(At(s, items), Scored(x.score, items[x.item])) == At(Insert(s, x), items)
  {
    if s != [] {
      InsertAt(s[1..], x, items);
      assert At(s, items)[1..] == At(s[1..], items);
    }
  }

  lemma {:induction false} SortAt<T>(s: seq<Scored<int>>, items: seq<T>)
    requires Within(s, items)
    ensures Within(SortDesc(s), items)
    ensures SortDesc(At(s, items)) == At(SortDesc(s), items)
  {
    if s != [] {
      var n := |s| - 1;
      SortAt(s[..n], items);
      assert At(s, items)[..n] == At(s[..n], items);
      InsertAt(SortDesc(s[..n]), s[n], items);
    }
  }

  ghost predicate Increasing(s: seq<Scored<int>>) {
    forall i, j :: 0 <= i < j < |s| ==> s[i].item < s[j].item
  }

  lemma {:induction false} PassingMembers<T>(s: seq<Scored<T>>, threshold: real)
    ensures forall x :: x in Passing(s, threshold) <==> x in s && (threshold == 0.0 || x.score >= threshold)
  {
    if threshold != 0.0 && s != [] {
      PassingMembers(s[1..], threshold);
      assert s == [s[0]] + s[1..];
    }
  }

  lemma {:induction false} PassingIncreasing(s: seq<Scored<int>>, threshold: real)
    requires Increasing(s)
    ensures Increasing(Passing(s, threshold))
  {
    if threshold != 0.0 && s != [] {
      PassingIncreasing(s[1..], threshold);
      PassingMembers(s[1..], threshold);
      forall x | x in s[1..] ensures s[0].item < x.item {
        var i :| 0 <= i < |s[1..]| && s[1..][i] == x;
        assert s[i + 1] == x;
      }
    }
  }

  /** `a` ranks before `b`: a higher score, or an earlier candidate of the same score. */
  ghost predicate Before(a: Scored<int>, b: Scored<int>) {
    a.score > b.score || (a.score == b.score && a.item < b.item)
  }

  lemma {:induction false} SortedBefore(s: seq<Scored<int>>, i: nat, j: nat)
    requires Increasing(s) && |SortDesc(s)| == |s| && i < j < |s|
    ensures Before(SortDesc(s)[i], SortDesc(s)[j])
  {
    var t := SortDesc(s);
    SortDescStable(s);
    assert Scores(t)[i] >= Scores(t)[j];
    if t[i].score == t[j].score {
      FullToAtScore(t, i, j);
      AtScoreToFull(s, t[i].score, t[i], t[j]);
    }
  }

  /** The positions of the selected candidates, best first. */
  ghost function Picked(n: nat, scores: seq<real>, threshold: real, limit: nat): seq<Scored<int>>
    requires n <= |scores|
  {
    Slice(SortDesc(Passing(Positions(n, scores), threshold)), limit)
  }

  lemma {:induction false} SelectedAt<R(!new)>(
      docs: seq<Doc<R>>, scores: seq<real>, threshold: real, k: nat, kReranker: nat)
    ensures var picked := Picked(Min(|docs|, |scores|), scores, threshold, Min(k, kReranker));
      Within(picked, docs) && Selected(docs, scores, threshold, k, kReranker) == At(picked, docs)
  {
    var n := Min(|docs|, |scores|);
    var positions := Positions(n, scores);
    assert Pairs(docs, scores) == At(positions, docs);
    PassingAt(positions, docs, threshold);
    SortAt(Passing(positions, threshold), docs);
  }

  lemma SameMembers<T(!new)>(a: seq<T>, b: seq<T>)
    requires multiset(a) == multiset(b)
    ensures forall x :: x in a <==> x in b
  {
    forall x ensures x in a <==> x in b {
      assert x in a <==> x in multiset(a);
      assert x in b <==> x in multiset(b);
    }
  }

  lemma PositionMembers(n: nat, scores: seq<real>)
    requires n <= |scores|
    ensures forall x :: x in Positions(n, scores) <==> 0 <= x.item < n && x.score == scores[x.item]
  {
    forall x: Scored<int> | 0 <= x.item < n && x.score == scores[x.item] ensures x in Positions(n, scores) {
      assert Positions(n, scores)[x.item] == x;
    }
  }

  /** In order of rank: exactly the passing candidates. */
  lemma {:induction false} PassingRanked(n: nat, scores: seq<real>, threshold: real)
    requires n <= |scores|
    ensures var sorted := SortDesc(Passing(Positions(n, scores), threshold));
      && (forall i, j :: 0 <= i < j < |sorted| ==> Before(sorted[i], sorted[j]))
      && forall x :: x in sorted <==>
           0 <= x.item < n && x.score == scores[x.item] && (threshold == 0.0 || x.score >= threshold)
  {
    var positions := Positions(n, scores);
    var passing := Passing(positions, threshold);
    var sorted := SortDesc(passing);
    PassingIncreasing(positions, threshold);
    PassingMembers(positions, threshold);
    SortDescStable(passing);
    SameMembers(passing, sorted);
    PositionMembers(n, scores);
    forall i, j | 0 <= i < j < |sorted| ensures Before(sorted[i], sorted[j]) { SortedBefore(passing, i, j); }
  }

  /** What is not among the first `limit` ranks behind all of them. */
  lemma CutRanked(sorted: seq<Scored<int>>, limit: nat, x: Scored<int>)
    requires forall i, j :: 0 <= i < j < |sorted| ==> Before(sorted[i], sorted[j])
    requires x in sorted && x !in Slice(sorted, limit)
    ensures |Slice(sorted, limit)| == limit
    ensures forall i :: 0 <= i < limit ==> Before(Slice(sorted, limit)[i], x)
  {
    var j :| 0 <= j < |sorted| && sorted[j] == x;
    var cut := Slice(sorted, limit);
    forall p | 0 <= p < |cut| ensures sorted[p] != x { assert cut[p] == sorted[p]; }
  }

  /** The columns of the result, by the positions picked. */
  lemma {:induction false} PickedColumns<R(!new)>(
      docs: seq<Doc<R>>, scores: seq<real>, threshold: real, k: nat, kReranker: nat, picked: seq<Scored<int>>)
    requires picked == Picked(Min(|docs|, |scores|), scores, threshold, Min(k, kReranker))
    ensures Within(picked, docs)
    ensures var r := HybridQuery(docs, scores, threshold, k, kReranker);
      && |r.distances| == |r.documents| == |r.metadatas| == 1
      && |r.distances[0]| == |r.documents[0]| == |r.metadatas[0]| == |picked|
      && (forall i :: 0 <= i < |picked| ==> r.distances[0][i] == picked[i].score)
      && forall i :: 0 <= i < |picked| ==>
           var doc, score := docs[picked[i].item], picked[i].score;
           var text, meta := Text(doc.content), Meta(Metadata(Some(score), doc.metadata.rest));
           && r.documents[0][i] == (if k >= kReranker then text else meta)
           && r.metadatas[0][i] == (if k >= kReranker then meta else text)
  {
    SelectedAt(docs, scores, threshold, k, kReranker);
    PairingIff(docs, scores, threshold, k, kReranker);
  }

  lemma Picks(picked: seq<Scored<int>>, scores: seq<real>) returns (picks: seq<nat>)
    requires forall i :: 0 <= i < |picked| ==>
      0 <= picked[i].item < |scores| && picked[i].score == scores[picked[i].item]
    ensures |picks| == |picked|
    ensures forall i :: 0 <= i < |picks| ==>
      picks[i] == picked[i].item && picked[i] == Scored(scores[picks[i]], picks[i])
    ensures forall q: nat :: q < |scores| && q !in picks ==> Scored(scores[q], q) !in picked
  {
    picks := seq(|picked|, i requires 0 <= i < |picked| => picked[i].item);
    forall q: nat | q < |scores| && q !in picks ensures Scored(scores[q], q) !in picked {
      forall i | 0 <= i < |picked| ensures picked[i] != Scored(scores[q], q) { assert picks[i] != q; }
    }
  }

  /** The positions picked: the front of all passing candidates in order of rank. */
  lemma {:induction false} PickedRanks(n: nat, scores: seq<real>, threshold: real, limit: nat)
    returns (picks: seq<nat>)
    requires n <= |scores|
    ensures var picked := Picked(n, scores, threshold, limit);
      && |picks| == |picked|
      && forall i :: 0 <= i < |picks| ==> picks[i] < n && picked[i] == Scored(scores[picks[i]], picks[i])
    ensures |picks| <= limit
    ensures forall i :: 0 <= i < |picks| ==> threshold == 0.0 || scores[picks[i]] >= threshold
    ensures forall i, j :: 0 <= i < j < |picks| ==> RanksBefore(scores, picks[i], picks[j])
    ensures forall q: nat :: q < n && (threshold == 0.0 || scores[q] >= threshold) && q !in picks ==>
      |picks| == limit && forall i :: 0 <= i < limit ==> RanksBefore(scores, picks[i], q)
  {
    var sorted := SortDesc(Passing(Positions(n, scores), threshold));
    var picked := Picked(n, scores, threshold, limit);
    PassingRanked(n, scores, threshold);
    forall i | 0 <= i < |picked| ensures picked[i] in sorted { assert picked[i] == sorted[i]; }
    picks := Picks(picked, scores);
    forall q: nat | q < n && (threshold == 0.0 || scores[q] >= threshold) && q !in picks
      ensures |picks| == limit && forall i :: 0 <= i < limit ==> RanksBefore(scores, picks[i], q)
    {
      CutRanked(sorted, limit, Scored(scores[q], q));
    }
  }

  ghost predicate RanksBefore(scores: seq<real>, p: nat, q: nat)
    requires p < |scores| && q < |scores|
  {
    scores[p] > scores[q] || (scores[p] == scores[q] && p < q)
  }

  /**
   The whole query: the positions `picks` of the candidates returned are those of
   the best that pass the threshold, ties by position, at most `min(k, kReranker)`;
   and the three columns hold their scores, texts and metadata, the latter two
   exchanged when `k < kReranker`.
   */
  lemma {:induction false} HybridRows<R(!new)>(
      docs: seq<Doc<R>>, scores: seq<real>, threshold: real, k: nat, kReranker: nat) returns (picks: seq<nat>)
    ensures |picks| <= k && |picks| <= kReranker
    ensures forall i :: 0 <= i < |picks| ==>
      picks[i] < |docs| && picks[i] < |scores| && (threshold == 0.0 || scores[picks[i]] >= threshold)
    ensures forall i, j :: 0 <= i < j < |picks| ==>
      scores[picks[i]] > scores[picks[j]] || (scores[picks[i]] == scores[picks[j]] && picks[i] < picks[j])
    ensures forall q: nat ::
      q < |docs| && q < |scores| && (threshold == 0.0 || scores[q] >= threshold) && q !in picks ==>
        && (|picks| == k || |picks| == kReranker)
        && forall i :: 0 <= i < |picks| ==>
             scores[picks[i]] > scores[q] || (scores[picks[i]] == scores[q] && picks[i] < q)
    ensures var r := HybridQuery(docs, scores, threshold, k, kReranker);
      && |r.distances| == |r.documents| == |r.metadatas| == 1
      && |r.distances[0]| == |r.documents[0]| == |r.metadatas[0]| == |picks|
      && (forall i :: 0 <= i < |picks| ==> r.distances[0][i] == scores[picks[i]])
      && forall i :: 0 <= i < |picks| ==>
           var doc, score := docs[picks[i]], scores[picks[i]];
           var text, meta := Text(doc.content), Meta(Metadata(Some(score), doc.metadata.rest));
           && r.documents[0][i] == (if k >= kReranker then text else meta)
           && r.metadatas[0][i] == (if k >= kReranker then meta else text)
  {
    var n, limit := Min(|docs|, |scores|), Min(k, kReranker);
    picks := PickedRanks(n, scores, threshold, limit);
    PickedColumns(docs, scores, threshold, k, kReranker, Picked(n, scores, threshold, limit));
  }

  lemma NoTextNoHits<M>(ds: seq<real>, docs: seq<Cell<M>>, metas: seq<Cell<M>>, n: nat)
    requires n <= |ds| && n <= |docs| && n <= |metas|
    requires forall i :: 0 <= i < n ==> docs[i].Meta?
    ensures ZipHits(ds, docs, metas, n) == []
  {
    if n > 0 { NoTextNoHits(ds, docs, metas, n - 1); }
  }

  lemma AllTextAllHits<M>(ds: seq<real>, docs: seq<Cell<M>>, metas: seq<Cell<M>>, n: nat)
    requires n <= |ds| && n <= |docs| && n <= |metas|
    requires forall i :: 0 <= i < n ==> docs[i].Text?
    ensures |ZipHits(ds, docs, metas, n)| == n
  {
    if n > 0 { AllTextAllHits(ds, docs, metas, n - 1); }
  }

  /** What the merge can use of one hybrid result: everything, or nothing at all. */
  lemma {:induction false} HybridHits<R(!new)>(
      docs: seq<Doc<R>>, scores: seq<real>, threshold: real, k: nat, kReranker: nat)
    ensures |HitsOf(HybridQuery(docs, scores, threshold, k, kReranker))| ==
      if k < kReranker then 0 else |Selected(docs, scores, threshold, k, kReranker)|
  {
    var kept := Returned(Selected(docs, scores, threshold, k, kReranker));
    CutOfSorted(docs, scores, threshold, k, kReranker);
    if k < kReranker {
      NoTextNoHits(Scores(kept), MetadataColumn(kept), ContentColumn(kept), |kept|);
    } else {
      AllTextAllHits(Scores(kept), ContentColumn(kept), MetadataColumn(kept), |kept|);
    }
  }

  /** One (collection, query) pair's candidates and their scores. */
  datatype Candidates<+R> = Candidates(docs: seq<Doc<R>>, scores: seq<real>)

  function HybridResults<R>(all: seq<Candidates<R>>, threshold: real, k: int, kReranker: int)
    : (r: seq<QueryResult<Metadata<R>>>)
    ensures |r| == |all|
  {
    seq(|all|, i requires 0 <= i < |all| => HybridQuery(all[i].docs, all[i].scores, threshold, k, kReranker))
  }

  lemma NoHitsAnywhere<M>(results: seq<QueryResult<M>>)
    requires forall i :: 0 <= i < |results| ==> HitsOf(results[i]) == []
    ensures AllHits(results) == []
  {
    if results != [] { NoHitsAnywhere(results[..|results| - 1]); }
  }

  /**
   Across functions: because the merge skips documents that are not strings, a
   hybrid search with `k < kReranker` merges to the empty result, whatever the
   collections, queries and scores.
   */
  lemma {:induction false} SwappedColumnsMergeToNothing<R(!new)>(
      all: seq<Candidates<R>>, threshold: real, k: nat, kReranker: nat)
    requires k < kReranker
    ensures Merged(HybridResults(all, threshold, k, kReranker), k) == Ok(Columns([]))
  {
    var results := HybridResults(all, threshold, k, kReranker);
    forall i | 0 <= i < |results| ensures HitsOf(results[i]) == [] {
      HybridHits(all[i].docs, all[i].scores, threshold, k, kReranker);
    }
    NoHitsAnywhere(results);
    RankedFacts(AllHits(results));
  }

  lemma SomeHits<M>(results: seq<QueryResult<M>>, i: nat)
    requires i < |results| && HitsOf(results[i]) != []
    ensures AllHits(results) != []
  {
    if i < |results| - 1 { SomeHits(results[..|results| - 1], i); }
  }

  /** The merge is empty exactly when the columns were swapped, or nothing was selected anywhere. */
  lemma {:induction false} HybridMergeEmptyIff<R(!new)>(
      all: seq<Candidates<R>>, threshold: real, k: nat, kReranker: nat)
    ensures Merged(HybridResults(all, threshold, k, kReranker), k) == Ok(Columns([])) <==>
      || k < kReranker
      || forall i :: 0 <= i < |all| ==> Selected(all[i].docs, all[i].scores, threshold, k, kReranker) == []
  {
    var results := HybridResults(all, threshold, k, kReranker);
    if k < kReranker {
      SwappedColumnsMergeToNothing(all, threshold, k, kReranker);
    } else {
      forall i | 0 <= i < |all|
        ensures HitsOf(results[i]) == [] <==> Selected(all[i].docs, all[i].scores, threshold, k, kReranker) == []
      {
        HybridHits(all[i].docs, all[i].scores, threshold, k, kReranker);
      }
      MergeEmptyIff(results, k);
      if i :| 0 <= i < |all| && Selected(all[i].docs, all[i].scores, threshold, k, kReranker) != [] {
        SomeHits(results, i);
      } else {
        NoHitsAnywhere(results);
      }
    }
  }

  lemma MergeEmptyIff<M(!new)>(results: seq<QueryResult<M>>, k: nat)
    ensures Merged(results, k) == Ok(Columns([])) <==> AllHits(results) == []
  {
    var hits := AllHits(results);
    RankedFacts(hits);
    if hits != [] {
      assert hits[0].text in Texts(hits);
      var first := Slice(RankedHits(hits), k);
      assert k > 0 ==> |Columns(first).distances[0]| == |first| > 0;
    }
  }
}
