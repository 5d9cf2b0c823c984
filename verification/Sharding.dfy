/**
 Sharded retrieval: every shard's results are merged and cut at `k`, and the
 pieces are merged again. Nothing is lost, whatever meets the specification of a
 top `k` is used for the merges.
 */
module Sharding {
  import opened Wrappers
  import opened Ranking
  import opened Retrieval
  import opened TopK

  /** The documents offered with a distance of at least `t`. */
  ghost function Above<M>(hits: seq<Hit<M>>, t: real): set<string> {
    set h | h in hits && h.distance >= t :: h.text
  }

  lemma AboveAppend<M>(a: seq<Hit<M>>, b: seq<Hit<M>>, t: real)
    ensures Above(a + b, t) == Above(a, t) + Above(b, t)
  {
  }

  lemma AboveCons<M>(c: seq<Hit<M>>, t: real)
    requires c != []
    ensures Above(c, t) == Above(c[1..], t) + if c[0].distance >= t then {c[0].text} else {}
  {
    forall h | h in c && h != c[0] ensures h in c[1..] {}
  }

  lemma HeadTextNew<M>(c: seq<Hit<M>>, t: real)
    requires c != [] && DistinctTexts(c)
    ensures DistinctTexts(c[1..]) && c[0].text !in Above(c[1..], t)
  {
    forall h | h in c[1..] ensures h.text != c[0].text {
      var i :| 0 <= i < |c[1..]| && c[1..][i] == h;
      assert c[i + 1] == h;
    }
  }

  lemma {:induction false} AboveCount<M>(c: seq<Hit<M>>, t: real)
    requires DistinctTexts(c)
    ensures |Above(c, t)| == CountAtLeast(Distances(c), t)
  {
    if c != [] {
      HeadTextNew(c, t);
      AboveCount(c[1..], t);
      AboveCons(c, t);
      assert Distances(c)[1..] == Distances(c[1..]);
    }
  }

  lemma AboveMember<M>(hits: seq<Hit<M>>, h: Hit<M>, t: real)
    requires h in hits && h.distance >= t
    ensures h.text in Above(hits, t)
  {
  }

  /** A document above the threshold is kept, or else everything kept is above it. */
  lemma KeptOrFull<M(!new)>(hits: seq<Hit<M>>, k: nat, kept: seq<Hit<M>>, t: real, o: Hit<M>)
    requires IsTop(hits, k, kept) && o in hits && o.distance >= t
    ensures o.text in Above(kept, t) || (|kept| == k && CountAtLeast(Distances(kept), t) == k)
  {
    if o.text in Texts(kept) {
      var h :| h in kept && h.text == o.text;
      assert IsBest(hits, h.text, h);
    } else {
      CountAtLeastBound(Distances(kept), t);
      KeptTexts(hits, k, kept);
      SubsetSize(Texts(kept), Texts(hits));
    }
  }

  lemma KeptTexts<M(!new)>(hits: seq<Hit<M>>, k: nat, kept: seq<Hit<M>>)
    requires IsTop(hits, k, kept)
    ensures |Texts(kept)| == |kept|
    ensures Texts(kept) <= Texts(hits)
  {
    var texts := seq(|kept|, i requires 0 <= i < |kept| => kept[i].text);
    DistinctSetSize(texts);
    assert forall i :: 0 <= i < |kept| ==> texts[i] == kept[i].text;
    assert (set x | x in texts) == Texts(kept);
    forall h | h in kept ensures h.text in Texts(hits) {
      assert IsBest(hits, h.text, h);
    }
  }

  lemma KeptWithin<M(!new)>(hits: seq<Hit<M>>, k: nat, kept: seq<Hit<M>>, t: real)
    requires IsTop(hits, k, kept)
    ensures Above(kept, t) <= Above(hits, t)
  {
    forall h | h in kept && h.distance >= t ensures h.text in Above(hits, t) {
      assert IsBest(hits, h.text, h);
    }
  }

  /** Above every threshold, a top `k` has `min(k, everything)` documents. */
  lemma {:induction false} TopAbove<M(!new)>(hits: seq<Hit<M>>, k: nat, kept: seq<Hit<M>>, t: real)
    requires IsTop(hits, k, kept)
    ensures Above(kept, t) <= Above(hits, t)
    ensures |Above(kept, t)| == CountAtLeast(Distances(kept), t) == Min(k, |Above(hits, t)|)
  {
    AboveCount(kept, t);
    CountAtLeastBound(Distances(kept), t);
    KeptWithin(hits, k, kept, t);
    SubsetSize(Above(kept, t), Above(hits, t));
    if Above(kept, t) != Above(hits, t) {
      var d :| d in Above(hits, t) && d !in Above(kept, t);
      var o :| o in hits && o.distance >= t && o.text == d;
      KeptOrFull(hits, k, kept, t, o);
    }
  }

  // ---------- any merges that meet the specification ----------

  lemma ConcatWithin<M>(s: seq<seq<Hit<M>>>, i: nat, t: real)
    requires i < |s|
    ensures Above(s[i], t) <= Above(Concat(s), t)
  {
    var n := |s| - 1;
    AboveAppend(Concat(s[..n]), s[n], t);
    if i < n { ConcatWithin(s[..n], i, t); }
  }

  lemma ConcatOffering<M>(s: seq<seq<Hit<M>>>, d: string, t: real) returns (i: nat)
    requires d in Above(Concat(s), t)
    ensures i < |s| && d in Above(s[i], t)
  {
    i := |s| - 1;
    AboveAppend(Concat(s[..i]), s[i], t);
    if d !in Above(s[i], t) { i := ConcatOffering(s[..i], d, t); }
  }

  /** Each of `cuts` is a top `k` of its shard. */
  ghost predicate AreCuts<M(!new)>(shards: seq<seq<Hit<M>>>, k: nat, cuts: seq<seq<Hit<M>>>) {
    |cuts| == |shards| && forall i :: 0 <= i < |shards| ==> IsTop(shards[i], k, cuts[i])
  }

  /** Above every threshold the cut shards offer everything, or at least `k` documents. */
  lemma {:induction false} CutsAbove<M(!new)>(shards: seq<seq<Hit<M>>>, k: nat, cuts: seq<seq<Hit<M>>>, t: real)
    requires AreCuts(shards, k, cuts)
    ensures Above(Concat(cuts), t) <= Above(Concat(shards), t)
    ensures Min(k, |Above(Concat(cuts), t)|) == Min(k, |Above(Concat(shards), t)|)
  {
    var all, cut := Above(Concat(shards), t), Above(Concat(cuts), t);
    forall d | d in cut ensures d in all {
      var i := ConcatOffering(cuts, d, t);
      TopAbove(shards[i], k, cuts[i], t);
      ConcatWithin(shards, i, t);
    }
    SubsetSize(cut, all);
    if cut != all {
      var d :| d in all && d !in cut;
      var i := ConcatOffering(shards, d, t);
      ConcatWithin(cuts, i, t);
      TopAbove(shards[i], k, cuts[i], t);
      SubsetSize(Above(cuts[i], t), Above(shards[i], t));
      SubsetSize(Above(cuts[i], t), cut);
    }
  }

  /** Whatever top `k` is taken of the cut shards and of everything, the distances are the same. */
  lemma {:induction false} CuttingLossless<M(!new)>(
      shards: seq<seq<Hit<M>>>, k: nat, cuts: seq<seq<Hit<M>>>, sharded: seq<Hit<M>>, direct: seq<Hit<M>>)
    requires AreCuts(shards, k, cuts)
    requires IsTop(Concat(cuts), k, sharded) && IsTop(Concat(shards), k, direct)
    ensures Distances(sharded) == Distances(direct)
  {
    forall t ensures CountAtLeast(Distances(sharded), t) == CountAtLeast(Distances(direct), t) {
      TopAbove(Concat(cuts), k, sharded, t);
      TopAbove(Concat(shards), k, direct, t);
      CutsAbove(shards, k, cuts, t);
    }
    CountsDetermine(Distances(sharded), Distances(direct));
  }

  /** A document kept from the cut shards carries its best distance over all shards. */
  lemma {:induction false} BestCarried<M(!new)>(
      shards: seq<seq<Hit<M>>>, k: nat, cuts: seq<seq<Hit<M>>>, sharded: seq<Hit<M>>, h: Hit<M>, o: Hit<M>)
    requires AreCuts(shards, k, cuts) && IsTop(Concat(cuts), k, sharded)
    requires h in sharded && o in Concat(shards) && o.text == h.text
    ensures o.distance <= h.distance
  {
    var t, cut := o.distance, Above(Concat(cuts), o.distance);
    CutsAbove(shards, k, cuts, t);
    AboveMember(Concat(shards), o, t);
    var i :| 0 <= i < |sharded| && sharded[i] == h;
    assert Distances(sharded)[i] == h.distance;
    if o.text in cut {
      var c :| c in Concat(cuts) && c.distance >= t && c.text == o.text;
      assert IsBest(Concat(cuts), h.text, h);
    } else {
      SubsetSize(cut + {o.text}, Above(Concat(shards), t));
      TopAbove(Concat(cuts), k, sharded, t);
      CountAtLeastBound(Distances(sharded), t);
    }
  }

  // ---------- the merge of the source ----------

  lemma ColumnsHits<M>(hits: seq<Hit<M>>)
    ensures HitsOf(Columns(hits)) == hits
  {
    ColumnsPrefix(hits, |hits|);
    assert hits[..|hits|] == hits;
  }

  lemma ColumnsPrefix<M>(hits: seq<Hit<M>>, n: nat)
    requires n <= |hits|
    ensures var c := Columns(hits);
      ZipHits(c.distances[0], c.documents[0], c.metadatas[0], n) == hits[..n]
  {
    if n > 0 { ColumnsPrefix(hits, n - 1); }
  }

  /** All shards' results in one list. */
  ghost function Pooled<M>(shards: seq<seq<QueryResult<M>>>): seq<QueryResult<M>> {
    if shards == [] then []
    else Pooled(shards[..|shards| - 1]) + shards[|shards| - 1]
  }

  /** The triples of each shard. */
  ghost function ShardHits<M>(shards: seq<seq<QueryResult<M>>>): (r: seq<seq<Hit<M>>>)
    ensures |r| == |shards| && forall i :: 0 <= i < |shards| ==> r[i] == AllHits(shards[i])
  {
    seq(|shards|, i requires 0 <= i < |shards| => AllHits(shards[i]))
  }

  /** The triples each shard keeps. */
  ghost function KeptHits<M(!new)>(shards: seq<seq<QueryResult<M>>>, k: nat): (r: seq<seq<Hit<M>>>)
    ensures |r| == |shards| && forall i :: 0 <= i < |shards| ==> r[i] == Kept(AllHits(shards[i]), k)
  {
    seq(|shards|, i requires 0 <= i < |shards| => Kept(AllHits(shards[i]), k))
  }

  lemma PooledHits<M>(shards: seq<seq<QueryResult<M>>>)
    ensures AllHits(Pooled(shards)) == Concat(ShardHits(shards))
  {
    if shards != [] {
      var n := |shards| - 1;
      PooledHits(shards[..n]);
      AllHitsAppend(Pooled(shards[..n]), shards[n]);
      assert ShardHits(shards)[..n] == ShardHits(shards[..n]);
    }
  }

  /** Each shard merged and cut at `k` on its own. */
  ghost predicate AreMerged<M(!new)>(shards: seq<seq<QueryResult<M>>>, k: nat, pieces: seq<QueryResult<M>>) {
    |pieces| == |shards| && forall i :: 0 <= i < |shards| ==> Merged(shards[i], k) == Ok(pieces[i])
  }

  lemma PiecesHits<M(!new)>(shards: seq<seq<QueryResult<M>>>, k: nat, pieces: seq<QueryResult<M>>)
    requires k > 0 && AreMerged(shards, k, pieces)
    ensures AllHits(pieces) == Concat(KeptHits(shards, k))
  {
    if shards != [] {
      var n := |shards| - 1;
      assert AreMerged(shards[..n], k, pieces[..n]);
      PiecesHits(shards[..n], k, pieces[..n]);
      MergeIsTopK(shards[n], k);
      ColumnsHits(Kept(AllHits(shards[n]), k));
      assert KeptHits(shards, k)[..n] == KeptHits(shards[..n], k);
    }
  }

  lemma KeptAreCuts<M(!new)>(shards: seq<seq<QueryResult<M>>>, k: nat)
    ensures AreCuts(ShardHits(shards), k, KeptHits(shards, k))
  {
    forall i | 0 <= i < |shards| ensures IsTop(AllHits(shards[i]), k, Kept(AllHits(shards[i]), k)) {
      KeptIsTopK(AllHits(shards[i]), k);
    }
  }

  /** Both merges return, with the same distances. */
  ghost predicate SameDistances<M(!new)>(a: Result<QueryResult<M>>, b: Result<QueryResult<M>>) {
    a.Ok? && b.Ok? && a.value.distances == b.value.distances
  }

  /**
   Sharded retrieval is lossless: cutting every shard at `k` and merging the
   pieces gives the distances of merging everything at once.
   */
  lemma {:induction false} ShardingLossless<M(!new)>(
      shards: seq<seq<QueryResult<M>>>, k: nat, pieces: seq<QueryResult<M>>)
    requires k > 0 && AreMerged(shards, k, pieces)
    ensures SameDistances(Merged(pieces, k), Merged(Pooled(shards), k))
  {
    PiecesHits(shards, k, pieces);
    PooledHits(shards);
    KeptAreCuts(shards, k);
    MergeIsTopK(pieces, k);
    MergeIsTopK(Pooled(shards), k);
    CuttingLossless(ShardHits(shards), k, KeptHits(shards, k),
                    Kept(AllHits(pieces), k), Kept(AllHits(Pooled(shards)), k));
  }

  /** And every document returned carries its best distance over all shards. */
  lemma {:induction false} ShardingCarriesBest<M(!new)>(
      shards: seq<seq<QueryResult<M>>>, k: nat, pieces: seq<QueryResult<M>>, h: Hit<M>, o: Hit<M>)
    requires k > 0 && AreMerged(shards, k, pieces)
    requires h in Kept(AllHits(pieces), k) && o in AllHits(Pooled(shards)) && o.text == h.text
    ensures o.distance <= h.distance
  {
    PiecesHits(shards, k, pieces);
    PooledHits(shards);
    KeptAreCuts(shards, k);
    KeptIsTopK(AllHits(pieces), k);
    BestCarried(ShardHits(shards), k, KeptHits(shards, k), Kept(AllHits(pieces), k), h, o);
  }
}
