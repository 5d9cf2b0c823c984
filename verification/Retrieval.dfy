/**
 Merging ranked result lists: `merge_and_sort_query_results` and the sharded way
 `query_collection` uses it. Document hashes are taken to be injective, so the
 dictionary is keyed by the document text itself.
 */
module Retrieval {
  import opened Wrappers
  import opened Ranking

  /** A value in a "documents" or "metadatas" column: text, or a metadata dict. */
  datatype Cell<+M> = Text(text: string) | Meta(meta: M)

  /** A result dict; a missing key reads as an empty list. */
  datatype QueryResult<+M> = QueryResult(
    distances: seq<seq<real>>, documents: seq<seq<Cell<M>>>, metadatas: seq<seq<Cell<M>>>)

  /** One usable (distance, document, metadata) triple. */
  datatype Hit<+M> = Hit(distance: real, text: string, metadata: Cell<M>)

  // ---------- the triples a list of results offers ----------

  /** The first `n` zipped triples whose document is a string. */
  function ZipHits<M>(ds: seq<real>, docs: seq<Cell<M>>, metas: seq<Cell<M>>, n: nat): seq<Hit<M>>
    requires n <= |ds| && n <= |docs| && n <= |metas|
  {
    if n == 0 then []
    else ZipHits(ds, docs, metas, n - 1)
         + if docs[n - 1].Text? then [Hit(ds[n - 1], docs[n - 1].text, metas[n - 1])] else []
  }

  predicate Usable<M>(data: QueryResult<M>) {
    data.distances != [] && data.documents != [] && data.metadatas != []
  }

  function RowCount<M>(data: QueryResult<M>): nat
    requires Usable(data)
  {
    Min(|data.distances[0]|, Min(|data.documents[0]|, |data.metadatas[0]|))
  }

  function HitsOf<M>(data: QueryResult<M>): seq<Hit<M>> {
    if Usable(data) then ZipHits(data.distances[0], data.documents[0], data.metadatas[0], RowCount(data))
    else []
  }

  function AllHits<M>(results: seq<QueryResult<M>>): seq<Hit<M>> {
    if results == [] then []
    else AllHits(results[..|results| - 1]) + HitsOf(results[|results| - 1])
  }

  lemma AllHitsAppend<M>(a: seq<QueryResult<M>>, b: seq<QueryResult<M>>)
    ensures AllHits(a + b) == AllHits(a) + AllHits(b)
  {
    if b == [] {
      assert a + b == a;
    } else {
      assert (a + b)[..|a + b| - 1] == a + b[..|b| - 1];
      AllHitsAppend(a, b[..|b| - 1]);
    }
  }

  /** One result offers the rows that all three columns have and whose document is a string, in order. */
  lemma {:induction false} HitRows<M>(data: QueryResult<M>) returns (rows: seq<nat>)
    ensures |rows| == |AllHits([data])| && forall i, j :: 0 <= i < j < |rows| ==> rows[i] < rows[j]
    ensures data.distances == [] || data.documents == [] || data.metadatas == [] ==> rows == []
    ensures data.distances != [] && data.documents != [] && data.metadatas != [] ==>
      var ds, docs, metas := data.distances[0], data.documents[0], data.metadatas[0];
      && (forall r: nat :: r in rows <==> r < |ds| && r < |docs| && r < |metas| && docs[r].Text?)
      && forall i :: 0 <= i < |rows| ==>
           var r := rows[i];
           r < |ds| && r < |docs| && r < |metas| && docs[r].Text? &&
           AllHits([data])[i] == Hit(ds[r], docs[r].text, metas[r])
  {
    assert [data][..0] == [] && AllHits([data]) == HitsOf(data);
    rows := [];
    if Usable(data) {
      rows := ZipRows(data.distances[0], data.documents[0], data.metadatas[0], RowCount(data));
    }
  }

  lemma {:induction false} ZipRows<M>(ds: seq<real>, docs: seq<Cell<M>>, metas: seq<Cell<M>>, n: nat)
    returns (rows: seq<nat>)
    requires n <= |ds| && n <= |docs| && n <= |metas|
    ensures |rows| == |ZipHits(ds, docs, metas, n)| && forall i, j :: 0 <= i < j < |rows| ==> rows[i] < rows[j]
    ensures forall r: nat :: r in rows <==> r < n && docs[r].Text?
    ensures forall i :: 0 <= i < |rows| ==>
      rows[i] < n && docs[rows[i]].Text? &&
      ZipHits(ds, docs, metas, n)[i] == Hit(ds[rows[i]], docs[rows[i]].text, metas[rows[i]])
  {
    rows := [];
    if n > 0 {
      rows := ZipRows(ds, docs, metas, n - 1);
      if docs[n - 1].Text? { rows := rows + [n - 1]; }
    }
  }

  // ---------- specification ----------

  ghost function Texts<M>(hits: seq<Hit<M>>): set<string> {
    set h | h in hits :: h.text
  }

  /** The distinct documents, in order of first appearance. */
  ghost function FirstSeen<M>(hits: seq<Hit<M>>): seq<string> {
    if hits == [] then []
    else
      var before := FirstSeen(hits[..|hits| - 1]);
      var text := hits[|hits| - 1].text;
      if text in before then before else before + [text]
  }

  /** `h` is the earliest triple of `text` with the highest distance. */
  ghost predicate IsBestAt<M>(hits: seq<Hit<M>>, text: string, i: nat) {
    && i < |hits| && hits[i].text == text
    && forall j :: 0 <= j < |hits| && hits[j].text == text ==>
         hits[j].distance <= hits[i].distance && (j < i ==> hits[j].distance < hits[i].distance)
  }

  ghost predicate IsBest<M>(hits: seq<Hit<M>>, text: string, h: Hit<M>) {
    exists i: nat :: IsBestAt(hits, text, i) && hits[i] == h
  }

  lemma BestExists<M>(hits: seq<Hit<M>>, text: string)
    requires text in Texts(hits)
    ensures exists h :: IsBest(hits, text, h)
  {
    var i := BestIndex(hits, text);
    assert IsBest(hits, text, hits[i]);
  }

  lemma BestIndex<M>(hits: seq<Hit<M>>, text: string) returns (i: nat)
    requires text in Texts(hits)
    ensures IsBestAt(hits, text, i)
  {
    var n := |hits| - 1;
    assert hits == hits[..n] + [hits[n]];
    if text in Texts(hits[..n]) {
      i := BestIndex(hits[..n], text);
      if hits[n].text == text && hits[n].distance > hits[i].distance { i := n; }
    } else {
      i := n;
    }
  }

  lemma BestUnique<M>(hits: seq<Hit<M>>, text: string, a: Hit<M>, b: Hit<M>)
    requires IsBest(hits, text, a) && IsBest(hits, text, b)
    ensures a == b
  {
    var i: nat :| IsBestAt(hits, text, i) && hits[i] == a;
    var j: nat :| IsBestAt(hits, text, j) && hits[j] == b;
    assert hits[i].distance <= hits[j].distance && hits[j].distance <= hits[i].distance;
  }

  ghost function Best<M(!new)>(hits: seq<Hit<M>>, text: string): (h: Hit<M>)
    requires text in Texts(hits)
    ensures IsBest(hits, text, h)
  {
    BestExists(hits, text);
    var h :| IsBest(hits, text, h);
    h
  }

  /** One triple per distinct document, the best one, in order of first appearance. */
  ghost function Combined<M(!new)>(hits: seq<Hit<M>>): (c: seq<Hit<M>>)
    ensures |c| == |FirstSeen(hits)|
  {
    FirstSeenTexts(hits);
    seq(|FirstSeen(hits)|, i requires 0 <= i < |FirstSeen(hits)| => Best(hits, FirstSeen(hits)[i]))
  }

  function AsScored<M>(hits: seq<Hit<M>>): (r: seq<Scored<Hit<M>>>)
    ensures |r| == |hits|
  {
    seq(|hits|, i requires 0 <= i < |hits| => Scored(hits[i].distance, hits[i]))
  }

  function Items<M>(s: seq<Scored<Hit<M>>>): (r: seq<Hit<M>>)
    ensures |r| == |s|
  {
    seq(|s|, i requires 0 <= i < |s| => s[i].item)
  }

  ghost function RankedHits<M(!new)>(hits: seq<Hit<M>>): seq<Hit<M>> {
    Items(SortDesc(AsScored(Combined(hits))))
  }

  function Columns<M>(hits: seq<Hit<M>>): QueryResult<M> {
    QueryResult([seq(|hits|, i requires 0 <= i < |hits| => hits[i].distance)],
                [seq(|hits|, i requires 0 <= i < |hits| => Text(hits[i].text))],
                [seq(|hits|, i requires 0 <= i < |hits| => hits[i].metadata)])
  }

  /**
   The merged result. When something was combined but the slice `[:k]` is empty
   there is nothing to unpack, and Python raises.
   */
  ghost function Merged<M(!new)>(results: seq<QueryResult<M>>, k: int): Result<QueryResult<M>> {
    var ranked := RankedHits(AllHits(results));
    if ranked != [] && Slice(ranked, k) == [] then Raise("ValueError")
    else Ok(Columns(Slice(ranked, k)))
  }

  // ---------- the algorithm ----------

  /** The values of an insertion-ordered dictionary. */
  function DictValues<M>(order: seq<string>, dict: map<string, Hit<M>>): (r: seq<Hit<M>>)
    requires forall d :: d in order ==> d in dict
    ensures |r| == |order|
  {
    seq(|order|, i requires 0 <= i < |order| => dict[order[i]])
  }

  /** `dict`, with insertion order `order`, holds the best triple of every document seen. */
  ghost predicate Tracks<M(!new)>(order: seq<string>, dict: map<string, Hit<M>>, hits: seq<Hit<M>>) {
    && order == FirstSeen(hits)
    && dict.Keys == Texts(hits)
    && forall d :: d in dict ==> IsBest(hits, d, dict[d])
  }

  lemma FirstSeenTexts<M>(hits: seq<Hit<M>>)
    ensures (set d | d in FirstSeen(hits)) == Texts(hits)
    ensures forall d :: d in FirstSeen(hits) <==> d in Texts(hits)
    ensures Distinct(FirstSeen(hits))
  {
    if hits != [] {
      var n := |hits| - 1;
      assert hits == hits[..n] + [hits[n]];
      FirstSeenTexts(hits[..n]);
      assert Texts(hits) == Texts(hits[..n]) + {hits[n].text};
    }
  }

  lemma BestKept<M>(hits: seq<Hit<M>>, h: Hit<M>, d: string, best: Hit<M>)
    requires IsBest(hits, d, best)
    requires h.text == d ==> h.distance <= best.distance
    ensures IsBest(hits + [h], d, best)
  {
    var i: nat :| IsBestAt(hits, d, i) && hits[i] == best;
    assert IsBestAt(hits + [h], d, i);
  }

  lemma BestReplaced<M>(hits: seq<Hit<M>>, h: Hit<M>)
    requires h.text in Texts(hits) ==> exists b :: IsBest(hits, h.text, b) && b.distance < h.distance
    ensures IsBest(hits + [h], h.text, h)
  {
    if h.text in Texts(hits) {
      var b :| IsBest(hits, h.text, b) && b.distance < h.distance;
      var i: nat :| IsBestAt(hits, h.text, i) && hits[i] == b;
    } else {
      forall j | 0 <= j < |hits| ensures hits[j].text != h.text { assert hits[j].text in Texts(hits); }
    }
    assert IsBestAt(hits + [h], h.text, |hits|);
  }

  lemma SeenAgain<M>(hits: seq<Hit<M>>, h: Hit<M>)
    requires h.text in Texts(hits)
    ensures FirstSeen(hits + [h]) == FirstSeen(hits) && Texts(hits + [h]) == Texts(hits)
  {
    assert (hits + [h])[..|hits|] == hits;
    FirstSeenTexts(hits);
  }

  lemma SeenFirst<M>(hits: seq<Hit<M>>, h: Hit<M>)
    requires h.text !in Texts(hits)
    ensures FirstSeen(hits + [h]) == FirstSeen(hits) + [h.text]
    ensures Texts(hits + [h]) == Texts(hits) + {h.text}
  {
    assert (hits + [h])[..|hits|] == hits;
    FirstSeenTexts(hits);
  }

  /** One pass of the inner loop keeps `Tracks`: a document seen for the first time, */
  lemma TrackNew<M(!new)>(order: seq<string>, dict: map<string, Hit<M>>, hits: seq<Hit<M>>, h: Hit<M>)
    requires Tracks(order, dict, hits) && h.text !in dict
    ensures Tracks(order + [h.text], dict[h.text := h], hits + [h])
  {
    SeenFirst(hits, h);
    OthersKept(dict, hits, h);
    BestReplaced(hits, h);
  }

  /** a document that beats the one kept, */
  lemma TrackBetter<M(!new)>(order: seq<string>, dict: map<string, Hit<M>>, hits: seq<Hit<M>>, h: Hit<M>)
    requires Tracks(order, dict, hits) && h.text in dict && h.distance > dict[h.text].distance
    ensures Tracks(order, dict[h.text := h], hits + [h])
  {
    SeenAgain(hits, h);
    OthersKept(dict, hits, h);
    BestReplaced(hits, h) by { assert IsBest(hits, h.text, dict[h.text]); }
    assert dict[h.text := h].Keys == dict.Keys;
  }

  /** and one that does not. */
  lemma TrackOther<M(!new)>(order: seq<string>, dict: map<string, Hit<M>>, hits: seq<Hit<M>>, h: Hit<M>)
    requires Tracks(order, dict, hits) && h.text in dict && h.distance <= dict[h.text].distance
    ensures Tracks(order, dict, hits + [h])
  {
    SeenAgain(hits, h);
    OthersKept(dict, hits, h);
    BestKept(hits, h, h.text, dict[h.text]);
  }

  lemma OthersKept<M(!new)>(dict: map<string, Hit<M>>, hits: seq<Hit<M>>, h: Hit<M>)
    requires forall d :: d in dict ==> IsBest(hits, d, dict[d])
    ensures forall d :: d in dict && d != h.text ==> IsBest(hits + [h], d, dict[d])
  {
    forall d | d in dict && d != h.text ensures IsBest(hits + [h], d, dict[d]) {
      BestKept(hits, h, d, dict[d]);
    }
  }

  lemma TracksCombined<M(!new)>(order: seq<string>, dict: map<string, Hit<M>>, hits: seq<Hit<M>>)
    requires Tracks(order, dict, hits)
    ensures forall d :: d in order ==> d in dict
    ensures DictValues(order, dict) == Combined(hits)
  {
    FirstSeenTexts(hits);
    forall i | 0 <= i < |order| ensures dict[order[i]] == Combined(hits)[i] {
      BestUnique(hits, order[i], dict[order[i]], Best(hits, order[i]));
    }
  }

  lemma ZipStep<M>(before: seq<Hit<M>>, ds: seq<real>, docs: seq<Cell<M>>, metas: seq<Cell<M>>, i: nat)
    requires i < |ds| && i < |docs| && i < |metas|
    ensures docs[i].Text? ==>
      before + ZipHits(ds, docs, metas, i + 1) ==
        before + ZipHits(ds, docs, metas, i) + [Hit(ds[i], docs[i].text, metas[i])]
    ensures docs[i].Meta? ==>
      before + ZipHits(ds, docs, metas, i + 1) == before + ZipHits(ds, docs, metas, i)
  {
  }

  /** The dictionary pass over one result's zipped columns. */
  method Absorb<M(!new)>(
      data: QueryResult<M>, order0: seq<string>, combined0: map<string, Hit<M>>, ghost before: seq<Hit<M>>)
    returns (order: seq<string>, combined: map<string, Hit<M>>)
    requires Usable(data) && Tracks(order0, combined0, before)
    ensures Tracks(order, combined, before + HitsOf(data))
  {
    var distances, documents, metadatas := data.distances[0], data.documents[0], data.metadatas[0];
    order, combined := order0, combined0;
    ghost var seen := before;
    for i := 0 to RowCount(data)
      invariant Tracks(order, combined, seen)
      invariant seen == before + ZipHits(distances, documents, metadatas, i)
    {
      ZipStep(before, distances, documents, metadatas, i);
      if documents[i].Text? {
        var hit := Hit(distances[i], documents[i].text, metadatas[i]);
        if hit.text !in combined {
          TrackNew(order, combined, seen, hit);
          order, combined := order + [hit.text], combined[hit.text := hit];
        } else if hit.distance > combined[hit.text].distance {
          TrackBetter(order, combined, seen, hit);
          combined := combined[hit.text := hit];
        } else {
          TrackOther(order, combined, seen, hit);
        }
        seen := seen + [hit];
      }
    }
  }

  method MergeAndSort<M(!new)>(queryResults: seq<QueryResult<M>>, k: int) returns (r: Result<QueryResult<M>>)
    ensures r == Merged(queryResults, k)
  {
    var order: seq<string> := [];
    var combined: map<string, Hit<M>> := map[];
    for n := 0 to |queryResults|
      invariant Tracks(order, combined, AllHits(queryResults[..n]))
    {
      var data := queryResults[n];
      assert AllHits(queryResults[..n + 1]) == AllHits(queryResults[..n]) + HitsOf(data) by {
        assert queryResults[..n + 1][..n] == queryResults[..n];
      }
      if !Usable(data) {
        assert AllHits(queryResults[..n + 1]) == AllHits(queryResults[..n]);
      } else {
        order, combined := Absorb(data, order, combined, AllHits(queryResults[..n]));
      }
    }
    assert queryResults[..|queryResults|] == queryResults;
    TracksCombined(order, combined, AllHits(queryResults));
    var ranked := Items(SortDesc(AsScored(DictValues(order, combined))));
    if ranked != [] && Slice(ranked, k) == [] {
      return Raise("ValueError");
    }
    return Ok(Columns(Slice(ranked, k)));
  }
}
