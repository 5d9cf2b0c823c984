/**
 Splitting audio: `split_audio` between silence detection and export. A chunk is
 the sequence of its one-millisecond frames, so lengths are in milliseconds.
 */
module AudioSplit {
  import opened Wrappers

  // ---------- merging short chunks ----------

  /** Consecutive chunks merged into one: it goes on while they are short. */
  ghost predicate IsGroup<F>(group: seq<seq<F>>, minMs: int) {
    group != [] && forall j :: 0 <= j < |group| - 1 ==> |group[j]| < minMs
  }

  /** A long chunk ends its group. */
  ghost predicate EndsLong<F>(group: seq<seq<F>>, minMs: int) {
    group != [] && |group[|group| - 1]| >= minMs
  }

  /**
   `merged` concatenates the consecutive groups of `chunks`. Only the last group may
   lack a long chunk, when the input runs out.
   */
  ghost predicate IsGrouping<F>(chunks: seq<seq<F>>, minMs: int, groups: seq<seq<seq<F>>>, merged: seq<seq<F>>) {
    && Concat(groups) == chunks
    && |merged| == |groups|
    && (forall i :: 0 <= i < |groups| ==> IsGroup(groups[i], minMs) && merged[i] == Concat(groups[i]))
    && (forall i :: 0 <= i < |groups| - 1 ==> EndsLong(groups[i], minMs))
  }

  lemma {:induction false} GroupingConcat<F>(groups: seq<seq<seq<F>>>, merged: seq<seq<F>>)
    requires |merged| == |groups|
    requires forall i :: 0 <= i < |groups| ==> merged[i] == Concat(groups[i])
    ensures Concat(merged) == Concat(Concat(groups))
  {
    if merged != [] {
      var n := |merged| - 1;
      GroupingConcat(groups[..n], merged[..n]);
      ConcatAppend(Concat(groups[..n]), groups[n]);
    }
  }

  lemma ConcatOne<F>(s: seq<F>)
    ensures Concat([s]) == s
  {
    assert [s][..0] == [];
    assert Concat([s][..0]) == [];
  }

  lemma ConcatLast<F>(chunks: seq<seq<F>>, last: seq<F>)
    ensures Concat(chunks + [last]) == Concat(chunks) + last
  {
    ConcatAppend(chunks, [last]);
    ConcatOne(last);
  }

  /** `merge_short_chunks`. */
  method MergeShortChunks<F>(chunks: seq<seq<F>>, minMs: int)
    returns (merged: seq<seq<F>>, ghost groups: seq<seq<seq<F>>>)
    ensures IsGrouping(chunks, minMs, groups, merged)
    ensures Concat(merged) == Concat(chunks)
    ensures forall i :: 0 <= i < |merged| - 1 ==> |merged[i]| >= minMs
  {
    merged, groups := [], [];
    var buffer: Option<seq<F>> := None;
    ghost var done: seq<seq<F>>, pending: seq<seq<F>> := [], [];
    for n := 0 to |chunks|
      invariant Merging(chunks, n, minMs, merged, buffer, groups, done, pending)
    {
      var chunk := chunks[n];
      if |chunk| < minMs {
        MergingShort(chunks, n, minMs, merged, buffer, groups, done, pending);
        pending := pending + [chunk];
        if buffer.Some? {
          buffer := Some(buffer.value + chunk);
        } else {
          buffer := Some(chunk);
        }
      } else {
        MergingLong(chunks, n, minMs, merged, buffer, groups, done, pending);
        done, groups, pending := done + (pending + [chunk]), groups + [pending + [chunk]], [];
        if buffer.Some? {
          chunk := buffer.value + chunk;
          buffer := None;
        }
        merged := merged + [chunk];
      }
    }
    LongGroups(done, minMs, groups, merged);
    assert chunks == done + pending;
    if buffer.Some? {
      AddGroup(done, minMs, groups, merged, pending);
      merged, groups := merged + [buffer.value], groups + [pending];
    } else {
      assert done == chunks;
    }
    GroupingConcat(groups, merged);
  }

  lemma ConcatFirst<F>(groups: seq<seq<seq<F>>>)
    requires groups != []
    ensures Concat(groups) == groups[0] + Concat(groups[1..])
  {
    assert groups == [groups[0]] + groups[1..];
    ConcatAppend([groups[0]], groups[1..]);
    ConcatOne(groups[0]);
  }

  /** The first group reaches to the first long chunk, or to the end. */
  lemma FirstGroup<F>(chunks: seq<seq<F>>, minMs: int, g: seq<seq<seq<F>>>, a: seq<seq<F>>)
    requires IsGrouping(chunks, minMs, g, a) && g != []
    ensures 0 < |g[0]| <= |chunks| && AllShort(chunks[..|g[0]| - 1], minMs)
    ensures |g[0]| == |chunks| || |chunks[|g[0]| - 1]| >= minMs
  {
    ConcatFirst(g);
    var n := |g[0]|;
    forall j | 0 <= j < n - 1 ensures |chunks[j]| < minMs { assert chunks[j] == g[0][j]; }
    assert chunks[n - 1] == g[0][n - 1];
    if n < |chunks| {
      assert g[1..] != [] by { assert Concat(g[1..]) != []; }
      assert EndsLong(g[0], minMs);
    }
  }

  lemma RestIsGrouping<F>(chunks: seq<seq<F>>, minMs: int, g: seq<seq<seq<F>>>, a: seq<seq<F>>)
    requires IsGrouping(chunks, minMs, g, a) && g != []
    ensures |g[0]| <= |chunks| && g[0] == chunks[..|g[0]|]
    ensures IsGrouping(chunks[|g[0]|..], minMs, g[1..], a[1..])
  {
    ConcatFirst(g);
    assert chunks[|g[0]|..] == Concat(g[1..]);
  }

  /** There is only one such grouping. */
  lemma {:induction false} GroupingUnique<F>(
      chunks: seq<seq<F>>, minMs: int, g: seq<seq<seq<F>>>, h: seq<seq<seq<F>>>, a: seq<seq<F>>, b: seq<seq<F>>)
    requires IsGrouping(chunks, minMs, g, a) && IsGrouping(chunks, minMs, h, b)
    ensures g == h && a == b
    decreases |g|
  {
    if g != [] { ConcatFirst(g); }
    if h != [] { ConcatFirst(h); }
    assert g == [] ==> h == [] by { assert h != [] ==> h[0] != []; }
    assert h == [] ==> g == [] by { assert g != [] ==> g[0] != []; }
    if g != [] {
      FirstGroup(chunks, minMs, g, a);
      FirstGroup(chunks, minMs, h, b);
      assert |g[0]| == |h[0]|;
      RestIsGrouping(chunks, minMs, g, a);
      RestIsGrouping(chunks, minMs, h, b);
      GroupingUnique(chunks[|g[0]|..], minMs, g[1..], h[1..], a[1..], b[1..]);
      assert g == [g[0]] + g[1..] && h == [h[0]] + h[1..];
      assert a == [Concat(g[0])] + a[1..] && b == [Concat(h[0])] + b[1..];
    }
  }

  /** After `n` chunks: those in `done` are merged, those in `pending` are in the buffer. */
  ghost predicate Merging<F>(chunks: seq<seq<F>>, n: nat, minMs: int, merged: seq<seq<F>>, buffer: Option<seq<F>>,
                             groups: seq<seq<seq<F>>>, done: seq<seq<F>>, pending: seq<seq<F>>)
  {
    && n <= |chunks| && chunks[..n] == done + pending
    && IsGrouping(done, minMs, groups, merged) && AllEndLong(groups, minMs)
    && AllShort(pending, minMs)
    && buffer == if pending == [] then None else Some(Concat(pending))
  }

  lemma MergingShort<F>(chunks: seq<seq<F>>, n: nat, minMs: int, merged: seq<seq<F>>, buffer: Option<seq<F>>,
                        groups: seq<seq<seq<F>>>, done: seq<seq<F>>, pending: seq<seq<F>>)
    requires Merging(chunks, n, minMs, merged, buffer, groups, done, pending)
    requires n < |chunks| && |chunks[n]| < minMs
    ensures Merging(chunks, n + 1, minMs, merged, Some(if buffer.Some? then buffer.value + chunks[n] else chunks[n]),
                    groups, done, pending + [chunks[n]])
  {
    Collect(pending, chunks[n]);
    assert chunks[..n + 1] == done + (pending + [chunks[n]]);
  }

  lemma MergingLong<F>(chunks: seq<seq<F>>, n: nat, minMs: int, merged: seq<seq<F>>, buffer: Option<seq<F>>,
                       groups: seq<seq<seq<F>>>, done: seq<seq<F>>, pending: seq<seq<F>>)
    requires Merging(chunks, n, minMs, merged, buffer, groups, done, pending)
    requires n < |chunks| && |chunks[n]| >= minMs
    ensures Merging(chunks, n + 1, minMs, merged + [if buffer.Some? then buffer.value + chunks[n] else chunks[n]], None,
                    groups + [pending + [chunks[n]]], done + (pending + [chunks[n]]), [])
  {
    Collect(pending, chunks[n]);
    assert chunks[..n + 1] == done + (pending + [chunks[n]]) + [];
    AddGroup(done, minMs, groups, merged, pending + [chunks[n]]);
  }

  ghost predicate AllEndLong<F>(groups: seq<seq<seq<F>>>, minMs: int) {
    forall i :: 0 <= i < |groups| ==> EndsLong(groups[i], minMs)
  }

  ghost predicate AllShort<F>(chunks: seq<seq<F>>, minMs: int) {
    forall j :: 0 <= j < |chunks| ==> |chunks[j]| < minMs
  }

  lemma Collect<F>(pending: seq<seq<F>>, chunk: seq<F>)
    ensures Concat(pending + [chunk]) == if pending == [] then chunk else Concat(pending) + chunk
  {
    ConcatLast(pending, chunk);
    assert pending == [] ==> Concat(pending) + chunk == chunk;
  }

  lemma AddGroup<F>(done: seq<seq<F>>, minMs: int, groups: seq<seq<seq<F>>>, merged: seq<seq<F>>, group: seq<seq<F>>)
    requires IsGrouping(done, minMs, groups, merged) && AllEndLong(groups, minMs) && IsGroup(group, minMs)
    ensures IsGrouping(done + group, minMs, groups + [group], merged + [Concat(group)])
  {
    ConcatLast(groups, group);
  }

  lemma LongGroups<F>(done: seq<seq<F>>, minMs: int, groups: seq<seq<seq<F>>>, merged: seq<seq<F>>)
    requires IsGrouping(done, minMs, groups, merged) && AllEndLong(groups, minMs)
    ensures forall i :: 0 <= i < |merged| ==> |merged[i]| >= minMs
  {
    forall i | 0 <= i < |merged| ensures |merged[i]| >= minMs {
      assert EndsLong(groups[i], minMs) && merged[i] == Concat(groups[i]);
    }
  }

  // ---------- slicing long chunks ----------

  /** The slices of `chunk` from `i` on, without those shorter than the minimum. */
  ghost function Slices<F>(chunk: seq<F>, i: nat, maxMs: nat, minMs: int): seq<seq<F>>
    requires maxMs > 0
    decreases |chunk| - i
  {
    if i >= |chunk| then []
    else
      var slice := chunk[i..Min(i + maxMs, |chunk|)];
      (if |slice| >= minMs then [slice] else []) + Slices(chunk, i + maxMs, maxMs, minMs)
  }

  ghost function Pieces<F>(chunk: seq<F>, maxMs: nat, minMs: int): seq<seq<F>>
    requires maxMs > 0
  {
    if |chunk| > maxMs then Slices(chunk, 0, maxMs, minMs) else [chunk]
  }

  ghost function AllPieces<F>(merged: seq<seq<F>>, maxMs: nat, minMs: int): seq<seq<F>>
    requires maxMs > 0
  {
    if merged == [] then []
    else AllPieces(merged[..|merged| - 1], maxMs, minMs) + Pieces(merged[|merged| - 1], maxMs, minMs)
  }

  /** `for i in range(0, len(chunk), max_chunk_ms)`. */
  method SliceChunk<F>(chunk: seq<F>, maxMs: nat, minMs: int) returns (pieces: seq<seq<F>>)
    requires maxMs > 0
    ensures pieces == Slices(chunk, 0, maxMs, minMs)
  {
    pieces := [];
    var i := 0;
    while i < |chunk|
      invariant pieces + Slices(chunk, i, maxMs, minMs) == Slices(chunk, 0, maxMs, minMs)
      decreases |chunk| - i
    {
      var sliced := chunk[i..if i + maxMs < |chunk| then i + maxMs else |chunk|];
      if |sliced| >= minMs {
        assert pieces + ([sliced] + Slices(chunk, i + maxMs, maxMs, minMs)) ==
          pieces + [sliced] + Slices(chunk, i + maxMs, maxMs, minMs);
        pieces := pieces + [sliced];
      } else {
        assert Slices(chunk, i, maxMs, minMs) == Slices(chunk, i + maxMs, maxMs, minMs);
      }
      i := i + maxMs;
    }
  }

  /** What merging promises of `merged`. */
  ghost predicate IsMergeOf<F(!new)>(chunks: seq<seq<F>>, minMs: int, merged: seq<seq<F>>) {
    && (exists groups :: IsGrouping(chunks, minMs, groups, merged))
    && Concat(merged) == Concat(chunks)
    && forall i :: 0 <= i < |merged| - 1 ==> |merged[i]| >= minMs
  }

  /** `split_audio`: merge, then slice. */
  method SplitAudio<F(!new)>(rawChunks: seq<seq<F>>, maxMs: nat, minMs: int)
    returns (finalChunks: seq<seq<F>>, merged: seq<seq<F>>)
    requires maxMs > 0
    ensures IsMergeOf(rawChunks, minMs, merged)
    ensures finalChunks == AllPieces(merged, maxMs, minMs)
  {
    ghost var groups;
    merged, groups := MergeShortChunks(rawChunks, minMs);
    finalChunks := [];
    for n := 0 to |merged|
      invariant finalChunks == AllPieces(merged[..n], maxMs, minMs)
    {
      assert merged[..n + 1][..n] == merged[..n];
      if |merged[n]| > maxMs {
        var pieces := SliceChunk(merged[n], maxMs, minMs);
        finalChunks := finalChunks + pieces;
      } else {
        finalChunks := finalChunks + [merged[n]];
      }
    }
    assert merged[..|merged|] == merged;
  }

  // ---------- what survives ----------

  /** The milliseconds dropped from the end of one chunk: the last slice if too short, or every slice. */
  function Lost(len: nat, maxMs: nat, minMs: int): nat
    requires maxMs > 0
  {
    if len <= maxMs then 0
    else if maxMs < minMs then len
    else if len % maxMs < minMs then len % maxMs
    else 0
  }

  ghost function TotalLost<F>(merged: seq<seq<F>>, maxMs: nat, minMs: int): nat
    requires maxMs > 0
  {
    if merged == [] then 0
    else TotalLost(merged[..|merged| - 1], maxMs, minMs) + Lost(|merged[|merged| - 1]|, maxMs, minMs)
  }

  /** The length of the last, incomplete slice, as the slicing meets it. */
  ghost function Rest(len: nat, maxMs: nat): nat
    requires maxMs > 0
  {
    if len < maxMs then len else Rest(len - maxMs, maxMs)
  }

  lemma {:induction false} RestIsRemainder(len: nat, maxMs: nat)
    requires maxMs > 0
    ensures Rest(len, maxMs) == len % maxMs
  {
    if len >= maxMs {
      RestIsRemainder(len - maxMs, maxMs);
      var q, r := (len - maxMs) / maxMs, (len - maxMs) % maxMs;
      assert len == maxMs * (q + 1) + r;
      DivisionUnique(len, maxMs, q + 1, r);
    }
  }

  lemma DivisionUnique(a: nat, d: nat, q: nat, r: nat)
    requires a == d * q + r && r < d
    ensures a % d == r
  {
    var q' := a / d;
    assert a == d * q' + a % d;
    if q < q' { Monotone(q + 1, q', d); Distribute(d, q, 1); }
    if q' < q { Monotone(q' + 1, q, d); Distribute(d, q', 1); }
  }

  ghost function Dropped(len: nat, maxMs: nat, minMs: int): nat
    requires maxMs > 0
    ensures Dropped(len, maxMs, minMs) <= len
  {
    if len < maxMs then (if len < minMs then len else 0) else Dropped(len - maxMs, maxMs, minMs)
  }

  lemma {:induction false} DroppedIsLost(len: nat, maxMs: nat, minMs: int)
    requires maxMs > 0 && minMs <= maxMs
    ensures Dropped(len, maxMs, minMs) == if len % maxMs < minMs then len % maxMs else 0
  {
    RestIsRemainder(len, maxMs);
    DroppedRest(len, maxMs, minMs);
  }

  lemma DroppedRest(len: nat, maxMs: nat, minMs: int)
    requires maxMs > 0 && minMs <= maxMs
    ensures Dropped(len, maxMs, minMs) == if Rest(len, maxMs) < minMs then Rest(len, maxMs) else 0
  {
  }

  lemma ConcatCons<F>(s: seq<F>, rest: seq<seq<F>>)
    ensures Concat([s] + rest) == s + Concat(rest)
  {
    ConcatAppend([s], rest);
    ConcatOne(s);
  }

  lemma Join<F>(s: seq<F>, i: nat, j: nat, k: nat)
    requires i <= j <= k <= |s|
    ensures s[i..j] + s[j..k] == s[i..k]
  {
  }

  lemma {:induction false} SlicesKeep<F>(chunk: seq<F>, i: nat, maxMs: nat, minMs: int, kept: nat)
    requires maxMs > 0 && minMs <= maxMs && i <= |chunk|
    requires kept == |chunk| - Dropped(|chunk| - i, maxMs, minMs)
    ensures i <= kept <= |chunk| && Concat(Slices(chunk, i, maxMs, minMs)) == chunk[i..kept]
    decreases |chunk| - i
  {
    if i + maxMs <= |chunk| {
      SlicesKeep(chunk, i + maxMs, maxMs, minMs, kept);
      FullSliceFirst(chunk, i, maxMs, minMs);
      Join(chunk, i, i + maxMs, kept);
    } else if i < |chunk| {
      LastSlice(chunk, i, maxMs, minMs);
    }
  }

  lemma FullSliceFirst<F>(chunk: seq<F>, i: nat, maxMs: nat, minMs: int)
    requires maxMs > 0 && minMs <= maxMs && i + maxMs <= |chunk|
    ensures Concat(Slices(chunk, i, maxMs, minMs)) ==
      chunk[i..i + maxMs] + Concat(Slices(chunk, i + maxMs, maxMs, minMs))
  {
    ConcatCons(chunk[i..i + maxMs], Slices(chunk, i + maxMs, maxMs, minMs));
  }

  lemma LastSlice<F>(chunk: seq<F>, i: nat, maxMs: nat, minMs: int)
    requires maxMs > 0 && i < |chunk| < i + maxMs
    ensures Concat(Slices(chunk, i, maxMs, minMs)) == if |chunk| - i < minMs then [] else chunk[i..]
  {
    assert Slices(chunk, i + maxMs, maxMs, minMs) == [];
    ConcatOne(chunk[i..|chunk|]);
  }

  /** With a minimum above the maximum no slice is long enough. */
  lemma {:induction false} NoSlices<F>(chunk: seq<F>, i: nat, maxMs: nat, minMs: int)
    requires 0 < maxMs < minMs
    ensures Slices(chunk, i, maxMs, minMs) == []
    decreases |chunk| - i
  {
    if i < |chunk| { NoSlices(chunk, i + maxMs, maxMs, minMs); }
  }

  lemma {:induction false} SlicesLengths<F>(chunk: seq<F>, i: nat, maxMs: nat, minMs: int)
    requires maxMs > 0
    ensures forall j :: 0 <= j < |Slices(chunk, i, maxMs, minMs)| ==>
      minMs <= |Slices(chunk, i, maxMs, minMs)[j]| <= maxMs
    decreases |chunk| - i
  {
    if i < |chunk| { SlicesLengths(chunk, i + maxMs, maxMs, minMs); }
  }

  /** Each merged chunk keeps a prefix: all of it but the loss at its end. */
  lemma {:induction false} PiecesKeepPrefix<F>(chunk: seq<F>, maxMs: nat, minMs: int)
    requires maxMs > 0
    ensures Lost(|chunk|, maxMs, minMs) <= |chunk|
    ensures Concat(Pieces(chunk, maxMs, minMs)) == chunk[..|chunk| - Lost(|chunk|, maxMs, minMs)]
  {
    if |chunk| > maxMs {
      if maxMs < minMs {
        NoSlices(chunk, 0, maxMs, minMs);
      } else {
        SlicesKeep(chunk, 0, maxMs, minMs, |chunk| - Dropped(|chunk|, maxMs, minMs));
        DroppedIsLost(|chunk|, maxMs, minMs);
      }
    } else {
      ConcatOne(chunk);
    }
  }

  /** Slicing one chunk: no piece is too long, and none too short if the chunk was not. */
  lemma {:induction false} PiecesLengths<F>(chunk: seq<F>, maxMs: nat, minMs: int)
    requires maxMs > 0
    ensures var ps := Pieces(chunk, maxMs, minMs);
      && (forall i :: 0 <= i < |ps| ==> |ps[i]| <= maxMs)
      && (forall i :: 0 <= i < |ps| && (|chunk| >= minMs || i < |ps| - 1) ==> |ps[i]| >= minMs)
  {
    if |chunk| > maxMs { SlicesLengths(chunk, 0, maxMs, minMs); }
  }

  /** When no merged chunk is short, no final one is. */
  lemma {:induction false} LongStayLong<F>(merged: seq<seq<F>>, maxMs: nat, minMs: int)
    requires maxMs > 0
    requires forall i :: 0 <= i < |merged| ==> |merged[i]| >= minMs
    ensures forall i :: 0 <= i < |AllPieces(merged, maxMs, minMs)| ==>
      minMs <= |AllPieces(merged, maxMs, minMs)[i]| <= maxMs
  {
    if merged != [] {
      LongStayLong(merged[..|merged| - 1], maxMs, minMs);
      PiecesLengths(merged[|merged| - 1], maxMs, minMs);
    }
  }

  /** Every final chunk is at most the maximum, and all but the last at least the minimum. */
  lemma {:induction false} FinalLengths<F>(merged: seq<seq<F>>, maxMs: nat, minMs: int)
    requires maxMs > 0
    requires forall i :: 0 <= i < |merged| - 1 ==> |merged[i]| >= minMs
    ensures var final := AllPieces(merged, maxMs, minMs);
      && (forall i :: 0 <= i < |final| ==> |final[i]| <= maxMs)
      && (forall i :: 0 <= i < |final| - 1 ==> |final[i]| >= minMs)
  {
    if merged != [] {
      LongStayLong(merged[..|merged| - 1], maxMs, minMs);
      PiecesLengths(merged[|merged| - 1], maxMs, minMs);
    }
  }

  /** Each loss is small against the chunk it comes from. */
  lemma LossBound(len: nat, maxMs: nat, minMs: int)
    requires 1 <= minMs <= maxMs
    ensures (maxMs + 1) * Lost(len, maxMs, minMs) <= (minMs - 1) * len
  {
    var lost := Lost(len, maxMs, minMs);
    if lost > 0 {
      assert (maxMs + 1) * lost <= (maxMs + 1) * (minMs - 1) by { Monotone(lost, minMs - 1, maxMs + 1); }
      assert (minMs - 1) * (maxMs + 1) <= (minMs - 1) * len by { Monotone(maxMs + 1, len, minMs - 1); }
    }
  }

  lemma Monotone(a: nat, b: nat, c: nat)
    requires a <= b
    ensures c * a <= c * b
  {
  }

  /** Conservation: what is kept and what is lost add up to the input. */
  lemma {:induction false} Conservation<F>(merged: seq<seq<F>>, maxMs: nat, minMs: int)
    requires maxMs > 0
    ensures |Concat(AllPieces(merged, maxMs, minMs))| + TotalLost(merged, maxMs, minMs) == |Concat(merged)|
  {
    if merged != [] {
      Conservation(merged[..|merged| - 1], maxMs, minMs);
      LastChunkKept(merged, maxMs, minMs);
    }
  }

  lemma {:induction false} BoundedLoss<F>(merged: seq<seq<F>>, c: nat, d: nat, maxMs: nat, minMs: int)
    returns (lost: nat, total: nat)
    requires 1 <= minMs <= maxMs && c == maxMs + 1 && d == minMs - 1
    ensures lost == TotalLost(merged, maxMs, minMs) && total == |Concat(merged)|
    ensures c * lost <= d * total
  {
    if merged == [] {
      lost, total := 0, 0;
    } else {
      var len := |merged[|merged| - 1]|;
      var lost0, total0 := BoundedLoss(merged[..|merged| - 1], c, d, maxMs, minMs);
      LossBound(len, maxMs, minMs);
      var last := Lost(len, maxMs, minMs);
      AddBounds(c, d, lost0, last, total0, len);
      lost, total := lost0 + last, total0 + len;
    }
  }

  lemma {:induction false} LastChunkKept<F>(merged: seq<seq<F>>, maxMs: nat, minMs: int)
    requires maxMs > 0 && merged != []
    ensures var front, len := merged[..|merged| - 1], |merged[|merged| - 1]|;
      |Concat(AllPieces(merged, maxMs, minMs))| ==
        |Concat(AllPieces(front, maxMs, minMs))| + len - Lost(len, maxMs, minMs)
  {
    var front, last := merged[..|merged| - 1], merged[|merged| - 1];
    PiecesKeepPrefix(last, maxMs, minMs);
    ConcatAppend(AllPieces(front, maxMs, minMs), Pieces(last, maxMs, minMs));
  }

  lemma AddBounds(c: nat, d: nat, lost: nat, lost': nat, total: nat, total': nat)
    requires c * lost <= d * total && c * lost' <= d * total'
    ensures c * (lost + lost') <= d * (total + total')
  {
    Distribute(c, lost, lost');
    Distribute(d, total, total');
  }

  lemma Distribute(c: int, a: int, b: int)
    ensures c * (a + b) == c * a + c * b
  {
  }

  /** What the final chunks lack of the merged ones. */
  ghost function Loss<F>(merged: seq<seq<F>>, maxMs: nat, minMs: int): (loss: nat)
    requires maxMs > 0
    ensures loss == TotalLost(merged, maxMs, minMs) <= |Concat(merged)|
  {
    Conservation(merged, maxMs, minMs);
    |Concat(merged)| - |Concat(AllPieces(merged, maxMs, minMs))|
  }

  /** (max + 1) * loss <= (min - 1) * total, unless the minimum is one above the maximum. */
  lemma {:induction false} LossIsSmall<F>(merged: seq<seq<F>>, maxMs: nat, minMs: int)
    requires maxMs > 0 && minMs >= 1 && minMs != maxMs + 1
    ensures (maxMs + 1) * Loss(merged, maxMs, minMs) <= (minMs - 1) * |Concat(merged)|
  {
    if minMs <= maxMs {
      var lost, total := BoundedLoss(merged, maxMs + 1, minMs - 1, maxMs, minMs);
    } else {
      var loss, total := Loss(merged, maxMs, minMs), |Concat(merged)|;
      Monotone(loss, total, maxMs + 1);
      MonotoneLeft(maxMs + 1, minMs - 1, total);
    }
  }

  lemma MonotoneLeft(a: nat, b: nat, c: nat)
    requires a <= b
    ensures a * c <= b * c
  {
  }

  /** One chunk of `n` equal frames. */
  lemma OneChunk<F>(frame: F, n: nat) returns (merged: seq<seq<F>>)
    ensures merged == [seq(n, i => frame)] && |Concat(merged)| == n
  {
    merged := [seq(n, i => frame)];
    ConcatOne(merged[0]);
  }

  /** Where the bound fails: one frame below a minimum of 1, or a chunk one longer than the maximum. */
  lemma {:induction false} LossTooLarge<F>(frame: F, maxMs: nat, minMs: int) returns (merged: seq<seq<F>>)
    requires maxMs > 0 && (minMs < 1 || minMs == maxMs + 1)
    ensures (maxMs + 1) * Loss(merged, maxMs, minMs) > (minMs - 1) * |Concat(merged)|
  {
    var n := if minMs < 1 then 1 else maxMs + 1;
    merged := OneChunk(frame, n);
    assert merged[..0] == [];
    assert TotalLost(merged[..0], maxMs, minMs) == 0;
    assert TotalLost(merged, maxMs, minMs) == Lost(n, maxMs, minMs);
    if minMs == maxMs + 1 {
      assert (maxMs + 1) * n == maxMs * n + n by { Distribute(n, maxMs, 1); }
    }
  }

  /** The bound on the loss holds for all merged chunks exactly for these minima. */
  lemma {:induction false} LossBoundIff<F>(frame: F, maxMs: nat, minMs: int)
    requires maxMs > 0
    ensures (forall merged: seq<seq<F>> ::
        (maxMs + 1) * Loss(merged, maxMs, minMs) <= (minMs - 1) * |Concat(merged)|) <==>
      minMs >= 1 && minMs != maxMs + 1
  {
    if minMs >= 1 && minMs != maxMs + 1 {
      forall merged: seq<seq<F>>
        ensures (maxMs + 1) * Loss(merged, maxMs, minMs) <= (minMs - 1) * |Concat(merged)|
      {
        LossIsSmall(merged, maxMs, minMs);
      }
    } else {
      var merged := LossTooLarge(frame, maxMs, minMs);
    }
  }

  /** With a minimum above the maximum, a chunk longer than the maximum is lost altogether. */
  lemma {:induction false} MinAboveMaxLosesLong<F>(chunk: seq<F>, maxMs: nat, minMs: int)
    requires 0 < maxMs < minMs
    ensures Pieces(chunk, maxMs, minMs) == if |chunk| > maxMs then [] else [chunk]
  {
    NoSlices(chunk, 0, maxMs, minMs);
  }
}
