/**
 The item loop of `get_sources_from_items`: which collections are sent to
 retrieval. Looked-up facts (does the note exist and may the user read it, does
 the file have content, ...) are parameters of the item; retrieval itself is a
 function that may fail.
 */
module Sources {
  import opened Wrappers

  /** An empty string stands for a missing or falsy entry. */
  datatype Item =
    | TextItem(full: bool, hasFile: bool, collectionName: string)
    | NoteItem(readable: bool)
    | ChatItem(readable: bool, hasMessages: bool)
    | UrlItem(hasDocs: bool)
    | FileItem(id: string, full: bool, inlineContent: bool, stored: bool, legacy: bool)
    | CollectionItem(id: string, readable: bool, full: bool, legacy: bool, names: seq<string>)
    | OtherItem(hasDocs: bool, collectionName: string, collectionNames: seq<string>)

  /** Does the item bring its own content? */
  predicate Direct(item: Item, bypass: bool) {
    match item
    case TextItem(full, hasFile, name) => (full && hasFile) || name == ""
    case NoteItem(readable) => readable
    case ChatItem(readable, hasMessages) => readable && hasMessages
    case UrlItem(hasDocs) => hasDocs
    case FileItem(id, full, inlineContent, stored, _) => (full || bypass) && (inlineContent || (id != "" && stored))
    case CollectionItem(_, readable, full, _, _) => readable && (full || bypass)
    case OtherItem(hasDocs, _, _) => hasDocs
  }

  /** The collections the item falls back to. */
  function Requested(item: Item, bypass: bool): seq<string> {
    match item
    case TextItem(full, hasFile, name) => if (full && hasFile) || name == "" then [] else [name]
    case FileItem(id, full, _, _, legacy) =>
      if full || bypass then [] else if legacy then [id] else ["file-" + id]
    case CollectionItem(id, readable, full, legacy, names) =>
      if !readable || full || bypass then [] else if legacy then names else [id]
    case OtherItem(hasDocs, name, names) =>
      if hasDocs then [] else if name != "" then [name] else names
    case _ => []
  }

  function Names(s: seq<string>): set<string> {
    set x | x in s
  }

  /** The collections wanted by the items without direct content. */
  ghost function Wanted(items: seq<Item>, bypass: bool): set<string> {
    if items == [] then {}
    else
      var n := |items| - 1;
      Wanted(items[..n], bypass) + if Direct(items[n], bypass) then {} else Names(Requested(items[n], bypass))
  }

  ghost function Union(sets: seq<set<string>>): set<string> {
    if sets == [] then {} else Union(sets[..|sets| - 1]) + sets[|sets| - 1]
  }

  ghost predicate PairwiseDisjoint(sets: seq<set<string>>) {
    forall i, j :: 0 <= i < j < |sets| ==> sets[i] !! sets[j]
  }

  lemma UnionMember(sets: seq<set<string>>, i: nat)
    requires i < |sets|
    ensures sets[i] <= Union(sets)
  {
    if i < |sets| - 1 { UnionMember(sets[..|sets| - 1], i); }
  }

  lemma Append(sets: seq<set<string>>, last: set<string>)
    requires PairwiseDisjoint(sets) && last !! Union(sets)
    ensures PairwiseDisjoint(sets + [last])
    ensures Union(sets + [last]) == Union(sets) + last
  {
    assert (sets + [last])[..|sets|] == sets;
    forall i | 0 <= i < |sets| ensures sets[i] !! last { UnionMember(sets, i); }
  }

  /** An entry of `query_results`: the item's position, and its retrieval when it had no content of its own. */
  datatype Entry<+R> = Own(item: nat) | Retrieved(item: nat, result: R)

  ghost function Entries<R>(items: seq<Item>, bypass: bool, retrieve: set<string> -> Option<R>, n: nat): seq<Entry<R>>
    requires n <= |items|
  {
    if n == 0 then []
    else
      var missing := Names(Requested(items[n - 1], bypass)) - Wanted(items[..n - 1], bypass);
      Entries(items, bypass, retrieve, n - 1)
      + if Direct(items[n - 1], bypass) then [Own(n - 1)]
        else if missing != {} && retrieve(missing).Some? then [Retrieved(n - 1, retrieve(missing).value)]
        else []
  }

  /** Nonempty, pairwise disjoint sets, whose union is `wanted`. */
  ghost predicate SentExactly(sent: seq<set<string>>, wanted: set<string>) {
    PairwiseDisjoint(sent) && Union(sent) == wanted && {} !in sent
  }

  ghost predicate Progress<R>(items: seq<Item>, bypass: bool, retrieve: set<string> -> Option<R>, n: nat,
      sent: seq<set<string>>, results: seq<Entry<R>>)
  {
    && n <= |items|
    && SentExactly(sent, Wanted(items[..n], bypass))
    && results == Entries(items, bypass, retrieve, n)
  }

  lemma WantedStep(items: seq<Item>, bypass: bool, n: nat)
    requires n < |items|
    ensures Wanted(items[..n + 1], bypass) ==
      Wanted(items[..n], bypass) + if Direct(items[n], bypass) then {} else Names(Requested(items[n], bypass))
  {
    assert items[..n + 1][..n] == items[..n];
  }

  lemma DirectStep<R>(items: seq<Item>, bypass: bool, retrieve: set<string> -> Option<R>, n: nat,
      sent: seq<set<string>>, results: seq<Entry<R>>)
    requires n < |items| && Progress(items, bypass, retrieve, n, sent, results) && Direct(items[n], bypass)
    ensures Progress(items, bypass, retrieve, n + 1, sent, results + [Own(n)])
  {
    WantedStep(items, bypass, n);
  }

  lemma NothingNewStep<R>(items: seq<Item>, bypass: bool, retrieve: set<string> -> Option<R>, n: nat,
      sent: seq<set<string>>, results: seq<Entry<R>>)
    requires n < |items| && Progress(items, bypass, retrieve, n, sent, results)
    requires !Direct(items[n], bypass) && Names(Requested(items[n], bypass)) - Union(sent) == {}
    ensures Progress(items, bypass, retrieve, n + 1, sent, results)
  {
    WantedStep(items, bypass, n);
    var asked := Names(Requested(items[n], bypass));
    assert Union(sent) + asked == Union(sent) + (asked - Union(sent));
  }

  lemma RetrieveStep<R>(items: seq<Item>, bypass: bool, retrieve: set<string> -> Option<R>, n: nat,
      sent: seq<set<string>>, results: seq<Entry<R>>, missing: set<string>)
    requires n < |items| && Progress(items, bypass, retrieve, n, sent, results)
    requires !Direct(items[n], bypass) && missing == Names(Requested(items[n], bypass)) - Union(sent) != {}
    ensures Progress(items, bypass, retrieve, n + 1, sent + [missing],
              results + if retrieve(missing).Some? then [Retrieved(n, retrieve(missing).value)] else [])
  {
    WantedStep(items, bypass, n);
    Append(sent, missing);
    assert Union(sent) + Names(Requested(items[n], bypass)) == Union(sent) + missing;
  }

  // ---------- what the items ask for, and which are their own sources ----------

  /** Does the item make the loop look into collection `x`? */
  ghost predicate Asks(item: Item, bypass: bool, x: string) {
    match item
    case TextItem(full, hasFile, name) => x == name != "" && !(full && hasFile)
    case FileItem(id, full, _, _, legacy) => !full && !bypass && x == (if legacy then id else "file-" + id)
    case CollectionItem(id, readable, full, legacy, names) =>
      readable && !full && !bypass && (if legacy then x in names else x == id)
    case OtherItem(hasDocs, name, names) => !hasDocs && (if name != "" then x == name else x in names)
    case _ => false
  }

  lemma AsksRequested(item: Item, bypass: bool)
    ensures forall x :: Asks(item, bypass, x) <==> x in Names(Requested(item, bypass))
    ensures Direct(item, bypass) ==> forall x :: !Asks(item, bypass, x)
  {
  }

  lemma {:induction false} WantedIsAsked(items: seq<Item>, bypass: bool, n: nat)
    requires n <= |items|
    ensures forall x :: x in Wanted(items[..n], bypass) <==> exists i :: 0 <= i < n && Asks(items[i], bypass, x)
  {
    if n > 0 {
      WantedIsAsked(items, bypass, n - 1);
      WantedStep(items, bypass, n - 1);
      AsksRequested(items[n - 1], bypass);
    }
  }

  lemma {:induction false} UnionIff(sets: seq<set<string>>)
    ensures forall x :: x in Union(sets) <==> exists k :: 0 <= k < |sets| && x in sets[k]
  {
    if sets != [] {
      UnionIff(sets[..|sets| - 1]);
      assert sets == sets[..|sets| - 1] + [sets[|sets| - 1]];
    }
  }

  ghost predicate IsSent(sent: seq<set<string>>, x: string) {
    exists k :: 0 <= k < |sent| && x in sent[k]
  }

  /** What the union of the sent sets says about the single sets. */
  lemma SentIsAsked(items: seq<Item>, bypass: bool, sent: seq<set<string>>)
    requires SentExactly(sent, Wanted(items, bypass))
    ensures forall k, x :: 0 <= k < |sent| && x in sent[k] ==>
      exists i :: 0 <= i < |items| && Asks(items[i], bypass, x)
    ensures forall i, x :: 0 <= i < |items| && Asks(items[i], bypass, x) ==> IsSent(sent, x)
  {
    assert items[..|items|] == items;
    WantedIsAsked(items, bypass, |items|);
    UnionIff(sent);
    forall i, x | 0 <= i < |items| && Asks(items[i], bypass, x) ensures IsSent(sent, x) {
      assert x in Wanted(items, bypass);
    }
  }

  lemma {:induction false} OwnIff<R>(
      items: seq<Item>, bypass: bool, retrieve: set<string> -> Option<R>, n: nat, i: nat)
    requires n <= |items|
    ensures Own(i) in Entries(items, bypass, retrieve, n) <==> i < n && Direct(items[i], bypass)
  {
    if n > 0 {
      OwnIff(items, bypass, retrieve, n - 1, i);
      OwnEarlier(items, bypass, retrieve, n - 1);
    }
  }

  /** What item `i` asks for and no earlier item does. */
  ghost predicate IsNew(items: seq<Item>, bypass: bool, i: nat, names: set<string>)
    requires i < |items|
  {
    names != {} &&
    forall x :: x in names <==> Asks(items[i], bypass, x) && forall j :: 0 <= j < i ==> !Asks(items[j], bypass, x)
  }

  lemma NewIs(items: seq<Item>, bypass: bool, i: nat, names: set<string>)
    requires i < |items|
    ensures IsNew(items, bypass, i, names) <==>
      names == Names(Requested(items[i], bypass)) - Wanted(items[..i], bypass) != {}
  {
    WantedIsAsked(items, bypass, i);
    AsksRequested(items[i], bypass);
  }

  lemma NewestRetrieved<R(!new)>(
      items: seq<Item>, bypass: bool, retrieve: set<string> -> Option<R>, i: nat, r: R, missing: set<string>)
    requires i < |items| && missing == Names(Requested(items[i], bypass)) - Wanted(items[..i], bypass)
    ensures Retrieved(i, r) in Entries(items, bypass, retrieve, i + 1) <==>
      !Direct(items[i], bypass) && missing != {} && retrieve(missing) == Some(r)
  {
    OwnEarlier(items, bypass, retrieve, i);
    assert Retrieved(i, r) !in Entries(items, bypass, retrieve, i);
  }

  lemma OnlyNew(items: seq<Item>, bypass: bool, i: nat, missing: set<string>)
    requires i < |items| && missing == Names(Requested(items[i], bypass)) - Wanted(items[..i], bypass)
    ensures forall names :: IsNew(items, bypass, i, names) <==> names == missing != {}
    ensures missing != {} ==> !Direct(items[i], bypass)
  {
    AsksRequested(items[i], bypass);
    forall names ensures IsNew(items, bypass, i, names) <==> names == missing != {} {
      NewIs(items, bypass, i, names);
    }
    if x :| x in missing { assert Asks(items[i], bypass, x); }
  }

  /** A retrieval among the sources is that of the names one item asks for and no earlier item does. */
  lemma {:induction false} RetrievedIff<R(!new)>(
      items: seq<Item>, bypass: bool, retrieve: set<string> -> Option<R>, n: nat, i: nat, r: R)
    requires n <= |items|
    ensures Retrieved(i, r) in Entries(items, bypass, retrieve, n) <==>
      i < n && exists names :: IsNew(items, bypass, i, names) && retrieve(names) == Some(r)
  {
    if n > 0 && i == n - 1 {
      var missing := Names(Requested(items[i], bypass)) - Wanted(items[..i], bypass);
      NewestRetrieved(items, bypass, retrieve, i, r, missing);
      OnlyNew(items, bypass, i, missing);
    } else if n > 0 {
      RetrievedIff(items, bypass, retrieve, n - 1, i, r);
    }
  }

  ghost predicate ItemsIncrease<R>(es: seq<Entry<R>>) {
    forall p, q :: 0 <= p < q < |es| ==> es[p].item < es[q].item
  }

  lemma {:induction false} InItemOrder<R>(items: seq<Item>, bypass: bool, retrieve: set<string> -> Option<R>, n: nat)
    requires n <= |items|
    ensures ItemsIncrease(Entries(items, bypass, retrieve, n))
  {
    if n > 0 {
      var before, es := Entries(items, bypass, retrieve, n - 1), Entries(items, bypass, retrieve, n);
      InItemOrder(items, bypass, retrieve, n - 1);
      OwnEarlier(items, bypass, retrieve, n - 1);
      assert es == before + es[|before|..] && |es[|before|..]| <= 1;
      assert forall e :: e in es[|before|..] ==> e.item == n - 1;
      OrderedAppend(before, es[|before|..], n - 1);
    }
  }

  lemma OrderedAppend<R>(a: seq<Entry<R>>, b: seq<Entry<R>>, n: nat)
    requires ItemsIncrease(a) && |b| <= 1 && (forall e :: e in a ==> e.item < n) && forall e :: e in b ==> e.item == n
    ensures ItemsIncrease(a + b)
  {
    forall p, q | 0 <= p < q < |a + b| ensures (a + b)[p].item < (a + b)[q].item {
      assert a[p] in a;
      if q >= |a| { assert (a + b)[q] == b[q - |a|]; }
    }
  }

  lemma OwnAll<R>(items: seq<Item>, bypass: bool, retrieve: set<string> -> Option<R>)
    ensures forall i: nat ::
      Own(i) in Entries(items, bypass, retrieve, |items|) <==> i < |items| && Direct(items[i], bypass)
  {
    forall i: nat
      ensures Own(i) in Entries(items, bypass, retrieve, |items|) <==> i < |items| && Direct(items[i], bypass)
    {
      OwnIff(items, bypass, retrieve, |items|, i);
    }
  }

  /** The loop itself; what its two results mean is said in `GetSources`. */
  method Collect<R>(items: seq<Item>, bypass: bool, retrieve: set<string> -> Option<R>)
    returns (sent: seq<set<string>>, queryResults: seq<Entry<R>>)
    ensures Progress(items, bypass, retrieve, |items|, sent, queryResults)
  {
    var extracted: set<string> := {};  // a list in the source, read only as `difference(extracted)`
    sent, queryResults := [], [];
    for n := 0 to |items|
      invariant Progress(items, bypass, retrieve, n, sent, queryResults)
      invariant extracted == Union(sent)
    {
      var item := items[n];
      if Direct(item, bypass) {
        DirectStep(items, bypass, retrieve, n, sent, queryResults);
        queryResults := queryResults + [Own(n)];
      } else {
        var missing := Names(Requested(item, bypass)) - extracted;
        if missing == {} {
          NothingNewStep(items, bypass, retrieve, n, sent, queryResults);
        } else {
          var result := retrieve(missing);
          RetrieveStep(items, bypass, retrieve, n, sent, queryResults, missing);
          Append(sent, missing);
          sent := sent + [missing];
          extracted := extracted + missing;
          queryResults := queryResults + if result.Some? then [Retrieved(n, result.value)] else [];
        }
      }
    }
  }

  /**
   The sources. `sent` is the log of retrieval calls: each collection is asked for
   once, whether or not the call succeeds, and exactly the wanted ones are.
   */
  method GetSources<R>(items: seq<Item>, bypass: bool, retrieve: set<string> -> Option<R>)
    returns (sent: seq<set<string>>, queryResults: seq<Entry<R>>)
    ensures SentExactly(sent, Wanted(items, bypass))
    ensures queryResults == Entries(items, bypass, retrieve, |items|)
    ensures forall j, k :: 0 <= j < k < |sent| ==> sent[j] !! sent[k]
    ensures forall k, x :: 0 <= k < |sent| && x in sent[k] ==>
      exists i {:trigger items[i]} :: 0 <= i < |items| && var item := items[i];
        || (item.TextItem? && x == item.collectionName != "" && (!item.full || !item.hasFile))
        || (item.FileItem? && !item.full && !bypass && if item.legacy then x == item.id else x == "file-" + item.id)
        || (item.CollectionItem? && item.readable && !item.full && !bypass &&
              if item.legacy then x in item.names else x == item.id)
        || (item.OtherItem? && !item.hasDocs &&
              if item.collectionName == "" then x in item.collectionNames else x == item.collectionName)
    ensures forall i :: 0 <= i < |items| ==> var item := items[i];
      && (item.TextItem? && item.collectionName != "" && !(item.full && item.hasFile) ==>
            IsSent(sent, item.collectionName))
      && (item.FileItem? && !item.full && !bypass ==>
            IsSent(sent, if item.legacy then item.id else "file-" + item.id))
      && (item.CollectionItem? && item.readable && !item.full && !bypass ==>
            if item.legacy then forall x :: x in item.names ==> IsSent(sent, x) else IsSent(sent, item.id))
      && (item.OtherItem? && !item.hasDocs ==>
            if item.collectionName != "" then IsSent(sent, item.collectionName)
            else forall x :: x in item.collectionNames ==> IsSent(sent, x))
    ensures forall i: nat :: Own(i) in queryResults <==>
      i < |items| && var item := items[i];
        || (item.TextItem? && (item.collectionName == "" || (item.full && item.hasFile)))
        || (item.NoteItem? && item.readable)
        || (item.ChatItem? && item.readable && item.hasMessages)
        || (item.UrlItem? && item.hasDocs)
        || (item.FileItem? && (item.full || bypass) && (item.inlineContent || (item.id != "" && item.stored)))
        || (item.CollectionItem? && item.readable && (item.full || bypass))
        || (item.OtherItem? && item.hasDocs)
  {
    sent, queryResults := Collect(items, bypass, retrieve);
    assert items[..|items|] == items;
    SentIsAsked(items, bypass, sent);
    OwnAll(items, bypass, retrieve);
  }

  // ---------- how collections are retrieved ----------

  /** Whole collections, hybrid search, or plain vector search. */
  datatype Mode = FullContext | Hybrid | Plain

  /** What comes back, where every exception is caught. The hybrid branch has no other search to fall back to. */
  function Retrieve<R>(
      mode: Mode, everything: set<string> -> Result<R>, hybrid: set<string> -> Result<R>,
      plain: set<string> -> Result<R>, names: set<string>): Option<R>
  {
    var result := match mode
      case FullContext => everything(names)
      case Hybrid => hybrid(names)
      case Plain => plain(names);
    if result.Ok? then Some(result.value) else None
  }

  lemma {:induction false} SameEntries<R>(
      items: seq<Item>, bypass: bool, f: set<string> -> Option<R>, g: set<string> -> Option<R>, n: nat)
    requires n <= |items| && forall names :: f(names) == g(names)
    ensures Entries(items, bypass, f, n) == Entries(items, bypass, g, n)
  {
    if n > 0 { SameEntries(items, bypass, f, g, n - 1); }
  }

  /** The sources depend on the search of the mode alone: there is no fallback from one to another. */
  lemma {:induction false} ModeAlone<R>(
      items: seq<Item>, bypass: bool, mode: Mode,
      everything: set<string> -> Result<R>, hybrid: set<string> -> Result<R>, plain: set<string> -> Result<R>,
      everything': set<string> -> Result<R>, hybrid': set<string> -> Result<R>, plain': set<string> -> Result<R>)
    requires mode == FullContext ==> forall names :: everything(names) == everything'(names)
    requires mode == Hybrid ==> forall names :: hybrid(names) == hybrid'(names)
    requires mode == Plain ==> forall names :: plain(names) == plain'(names)
    ensures
      Entries(items, bypass, (names: set<string>) => Retrieve(mode, everything, hybrid, plain, names), |items|) ==
      Entries(items, bypass, (names: set<string>) => Retrieve(mode, everything', hybrid', plain', names), |items|)
  {
    SameEntries(items, bypass, (names: set<string>) => Retrieve(mode, everything, hybrid, plain, names),
                (names: set<string>) => Retrieve(mode, everything', hybrid', plain', names), |items|);
  }

  /** With hybrid search on, the plain search has no influence on the sources. */
  lemma {:induction false} NeverFallsBack<R>(
      items: seq<Item>, bypass: bool, everything: set<string> -> Result<R>, hybrid: set<string> -> Result<R>,
      plain: set<string> -> Result<R>, other: set<string> -> Result<R>)
    ensures
      Entries(items, bypass, (names: set<string>) => Retrieve(Hybrid, everything, hybrid, plain, names), |items|) ==
      Entries(items, bypass, (names: set<string>) => Retrieve(Hybrid, everything, hybrid, other, names), |items|)
  {
    ModeAlone(items, bypass, Hybrid, everything, hybrid, plain, everything, hybrid, other);
  }

  /** When retrieval always fails, only the items with content of their own yield a source. */
  lemma {:induction false} FailureFindsNothing<R>(
      items: seq<Item>, bypass: bool, retrieve: set<string> -> Option<R>, n: nat)
    requires n <= |items| && forall names :: retrieve(names) == None
    ensures forall i :: 0 <= i < |Entries(items, bypass, retrieve, n)| ==> Entries(items, bypass, retrieve, n)[i].Own?
    ensures forall i :: 0 <= i < n ==> (Own(i) in Entries(items, bypass, retrieve, n) <==> Direct(items[i], bypass))
  {
    if n > 0 {
      FailureFindsNothing(items, bypass, retrieve, n - 1);
      OwnEarlier(items, bypass, retrieve, n - 1);
    }
  }

  lemma {:induction false} OwnEarlier<R>(items: seq<Item>, bypass: bool, retrieve: set<string> -> Option<R>, n: nat)
    requires n <= |items|
    ensures forall e :: e in Entries(items, bypass, retrieve, n) ==> e.item < n
  {
    if n > 0 { OwnEarlier(items, bypass, retrieve, n - 1); }
  }
}
