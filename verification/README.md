# Verified model of Open WebUI's stateful core

Dafny models of seven components of the Open WebUI backend, with proofs of what
they promise over all inputs, runs and interleavings. `dafny verify
dfyconfig.toml` checks everything; every file is one module.

| component | files |
|---|---|
| Top-k retrieval merge, reranking, the source loop | `Wrappers`, `Ranking`, `Retrieval`, `TopK`, `Sharding`, `Rerank`, `Sources` |
| Task registry: the Redis half as a state machine; the local half as steps, the stop loop, and the class | `RedisTasks`, `TaskSteps`, `StopLoop`, `TaskRegistry` |
| Folder forest: reachability, then the table with its commits | `Forest`, `Folders` |
| Mention scanner and replacer | `Mentions` |
| Meeting audio: chunks, segments, repetition | `AudioSplit`, `Segments`, `Repetition` |
| Channel membership and direct-message lookup | `Channels` |
| Configuration tree and its shared reads; tag index | `ConfigTree`, `Config`, `ConfigRuns`, `Tags` |

Code that computes a value is a function with lemmas; code that changes state is a
class or a method with loops, proved against a specification function whose own
properties are lemmas. The largest methods carry their loop state in one ghost
predicate with one step lemma per branch.

## What the proofs found

These are facts about the code as it is, with the exact conditions proved.

- Hybrid search: when `k < k_reranker` the triples are zipped as (distance,
  metadata, document) and unpacked as (distance, document, metadata)
  (`retrieval/utils.py:292-297`). Pairing is right exactly when the second cut is
  not taken (`Rerank.PairingIff`); as the merge skips documents that are not
  strings, a search merges to nothing exactly when `k < k_reranker` or nothing was
  selected (`Rerank.HybridMergeEmptyIff`).
- The merge raises exactly when `combined[:k]` is empty although something was
  combined (`TopK.MergeRaises`).
- Redis: a save that falls between an empty SCARD and its DELETE unlists the task
  (`RedisTasks.ListedIff`), and a save that comes after its own cleanup leaves the
  ended task listed (`RedisTasks.DrainedIff`, `RedisTasks.LateSaveLeaks`).
- Without Redis, `stop_item_tasks` iterates the list that cleanups shrink, and
  returns at the first task that is no longer in `tasks`. It stops every listed
  task exactly when all of them are in `tasks` at the start and no await before
  the last one's turn raises, stops a task still to come or cleans up a listed one
  (`StopLoop.AllStoppedIff`). Prompt cleanups make it skip every other task
  (`StopLoop.PromptCleanupSkips`), and a task stopped before whose cleanup is still
  pending ends it (`TaskRegistry.PendingCleanupEndsLoop`).
- A mention that is replaced is always extracted, for exactly those triggers that
  contain no `>` (`Mentions.InclusionIff`).
- The folder move does not check the new parent, neither in
  `models/folders.py:192-213` nor in its endpoint (`routers/folders.py:201-233`);
  `Forest.MoveKeepsForestIff` says which moves break the forest. Listing and
  deleting a folder on a cycle always fail; deletion leaves no orphan at any commit
  even then (`Folders.FolderTable.Delete`).
- The direct-message lookup relies on one membership row per user; a duplicated
  row misleads it (`Channels.DuplicateRowMisleads`). The endpoint that adds members
  does not look at the channel type, and a group in a dm request is left out of the
  lookup, so both can duplicate a participant set. `Channels.RunKeepsOneDmIff` says
  exactly when; `Channels.DmsCollide` is a run that does.
- Tag rows stop agreeing with use when the endpoints act on chats that the acting
  user does not own or has archived. `Tags.StepKeepsIff` states for every operation
  and every user exactly when; `Tags.AdminDeleteLeavesRow` and the three lemmas
  after it are cases.
- The audio loss bound holds for all inputs exactly when the minimum is positive
  and is not the maximum plus one (`AudioSplit.LossBoundIff`).
- The configuration row is the whole tree of the instance that saved it last. It
  holds the last completed write of a setting exactly when that value is also what
  that instance itself last put there (`ConfigRuns.RowHoldsIff`): always on a single
  instance without imports (`ConfigRuns.RowHoldsAlone`), not when others write other
  settings (`ConfigRuns.RowLosesWrites`) or the same one at the same time
  (`ConfigRuns.StoresDisagree`).
- An imported configuration is read only for settings whose shared key is not set
  (`ConfigRuns.ImportShownIff`).

Where code and comments disagree, the models follow the code:

- `merge_short_segments` says that the current segment must be short and lists
  three conditions; the code tests the next segment's duration, and joins if that
  is short, or if both other conditions hold (`routers/audio.py:1874-1881`).
- The comment above the hybrid cut promises `min(k, k_reranker)` items; the items
  are right but their columns are not (see above).
- `get_sources_from_items` logs that it falls back to non-hybrid search when
  hybrid search fails, but the condition below it rules that out
  (`retrieval/utils.py:1155-1167`; `Sources.NeverFallsBack`).

## Model

| member | source | states |
|---|---|---|
| `Retrieval.MergeAndSort` | backend/open_webui/retrieval/utils.py:338-382 | The dictionary pass, sort and slice return exactly the specified merge: one triple per distinct string document, the earliest of its best-scored ones, stably sorted by descending distance and cut by Python slicing; or raise. |
| `Retrieval.Absorb` | backend/open_webui/retrieval/utils.py:354-366 | The loop over one result keeps the dictionary equal to "first-seen order, best triple of each document" over everything seen so far. |
| `Retrieval.HitRows` | backend/open_webui/retrieval/utils.py:343-366 | One result offers exactly the rows that all three columns have and whose document is a string, in order, each with its own distance, text and metadata, whether or not a document repeats. |
| `Retrieval.BestUnique` | backend/open_webui/retrieval/utils.py:356-366 | There is only one best triple of a document: the update rule with a strict comparison decides ties for the first. |
| `Ranking.SortDescStable` | backend/open_webui/retrieval/utils.py:370 | The sort modelled for `sort(reverse=True)` is ordered, is a rearrangement, and keeps equal scores in input order. |
| `Ranking.StableSortUnique` | backend/open_webui/retrieval/utils.py:370 | Those three facts determine the sorted list, so any stable descending sort is the one modelled. |
| `TopK.KeptIsTopK` | backend/open_webui/retrieval/utils.py:338-382 | For every list of triples the kept ones are distinct documents, each with its best distance, as many as `min(k, distinct)`, never increasing, no omitted document better than a kept one, ties in first-seen order. |
| `TopK.MergeIsTopK` | backend/open_webui/retrieval/utils.py:338-382 | For k >= 1 the merge returns, and what it returns satisfies that simple specification. |
| `TopK.MergeRaises` | backend/open_webui/retrieval/utils.py:373-375 | The merge raises exactly when it has something to return and `k` makes the slice empty (k = 0, or negative and at least as large as the number of documents). |
| `Sharding.TopAbove` | backend/open_webui/retrieval/utils.py:338-382 | Above every threshold, anything that meets the simple specification keeps exactly `min(k, documents above it)`. |
| `Sharding.CutsAbove` | backend/open_webui/retrieval/utils.py:444-453 | Above every threshold, shards that were each cut to a top k still offer all documents, or at least k of them, and never a new one. |
| `Sharding.CuttingLossless` | backend/open_webui/retrieval/utils.py:444-453 | Whatever top k is taken of the cut shards and of everything at once, the distances are the same. |
| `Sharding.BestCarried` | backend/open_webui/retrieval/utils.py:444-453 | Whatever top k is taken of the cut shards, each document kept carries its best distance over all shards. |
| `Sharding.ShardingLossless` | backend/open_webui/retrieval/utils.py:444-453 | For any number of shards: merging each, cutting at k, and merging the pieces gives the same distances as merging everything at once. |
| `Sharding.ShardingCarriesBest` | backend/open_webui/retrieval/utils.py:444-453 | Every document the sharded merge returns carries its best distance over all shards. |
| `Rerank.SelectedIsTop` | backend/open_webui/retrieval/utils.py:1296-1318 | Reranking and the hybrid cut keep the top `min(k, k_reranker)` of the pairs passing the threshold: each pairs a score with the document at the same position, never increasing, each at least r when r is nonzero, nothing dropped beats anything kept; as multisets. |
| `Rerank.HybridRows` | backend/open_webui/retrieval/utils.py:285-306 | The whole query by candidate positions: those returned are exactly the first `min(k, k_reranker)` passing candidates by score, ties by position; row by row the columns hold their scores, texts and metadata with the score in it, the latter two exchanged when k < k_reranker. |
| `Rerank.PairingIff` | backend/open_webui/retrieval/utils.py:285-299 | Row by row: the distances are always right; with k >= k_reranker each document stands beside its own metadata, otherwise the two columns have traded places; so the documents column holds the documents exactly when k >= k_reranker or nothing is returned. |
| `Rerank.HybridHits` | backend/open_webui/retrieval/utils.py:285-299 | What a later merge can use of one hybrid result: everything when k >= k_reranker, nothing when k < k_reranker. |
| `Rerank.HybridMergeEmptyIff` | backend/open_webui/retrieval/utils.py:456-532 | The merged hybrid result is empty exactly when k < k_reranker or nothing was selected for any collection and query. |
| `Rerank.SwappedColumnsMergeToNothing` | backend/open_webui/retrieval/utils.py:456-532 | Whatever the collections, queries and scores, hybrid search with k < k_reranker merges to the empty result. |
| `Sources.GetSources` | backend/open_webui/retrieval/utils.py:938-1171 | The collection sets sent to retrieval are nonempty, pairwise disjoint, and hold exactly the names asked for, stated for each kind of item, even when calls fail; an item is its own source exactly in the cases stated for its kind; the query results are those of the items in order. |
| `Sources.RetrievedIff` | backend/open_webui/retrieval/utils.py:1132-1171 | A retrieval result among the sources is that of exactly the names which its item asks for and no earlier item does. |
| `Sources.InItemOrder` | backend/open_webui/retrieval/utils.py:1132-1171 | The sources come in item order, at most one for each item. |
| `Sources.ModeAlone` | backend/open_webui/retrieval/utils.py:1132-1171 | In each mode (full context, hybrid, plain) the sources depend on that mode's search alone. |
| `Sources.NeverFallsBack` | backend/open_webui/retrieval/utils.py:1139-1167 | With hybrid search on, the plain search has no influence on the sources, although the log speaks of a fallback. |
| `Sources.FailureFindsNothing` | backend/open_webui/retrieval/utils.py:1132-1171 | When retrieval always fails, the sources are exactly the items with content of their own. |
| `Sources.Append` | backend/open_webui/retrieval/utils.py:1132-1171 | Sending only what was not extracted yet keeps the sent sets disjoint and their union exact. |
| `RedisTasks.SetsAlwaysWithinHash` | backend/open_webui/tasks.py:51-66 | In every interleaving of saves and two-step cleanups, a task in an item set has a hash entry naming that item, and no empty set is stored. |
| `RedisTasks.HashExact` | backend/open_webui/tasks.py:51-66 | A task is in the hash exactly when it was saved and not removed since. |
| `RedisTasks.ListedIff` | backend/open_webui/tasks.py:51-66 | A task with an item is in its item set exactly when it is in the hash and was not saved between a cleanup whose SCARD found the set empty and that cleanup's DELETE. |
| `RedisTasks.WindowLosesTask` | backend/open_webui/tasks.py:51-66 | A run with such a save: the task is in the hash and its item has no set. |
| `RedisTasks.StillPending` | backend/open_webui/tasks.py:59-66 | The outcome of a cleanup's SCARD is the one its second execution acts on, whatever runs in between. |
| `RedisTasks.SetsMatchHash` | backend/open_webui/tasks.py:51-66 | In every run without such a save, each item's set is exactly the hash entries naming it. |
| `RedisTasks.DrainedIff` | backend/open_webui/tasks.py:51-66 | Once all tasks were saved and cleaned, Redis is empty exactly when each save came before its cleanup. |
| `RedisTasks.LateSaveLeaks` | backend/open_webui/tasks.py:97-119 | A concrete run in which a cleanup overtakes its own save: the ended task stays listed. |
| `TaskSteps.StepExact` | backend/open_webui/tasks.py:81-119 | Every creation, stop or cleanup keeps both dictionaries exact: each item id's list is its uncleaned tasks with no empty entry, and `tasks` the uncleaned ones that were not stopped. |
| `TaskSteps.RunExact` | backend/open_webui/tasks.py:81-170 | Any possible run keeps both dictionaries exact, at each of its prefixes. |
| `TaskSteps.NotesMeaning` | backend/open_webui/tasks.py:81-170 | What a run amounts to: the tasks it created, in order, those it cleaned, and those whose stop found them running. |
| `TaskSteps.RunLists` | backend/open_webui/tasks.py:81-170 | After any prefix of any run from the start, an item id has an entry exactly when it has an uncleaned task, and the list holds each such task once (for an absent or empty id, tasks never count as cleaned); `tasks` is what was created and neither cleaned nor stopped. |
| `TaskSteps.OutstandingMeaning` | backend/open_webui/tasks.py:81-119 | The list kept for an item is duplicate-free and holds exactly its uncleaned tasks. |
| `TaskSteps.OutstandingOrdered` | backend/open_webui/tasks.py:81-119 | That list is in creation order. |
| `TaskSteps.CleanOne` | backend/open_webui/tasks.py:89-94 | Removing the first occurrence of a task is the same as no longer counting it as outstanding, for every item. |
| `TaskRegistry.Registry.Create` | backend/open_webui/tasks.py:97-119 | Creating a task has the effect of its step on both dictionaries, and keeps them exact. |
| `TaskRegistry.Registry.Cleanup` | backend/open_webui/tasks.py:81-94 | Cleaning up has the effect of its step, leaving no empty entry, and keeps the dictionaries exact. |
| `TaskRegistry.Registry.Stop` | backend/open_webui/tasks.py:156-170 | A stop fails exactly when the task is not in `tasks`; otherwise the task is popped, what others do during the await has happened, and the outcome is success unless the await raises. |
| `TaskRegistry.Registry.List` | backend/open_webui/tasks.py:122-128 | The listed tasks are those created, not cleaned and not stopped. |
| `TaskRegistry.Registry.ListByItem` | backend/open_webui/tasks.py:131-137 | An item's list is exactly its tasks not yet cleaned (for a falsy id, never cleaned). |
| `TaskRegistry.Registry.Run` | backend/open_webui/tasks.py:81-170 | Running steps one after the other has exactly their combined effect on the dictionaries and the history. |
| `TaskRegistry.LiveAllIsBucket` | backend/open_webui/tasks.py:131-137 | As long as it is not empty, the list the loop iterates is the item's own list: every step shows in it. |
| `TaskRegistry.Registry.StopItemTasks` | backend/open_webui/tasks.py:173-187 | The method, run against the registry with arbitrary steps during each await, makes exactly the stops of the loop over the live list and ends as it does, and the registry has gone through those stops and steps in order. |
| `StopLoop.AllStoppedIff` | backend/open_webui/tasks.py:173-187 | Every task listed at the start is stopped exactly when each of them is still in `tasks` then, and no await before the last one's turn raises, stops a task still to come, or cleans up a listed one. |
| `StopLoop.ShiftedMissed` | backend/open_webui/tasks.py:173-187 | After an await in which a task at or before the index is cleaned up, the next task is never stopped by the loop. |
| `StopLoop.PassedNotStopped` | backend/open_webui/tasks.py:180-185 | A task the index has passed is never stopped by the loop. |
| `StopLoop.PromptCleanupSkips` | backend/open_webui/tasks.py:173-187 | When each stopped task is cleaned up while the loop awaits the next one, every other task after the second is skipped, although the status is True. |
| `TaskRegistry.PendingCleanupEndsLoop` | backend/open_webui/tasks.py:173-187 | A reachable registry: of two tasks the first was popped and awaits its cleanup; stopping the item stops neither, and the second keeps running. |
| `Forest.GroundedChild` | backend/open_webui/models/folders.py:129-151 | If a folder lies on no cycle, none of its children does: what other folders form is irrelevant. |
| `Forest.FewerBelow` | backend/open_webui/models/folders.py:129-151 | The termination measure: below a folder on no cycle, each child has strictly fewer descendants. |
| `Forest.PostOrderExact` | backend/open_webui/models/folders.py:129-151 | The listing holds each proper descendant exactly once, children before parents. |
| `Forest.MovedRows` | backend/open_webui/models/folders.py:192-213 | A move gives the folder's own row the new parent and leaves every other row, of any user, as it was. |
| `Forest.MoveKeepsForestIff` | backend/open_webui/models/folders.py:192-213 | Moving a folder under another keeps the forest exactly when the new parent is neither the folder nor one of its descendants. |
| `Forest.MoveAwayKeepsForest` | backend/open_webui/models/folders.py:192-213 | Moving to the top level, or under a folder of somebody else, always keeps the forest. |
| `Folders.FolderTable.CollectChildren` | backend/open_webui/models/folders.py:136-142 | The recursive closure completes exactly when the folder lies on no cycle and its height is below the recursion depth, and has then collected exactly the listing. |
| `Folders.FolderTable.GetChildrenFolders` | backend/open_webui/models/folders.py:129-151 | The call returns a list exactly when the folder exists, lies on no cycle and is not too high; then it is the post-order listing. |
| `Folders.FolderTable.UpdateParent` | backend/open_webui/models/folders.py:192-213 | The user's folder gets the new parent, every other row is unchanged, and there is one commit exactly when the folder exists. |
| `Folders.FolderTable.DeleteChild` | backend/open_webui/models/folders.py:296-303 | One iteration, on any table: only what is at or below the child goes, the child last, and never on a cycle; where nothing below was touched before, it succeeds exactly within the depth and deletes exactly that subtree. |
| `Folders.FolderTable.DeleteChildren` | backend/open_webui/models/folders.py:292-303 | On any table, whether or not the recursion completes, every commit is free of orphans and only descendants go. It never completes on a cycle; elsewhere it completes exactly within the depth, having deleted exactly the listing. |
| `Folders.FolderTable.Delete` | backend/open_webui/models/folders.py:281-311 | Deletion reports success exactly when the folder exists, lies on no cycle and is not too high; then exactly it and its descendants are gone, and the root and the listing are returned. Each commit drops exactly one row. In no case does a commit leave a stored folder of the user pointing to a deleted parent, and it leaves a row of somebody else doing so exactly when such a row already pointed into what is deleted. |
| `Folders.CycleSurvives` | backend/open_webui/models/folders.py:296-303 | Deleting a sibling's subtree never breaks a cycle, so the recursion does run into it. |
| `Folders.CommitSafe` | backend/open_webui/models/folders.py:301-303 | Deleting some of the user's folders, closed below, leaves no orphan of the user, and one of somebody else exactly when that row already pointed into them. |
| `Mentions.TagUnique` | backend/open_webui/utils/channels.py:30-31 | The greedy scan finds the only reading of the replacer's expression, so backtracking cannot find another. |
| `Mentions.MentionIs` | backend/open_webui/utils/channels.py:7-9 | The extractor's expression matches every well-formed mention, with its whole id. |
| `Mentions.MentionSound` | backend/open_webui/utils/channels.py:7-9 | Whatever that expression matches is a well-formed mention with a maximal id. |
| `Mentions.ReplaceAtTag` | backend/open_webui/utils/channels.py:23-31 | On any message, where a tag starts it is replaced by its label, or by its id if it has none or labels are not wanted, and replacing goes on behind it. |
| `Mentions.ReplaceNoTag` | backend/open_webui/utils/channels.py:30-31 | On any message, text in which no tag starts is copied, a lone `<` included. |
| `Mentions.ExtractAtMention` | backend/open_webui/utils/channels.py:7-10 | On any message, where a mention starts it is extracted with its whole id, and extracting goes on behind it. |
| `Mentions.ExtractNoMention` | backend/open_webui/utils/channels.py:7-10 | On any message, text in which no mention starts contributes nothing. |
| `Mentions.SubstitutedWithinExtracted` | backend/open_webui/utils/channels.py:4-31 | For any message and any trigger without a `>`, the replaced mentions are a subsequence of the extracted ones. |
| `Mentions.InclusionIff` | backend/open_webui/utils/channels.py:4-31 | That inclusion holds for all messages exactly when the trigger contains no `>`. |
| `Mentions.CrossingExtracted` | backend/open_webui/utils/channels.py:4-10 | For every trigger with a `>`, a message of three overlapping mentions: the extractor finds the first two. |
| `Mentions.CrossingSubstituted` | backend/open_webui/utils/channels.py:13-31 | In the same message the replacer substitutes the first and the third. |
| `Mentions.ExtractPrint` | backend/open_webui/utils/channels.py:4-10 | Round trip: extracting from printed pieces gives the mentions back, in order, if no other mention starts in a text or label. |
| `Mentions.ReplacePrint` | backend/open_webui/utils/channels.py:13-31 | Round trip: replacing in printed pieces gives the text with each label or, without one, the id, if no other tag starts in a text. |
| `Mentions.EveryMessagePrinted` | backend/open_webui/utils/channels.py:13-31 | Every message is the print of such pieces, so the round trip says what replacing does to any message. |
| `AudioSplit.MergeShortChunks` | backend/open_webui/routers/audio.py:709-724 | Merging concatenates consecutive groups; each ends at its first long chunk, except that the last may be short; nothing is lost. |
| `AudioSplit.GroupingUnique` | backend/open_webui/routers/audio.py:710-724 | There is only one such grouping of the chunks, so the specification of the merge determines its result. |
| `AudioSplit.SliceChunk` | backend/open_webui/routers/audio.py:732-735 | The slicing loop yields the consecutive slices that are not too short. |
| `AudioSplit.SplitAudio` | backend/open_webui/routers/audio.py:709-738 | Merging and slicing together: the merged chunks hold the input, and the final ones are their pieces. |
| `AudioSplit.PiecesKeepPrefix` | backend/open_webui/routers/audio.py:730-738 | Each merged chunk keeps a prefix: all of it but the last slice when that is too short. |
| `AudioSplit.FinalLengths` | backend/open_webui/routers/audio.py:728-738 | Every final chunk is at most the maximum, and every one but the last at least the minimum. |
| `AudioSplit.Conservation` | backend/open_webui/routers/audio.py:709-738 | What is kept and what is lost add up to the input. |
| `AudioSplit.LossIsSmall` | backend/open_webui/routers/audio.py:709-738 | (max + 1) * loss <= (min - 1) * total, for every positive minimum but max + 1. |
| `AudioSplit.LossBoundIff` | backend/open_webui/routers/audio.py:709-738 | That bound holds for all merged chunks exactly when min >= 1 and min is not max + 1. |
| `AudioSplit.LossTooLarge` | backend/open_webui/routers/audio.py:732-735 | For any other minimum, a chunk that breaks the bound. |
| `AudioSplit.MinAboveMaxLosesLong` | backend/open_webui/routers/audio.py:732-735 | With a minimum above the maximum, a chunk longer than the maximum is lost altogether, and a shorter one kept whole. |
| `Segments.MergeShortSegments` | backend/open_webui/routers/audio.py:1856-1903 | The outputs are one fused segment per run of a partition of the input into consecutive runs; the merging condition holds throughout each run and fails between runs. |
| `Segments.OutputsCut` | backend/open_webui/routers/audio.py:1856-1903 | Each output starts with the first input of its stretch, ends with the last one, and joins their stripped texts. |
| `Segments.NewOutputIff` | backend/open_webui/routers/audio.py:1874-1895 | When neighbouring inputs share an output, in times only: an input starts a new one exactly when it is not short itself, and ends too late for the maximum or follows by three seconds or more. |
| `Segments.TextPreserved` | backend/open_webui/routers/audio.py:1884-1895 | The space-joined text of the outputs is the space-joined stripped text of the inputs. |
| `Segments.OrderedOutputs` | backend/open_webui/routers/audio.py:1856-1903 | On time-ordered input the outputs are ordered and disjoint. |
| `Segments.LongOutputs` | backend/open_webui/routers/audio.py:1880-1895 | On time-ordered input every output but the first lasts at least the minimum. |
| `Segments.MergedUnique` | backend/open_webui/routers/audio.py:1856-1903 | There is only one such cut into runs, so the specification determines the result. |
| `Segments.MergedKeepsText` | backend/open_webui/routers/audio.py:1856-1903 | Whatever the method returns keeps the joined text. |
| `Segments.MergedInTime` | backend/open_webui/routers/audio.py:1856-1903 | Whatever the method returns for time-ordered input is time-ordered, with every output but the first long enough. |
| `Segments.OutputsBounded` | backend/open_webui/routers/audio.py:1880-1889 | An output of several segments stays under the maximum unless its last segment is shorter than the minimum. |
| `Repetition.FilterWords` | backend/open_webui/routers/audio.py:1914-1924 | The loop truncates every maximal run of equal words to `max_repeat` (and keeps nothing for max_repeat <= 0). |
| `Repetition.RunsExpand` | backend/open_webui/routers/audio.py:1917-1924 | Maximal runs: every sequence has them, and they spell it out. |
| `Repetition.RunsUnique` | backend/open_webui/routers/audio.py:1917-1924 | Maximal runs are unique, which makes the run-wise specification one. |
| `Repetition.FilterIdempotent` | backend/open_webui/routers/audio.py:1917-1924 | Filtering words again changes nothing. |
| `Repetition.FilterSubsequence` | backend/open_webui/routers/audio.py:1917-1924 | The filtered words are a subsequence of the words. |
| `Repetition.CollapseExact` | backend/open_webui/routers/audio.py:1911-1912 | The character stage collapses exactly the maximal runs of four or more (newlines aside) to one, and is idempotent. |
| `Repetition.NoFourLeft` | backend/open_webui/routers/audio.py:1911-1912 | No four equal characters in a row are left, newlines aside. |
| `Channels.QualifiesIff` | backend/open_webui/models/channels.py:383-398 | With one membership row per user, both counts match exactly when the channel's users are the given nonempty set. |
| `Channels.DuplicateRowMisleads` | backend/open_webui/models/channels.py:383-398 | With a duplicated row the counts match although the sets differ: the invariant is needed. |
| `Channels.FindDmExact` | backend/open_webui/models/channels.py:378-409 | The lookup finds a dm channel exactly when one has the given nonempty user set. |
| `Channels.MembershipModels` | backend/open_webui/models/channels.py:224-258 | One active row for each user and no other. |
| `Channels.ChangeKeepsOneDmIff` | backend/open_webui/models/channels.py:411-541 | A change of one channel's members keeps "one dm channel per set" exactly when, before it, no other dm channel has what becomes that channel's set (or the channel is no dm). |
| `Channels.AddingCanClash` | backend/open_webui/routers/channels.py:504-531 | Tables on which adding members to a dm channel breaks it: the endpoint does not look at the channel type. |
| `Channels.GroupRequestCanClash` | backend/open_webui/routers/channels.py:234-258 | Tables on which a dm request with a group breaks it: the group is left out of the lookup. |
| `Channels.DmsCollide` | backend/open_webui/routers/channels.py:234-258 | Two dm requests and one addition of a member, served from the start, leave two dm channels with the same participants. |
| `Channels.CollectUsers` | backend/open_webui/models/channels.py:203-222 | The collected users are the inviter, the named users and the groups' users. |
| `Channels.StepKeepsIff` | backend/open_webui/routers/channels.py:147-281 | One request, of whatever kind, keeps one dm channel per set exactly when it is safe on the tables before it. |
| `Channels.UsuallySafe` | backend/open_webui/routers/channels.py:147-281 | Every request is safe but dm requests with group ids and membership changes of dm channels. |
| `Channels.RunKeepsOneDmIff` | backend/open_webui/routers/channels.py:147-281 | Throughout any run of requests there is at most one dm channel per exact participant set, exactly when each request was safe when served. |
| `Channels.DmAnswered` | backend/open_webui/routers/channels.py:147-281 | In any run, every dm request without group ids is answered with a stored dm channel of exactly the asked participants, in which the asking user is active. |
| `Channels.ChannelTable.InsertNewChannel` | backend/open_webui/models/channels.py:260-292 | Membership rows are added for group and dm channels only; uniqueness survives exactly unless a dm channel with those users existed. |
| `Channels.ChannelTable.GetDm` | backend/open_webui/models/channels.py:378-409 | The lookup as a method, for a list that may hold duplicates. |
| `Channels.ChannelTable.UpdateActive` | backend/open_webui/models/channels.py:607-626 | The user's row in the channel gets the flag, every other row is as it was, and no user set changes. |
| `Channels.ChannelTable.LeaveChannel` | backend/open_webui/models/channels.py:522-541 | The leaving user's row stays and becomes inactive, every other row is as it was, so every participant set is kept. |
| `Channels.ChannelTable.JoinChannel` | backend/open_webui/models/channels.py:483-520 | Adds a row only if there is none; on a dm it breaks uniqueness exactly when another dm already has the channel's users and the joining one. |
| `Channels.ChannelTable.AddMembers` | backend/open_webui/models/channels.py:411-445 | Adds rows exactly for the users without one; on a dm it breaks uniqueness exactly when another dm already has the united set. |
| `Channels.ChannelTable.RemoveMembers` | backend/open_webui/models/channels.py:447-462 | Deletes exactly the rows of those users and counts them; on a dm it breaks uniqueness exactly when another dm already has what is left. |
| `Channels.ChannelTable.DeleteChannel` | backend/open_webui/models/channels.py:666-670 | Deletes the channel row; membership rows stay. |
| `Channels.ChannelTable.CreateDm` | backend/open_webui/routers/channels.py:234-273 | Get-or-create: for an existing dm channel with exactly the asked participants the asking user's row becomes active and nothing else changes, otherwise one is created with active rows; without group ids the result has exactly those participants and uniqueness is kept. |
| `Channels.ChannelTable.DmWith` | backend/open_webui/routers/channels.py:158-200 | The dm channel of two users has exactly them; the table changes only when there was none. |
| `Channels.ChannelTable.Serve` | backend/open_webui/routers/channels.py:147-281 | Serving any requests yields a run: the states passed through, the responses given and the final tables are those of the requests, one after the other. |
| `ConfigTree.LookupOneMore` | backend/open_webui/config.py:129-137 | What one more key does: it descends into a dict, a key that is in a string or list there raises, one that is not gives nothing, any other value raises; and nothing or an error stays what it is. |
| `ConfigTree.GetConfigValue` | backend/open_webui/config.py:129-137 | The loop of the lookup gives what the recursive definition says. |
| `ConfigTree.OpenIff` | backend/open_webui/config.py:212-222 | What the condition for a write says: every node on the way that exists is a dict. |
| `ConfigTree.PutSucceedsIff` | backend/open_webui/config.py:212-220 | The walk of `save` succeeds exactly when nothing but dicts lies on its way, and otherwise raises a TypeError. |
| `ConfigTree.PutThenLookup` | backend/open_webui/config.py:129-137 | A written path reads back the written value. |
| `ConfigTree.PutElsewhere` | backend/open_webui/config.py:212-220 | Every path that is no prefix or extension of the written one reads as before. |
| `ConfigTree.WritesKeepTree` | backend/open_webui/config.py:212-222 | Over a prefix-free set of paths, any run of writes succeeds, leaves each path with its last value and every path apart from them unchanged. |
| `Config.AppConfig.Register` | backend/open_webui/config.py:165-187 | A new setting starts with the stored value exactly when there is one, it is not null and persistence is on, otherwise with the environment's, and is appended to the registry; a failing lookup raises and changes nothing. |
| `Config.AppConfig.SaveRow` | backend/open_webui/config.py:212-222 | A write up to the row: the item, the tree and the row afterwards; a failing walk changes only the in-memory value. |
| `Config.AppConfig.Set` | backend/open_webui/config.py:252-261 | A write succeeds exactly when only dicts lie on its way; then the row holds the tree with the value at its path and the shared key the value, otherwise neither store changes. |
| `Config.AppConfig.Get` | backend/open_webui/config.py:263-284 | A read returns the shared value if there is one, and remembers it. |
| `Config.RestartKeepsWrites` | backend/open_webui/config.py:165-187 | After any run of writes over prefix-free paths, an instance that starts from the saved tree begins with the last value written to each path; the environment's value is used for a stored null, and always where persistence is off. |
| `Config.RegisterThenGet` | backend/open_webui/config.py:165-284 | The first read of a registered setting: the shared value if there is one; otherwise the stored one exactly when it exists, is not null and persistence is on, and the environment's in every other case that does not raise. |
| `Config.WriteThenRestart` | backend/open_webui/config.py:165-187 | A write and then another instance started on the same database: it reads the written value, except that without Redis a stored null gives way to the environment. |
| `Config.AppConfig.SaveConfig` | backend/open_webui/config.py:143-156 | The tree and the row are replaced, exactly the items before the first failing lookup are updated, and the call succeeds exactly when no lookup fails; no shared key changes. |
| `Config.UpdateAll` | backend/open_webui/config.py:150-152 | The loop over the registry, up to the first lookup that raises. |
| `ConfigRuns.PendingHolds` | backend/open_webui/config.py:252-261 | Between the two stores, the value an instance has saved is still the one it will publish, whatever the others do. |
| `ConfigRuns.SharedIsLastCompleted` | backend/open_webui/config.py:252-261 | With writes of any instances interleaved between row and shared key, the shared key holds the value of the last write to complete. |
| `ConfigRuns.ReadsSeeLastWrite` | backend/open_webui/config.py:252-284 | After any such run, a read on any instance returns the value of the last write of that setting to complete, by any of them. |
| `ConfigRuns.InstancesAgree` | backend/open_webui/config.py:252-284 | All instances agree on a setting once a write of it has completed. |
| `ConfigRuns.RowIsLastSaversTree` | backend/open_webui/config.py:89-99 | The database row is the whole tree of whichever instance saved it last, which need not have completed its write last. |
| `ConfigRuns.TreeHoldsLastPut` | backend/open_webui/config.py:212-222 | An instance's tree holds, at each of its settings, what the instance itself last put there by a write or an import, whatever the others do in between. |
| `ConfigRuns.RowHoldsIff` | backend/open_webui/config.py:89-99 | The row holds the last completed write of a setting exactly when that value is also what the instance that saved the row last has itself last put there: by its own last write of the setting or a later import, or at the start if there was neither. |
| `ConfigRuns.RowHoldsAlone` | backend/open_webui/config.py:212-222 | On a single instance without imports, the row holds every completed write once none is pending. |
| `ConfigRuns.ImportShownIff` | backend/open_webui/config.py:143-156 | After an import, the importing instance reads the imported value exactly when the shared key agrees with it, or is not set and the item was updated or held it before; all other instances read what they read before. |
| `ConfigRuns.StoresDisagree` | backend/open_webui/config.py:252-261 | Two instances writing one setting: every read returns the first one's value and the row keeps the second's. |
| `ConfigRuns.RowLosesWrites` | backend/open_webui/config.py:212-222 | For two instances writing different settings one after the other, the row loses the first write although every read is right. |
| `Tags.UnderscoredReplaces` | backend/open_webui/models/chats.py:1027-1028 | In a tag id every space of the name becomes an underscore and every other character is kept, before lowering. |
| `Tags.TagIdIdempotent` | backend/open_webui/models/chats.py:1027-1028 | A tag id is its own normal form, so counting by id and by name agree. |
| `Tags.CountZeroIff` | backend/open_webui/models/chats.py:1023-1057 | The count is zero exactly when no non-archived chat of the user carries the tag. |
| `Tags.TagStore.PruneRows` | backend/open_webui/models/chats.py:270-272 | The loop drops exactly the rows of those tags no counted chat uses. |
| `Tags.TagStore.AddChatTag` | backend/open_webui/models/chats.py:1000-1021 | Adds the id to the chat and inserts a row only when there is none. |
| `Tags.StepKeepsIff` | backend/open_webui/models/chats.py:261-279 | For every operation and every user whose rows agreed with the tags on that user's non-archived chats: they still do exactly under a condition on the chats before it. |
| `Tags.TagsKeepIff` | backend/open_webui/models/chats.py:261-279 | That condition for the operations that set tags, for the acting user and for an owner who is somebody else. |
| `Tags.DeleteKeepsIff` | backend/open_webui/routers/chats.py:568-593 | That condition for deletion: the acting user needs the chat to be counted or no tag with a single user, another owner needs every tag to have a second counted chat. |
| `Tags.ArchiveKeeps` | backend/open_webui/routers/chats.py:734-752 | Archiving and unarchiving keep everybody's rows in agreement. |
| `Tags.OwnOperationsKeep` | backend/open_webui/routers/chats.py:568-940 | One user's operations on own chats that are not archived meet the condition. |
| `Tags.RunAgreesIff` | backend/open_webui/routers/chats.py:568-940 | Over any run of any users' operations, a user's rows are exactly the tags in use throughout, exactly when each operation met the condition on the chats the earlier ones left. |
| `Tags.RunChats` | backend/open_webui/routers/chats.py:568-940 | After any prefix of a run the chats and their tags are what the operations describe. |
| `Tags.AdminDeleteLeavesRow` | backend/open_webui/routers/chats.py:569-577 | An admin deletes somebody else's chat: the owner keeps a row for a tag nobody uses. |
| `Tags.StrangersUpdateLeavesRow` | backend/open_webui/models/chats.py:261-279 | An update by somebody else leaves the owner such a row. |
| `Tags.TaggingArchivedAddsRow` | backend/open_webui/models/chats.py:1000-1021 | Tagging an archived chat inserts such a row. |
| `Tags.DeletingArchivedDropsRow` | backend/open_webui/routers/chats.py:587-593 | Deleting an archived chat drops the row of a tag that another chat still uses. |
| `Tags.TagStore.AddTag` | backend/open_webui/routers/chats.py:869-894 | Adds one tag to an owned chat, with the endpoint's two refusals; everybody's rows are kept or not as stated. |
| `Tags.TagStore.UpdateChatTags` | backend/open_webui/models/chats.py:261-279 | The chat's tags become exactly the requested ids other than "none"; everybody's rows are kept or not as stated. |
| `Tags.TagStore.ClearTags` | backend/open_webui/routers/chats.py:928-940 | The tags of an owned chat go, and the rows of those no longer used. |
| `Tags.TagStore.RemoveTag` | backend/open_webui/routers/chats.py:903-915 | One tag goes from an owned chat, and its row if unused. |
| `Tags.TagStore.ToggleArchive` | backend/open_webui/routers/chats.py:734-752 | Archiving drops rows no longer used, unarchiving restores missing ones. |
| `Tags.TagStore.RestoreRows` | backend/open_webui/routers/chats.py:746-750 | The loop inserts exactly the missing rows. |
| `Tags.TagStore.DeleteChat` | backend/open_webui/routers/chats.py:568-593 | Rows of tags with exactly one counted chat go before ownership is looked at; the chat goes if owned, or for an admin. |
| `Tags.TagStore.DropSingles` | backend/open_webui/routers/chats.py:588-590 | The loop drops exactly those rows. |
| `Tags.TagStore.Serve` | backend/open_webui/routers/chats.py:568-940 | Serving any operations yields a run: the final chats are those the operations describe, and every step changed the rows as stated. |

## Left out

- Scores that are not numbers: NaN, and documents without a score that reach the hybrid cut when the reranker returns none. Scores are `real`, so rounding is not modelled.
- SHA-256 collisions: document hashes are taken to be injective, so the merge is keyed by the text.
- Aliasing of metadata dicts in reranking: the source writes "score" into the retrieved document's own dict; the model returns a new one.
- Retrievers, embeddings, rerank models, vector stores and thread pools: parameters that supply candidates, scores and results.
- Items of the source loop without the `id` key that a file or knowledge item is indexed with, which raises.
- What an item's own content looks like in the source loop: an entry records only whether an item brought content or a retrieval result, and which.
- The stop command broadcast over Redis publish/subscribe, and lost connections; the model covers what the shared hash and sets hold. Redis is standalone, so a pipeline execution is atomic.
- TaskRegistry.Registry.Stop: which of the three success messages is returned, and what the task itself does with the cancellation.
- Which cleanups the event loop can run during which await: `StopLoop` allows any.
- The interpreter's recursion limit appears as a depth parameter of the folder methods.
- Folder names, timestamps and the duplicate-name check of the move endpoint.
- Stages 3 and 4 of `filter_repetitive_text`, its early return for blank text, and `str.split`: Unicode word boundaries and whitespace. The word stage starts from the list of words.
- Audio decoding, silence detection and export; a chunk is its frames of one millisecond. A maximum of 0 or less is excluded: `range` raises on a zero step.
- `Segments` leaves `str.strip` arbitrary, and times are `real`.
- SQL row order and dialects, transactions that fail, and concurrent requests inside one step: each method is one atomic step, and folder deletion is one per commit.
- HTTP, permissions and socket notifications of the channel endpoints; a group's users are parameters.
- Pinned, muted and timestamp fields of channels and memberships, and the channel's name.
- JSON encoding in the configuration and aliasing between stored values and the tree. An instance's own writes do not overlap, and one item is assigned to one attribute.
- What `str.lower` does to a character: `Tags` takes any function that is idempotent and makes no spaces.
- Tags: chats imported or cloned with tags, bulk archiving and bulk deletion. The stored name of a row is followed for single additions, while whole updates are stated for the rows' keys.
- Group sync, note paging, quoting in messages, model and function sync, and migrations.
