# Verified models of the stateful cores

This project models the small stateful and text-rewriting cores of the repository and proves what they keep:
the kernel RPC protocol, the Living Architecture Graph, the onboarding lock, the gateway's idempotency cache and
rate limiter, the causality forest, canonical JSON, routing with retries, the provider index and its adaptive
overlay, the gated stage pipeline, shell quoting, the `.env` reader and updater, the YAML preset inserter, the
stream line assembler and the heading normaliser.

Code that changes state is a class or a method with loops, proved against functions on values; what the source
promises is then proved about those functions, over all inputs and, for the stateful cores, over all runs.
`dafny verify dfyconfig.toml` checks everything.

| file | source |
|---|---|
| `Kernel.dfy`, `KernelProtocol.dfy`, `KernelRuns.dfy`, `KernelReadiness.dfy` | `service/src/kernel.ts`, `engine/src/rpc.rs` |
| `Backlinks.dfy`, `ArchitectureGraph.dfy`, `GraphHistory.dfy`, `StableIds.dfy`, `StableIdWords.dfy` | `service/src/living-architecture-graph.ts` |
| `OnboardLock.dfy` | `bin/lib/onboard-session.js` |
| `IdempotencyCache.dfy`, `RateLimiter.dfy` | `service/src/index.ts` |
| `CausalityTree.dfy` | `service/src/temporal-causality.ts` |
| `CanonicalJson.dfy` | `service/src/trace-sink.ts` |
| `Router.dfy`, `Cascade.dfy` | `engine/src/router.rs`, `engine/src/config.rs` |
| `ProviderIndex.dfy`, `Feedback.dfy` | `service/src/provider-resolution.ts`, `service/src/feedback.ts` |
| `Pipeline.dfy` | `service/src/iterm2-adaptive-plug.ts`, `service/src/index.ts` |
| `ShellQuote.dfy` | `bin/lib/runner.js`, `bin/lib/onboard.js` |
| `EnvFile.dfy`, `EnvFileShape.dfy`, `EnvFileLaws.dfy`, `EnvFileTwice.dfy` | `dashboard/lib/local-control.js` |
| `PresetMerge.dfy`, `PresetPlace.dfy` | `bin/lib/policies.js` |
| `LineAssembler.dfy`, `Utf8.dfy` | `bin/lib/onboard.js`; RFC 3629 |
| `Headings.dfy` | `scripts/docs-to-skills.py` |
| `JsMap.dfy`, `Sorting.dfy`, `Text.dfy`, `Wrappers.dfy` | ECMAScript `Map`, stable sorting, splitting and joining text, `Option` |

## What does not hold as one might expect

Where the code falls short of its documentation or of an expected law, the model follows the code, and a lemma
gives the exact condition.

- After the current kernel child exits, `isReady()` is true exactly when a handshake was still waiting, because its
  rejection marks the client ready (`ReadyAfterExitIffHandshakeWaiting`); a run ends ready with no live child
  (`ReadyWithoutLiveChild`). If none was waiting, it stays false until the next spawn (`NotReadyBeforeNextSpawn`).
  Over every run, `isReady()` holds exactly when some handshake has ended, well or badly, with no such exit since, and
  the client has spawned a child and was not stopped (`IsReadyIff`).
- The onboarding lock excludes exactly when the lock does not start out naming a process reported dead, or there is
  only one contender (`ExclusiveIffNotStale`): two contenders can both see the dead holder and both succeed.
- The rate limiter is described as a sliding window; it opens fixed windows on demand. From a given moment on, the
  limit of 120 holds for the next window, in every run in time order without random evictions, exactly when the address has then no
  open bucket with room left that closes inside that window (`LimitHoldsIffNotHalfSpent`). At worst 239 requests
  pass (`FewerThanTwoLimitsPerWindow`), and they can pass within one millisecond (`TheBoundIsTight`).
- Key order has no influence on the normal form of a payload exactly when no object in it has two different names
  that the collation ties (`CanonicalIffUntied`); `localeCompare` ties canonically equivalent names, a precomposed
  and a decomposed accent for instance. Normalising twice is harmless either way (`NormalizeIsIdempotent`).
- An edge is the only one of its key exactly when none of its four fields holds a NUL (`KeyIsUnambiguousIffNulFree`,
  `EdgeKeysCanCollide`), and the graph keeps all linked edges exactly when no two of them share a key
  (`EdgesAreTheLinkedOnes`). Ids made by the service hold no NUL (`StableIdIsKept`), so edges between them are all
  kept (`MadeEdgesAreKeptApart`); only ids read back from a graph file can clash.
- A preset is dropped without notice exactly when the multi-line test for `network_policies` succeeds and no single
  line carries the key (`PresetIsLostIffDropped`, `PresetsCanBeDropped`).
- Reading an `.env` file back after an update gives the updates exactly when every updated key is read as updated:
  it is not `__proto__` and not overtaken by a later line that only the reader accepts, and its value is one trimmed,
  unquoted line or that later line has it already (`UpdateReadsBack`). A stray carriage return can overtake a key
  (`StrayReturnOvertakes`), `__proto__` is never read (`ProtoIsNeverRead`), and in text without stray line terminators
  only key and value matter (`CleanUpdateReadsBack`, `AssignmentReadsBack`).
- Updating an `.env` file twice writes the same text as once exactly when no line ends in a carriage return beyond
  its line end, every key is an identifier and every value one line (`UpdatingTwice`); the single line `#\r` breaks
  it, whatever the updates (`CommentWithReturn`).
- Chunks of output are decoded one by one: the lines kept are those of the text exactly when no cut falls inside a
  character (`LinesSurviveIffCutBetweenCharacters`, `TextLinesIffCutBetweenCharacters`), a cut check mark for instance
  spoils its line (`CutsCanSpoilLines`); the outcome reported is that of the text exactly when no cut falls inside a
  character of a complete line (`OutcomeSurvivesIffLinesCutBetweenCharacters`).
- The output reported by `streamSandboxCreate`, whichever end comes, lacks the last unterminated line exactly when
  that line is not blank (`OutputIsCompleteIffLastLineIsBlank`).
- `normalize_heading_levels` promises to preserve relative depth. Of two neighbouring headings the order of levels is
  kept exactly unless the first was promoted and the second's level lies between the first's new and old one
  (`NeighboursKeepTheirOrder`); levels 1, 3, 2 become 1, 2, 2 (`RelativeDepthCanBeLost`).
- A provider that is tracked alone leads from its fifth request on, whatever its score, since nobody else is there
  to be compared (`LoneProviderLeads`). Nothing in the repository calls `recordFailure`, and without failures the
  success rate is always 1 (`AveragesStayInRange`), so scores differ by latency alone.

## Model

| member | source | states |
|---|---|---|
| `Kernel.KernelClient.SpawnProcess` | service/src/kernel.ts:48-133 | A new child gets a ping under the next id, with its timer armed; nothing happens once stopped. |
| `Kernel.KernelClient.Invoke` | service/src/kernel.ts:139-156 | A call is written under a new id only when the client is ready, and refused at once otherwise. |
| `Kernel.KernelClient.TimerFires` | service/src/kernel.ts:109-114 | A timeout settles its request; that of a handshake marks the client ready. |
| `Kernel.KernelClient.LineArrives` | service/src/kernel.ts:84-98 | A line settles the waiting request of its id, by result or error, and nothing else; that `OnLine` marks the client ready for a handshake is `KernelReadiness.ReadyStep`. |
| `Kernel.KernelClient.RejectPending` | service/src/kernel.ts:64-67 | Every waiting request is rejected in order, callbacks seeing the map still filled. |
| `Kernel.KernelClient.ChildExits` | service/src/kernel.ts:61-81 | Rejects all, empties the map, and arms a restart while not stopped and below five. |
| `Kernel.KernelClient.ResetFires` | service/src/kernel.ts:122-128 | The restart count returns to zero only if the client is ready then. |
| `Kernel.KernelClient.Stop` | service/src/kernel.ts:158-167 | Disarms the last restart timer and forgets the child. |
| `Kernel.RunRpcServer` | engine/src/rpc.rs:59-99 | The output is the answers to the input lines in order, as many as there are lines that are not blank, each at its place and with what dispatch returned for that line: an error without id for an unparsable one, otherwise a reply under the request's id. |
| `Kernel.AnswersInPlace` | engine/src/rpc.rs:59-99 | The answer to a line that is not blank stands behind those to the lines before it: the parse error for an unparsable line, otherwise the dispatched result under the request's id. |
| `KernelProtocol.ApplyKeeps` | service/src/kernel.ts:48-167 | Every step of client, pipes and servers keeps the protocol invariant. |
| `KernelProtocol.ExitEffect` | service/src/kernel.ts:61-81 | An exit settles exactly the waiting requests, and leaves the client ready iff a handshake was among them. |
| `KernelRuns.CallsAreAnsweredOnceAndByTheirOwnReply` | service/src/kernel.ts:61-156 | In every interleaving no request is settled twice, every id below `nextId` is settled or waiting with its timer armed, and an answer is the server's to that caller's own request. |
| `KernelRuns.HistoryOnlyGrows` | service/src/kernel.ts:61-167 | What is settled or served stays so; nothing is spawned after a stop. |
| `KernelRuns.RepliesInRequestOrder` | service/src/kernel.ts:84-98 | When a reply arrives, no earlier request to the same child is still waiting. |
| `KernelRuns.ReadyAfterExitIffHandshakeWaiting` | service/src/kernel.ts:61-67 | Exact condition under which `isReady()` holds right after the current child has gone. |
| `KernelRuns.NotReadyBeforeNextSpawn` | service/src/kernel.ts:61-137 | After an exit that finds no handshake waiting, `isReady()` stays false until the next child is spawned. |
| `KernelRuns.DeadChildNeverAnswers` | service/src/kernel.ts:61-68 | A request written to a child that goes without serving it can only time out or be rejected. |
| `KernelRuns.ReadyWithoutLiveChild` | service/src/kernel.ts:124-136 | A run that ends ready without any live child. |
| `KernelReadiness.ReadyStep` | service/src/kernel.ts:61-167 | A step leaves the ready flag set iff some handshake stops waiting in it, answered, refused, timed out or rejected, or the flag was set and the step is no exit without a waiting handshake and no stop of a running client. |
| `KernelReadiness.ReadyIffHandshakeEndedSince` | service/src/kernel.ts:61-167 | Over every run the flag is set iff some handshake has ended and since then no such exit or stop came. |
| `KernelReadiness.IsReadyIff` | service/src/kernel.ts:135-137 | So `isReady()` in full: also not stopped, and some child spawned. |
| `KernelReadiness.NewestChild` | service/src/kernel.ts:48-167 | The client's child is always the one spawned last, dead or alive, and none before the first spawn and after a stop. |
| `KernelReadiness.StoppedForGood` | service/src/kernel.ts:158-167 | After a stop nothing is spawned and the client is never ready again. |
| `KernelReadiness.CallsGoToTheNewestChild` | service/src/kernel.ts:139-156 | A call is refused without effect iff the client is not ready; otherwise it is written to the child spawned last, under a new id, and waits with its timer armed. |
| `KernelReadiness.SpawnPingsTheNewChild` | service/src/kernel.ts:48-133 | `start()` and a restart timer give an unstopped client a new child and ping it under the next id; a stopped one only loses the timer that fired. |
| `KernelReadiness.HandshakesArmResets` | service/src/kernel.ts:109-130 | Every handshake that ends arms exactly one reset timer. |
| `KernelReadiness.ExitArmsRestart` | service/src/kernel.ts:70-80 | An exit arms one new restart timer and counts it iff the client is not stopped and has counted fewer than five. |
| `KernelReadiness.RestartsCountExits` | service/src/kernel.ts:61-131 | Over every run the restart count is the number of exits of the unstopped client since the last reset that found it ready, up to five. |
| `KernelReadiness.ExitIsFollowedByRestart` | service/src/kernel.ts:70-80 | So an exit arms a restart iff the client is not stopped and fewer than five exits came since that reset. |
| `KernelReadiness.StopDisarmsLastRestart` | service/src/kernel.ts:158-160 | Over every run a stop disarms the restart timer that was armed last, and no other. |
| `Backlinks.BuildBacklinks` | service/src/living-architecture-graph.ts:518-568 | The index search links exactly the pairs of steps in different repositories that share a label, three words, or two words and the kind, each once; with distinct references every step ends with min(6, partners) references, all to such partners. At most 500 steps take part. |
| `Backlinks.IndexSteps` | service/src/living-architecture-graph.ts:524-535 | The buckets of a keyword or label hold exactly the ids of the steps that carry it. |
| `Backlinks.Candidates` | service/src/living-architecture-graph.ts:539-549 | The candidates are exactly the other members of the step's buckets, without repetition. |
| `Backlinks.LinkStep` | service/src/living-architecture-graph.ts:551-565 | One step's candidate loop stores what pushing its later qualifying partners one by one gives. |
| `Backlinks.QualifyingPairsAreCandidates` | service/src/living-architecture-graph.ts:471-482 | A score of three needs a shared keyword or an equal label, so pruning loses no pair. |
| `Backlinks.ScoreIsSymmetric` | service/src/living-architecture-graph.ts:471-482 | The score does not depend on the order of the two steps. |
| `Backlinks.ScoreMeansSimilar` | service/src/living-architecture-graph.ts:471-482 | With distinct words, two steps score three iff their repositories differ and they have the label, three words, or two words and the kind in common. |
| `Backlinks.PartnersAreSimilar` | service/src/living-architecture-graph.ts:518-568 | So the all-pairs partners of a step are exactly the other steps like that. |
| `Backlinks.PushAllKeepsFirstSix` | service/src/living-architecture-graph.ts:559-564 | Capping and deduplicating at every push keeps the first six distinct references. |
| `Backlinks.BacklinkCount` | service/src/living-architecture-graph.ts:559-564 | With distinct references a list holds min(6, partners) of them. |
| `Backlinks.PartnersAreAllPartners` | service/src/living-architecture-graph.ts:539-566 | The linked partners of a step are all its all-pairs partners, each once. |
| `Backlinks.EarlierPartnersFirst` | service/src/living-architecture-graph.ts:539-566 | Earlier partners are linked first, so under the cap they win. |
| `Backlinks.DedupeDistinct` | service/src/living-architecture-graph.ts:272-280 | Deduplication leaves distinct keys and invents nothing. |
| `Backlinks.DedupeKeepsFirst` | service/src/living-architecture-graph.ts:272-280 | What stays are the references whose key no earlier one has, in their order. |
| `Backlinks.DedupeInParts` | service/src/living-architecture-graph.ts:272-280 | Deduplicating what is stored and what is given together is deduplicating all of it at once. |
| `StableIds.StableIdEndsInNumber` | service/src/living-architecture-graph.ts:264-266 | The number at the end of an id survives all rewriting passes. |
| `StableIds.DecimalInjective` | service/src/living-architecture-graph.ts:451-451 | Different positions are written differently. |
| `StableIds.StableIdIsKept` | service/src/living-architecture-graph.ts:256-266 | Every character of an id is a lower-case letter, digit or dash, so none is NUL. |
| `StableIdWords.StableIdIsItsWords` | service/src/living-architecture-graph.ts:264-266 | An id is the words of its parts, that is the longest runs of letters and digits, in lower case and joined by single dashes. |
| `StableIds.KeyIsUnambiguousIffNulFree` | service/src/living-architecture-graph.ts:99-101 | An edge is the only one of its key iff none of its four fields holds a NUL. |
| `StableIds.EdgeKeyInjective` | service/src/living-architecture-graph.ts:99-101 | Ends and relation without NUL are told apart by the key, whatever the rationale. |
| `StableIds.EdgeKeysCanCollide` | service/src/living-architecture-graph.ts:99-101 | Two different edges with one key. |
| `ArchitectureGraph.Graph.RebuildIndexes` | service/src/living-architecture-graph.ts:103-108 | Both indexes hold the last node of each id and the last edge of each key, whatever the arrays; they are coherent when ids and keys are unique. |
| `ArchitectureGraph.LastOfEach` | service/src/living-architecture-graph.ts:103-108 | Such an index has the keys of the list, each with its last bearer. |
| `ArchitectureGraph.Graph.IndexAgreesWithScan` | service/src/living-architecture-graph.ts:103-120 | Looking a node up and scanning the array find the same node. |
| `ArchitectureGraph.Graph.EdgeIndexAgreesWithScan` | service/src/living-architecture-graph.ts:103-120 | The same for edges and their keys. |
| `ArchitectureGraph.Graph.UpsertNode` | service/src/living-architecture-graph.ts:406-442 | Does to the arrays what the linear-scan upsert does; the indexes stay coherent and no node moves. What a node is then made of is `GraphHistory.NodeIsMadeOfItsUpserts`. |
| `ArchitectureGraph.Graph.AddEdge` | service/src/living-architecture-graph.ts:444-457 | Does what the linear-scan link does and returns the edge of that key. |
| `ArchitectureGraph.StaysUnique` | service/src/living-architecture-graph.ts:406-457 | After any operations node ids and edge keys are unique. |
| `ArchitectureGraph.VersionCountsUpserts` | service/src/living-architecture-graph.ts:406-442 | A version grows by the number of upserts of its id. |
| `GraphHistory.NodeIsMadeOfItsUpserts` | service/src/living-architecture-graph.ts:406-442 | After any operations a node has kind, label and description of its last upsert, for each part of its origin and each metadata key what the last upsert that gives one gives, the trimmed non-empty tags of all upserts, and of all their links the first of each key; a node that was there before counts as the first upsert. |
| `GraphHistory.MergedIsMadeOf` | service/src/living-architecture-graph.ts:411-424 | One more upsert of a node made of some inputs makes it of these and the new one. |
| `GraphHistory.UpsertTouchesOne` | service/src/living-architecture-graph.ts:406-442 | An upsert merges or adds the node of its id and leaves all others. |
| `ArchitectureGraph.EdgesOnlyGrow` | service/src/living-architecture-graph.ts:444-457 | Edges are only appended, each with the id made of its ends, its relation and its position. |
| `ArchitectureGraph.AddedEdgeIdsDiffer` | service/src/living-architecture-graph.ts:449-453 | Ids of added edges are pairwise distinct. |
| `ArchitectureGraph.EdgesAreTheLinkedOnes` | service/src/living-architecture-graph.ts:444-457 | From the empty graph only linked edges are there, none twice, and all of them iff no two different ones share a key. |
| `ArchitectureGraph.MadeEdgesAreKeptApart` | service/src/living-architecture-graph.ts:444-457 | Edges between ids made by the service never share a key. |
| `OnboardLock.LockFile.AcquireOnboardLock` | bin/lib/onboard-session.js:216-273 | Alone: a free lock is taken, a live holder respected, a dead one replaced by the second attempt, an unparsable file left untouched. |
| `OnboardLock.LockFile.ReleaseOnboardLock` | bin/lib/onboard-session.js:275-291 | Removes the file exactly when it names the caller. |
| `OnboardLock.AtMostOneHolder` | bin/lib/onboard-session.js:192-291 | Over any interleaving of system calls from a lock that is not stale, at most one process holds it and only the holder's release removes it. |
| `OnboardLock.StaleLockAdmitsTwo` | bin/lib/onboard-session.js:249-268 | From a stale lock two contenders can both succeed. |
| `OnboardLock.ExclusiveIffNotStale` | bin/lib/onboard-session.js:216-273 | Mutual exclusion in every run iff the lock is not stale or there is no second contender. |
| `OnboardLock.AloneTheMachineRunsTheLoop` | bin/lib/onboard-session.js:228-272 | Without interference the system-call machine does what the sequential code does. |
| `OnboardLock.AloneTheMachineReleases` | bin/lib/onboard-session.js:275-291 | Without interference the machine's release removes the file iff it names the process. |
| `OnboardLock.CallsEnd` | bin/lib/onboard-session.js:228-291 | Whatever the others do, an acquire has returned or thrown after ten of its own steps and a release after four. |
| `IdempotencyCaches.IdempotencyCache.IdempotencyGet` | service/src/index.ts:57-66 | A hit is an unexpired entry and becomes the newest, all others staying in order; an expired entry is dropped. |
| `IdempotencyCaches.IdempotencyCache.IdempotencySet` | service/src/index.ts:68-76 | The key becomes the newest, of the others the newest stay in order up to the maximum, and it holds the result for an hour. |
| `IdempotencyCaches.IdempotencyCache.ExpirySweep` | service/src/index.ts:515-518 | Leaves exactly the unexpired entries. |
| `IdempotencyCaches.StoredIsNewest` | service/src/index.ts:68-76 | A set keeps the newest keys, the set one last, up to the maximum, with the entries they had. |
| `IdempotencyCaches.SweepDropsExpired` | service/src/index.ts:515-518 | A sweep over some keys drops exactly those of them that have expired. |
| `IdempotencyCaches.HitsAreCurrent` | service/src/index.ts:57-76 | Over any history a hit is the value last set for the key, less than an hour old, and the size never exceeds the maximum. |
| `IdempotencyCaches.MissesNeedFullTurnover` | service/src/index.ts:57-76 | An unexpired key misses only after at least the maximum number of other keys were set or hit since its last use. |
| `IdempotencyCaches.EvictsAtMostOne` | service/src/index.ts:72-75 | A set evicts nothing, or exactly the oldest entry. |
| `IdempotencyCaches.EvictionIsEarned` | service/src/index.ts:68-76 | Everything behind the oldest entry was used after it. |
| `RateLimiters.RateLimiter.RateLimit` | service/src/index.ts:103-132 | Counts the request in its address' bucket after capping the map, and admits up to the limit: the first request of an address without an open bucket opens one of a minute and passes, any other adds one and passes iff it is among the first 120. |
| `RateLimiters.RateLimiter.DeleteExpired` | service/src/index.ts:135-138 | Keeps exactly the open buckets, as they are. |
| `RateLimiters.RateLimiter.DropAtRandom` | service/src/index.ts:110-117 | Whatever the random choice, a quarter of the keys goes. |
| `RateLimiters.LimitHoldsIffNotHalfSpent` | service/src/index.ts:97-138 | The limit holds for the window from a given moment on, in every run in time order without random evictions of the address, iff its bucket is not half spent at that moment. |
| `RateLimiters.HalfSpentExceeds` | service/src/index.ts:119-131 | From a half-spent bucket more than the limit pass, in time order, in the two milliseconds around its end. |
| `RateLimiters.RoomIsGranted` | service/src/index.ts:119-131 | As long as an address has room left, all its requests pass. |
| `RateLimiters.FreshAddressPasses` | service/src/index.ts:97-138 | From any state up to 120 requests of an address without a bucket pass. |
| `RateLimiters.FewerThanTwoLimitsPerWindow` | service/src/index.ts:97-138 | In any stretch shorter than a window at most 239 requests of an address pass, plus 120 per random eviction of its bucket. |
| `RateLimiters.TheBoundIsTight` | service/src/index.ts:119-131 | In a run in time order 239 requests pass within one millisecond. |
| `RateLimiters.MapStaysBounded` | service/src/index.ts:106-123 | The bucket map never exceeds the cap plus one. |
| `CausalityTree.CausalityForest.constructor` | service/src/temporal-causality.ts:72-84 | Nodes hold, for each id, its last event, in the order in which ids first occur; each lists exactly the nodes naming it as parent; roots have no present parent. |
| `CausalityTree.CausalityForest.FillTable` | service/src/temporal-causality.ts:73-76 | Every event id has a node, with the last event of that id, in the order in which ids first occur; with distinct ids every event itself. |
| `CausalityTree.CausalityForest.CollectLinks` | service/src/temporal-causality.ts:77-84 | Children and roots are collected in log order. |
| `CausalityTree.CausalityForest.SortForest` | service/src/temporal-causality.ts:85-90 | Terminates; the roots and every list reachable from them end with ascending time stamps, and no link changes. |
| `CausalityTree.CausalityForest.SortBelow` | service/src/temporal-causality.ts:85-88 | One recursive call sorts every list below its node. |
| `CausalityTree.CausalityForest.EdgesAreParentLinks` | service/src/temporal-causality.ts:78-84 | An edge leads from p to c iff c names p, p is not empty and p is present; no list repeats a node. |
| `CausalityTree.CausalityForest.EachGroundedEventOnce` | service/src/temporal-causality.ts:71-91 | An event is reached exactly once if its parent chain leaves the list, and not at all otherwise; all are reached iff no event is its own ancestor. |
| `CausalityTree.CausalityForest.ForestPathsFollowParents` | service/src/temporal-causality.ts:78-84 | Walking down child lists and walking up parents give the same paths. |
| `CausalityTree.ExactlyOnePath` | service/src/temporal-causality.ts:78-84 | A node has a path from a root iff it is grounded, and then one. |
| `CausalityTree.AllGroundedIffAcyclic` | service/src/temporal-causality.ts:71-91 | All events are grounded iff parents are acyclic. |
| `CausalityTree.SortByTimeIsStable` | service/src/temporal-causality.ts:86-86 | The sibling sort orders by time, loses nobody and keeps the order of equal times. |
| `CausalityTree.SortedIsKept` | service/src/temporal-causality.ts:86-86 | A list already in order is left as it is. |
| `CanonicalJson.EqualValuesNormalizeAlike` | service/src/trace-sink.ts:32-44 | Values equal up to key order normalise to the same value when no names tie in one of them. |
| `CanonicalJson.AlikeNormalFormsAreEqualValues` | service/src/trace-sink.ts:32-44 | Only such values do. |
| `CanonicalJson.CanonicalIffUntied` | service/src/trace-sink.ts:32-44 | Exactly the values equal up to key order share a payload's normal form iff no object in it has two names that tie. |
| `CanonicalJson.TieHasATwin` | service/src/trace-sink.ts:38-40 | A payload with a tie has a twin, equal up to key order, with another normal form. |
| `CanonicalJson.TiesKeepInputOrder` | service/src/trace-sink.ts:38-40 | Exchanging two tied names of an object changes its normal form. |
| `CanonicalJson.NormalizeIsIdempotent` | service/src/trace-sink.ts:32-44 | Normalising a normal form changes nothing, tied names or not. |
| `CanonicalJson.HashIgnoresKeyOrder` | service/src/trace-sink.ts:46-52 | Payloads equal up to key order have the same hash, whatever the digest. |
| `CanonicalJson.HashIgnoresKeyOrderOnly` | service/src/trace-sink.ts:46-52 | Only such payloads do, unless the digest collides on these two. |
| `Router.SortByPriorityIsStable` | engine/src/config.rs:109-109 | Ascending priority, nothing lost, equal priorities in the order pushed. |
| `Router.BuildModelMap` | engine/src/config.rs:111-116 | Each listed model maps to the least index that lists it. |
| `Router.LoadConfig` | engine/src/config.rs:39-131 | The loaded configuration is sorted and its map exact. |
| `Router.ResolutionIsTheScan` | engine/src/router.rs:13-24 | Map and prefix loop return the plain scan's choice; none iff no providers. |
| `Router.ResolvesByVendor` | engine/src/router.rs:13-24 | The choice is the first provider that lists the model, else the first that lists one beginning with the text in front of the model's first slash, if there is any such text, else the first. |
| `Router.BuildCascade` | engine/src/router.rs:101-106 | The loop builds the cascade. |
| `Router.CascadeListsEachNameOnce` | engine/src/router.rs:101-106 | Every provider name once, the resolved one first. |
| `Router.CascadeKeepsOrder` | engine/src/router.rs:101-106 | The others follow in priority order. |
| `Router.CascadeTakesFirst` | engine/src/router.rs:101-106 | Of several providers with one name the first in priority order is taken, and it is taken unless it bears the resolved one's name. |
| `Cascade.JitterFactor` | engine/src/router.rs:37-43 | The jitter lies between 0.5 and 0.9995. |
| `Cascade.PauseInWholeNumbers` | engine/src/router.rs:194-196 | A pause in whole numbers, from the clock's last three digits. |
| `Cascade.PauseIsBounded` | engine/src/router.rs:194-197 | The two pauses lie in 250..499 and 500..999 milliseconds, upper ends attained. |
| `Cascade.FinalErrorsCarryACode` | engine/src/router.rs:28-35 | An error is not retried iff one of the five codes occurs in it. |
| `Cascade.TryProvider` | engine/src/router.rs:126-200 | One provider is called up to its first final reply, at most three times, pausing in between. |
| `Cascade.TryProviders` | engine/src/router.rs:115-214 | The first provider ending in a success answers; otherwise the last error comes back. |
| `Cascade.RouteInference` | engine/src/router.rs:92-215 | Fails without a call only when no provider exists; otherwise routed over the cascade, `retry_count` being the calls made. |
| `Cascade.RoutingIsBounded` | engine/src/router.rs:92-215 | At most 3n calls and 1498n milliseconds of pauses; a failure made at least one call per provider. |
| `Cascade.FailsIffAllExhausted` | engine/src/router.rs:126-214 | Fails iff every provider gave a non-retryable error or three retryable ones. |
| `Cascade.CallsAreInOrder` | engine/src/router.rs:115-200 | Calls go provider by provider, attempt by attempt, repeated only after a retryable error. |
| `ProviderIndex.BuildRoutingTable` | service/src/provider-resolution.ts:44-61 | The index is exact: first owner per model, rules and list in nested order, last provider per name. |
| `ProviderIndex.RulesAreTheScan` | service/src/provider-resolution.ts:74-83 | The first matching rule belongs to the provider the nested scan finds. |
| `ProviderIndex.ResolveProviderFor` | service/src/provider-resolution.ts:72-93 | Null iff no providers; without the overlay, or with a favourite that is unknown or cannot serve the model, the first provider that lists the model, else the first that lists one of the same vendor, else the first; otherwise the last provider of the favourite's name. It can serve the model whenever any provider can. |
| `ProviderIndex.ScanServes` | service/src/provider-resolution.ts:39-42 | The scan's choice can serve whenever any provider can. |
| `ProviderIndex.ScanIsBest` | service/src/provider-resolution.ts:72-83 | The scan finds the first provider that lists the model, else the first that lists one of the same vendor, else the first. |
| `ProviderIndex.SharesVendor` | service/src/provider-resolution.ts:39-42 | A prefix rule matches iff the model is the text of some listed model up to its first slash, a slash and any text. |
| `ProviderIndex.ByNameFinds` | service/src/provider-resolution.ts:58-58 | Every name is found, with the last provider that bears it. |
| `Feedback.FeedbackStore.RecordSuccess` | service/src/feedback.ts:69-81 | The store is that of the reports so far and this success. |
| `Feedback.FeedbackStore.RecordFailure` | service/src/feedback.ts:83-91 | The same for a failure. |
| `Feedback.RecordsAreIndependent` | service/src/feedback.ts:49-91 | After any reports a provider's record is that of its own history alone. |
| `Feedback.RunTallies` | service/src/feedback.ts:69-91 | After any history the counts and tokens are those of its outcomes, and last error and times those of the last failure and success. |
| `Feedback.AveragesAreFadedSums` | service/src/feedback.ts:69-91 | After any history, what the success rate lacks is 0.15 per failure times 0.85 per later outcome, and the latency is the baseline and 0.15 of each latency, times 0.85 per later success. |
| `Feedback.AveragesStayInRange` | service/src/feedback.ts:69-91 | The latency average stays between the least and greatest of the baseline and the latencies seen; the rate stays in (0, 1], and is 1 iff nothing failed. |
| `Feedback.ScoresStayInRange` | service/src/feedback.ts:64-91 | The score is that of the averages and stays in (0, 1]. |
| `Feedback.OnlyFailuresLowerTheRate` | service/src/feedback.ts:69-91 | An outcome lowers the success rate iff it is a failure. |
| `Feedback.ScoreIsBounded` | service/src/feedback.ts:64-67 | The score is in (0, 1], and 1 iff the rate is 1 and the latency within the baseline. |
| `Feedback.ScoreOrdersProviders` | service/src/feedback.ts:64-67 | Slower never scores better, strictly worse beyond the baseline; success rate counts 0.6 a point. |
| `Feedback.RateOutweighsSpeed` | service/src/feedback.ts:64-67 | One provider outranks another whatever their latencies iff its success rate is two thirds higher. |
| `Feedback.FailuresDecayTheRate` | service/src/feedback.ts:83-91 | n failures in a row leave 0.85^n of the rate and the latency alone. |
| `Feedback.RankingIsSorted` | service/src/feedback.ts:93-97 | The ranking lists the tracked providers by descending score, equal scores in order of first report. |
| `Feedback.LoneProviderLeads` | service/src/feedback.ts:100-106 | A provider reported alone leads iff it has five requests, whatever its score. |
| `Feedback.FeedbackStore.GetBestProvider` | service/src/feedback.ts:100-106 | A favourite is returned iff some provider with five requests leads every other by 0.05, and it is that one. |
| `Pipeline.AdaptiveSession.constructor` | service/src/iterm2-adaptive-plug.ts:103-131 | All stages of the table start pending. |
| `Pipeline.AdaptiveSession.GateIsAllowed` | service/src/iterm2-adaptive-plug.ts:249-253 | The gate admits exactly defined stages whose dependencies' latest executions completed. |
| `Pipeline.AdaptiveSession.Execute` | service/src/index.ts:997-1003 | A request starts its stage iff the gate admits it, and changes nothing otherwise. |
| `Pipeline.AdaptiveSession.Ends` | service/src/iterm2-adaptive-plug.ts:155-175 | An execution in flight ends as completed with exit code 0, or as failed. |
| `Pipeline.AdaptiveSession.GetPipelineStatus` | service/src/iterm2-adaptive-plug.ts:225-247 | The four counts count their statuses and sum to the number of stages. |
| `Pipeline.DependenciesCameFirst` | service/src/index.ts:997-1003 | Whenever a stage starts, every transitive dependency has already completed an execution. |
| `Pipeline.EndsFollowStarts` | service/src/iterm2-adaptive-plug.ts:155-175 | In flight is what has started and not ended, and nothing ends more often than it starts. |
| `Pipeline.CyclesNeverStart` | service/src/iterm2-adaptive-plug.ts:249-253 | A stage that depends on itself never starts. |
| `Pipeline.DanglingNeverStarts` | service/src/iterm2-adaptive-plug.ts:249-253 | Nor does one that depends on an undefined stage. |
| `Pipeline.OrderedTablesComplete` | service/src/iterm2-adaptive-plug.ts:249-253 | The gate lets every well-ordered table run to completion. |
| `Pipeline.ShippedTableIsOrdered` | service/src/iterm2-adaptive-plug.ts:65-79 | The shipped table is one. |
| `ShellQuote.QuotedValueIsItself` | bin/lib/runner.js:65-67 | Outside quotes a quoted value is lexed as exactly its own characters. |
| `ShellQuote.PlainTextIsItself` | bin/lib/onboard.js:425-427 | The lexer takes letters, digits and harmless punctuation outside quotes as they are; what the shell would interpret it rejects (`SpecialIsRejected`). |
| `ShellQuote.CommandLexesToItsArguments` | bin/lib/onboard.js:425-427 | For all strings, lexing the command gives back the binary and its arguments. |
| `ShellQuote.CommandsDetermineArguments` | bin/lib/onboard.js:425-427 | Different arguments make different commands. |
| `EnvFile.ParseEnvFile` | dashboard/lib/local-control.js:89-104 | The loop computes the map that the last assignment of each key determines; which lines assign what is `EnvFileShape.ReadsAssignments`. |
| `EnvFile.UpdateEnvFile` | dashboard/lib/local-control.js:106-126 | The loops write the updated lines, then the missing keys; the text in full is `EnvFileShape.UpdateIsLineByLine`. |
| `EnvFile.UpdateLines` | dashboard/lib/local-control.js:110-118 | Updated lines, and the set of keys seen. |
| `EnvFile.NextValuesValid` | dashboard/lib/local-control.js:107-107 | Exactly the updates with a value remain. |
| `EnvFile.MissingAreKeys` | dashboard/lib/local-control.js:119-119 | Missing keys are the updated ones no line was seen for. |
| `EnvFileShape.AssignmentsAreShaped` | dashboard/lib/local-control.js:94-112 | The lines that count as assignments are exactly these: white space, possibly `export` and white space, an identifier, white space, an equals sign and the rest; and key and rest are determined. |
| `EnvFileShape.IdentifierIs` | dashboard/lib/local-control.js:94-94 | An identifier is a letter or underscore, then letters, underscores and digits. |
| `EnvFileShape.ReadsAssignments` | dashboard/lib/local-control.js:94-101 | The reader takes key and value from a line iff it is such an assignment, not to `__proto__`, with a rest that trimmed is one line; the value is that without its quotation marks. |
| `EnvFileShape.UpdatesAssignments` | dashboard/lib/local-control.js:112-116 | The updater replaces a line iff it is such an assignment with a rest of one line. |
| `EnvFileShape.WhiteSpaceIsSkipped` | dashboard/lib/local-control.js:94-112 | White space in front, around the equals sign and behind, and `export`, make no difference to the reader, nor to the updater unless the rest then takes several lines. |
| `EnvFileShape.NoIdentifierNoAssignment` | dashboard/lib/local-control.js:94-112 | A comment, or any line that begins with no identifier, assigns nothing. |
| `EnvFileShape.LinesAreRead` | dashboard/lib/local-control.js:93-93 | Lines ended by line feeds, or by carriage returns and line feeds, in any mixture are read back. |
| `EnvFileShape.UpdateIsLineByLine` | dashboard/lib/local-control.js:106-126 | What an update writes: the lines, each replaced in place or kept, then an assignment for every updated key no line was replaced for, in the order of the updates and behind an empty line unless the text ends with one; then exactly one line feed. |
| `EnvFileLaws.AssignmentReadsBack` | dashboard/lib/local-control.js:94-117 | A written assignment reads back iff the key is an identifier other than `__proto__` and the value one trimmed, unquoted line; the updater finds it again iff the key is an identifier and the value one line. |
| `EnvFileLaws.ExportIsSkipped` | dashboard/lib/local-control.js:94-112 | `export` in front of an assignment changes nothing for reader or updater. |
| `EnvFileLaws.QuotedValueReads` | dashboard/lib/local-control.js:97-100 | Quotation marks around a line of text are taken off. |
| `EnvFileLaws.ProtoIsNeverRead` | dashboard/lib/local-control.js:90-101 | No text sets `__proto__`. |
| `EnvFileLaws.UpdateReadsBack` | dashboard/lib/local-control.js:89-126 | Reading back gives the old map overridden by the updates iff every updated key is readable, not overtaken, and has an encodable value or is decided by a line left alone. |
| `EnvFileLaws.CleanUpdateReadsBack` | dashboard/lib/local-control.js:89-126 | In text without stray line terminators it does so iff no key is `__proto__` and every value is one trimmed, unquoted line. |
| `EnvFileLaws.StrayReturnOvertakes` | dashboard/lib/local-control.js:94-112 | A stray carriage return that makes the law fail. |
| `EnvFileLaws.OtherLinesStay` | dashboard/lib/local-control.js:111-125 | Whatever the updates that take one line each, any other line keeps its place, but for blank lines at the end, and its text iff it does not end in a carriage return. |
| `EnvFileTwice.UpdatingTwice` | dashboard/lib/local-control.js:106-126 | Updating twice writes the same text as once iff no line ends in a carriage return, every key is an identifier and every value one line. |
| `EnvFileTwice.CommentWithReturn` | dashboard/lib/local-control.js:106-126 | A comment that ends so makes the second update differ, whatever the updates. |
| `PresetMerge.InsertPreset` | bin/lib/policies.js:115-140 | The loop with its two flags inserts the preset once, at the gap; where that is, in terms of the lines, is `PresetPlace.PresetGoesBeforeTheNextKey`. |
| `PresetMerge.GapIsUnique` | bin/lib/policies.js:120-138 | The gap is the only place behind the first key line and before the next other top-level key. |
| `PresetPlace.ClosesIffOtherKey` | bin/lib/policies.js:121-133 | A line ends the block iff it is another key at the margin: text that begins with no white space, a colon on the same line, and not the policies' own key. |
| `PresetPlace.PresetGoesBeforeTheNextKey` | bin/lib/policies.js:114-149 | Behind the first line with the key and lines that are empty, indented, without colon or the key again, the preset goes directly before the next key at the margin, or to the end if there is none; a version line comes first unless the policy begins with one. |
| `PresetPlace.PresetGoesBehindANewKey` | bin/lib/policies.js:141-149 | A policy without the key gets it behind its text, and the preset behind that. |
| `PresetPlace.PresetGoesNowhere` | bin/lib/policies.js:114-149 | A policy that has the key on no line of its own only gets its version line. |
| `PresetPlace.SkeletonIs` | bin/lib/policies.js:106-111 | Nothing to merge leaves the policy, nothing to merge into gives a skeleton with the preset. |
| `PresetMerge.MergePresetIntoPolicy` | bin/lib/policies.js:105-151 | Computes the merge; with entries the result always begins with a version header. |
| `PresetMerge.MergedLines` | bin/lib/policies.js:105-151 | Line by line: a version line if missing, the input lines in order, and the preset's lines once in the gap. |
| `PresetMerge.PresetIsLostIffDropped` | bin/lib/policies.js:114-142 | The preset has no influence iff the multi-line test succeeds without a key line. |
| `PresetMerge.PresetsCanBeDropped` | bin/lib/policies.js:114-123 | Such a policy. |
| `PresetMerge.MergingTwiceIsMergingBoth` | bin/lib/policies.js:105-151 | Merging one preset after another is merging both, one below the other. |
| `LineAssembler.StreamAssembler.ChunkArrives` | bin/lib/onboard.js:333-338 | A chunk of bytes is decoded on its own, flushes the complete lines and keeps the rest. |
| `LineAssembler.StreamAssembler.FlushLine` | bin/lib/onboard.js:322-325 | A line is kept cleaned, unless it cleans to nothing. |
| `LineAssembler.LineIsCleaned` | bin/lib/onboard.js:322-325 | A line is kept without its carriage returns, wherever they are, and without the white space at its end, unless nothing remains. |
| `LineAssembler.StreamAssembler.Finish` | bin/lib/onboard.js:288-294 | Only the first result counts. |
| `LineAssembler.StreamAssembler.ReadyReported` | bin/lib/onboard.js:345-368 | Readiness settles once and detaches the child. |
| `LineAssembler.StreamAssembler.SpawnFails` | bin/lib/onboard.js:378-386 | A failed spawn adds its detail and settles with status 1. |
| `LineAssembler.StreamAssembler.StreamCloses` | bin/lib/onboard.js:388-390 | Closing settles with the exit code. |
| `LineAssembler.AssemblesText` | bin/lib/onboard.js:333-338 | After any chunks the lines are those of the text decoded so far, and the rest is pending. |
| `LineAssembler.LinesAreTheCleanedText` | bin/lib/onboard.js:288-338 | After closing, the lines are the cleaned non-empty lines of the whole decoded text. |
| `Utf8.DecodeEncode` | bin/lib/onboard.js:334-334 | Decoding the UTF-8 of a text gives back the text. |
| `Utf8.TextSurvivesIffCutBetweenCharacters` | bin/lib/onboard.js:333-334 | Decoding the chunks of a text one by one gives back the text iff no cut falls inside a character, and otherwise a text with another number of visible characters. |
| `LineAssembler.ChunkingDoesNotMatter` | bin/lib/onboard.js:333-338 | Two ways of cutting the same text between its characters end alike. |
| `LineAssembler.LinesSurviveIffCutBetweenCharacters` | bin/lib/onboard.js:288-338 | Whichever end comes, the lines kept are those of the text sent in one piece iff no cut falls inside a character. |
| `LineAssembler.TextLinesIffCutBetweenCharacters` | bin/lib/onboard.js:288-338 | On closing, the lines are the cleaned lines of the text iff no cut falls inside a character. |
| `LineAssembler.OutcomeSurvivesIffLinesCutBetweenCharacters` | bin/lib/onboard.js:288-391 | The outcome is that of the text sent in one piece iff no cut falls inside a character of a complete line. |
| `LineAssembler.CutsCanSpoilLines` | bin/lib/onboard.js:333-338 | A check mark cut in two becomes a line of two replacement characters. |
| `LineAssembler.SettledOnce` | bin/lib/onboard.js:288-294 | Settled iff an end has come, and never twice. |
| `LineAssembler.LaterEventsKeepTheOutcome` | bin/lib/onboard.js:288-294 | Nothing that follows changes the outcome. |
| `LineAssembler.NothingFollowsReady` | bin/lib/onboard.js:296-368 | After readiness the child is detached: no chunk, error or close changes lines or outcome. |
| `LineAssembler.FirstEndDecides` | bin/lib/onboard.js:343-391 | The first of ready, error and close fixes the one outcome. |
| `LineAssembler.OutputIsCompleteIffLastLineIsBlank` | bin/lib/onboard.js:288-391 | Whichever end comes, the reported output has all lines kept iff the last, unterminated one is blank. |
| `Headings.CollectHeadings` | scripts/docs-to-skills.py:76-81 | First pass: all headings with their levels. |
| `Headings.HeadingIs` | scripts/docs-to-skills.py:75-81 | A line is a heading of level n iff it is n hashes, one to six, and a text that begins with white space. |
| `Headings.HeadingsAreListed` | scripts/docs-to-skills.py:76-81 | Every heading once, in line order. |
| `Headings.Remap` | scripts/docs-to-skills.py:86-93 | Second pass: the new level of every heading. |
| `Headings.NormalizeHeadingLevels` | scripts/docs-to-skills.py:66-102 | The three passes compute the normalised lines. |
| `Headings.GreatestGradualLevels` | scripts/docs-to-skills.py:86-93 | The new levels start at 1, never exceed the old, never rise by more than one, and are pointwise the greatest such. |
| `Headings.NormalizedLineByLine` | scripts/docs-to-skills.py:95-102 | Headings keep their text and take the new level; other lines stay. |
| `Headings.ReleveledKeepsText` | scripts/docs-to-skills.py:97-100 | Renumbering replaces the hashes of a heading and nothing behind them. |
| `Headings.NeighboursKeepTheirOrder` | scripts/docs-to-skills.py:66-102 | Exact condition under which two neighbouring headings keep the order of their levels. |
| `Headings.RelativeDepthCanBeLost` | scripts/docs-to-skills.py:86-93 | Levels 1, 3, 2 become 1, 2, 2. |
| `Headings.NormalizingTwice` | scripts/docs-to-skills.py:66-102 | Normalising is idempotent on lines. |
| `Headings.NormalizingTextTwice` | scripts/docs-to-skills.py:66-102 | And on whole texts. |

## Left out

- BuildBacklinks: assumes distinct step ids among the steps that take part, as the id-to-index map does; with repeated ids the later step shadows the earlier one. Keyword extraction and label normalisation are given per step and not modelled, and the reference that other steps store is one value per step.
- RunRpcServer: the bodies of the dispatched methods are an arbitrary function of the request; end of input and read errors end the list of lines.
- RateLimit: the random choice of evicted keys is a parameter; the bound on admissions counts such evictions.
- HashIgnoresKeyOrderOnly: the text encoding of JSON and the digest are arbitrary functions, which must not collide on the two payloads compared.
- EqualValuesNormalizeAlike: requires payloads without tied names, which CanonicalIffUntied shows to be necessary.
- RouteInference: emitted events, quality scores and latencies are not modelled; jitter is computed in real arithmetic instead of floating point. Replies are an arbitrary function of provider and attempt, each asked at most once.
- UpdateReadsBack: keys are identifiers and values one line; values of several lines, and keys that the updater never recognises, are not covered.
- UpdatingTwice: values with line feeds, which take several lines, and values that end in a carriage return, which the next reading takes for a part of the line end, are not covered.
- OtherLinesStay: updates take one line each, since others move the lines below them.
- LinesSurviveIffCutBetweenCharacters: the bytes sent are a text's; output that is not UTF-8 is decoded by the model but not covered by the law.
- MergingTwiceIsMergingBoth: requires that no line of the first preset ends the block it is put in.
- RecordSuccess: averages are computed in real arithmetic instead of floating point; the clock is a parameter.
- UpsertNode: stored tags are a set, as they are sorted and unique after any upsert; the order of a loaded node's tags before that and all time stamps are not modelled.
- Kernel: the search for the binary in `start()`, console output and the 2-second backoff delays; only whether timers are armed matters. A reply id of another type than a number counts as noise.
- OnboardLock: creating the session directory, and the command and start time in the file.
- Lines read from disk, the limit of 1000 events and the presort of `listTemporalEvents`; time texts are ranks under the collation.
- `OPSEEQ_IDEMPOTENCY_CACHE_MAX` that is no number, which would switch eviction off.
- Pipeline: `verifyTlaPlus`, which bypasses the gate; commands, outputs, hashes, time stamps and the transcript file.
- ShellQuote: NUL, which no shell argument can hold; the lexer rejects all expansions, operators, redirections and comments instead of giving them meaning, and does not know reserved words.
- `extractPresetEntries` and `parseCurrentPolicy`: one regular expression and one search each.
- LineAssembler: the echo of selected lines to the console and the `sawProgress` flag.
- Provider credentials, URLs, environment variables and the cache of routing tables per configuration object.
- Network clients, MCP wrappers, the onboarding wizard and its resume flow, dashboards, redaction and all remaining I/O.
