# ClusterStateUtil: waiting for replicas to converge

This project models `ClusterStateUtil` from SolrJ in Dafny. The class holds the
polling helpers that cluster-management code uses to wait until a cluster-state snapshot
shows what an administrative command should have produced. There are three such helpers.
`waitForAllActiveAndLive` waits until every replica of every active slice is on a live node
and in state `active`. `waitForAllNotLive` waits until no replica of an active slice is on a
live node. `waitToSeeLive` waits until one given replica shows up live. The class also has
the one-shot lookup `isAutoAddReplicas`.

The snapshot is plain data (module `Snapshot`, `snapshot.dfy`):
- `Replica(name, nodeName, baseUrl: Option<string>, state)`
- `Slice(state, replicas)`
- `DocCollection(slices, autoAddReplicas)`
- `ClusterState(collections: map, liveNodes: set)`

The conditions the scans compute are stated there without any iteration order: `AllPass` with a
`ReplicaCheck` of `ActiveAndLive` or `NotLive`, and `SeesLive`.

The class itself is module `ClusterStateUtil` (`cluster_state_util.dfy`):
- The nested scans over collections, slices and replicas are methods with loops. They thread
  the `success` flag the way the Java does.
- The three polling loops are methods.
- `isAutoAddReplicas` is a function.

Time is abstract. A wait receives `trace`: the polls its loop makes while the clock is
before the deadline, one per iteration. Each `Poll` carries the snapshot read, or `None`
when the reader has none yet. It also carries whether a sleep taken in that iteration is
interrupted. A wait ends as `Returned(b)` or `Thrown(f)`. A failure `f` is either
`Interrupted` (the `SolrException` thrown after an interrupted sleep) or `UnknownCollection(name)`.
Each wait also returns `slept`, with one entry per iteration that ran, telling whether that
iteration called `Thread.sleep`.

Each loop is specified against a reference function that does not follow the loop:
- `AllOutcome`: the first iteration that throws decides the outcome. Otherwise the result
  is `false` when no iteration ran, and else the `success` of the last iteration.
- `SeeLiveOutcome`: the first iteration that stops the loop decides, and the result is
  `false` when none does.

The lemmas then state the properties of those functions.

Behaviour that the model keeps as the code has it:
- `waitForAllActiveAndLive` and `waitForAllNotLive` have no early exit. They poll until the
  deadline (without sleeping while satisfied) and return the verdict of the last iteration.
  The Javadoc of `waitForAllActiveAndLive` says only "false if timed out", and
  `waitForAllNotLive` has none. A reader might expect them to return as soon as the
  condition holds, but the code does not.
- In those two waits, an iteration that reads no snapshot leaves `success` true, because it
  is set before the null check. A wait whose last poll reads no snapshot therefore returns
  true, although one might expect an absent snapshot to count as "not yet satisfied".
- If the loop body never runs, the result is `false`.
- `waitToSeeLive` returns at the first sighting. On an iteration that reads no snapshot it
  does not sleep; it polls again at once.
- A named collection that the snapshot lacks is fetched with `getCollection` and no null
  check, so the call ends with an exception (`UnknownCollection`). It never returns `false`
  for that case.

## Model

| member | source | states |
|---|---|---|
| ClusterStateUtil.ScanReplicas | solr/solrj/src/java/org/apache/solr/common/cloud/ClusterStateUtil.java:79-89 | the replica loop leaves `success` true exactly when it came in true and every replica passes the check; a false flag is never set back to true |
| ClusterStateUtil.ScanSlices | solr/solrj/src/java/org/apache/solr/common/cloud/ClusterStateUtil.java:76-91 | the slice loop leaves `success` true exactly when it came in true and every slice passes; a slice whose state is not active imposes nothing |
| ClusterStateUtil.ScanCollections | solr/solrj/src/java/org/apache/solr/common/cloud/ClusterStateUtil.java:67-92 | one iteration's scan returns whether every replica of every active slice of every collection in scope passes (the named collection, or all of them when none is named), whatever order the collection set is visited in; it throws `UnknownCollection` exactly when the named collection is absent |
| ClusterStateUtil.ReadAndScan | solr/solrj/src/java/org/apache/solr/common/cloud/ClusterStateUtil.java:65-92 | one iteration's read classifies the poll: no snapshot, missing collection, satisfied or unsatisfied, as `AllStep` defines |
| ClusterStateUtil.WaitForAll | solr/solrj/src/java/org/apache/solr/common/cloud/ClusterStateUtil.java:60-104 | the shared polling loop ends with `AllOutcome`, runs `AllIterations` iterations, and sleeps exactly in the iterations whose snapshot is present and fails the scan |
| ClusterStateUtil.WaitForAllActiveAndLive | solr/solrj/src/java/org/apache/solr/common/cloud/ClusterStateUtil.java:58-105 | the wait for all replicas active and live ends with `AllOutcome` for the `ActiveAndLive` check, and its sleeps are as above |
| ClusterStateUtil.WaitForAllActiveAndLiveEverywhere | solr/solrj/src/java/org/apache/solr/common/cloud/ClusterStateUtil.java:44-46 | the overload without a collection scans every collection, and its only possible failure is an interruption |
| ClusterStateUtil.WaitForAllNotLive | solr/solrj/src/java/org/apache/solr/common/cloud/ClusterStateUtil.java:171-217 | the wait for no replica live ends with `AllOutcome` for the `NotLive` check, and its sleeps are as above |
| ClusterStateUtil.WaitForAllNotLiveEverywhere | solr/solrj/src/java/org/apache/solr/common/cloud/ClusterStateUtil.java:166-168 | the overload without a collection scans every collection, and its only possible failure is an interruption |
| ClusterStateUtil.FindLiveReplica | solr/solrj/src/java/org/apache/solr/common/cloud/ClusterStateUtil.java:136-152 | the search returns true exactly when some replica of an active slice is on a live node and has the given core-node name and base URL |
| ClusterStateUtil.ReadAndLook | solr/solrj/src/java/org/apache/solr/common/cloud/ClusterStateUtil.java:132-152 | one iteration's read of `waitToSeeLive` classifies the poll: no snapshot, collection absent, target seen or target not seen, as `SeeLiveStep` defines |
| ClusterStateUtil.WaitToSeeLive | solr/solrj/src/java/org/apache/solr/common/cloud/ClusterStateUtil.java:123-164 | the wait ends with `SeeLiveOutcome`, runs `SeeLiveIterations` iterations, and sleeps exactly in the iterations whose snapshot is present, holds the collection and shows no live target |
| ClusterStateUtil.IsAutoAddReplicas | solr/solrj/src/java/org/apache/solr/common/cloud/ClusterStateUtil.java:219-228 | the result is true exactly when a snapshot is present, it holds the collection, and that collection's auto-add flag is set; an absent snapshot or collection gives false |
| ClusterStateUtil.AllOutcomeAtThrow | solr/solrj/src/java/org/apache/solr/common/cloud/ClusterStateUtil.java:74-99 | when iteration i is the first to throw, the wait ends after i + 1 iterations with `UnknownCollection` for a missing collection and `Interrupted` otherwise |
| ClusterStateUtil.AllOutcomeWithoutThrow | solr/solrj/src/java/org/apache/solr/common/cloud/ClusterStateUtil.java:62-104 | when no iteration throws, every poll is read and the result is false for no iterations, and otherwise the `success` of the last one |
| ClusterStateUtil.AllReturnsTrueIff | solr/solrj/src/java/org/apache/solr/common/cloud/ClusterStateUtil.java:62-104 | an all-replica wait returns true if and only if no iteration throws, at least one runs, and the last reads no snapshot or a satisfying one |
| ClusterStateUtil.SuccessIsNotFinal | solr/solrj/src/java/org/apache/solr/common/cloud/ClusterStateUtil.java:63-102 | there is no early exit: after a run that would return true, one more failing, uninterrupted poll makes the wait return false |
| ClusterStateUtil.NullLastPollYieldsTrue | solr/solrj/src/java/org/apache/solr/common/cloud/ClusterStateUtil.java:63-66 | a last iteration that reads no snapshot makes the wait return true, whatever earlier iterations saw |
| ClusterStateUtil.SatisfiedThroughout | solr/solrj/src/java/org/apache/solr/common/cloud/ClusterStateUtil.java:63-104 | if every poll reads a satisfying snapshot, the wait returns true and never sleeps |
| ClusterStateUtil.NeverSatisfied | solr/solrj/src/java/org/apache/solr/common/cloud/ClusterStateUtil.java:63-104 | if every poll reads a failing snapshot and no sleep is interrupted, the wait sleeps in every iteration and returns false |
| ClusterStateUtil.InterruptedOnlyAfterFailedScan | solr/solrj/src/java/org/apache/solr/common/cloud/ClusterStateUtil.java:93-99 | an `Interrupted` outcome comes only from an iteration whose snapshot failed the scan and whose sleep was interrupted |
| ClusterStateUtil.EverywhereNeverUnknown | solr/solrj/src/java/org/apache/solr/common/cloud/ClusterStateUtil.java:70-72 | with no collection named, the scope is the snapshot's own collections, so no iteration throws `UnknownCollection` |
| ClusterStateUtil.SeeLiveOutcomeAtStop | solr/solrj/src/java/org/apache/solr/common/cloud/ClusterStateUtil.java:132-158 | the first iteration that stops `waitToSeeLive` decides its outcome (missing collection, sighting, or interrupted sleep) after i + 1 iterations |
| ClusterStateUtil.SeeLiveOutcomeWithoutStop | solr/solrj/src/java/org/apache/solr/common/cloud/ClusterStateUtil.java:129-163 | when no iteration stops it, `waitToSeeLive` reads every poll and returns false, including when no iteration runs |
| ClusterStateUtil.SeeLiveReturnsTrueIffSeen | solr/solrj/src/java/org/apache/solr/common/cloud/ClusterStateUtil.java:129-163 | when every snapshot holds the collection and no sleep is interrupted, `waitToSeeLive` returns true if and only if some poll shows the live target |
| ClusterStateUtil.SeeLiveStopsAtFirstSighting | solr/solrj/src/java/org/apache/solr/common/cloud/ClusterStateUtil.java:145-149 | a true result implies a sighting, and polls after the first sighting are never read and cannot change the result |
| ClusterStateUtil.SightingDefeatsNotLive | solr/solrj/src/java/org/apache/solr/common/cloud/ClusterStateUtil.java:186-204 | a snapshot in which `waitToSeeLive` sees its replica fails the not-live scan of that collection |
| Snapshot.NotLiveIgnoresReplicaState | solr/solrj/src/java/org/apache/solr/common/cloud/ClusterStateUtil.java:193-201 | the not-live condition never consults a replica's state: rewriting every replica state leaves its verdict unchanged |
| Snapshot.EverywhereIffEachCollection | solr/solrj/src/java/org/apache/solr/common/cloud/ClusterStateUtil.java:67-72 | scanning every collection succeeds exactly when scanning each collection by name would |
| Snapshot.BothChecksOnlyWhenVacuous | solr/solrj/src/java/org/apache/solr/common/cloud/ClusterStateUtil.java:82-88 | the active-and-live and not-live conditions hold together only when no active slice in scope has a replica |
| Snapshot.VacuousScopeSatisfiesBoth | solr/solrj/src/java/org/apache/solr/common/cloud/ClusterStateUtil.java:76-91 | a scope whose active slices are empty satisfies both all-replica conditions |
| Snapshot.SeesLiveDefeatsNotLive | solr/solrj/src/java/org/apache/solr/common/cloud/ClusterStateUtil.java:142-146 | a collection in which the target replica is live fails the not-live condition |
| Snapshot.CollectionPassesIgnoresOrder | solr/solrj/src/java/org/apache/solr/common/cloud/ClusterStateUtil.java:76-91 | the verdict does not depend on the order of a collection's slices |
| Snapshot.SlicePassesIgnoresOrder | solr/solrj/src/java/org/apache/solr/common/cloud/ClusterStateUtil.java:80-89 | the verdict does not depend on the order of a slice's replicas |

## Left out

- Real time: `System.nanoTime`, the millisecond-to-nanosecond conversion and the 1000 ms
  `TIMEOUT_POLL_MS` sleep are replaced by the trace of polls made before the deadline. The
  model does not bound how late a wait may return.
- The `int timeoutInMs` parameter is left out with the clock. The trace stands for its effect.
- Thread interruption is modelled only as the `Interrupted` failure. Re-asserting the thread's
  interrupt flag is not modelled.
- Logging: the `log.debug` at each `waitToSeeLive` iteration and the `log.error` on timeout
  have no effect on results and are not modelled.
- `ZkStateReader`, `ClusterState`, `DocCollection`, `Slice` and `Replica` are not part of
  this model. The snapshot is an input value. The constants `Slice.ACTIVE` and
  `ZkStateReader.ACTIVE` are taken to be the string `"active"`.
- The exception that `getCollection` raises for an unknown name is not part of this model.
  Only its effect is kept: the call ends abnormally, as `UnknownCollection(name)`.
- A replica with no state property: in `waitForAllActiveAndLive`, `state.equals` is reached
  only for a replica on a live node (the `!live ||` test comes first), and there such a
  replica makes the Java throw. `waitForAllNotLive` never reads the state. The model gives
  every replica a state string, so it does not capture that exception.
- A null `coreNodeName` or `baseUrl` argument of `waitToSeeLive`: the test short-circuits, so
  `coreNodeName.equals` runs only once a live replica of an active slice is reached, and
  `baseUrl.equals` only when the core-node name also matches. Only then does the Java throw;
  otherwise the call polls until the deadline and returns false. Dafny strings cannot be
  null, so the model does not capture those calls.
- A null `collection` argument of `waitToSeeLive` is passed to `getCollection` (line 134)
  once a snapshot is read. The model's `collection` is a `string`, so that case is not
  modelled.
