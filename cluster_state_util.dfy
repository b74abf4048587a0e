/** ClusterStateUtil: bounded polling of cluster-state snapshots until all replicas are
    active and live, until none is live, or until one given replica is seen live.

    Time is abstract. A wait consumes `trace`, the polls its loop makes while the clock is
    still before the deadline, one per iteration, in order; the call may stop earlier by
    returning or throwing. */
module ClusterStateUtil {
  import opened Snapshot

  /** One iteration's view of the world: the snapshot read (None when the reader has no
      cluster state yet) and whether a sleep taken in this iteration is interrupted. */
  datatype Poll = Poll(snapshot: Option<ClusterState>, interrupted: bool)

  /** How a wait ends abnormally: a sleep interrupted (SolrException "Interrupted"), or a
      collection looked up by name that the snapshot does not hold. */
  datatype Failure = Interrupted | UnknownCollection(name: string)

  /** How a wait ends: it returns a boolean or it throws. */
  datatype Outcome = Returned(value: bool) | Thrown(failure: Failure)

  // ---------------------------------------------------------------------------
  // First match in a sequence
  // ---------------------------------------------------------------------------

  /** The index of the first element satisfying `p`, or |xs| when there is none. */
  function FirstWhere<T>(xs: seq<T>, p: T -> bool): (k: nat)
    ensures k <= |xs|
    ensures forall j :: 0 <= j < k ==> !p(xs[j])
    ensures k < |xs| ==> p(xs[k])
  {
    if xs == [] then 0
    else if p(xs[0]) then 0
    else 1 + FirstWhere(xs[1..], p)
  }

  /** The first index is the one before which nothing satisfies `p` and at which `p` holds
      (or the end). */
  lemma FirstWhereIs<T>(xs: seq<T>, p: T -> bool, i: nat)
    requires i <= |xs|
    requires forall j :: 0 <= j < i ==> !p(xs[j])
    requires i < |xs| ==> p(xs[i])
    ensures FirstWhere(xs, p) == i
  {
  }

  // ---------------------------------------------------------------------------
  // The all-replica scans (one iteration of waitForAllActiveAndLive / waitForAllNotLive)
  // ---------------------------------------------------------------------------

  /** The innermost loop: `success` is cleared by every replica that fails `check` and is
      never set back to true. */
  method ScanReplicas(replicas: seq<Replica>, liveNodes: set<string>, check: ReplicaCheck, success0: bool)
    returns (success: bool)
    ensures success == (success0 && forall r :: r in replicas ==> Passes(check, r, liveNodes))
  {
    success := success0;
    for i := 0 to |replicas|
      invariant success == (success0 && forall j :: 0 <= j < i ==> Passes(check, replicas[j], liveNodes))
    {
      var replica := replicas[i];
      var live := replica.nodeName in liveNodes;
      match check {
        case ActiveAndLive =>
          if !live || replica.state != REPLICA_ACTIVE {
            success := false;
          }
        case NotLive =>
          if live {
            success := false;
          }
      }
    }
    ReplicasPassIndexwise(replicas, liveNodes, check);
  }

  /** The loop over a collection's slices; only active slices are looked into. */
  method ScanSlices(slices: seq<Slice>, liveNodes: set<string>, check: ReplicaCheck, success0: bool)
    returns (success: bool)
    ensures success == (success0 && forall s :: s in slices ==> SlicePasses(s, liveNodes, check))
  {
    success := success0;
    for i := 0 to |slices|
      invariant success == (success0 && forall j :: 0 <= j < i ==> SlicePasses(slices[j], liveNodes, check))
    {
      var slice := slices[i];
      if slice.state == SLICE_ACTIVE {
        success := ScanReplicas(slice.replicas, liveNodes, check, success);
      }
    }
    SlicesPassIndexwise(slices, liveNodes, check);
  }

  /** The scan of one iteration over a snapshot, after `success` was set to true: the
      named collection or every collection, each fetched by name (which throws when the
      snapshot does not hold it). The collection set is visited in no fixed order. */
  method ScanCollections(cs: ClusterState, collection: Option<string>, check: ReplicaCheck)
    returns (outcome: Outcome)
    ensures ScopeResolves(cs, collection) ==> outcome == Returned(AllPass(cs, Scope(cs, collection), check))
    ensures !ScopeResolves(cs, collection) ==> collection.Some? && outcome == Thrown(UnknownCollection(collection.value))
  {
    var collections := Scope(cs, collection);
    var success := true;
    var remaining := collections;
    while remaining != {}
      invariant remaining <= collections
      invariant collections - remaining <= cs.collections.Keys
      invariant success == forall c :: c in collections - remaining ==> CollectionPasses(cs.collections[c], cs.liveNodes, check)
      decreases remaining
    {
      var coll :| coll in remaining;
      if coll !in cs.collections {
        return Thrown(UnknownCollection(coll));
      }
      var docCollection := cs.collections[coll];
      success := ScanSlices(docCollection.slices, cs.liveNodes, check, success);
      remaining := remaining - {coll};
    }
    outcome := Returned(success);
  }

  // ---------------------------------------------------------------------------
  // waitForAllActiveAndLive / waitForAllNotLive
  // ---------------------------------------------------------------------------

  /** What one iteration of an all-replica wait makes of the snapshot it reads. */
  datatype Step = NoSnapshot | Missing(name: string) | Satisfied | Unsatisfied

  function AllStep(poll: Poll, collection: Option<string>, check: ReplicaCheck): (step: Step)
    ensures step.Missing? ==> collection == Some(step.name)
  {
    match poll.snapshot
    case None => NoSnapshot
    case Some(cs) =>
      if !ScopeResolves(cs, collection) then Missing(collection.value)
      else if AllPass(cs, Scope(cs, collection), check) then Satisfied
      else Unsatisfied
  }

  /** The iteration that reads `poll` throws: the scope names a collection the snapshot
      lacks, or the scan fails and the sleep that follows is interrupted. */
  predicate AllThrows(poll: Poll, collection: Option<string>, check: ReplicaCheck) {
    var step := AllStep(poll, collection, check);
    step.Missing? || (step == Unsatisfied && poll.interrupted)
  }

  /** The iteration that reads `poll` sleeps: the snapshot is there and the scan fails. */
  predicate AllSleeps(poll: Poll, collection: Option<string>, check: ReplicaCheck) {
    AllStep(poll, collection, check) == Unsatisfied
  }

  /** `success` after an iteration that reads `poll` and does not throw. A missing
      snapshot leaves the `true` set at the top of the iteration. */
  predicate AllSucceeds(poll: Poll, collection: Option<string>, check: ReplicaCheck) {
    var step := AllStep(poll, collection, check);
    step == NoSnapshot || step == Satisfied
  }

  function AllFirstThrow(trace: seq<Poll>, collection: Option<string>, check: ReplicaCheck): (k: nat) {
    FirstWhere(trace, p => AllThrows(p, collection, check))
  }

  /** What a wait for all replicas ends with: the failure of the first iteration that
      throws; otherwise `false` when no iteration ran, and else the `success` of the LAST
      iteration, since the loop has no early exit. */
  function AllOutcome(trace: seq<Poll>, collection: Option<string>, check: ReplicaCheck): (r: Outcome) {
    var k := AllFirstThrow(trace, collection, check);
    if k < |trace| then
      match AllStep(trace[k], collection, check)
      case Missing(name) => Thrown(UnknownCollection(name))
      case _ => Thrown(Interrupted)
    else if trace == [] then Returned(false)
    else Returned(AllSucceeds(trace[|trace| - 1], collection, check))
  }

  /** The number of iterations a wait for all replicas runs. */
  function AllIterations(trace: seq<Poll>, collection: Option<string>, check: ReplicaCheck): (n: nat)
    ensures n <= |trace|
  {
    var k := AllFirstThrow(trace, collection, check);
    if k < |trace| then k + 1 else |trace|
  }

  /** The body of one iteration up to the sleep: read the snapshot and, when there is
      one, scan it. */
  method ReadAndScan(poll: Poll, collection: Option<string>, check: ReplicaCheck) returns (step: Step)
    ensures step == AllStep(poll, collection, check)
  {
    if poll.snapshot.None? {
      return NoSnapshot;
    }
    var scan := ScanCollections(poll.snapshot.value, collection, check);
    if scan.Thrown? {
      step := Missing(scan.failure.name);
    } else if scan.value {
      step := Satisfied;
    } else {
      step := Unsatisfied;
    }
  }

  /** When iteration `i` is the first to throw, the wait ends with its failure after
      i + 1 iterations. */
  lemma AllOutcomeAtThrow(trace: seq<Poll>, collection: Option<string>, check: ReplicaCheck, i: nat)
    requires i < |trace| && AllThrows(trace[i], collection, check)
    requires forall j :: 0 <= j < i ==> !AllThrows(trace[j], collection, check)
    ensures AllIterations(trace, collection, check) == i + 1
    ensures AllOutcome(trace, collection, check)
         == match AllStep(trace[i], collection, check)
            case Missing(name) => Thrown(UnknownCollection(name))
            case _ => Thrown(Interrupted)
  {
    FirstWhereIs(trace, p => AllThrows(p, collection, check), i);
  }

  /** When no iteration throws, every poll of the trace is read and the wait returns the
      `success` of the last one, or `false` when there is none. */
  lemma AllOutcomeWithoutThrow(trace: seq<Poll>, collection: Option<string>, check: ReplicaCheck)
    requires forall j :: 0 <= j < |trace| ==> !AllThrows(trace[j], collection, check)
    ensures AllIterations(trace, collection, check) == |trace|
    ensures AllOutcome(trace, collection, check) == Returned(trace != [] && AllSucceeds(trace[|trace| - 1], collection, check))
  {
    FirstWhereIs(trace, p => AllThrows(p, collection, check), |trace|);
  }

  /** The shared loop of the two all-replica waits. `slept` has one entry per iteration
      that ran, telling whether it called Thread.sleep. */
  method WaitForAll(trace: seq<Poll>, collection: Option<string>, check: ReplicaCheck)
    returns (outcome: Outcome, slept: seq<bool>)
    ensures outcome == AllOutcome(trace, collection, check)
    ensures |slept| == AllIterations(trace, collection, check)
    ensures forall k :: 0 <= k < |slept| ==> slept[k] == AllSleeps(trace[k], collection, check)
  {
    var success := false;
    slept := [];
    var i := 0;
    while i < |trace|
      invariant 0 <= i <= |trace| && |slept| == i
      invariant forall j :: 0 <= j < i ==> !AllThrows(trace[j], collection, check) && slept[j] == AllSleeps(trace[j], collection, check)
      invariant success == (i > 0 && AllSucceeds(trace[i - 1], collection, check))
    {
      success := true;
      var poll := trace[i];
      var step := ReadAndScan(poll, collection, check);
      if step.Missing? {
        AllOutcomeAtThrow(trace, collection, check, i);
        return Thrown(UnknownCollection(step.name)), slept + [false];
      }
      var sleeps := step == Unsatisfied;
      if sleeps {
        success := false;
        if poll.interrupted {
          AllOutcomeAtThrow(trace, collection, check, i);
          return Thrown(Interrupted), slept + [true];
        }
      }
      slept := slept + [sleeps];
      i := i + 1;
    }
    AllOutcomeWithoutThrow(trace, collection, check);
    outcome := Returned(success);
  }

  /** waitForAllActiveAndLive(zkStateReader, collection, timeoutInMs); `None` stands for a
      null collection. */
  method WaitForAllActiveAndLive(trace: seq<Poll>, collection: Option<string>)
    returns (outcome: Outcome, slept: seq<bool>)
    ensures outcome == AllOutcome(trace, collection, ActiveAndLive)
    ensures |slept| == AllIterations(trace, collection, ActiveAndLive)
    ensures forall k :: 0 <= k < |slept| ==> slept[k] == AllSleeps(trace[k], collection, ActiveAndLive)
  {
    outcome, slept := WaitForAll(trace, collection, ActiveAndLive);
  }

  /** waitForAllActiveAndLive(zkStateReader, timeoutInMs): every collection is in scope,
      so the wait can only throw by interruption. */
  method WaitForAllActiveAndLiveEverywhere(trace: seq<Poll>) returns (outcome: Outcome, slept: seq<bool>)
    ensures outcome == AllOutcome(trace, None, ActiveAndLive)
    ensures outcome.Thrown? ==> outcome.failure == Interrupted
    ensures |slept| == AllIterations(trace, None, ActiveAndLive)
    ensures forall k :: 0 <= k < |slept| ==> slept[k] == AllSleeps(trace[k], None, ActiveAndLive)
  {
    outcome, slept := WaitForAllActiveAndLive(trace, None);
    EverywhereNeverUnknown(trace, ActiveAndLive);
  }

  /** waitForAllNotLive(zkStateReader, collection, timeoutInMs). */
  method WaitForAllNotLive(trace: seq<Poll>, collection: Option<string>)
    returns (outcome: Outcome, slept: seq<bool>)
    ensures outcome == AllOutcome(trace, collection, NotLive)
    ensures |slept| == AllIterations(trace, collection, NotLive)
    ensures forall k :: 0 <= k < |slept| ==> slept[k] == AllSleeps(trace[k], collection, NotLive)
  {
    outcome, slept := WaitForAll(trace, collection, NotLive);
  }

  /** waitForAllNotLive(zkStateReader, timeoutInMs). */
  method WaitForAllNotLiveEverywhere(trace: seq<Poll>) returns (outcome: Outcome, slept: seq<bool>)
    ensures outcome == AllOutcome(trace, None, NotLive)
    ensures outcome.Thrown? ==> outcome.failure == Interrupted
    ensures |slept| == AllIterations(trace, None, NotLive)
    ensures forall k :: 0 <= k < |slept| ==> slept[k] == AllSleeps(trace[k], None, NotLive)
  {
    outcome, slept := WaitForAllNotLive(trace, None);
    EverywhereNeverUnknown(trace, NotLive);
  }

  // ---------------------------------------------------------------------------
  // waitToSeeLive
  // ---------------------------------------------------------------------------

  /** What one iteration of waitToSeeLive makes of the snapshot it reads. */
  datatype Sighting = NothingRead | CollectionAbsent | TargetSeen | TargetNotSeen

  function SeeLiveStep(poll: Poll, collection: string, coreNodeName: string, baseUrl: string): (step: Sighting)
    ensures step != NothingRead ==> poll.snapshot.Some?
  {
    match poll.snapshot
    case None => NothingRead
    case Some(cs) =>
      if collection !in cs.collections then CollectionAbsent
      else if SeesLive(cs.collections[collection], cs.liveNodes, coreNodeName, baseUrl) then TargetSeen
      else TargetNotSeen
  }

  /** The iteration that reads `poll` finds the live target replica. */
  predicate Finds(poll: Poll, collection: string, coreNodeName: string, baseUrl: string) {
    SeeLiveStep(poll, collection, coreNodeName, baseUrl) == TargetSeen
  }

  /** The iteration that reads `poll` ends the call: it throws on a missing collection,
      returns on finding the target, or throws when its sleep is interrupted. */
  predicate SeeLiveStops(poll: Poll, collection: string, coreNodeName: string, baseUrl: string) {
    var step := SeeLiveStep(poll, collection, coreNodeName, baseUrl);
    step == CollectionAbsent || step == TargetSeen || (step == TargetNotSeen && poll.interrupted)
  }

  /** The iteration that reads `poll` sleeps: the snapshot is there and holds no target. A
      missing snapshot does not sleep. */
  predicate SeeLiveSleeps(poll: Poll, collection: string, coreNodeName: string, baseUrl: string) {
    SeeLiveStep(poll, collection, coreNodeName, baseUrl) == TargetNotSeen
  }

  function SeeLiveFirstStop(trace: seq<Poll>, collection: string, coreNodeName: string, baseUrl: string): (k: nat) {
    FirstWhere(trace, p => SeeLiveStops(p, collection, coreNodeName, baseUrl))
  }

  /** What waitToSeeLive ends with: decided by the first iteration that stops it, and
      `false` (after the timeout diagnostic) when none does. */
  function SeeLiveOutcome(trace: seq<Poll>, collection: string, coreNodeName: string, baseUrl: string): (r: Outcome) {
    var k := SeeLiveFirstStop(trace, collection, coreNodeName, baseUrl);
    if k == |trace| then Returned(false)
    else
      match SeeLiveStep(trace[k], collection, coreNodeName, baseUrl)
      case CollectionAbsent => Thrown(UnknownCollection(collection))
      case TargetSeen => Returned(true)
      case _ => Thrown(Interrupted)
  }

  function SeeLiveIterations(trace: seq<Poll>, collection: string, coreNodeName: string, baseUrl: string): (n: nat)
    ensures n <= |trace|
  {
    var k := SeeLiveFirstStop(trace, collection, coreNodeName, baseUrl);
    if k < |trace| then k + 1 else |trace|
  }

  /** The scan of one iteration of waitToSeeLive: active slices in order, returning at the
      first live replica with the given core-node name and base URL. */
  method FindLiveReplica(docCollection: DocCollection, liveNodes: set<string>, coreNodeName: string, baseUrl: string)
    returns (found: bool)
    ensures found == SeesLive(docCollection, liveNodes, coreNodeName, baseUrl)
  {
    var slices := docCollection.slices;
    for i := 0 to |slices|
      invariant forall s, r :: s in slices[..i] && IsActive(s) && r in s.replicas ==> !IsLiveTarget(r, liveNodes, coreNodeName, baseUrl)
    {
      var slice := slices[i];
      if slice.state == SLICE_ACTIVE {
        var replicas := slice.replicas;
        for j := 0 to |replicas|
          invariant forall r :: r in replicas[..j] ==> !IsLiveTarget(r, liveNodes, coreNodeName, baseUrl)
        {
          var replica := replicas[j];
          var live := replica.nodeName in liveNodes;
          if live && coreNodeName == replica.name && replica.baseUrl == Some(baseUrl) {
            assert slice in slices && replica in replicas;
            assert IsActive(slice) && IsLiveTarget(replica, liveNodes, coreNodeName, baseUrl);
            return true;
          }
        }
        assert replicas[..|replicas|] == replicas;
      }
      assert slices[..i + 1] == slices[..i] + [slice];
    }
    assert slices[..|slices|] == slices;
    return false;
  }

  /** The body of one iteration of waitToSeeLive up to the sleep: read the snapshot and,
      when there is one, fetch the collection and look for the target. */
  method ReadAndLook(poll: Poll, collection: string, coreNodeName: string, baseUrl: string)
    returns (step: Sighting)
    ensures step == SeeLiveStep(poll, collection, coreNodeName, baseUrl)
  {
    if poll.snapshot.None? {
      return NothingRead;
    }
    var cs := poll.snapshot.value;
    if collection !in cs.collections {
      return CollectionAbsent;
    }
    var found := FindLiveReplica(cs.collections[collection], cs.liveNodes, coreNodeName, baseUrl);
    step := if found then TargetSeen else TargetNotSeen;
  }

  /** When iteration `i` is the first to stop waitToSeeLive, its snapshot decides the
      outcome after i + 1 iterations. */
  lemma SeeLiveOutcomeAtStop(trace: seq<Poll>, collection: string, coreNodeName: string, baseUrl: string, i: nat)
    requires i < |trace| && SeeLiveStops(trace[i], collection, coreNodeName, baseUrl)
    requires forall j :: 0 <= j < i ==> !SeeLiveStops(trace[j], collection, coreNodeName, baseUrl)
    ensures SeeLiveIterations(trace, collection, coreNodeName, baseUrl) == i + 1
    ensures SeeLiveOutcome(trace, collection, coreNodeName, baseUrl)
         == match SeeLiveStep(trace[i], collection, coreNodeName, baseUrl)
            case CollectionAbsent => Thrown(UnknownCollection(collection))
            case TargetSeen => Returned(true)
            case _ => Thrown(Interrupted)
  {
    FirstWhereIs(trace, p => SeeLiveStops(p, collection, coreNodeName, baseUrl), i);
  }

  /** When no iteration stops it, waitToSeeLive reads every poll and returns `false`. */
  lemma SeeLiveOutcomeWithoutStop(trace: seq<Poll>, collection: string, coreNodeName: string, baseUrl: string)
    requires forall j :: 0 <= j < |trace| ==> !SeeLiveStops(trace[j], collection, coreNodeName, baseUrl)
    ensures SeeLiveIterations(trace, collection, coreNodeName, baseUrl) == |trace|
    ensures SeeLiveOutcome(trace, collection, coreNodeName, baseUrl) == Returned(false)
  {
    FirstWhereIs(trace, p => SeeLiveStops(p, collection, coreNodeName, baseUrl), |trace|);
  }

  /** waitToSeeLive(zkStateReader, collection, coreNodeName, baseUrl, timeoutInMs).
      `slept` has one entry per iteration that ran, telling whether it called
      Thread.sleep; an iteration that reads no snapshot goes round again at once. */
  method WaitToSeeLive(trace: seq<Poll>, collection: string, coreNodeName: string, baseUrl: string)
    returns (outcome: Outcome, slept: seq<bool>)
    ensures outcome == SeeLiveOutcome(trace, collection, coreNodeName, baseUrl)
    ensures |slept| == SeeLiveIterations(trace, collection, coreNodeName, baseUrl)
    ensures forall k :: 0 <= k < |slept| ==> slept[k] == SeeLiveSleeps(trace[k], collection, coreNodeName, baseUrl)
  {
    slept := [];
    var i := 0;
    while i < |trace|
      invariant 0 <= i <= |trace| && |slept| == i
      invariant forall j :: 0 <= j < i ==>
        !SeeLiveStops(trace[j], collection, coreNodeName, baseUrl) && slept[j] == SeeLiveSleeps(trace[j], collection, coreNodeName, baseUrl)
    {
      var poll := trace[i];
      var step := ReadAndLook(poll, collection, coreNodeName, baseUrl);
      if step == CollectionAbsent {
        SeeLiveOutcomeAtStop(trace, collection, coreNodeName, baseUrl, i);
        return Thrown(UnknownCollection(collection)), slept + [false];
      }
      if step == TargetSeen {
        SeeLiveOutcomeAtStop(trace, collection, coreNodeName, baseUrl, i);
        return Returned(true), slept + [false];
      }
      var sleeps := step == TargetNotSeen;
      if sleeps && poll.interrupted {
        SeeLiveOutcomeAtStop(trace, collection, coreNodeName, baseUrl, i);
        return Thrown(Interrupted), slept + [true];
      }
      slept := slept + [sleeps];
      i := i + 1;
    }
    SeeLiveOutcomeWithoutStop(trace, collection, coreNodeName, baseUrl);
    outcome := Returned(false);
  }

  // ---------------------------------------------------------------------------
  // isAutoAddReplicas
  // ---------------------------------------------------------------------------

  /** isAutoAddReplicas: one read of the snapshot, no polling. */
  function IsAutoAddReplicas(snapshot: Option<ClusterState>, collection: string): (r: bool)
    ensures r <==> snapshot.Some? && collection in snapshot.value.collections
                   && snapshot.value.collections[collection].autoAddReplicas
  {
    match snapshot
    case None => false
    case Some(cs) =>
      match Lookup(cs, collection)
      case None => false
      case Some(docCollection) => docCollection.autoAddReplicas
  }

  // ---------------------------------------------------------------------------
  // Properties of the waits
  // ---------------------------------------------------------------------------

  /** With no collection named, the scope always resolves, so no iteration throws for an
      unknown collection. */
  lemma EverywhereNeverUnknown(trace: seq<Poll>, check: ReplicaCheck)
    ensures AllOutcome(trace, None, check).Thrown? ==> AllOutcome(trace, None, check).failure == Interrupted
  {
    var k := AllFirstThrow(trace, None, check);
    if k < |trace| {
      assert !AllStep(trace[k], None, check).Missing?;
    }
  }

  /** An all-replica wait returns true exactly when no iteration throws, at least one
      iteration runs, and the last one reads no snapshot or a satisfying one. */
  lemma AllReturnsTrueIff(trace: seq<Poll>, collection: Option<string>, check: ReplicaCheck)
    ensures AllOutcome(trace, collection, check) == Returned(true)
        <==> (forall j :: 0 <= j < |trace| ==> !AllThrows(trace[j], collection, check))
             && trace != [] && AllSucceeds(trace[|trace| - 1], collection, check)
  {
    var k := AllFirstThrow(trace, collection, check);
    if k < |trace| {
      AllOutcomeAtThrow(trace, collection, check, k);
    } else {
      AllOutcomeWithoutThrow(trace, collection, check);
    }
  }

  /** No early exit: a satisfied iteration does not end the wait, and a later failing
      iteration that is not interrupted turns the result back to false. */
  lemma SuccessIsNotFinal(trace: seq<Poll>, poll: Poll, collection: Option<string>, check: ReplicaCheck)
    requires AllOutcome(trace, collection, check) == Returned(true)
    requires AllStep(poll, collection, check) == Unsatisfied && !poll.interrupted
    ensures AllOutcome(trace + [poll], collection, check) == Returned(false)
    ensures AllIterations(trace + [poll], collection, check) == |trace| + 1
  {
    AllReturnsTrueIff(trace, collection, check);
    var t := trace + [poll];
    assert forall j :: 0 <= j < |trace| ==> t[j] == trace[j];
    AllOutcomeWithoutThrow(t, collection, check);
  }

  /** A missing snapshot in the last iteration makes the wait return true, whatever the
      earlier iterations saw, as long as none of them threw. */
  lemma NullLastPollYieldsTrue(trace: seq<Poll>, interrupted: bool, collection: Option<string>, check: ReplicaCheck)
    requires AllOutcome(trace, collection, check).Returned?
    ensures AllOutcome(trace + [Poll(None, interrupted)], collection, check) == Returned(true)
  {
    var k := AllFirstThrow(trace, collection, check);
    if k < |trace| {
      AllOutcomeAtThrow(trace, collection, check, k);
    }
    var t := trace + [Poll(None, interrupted)];
    assert forall j :: 0 <= j < |trace| ==> t[j] == trace[j];
    AllOutcomeWithoutThrow(t, collection, check);
  }

  /** When every poll reads a snapshot that satisfies the condition, the wait returns true
      without ever sleeping, however many polls the deadline allows. */
  lemma SatisfiedThroughout(trace: seq<Poll>, collection: Option<string>, check: ReplicaCheck)
    requires trace != []
    requires forall j :: 0 <= j < |trace| ==> AllStep(trace[j], collection, check) == Satisfied
    ensures AllOutcome(trace, collection, check) == Returned(true)
    ensures AllIterations(trace, collection, check) == |trace|
    ensures forall j :: 0 <= j < |trace| ==> !AllSleeps(trace[j], collection, check)
  {
    AllOutcomeWithoutThrow(trace, collection, check);
  }

  /** When every poll reads a snapshot that fails the condition and no sleep is
      interrupted, the wait sleeps in every iteration and returns false. */
  lemma NeverSatisfied(trace: seq<Poll>, collection: Option<string>, check: ReplicaCheck)
    requires forall j :: 0 <= j < |trace| ==> AllStep(trace[j], collection, check) == Unsatisfied && !trace[j].interrupted
    ensures AllOutcome(trace, collection, check) == Returned(false)
    ensures AllIterations(trace, collection, check) == |trace|
    ensures forall j :: 0 <= j < |trace| ==> AllSleeps(trace[j], collection, check)
  {
    AllOutcomeWithoutThrow(trace, collection, check);
  }

  /** An interruption surfaces only from a sleep, that is, after an iteration whose
      snapshot failed the condition; it is never reported as false. */
  lemma InterruptedOnlyAfterFailedScan(trace: seq<Poll>, collection: Option<string>, check: ReplicaCheck)
    requires AllOutcome(trace, collection, check) == Thrown(Interrupted)
    ensures exists k :: 0 <= k < |trace| && AllStep(trace[k], collection, check) == Unsatisfied && trace[k].interrupted
  {
    var k := AllFirstThrow(trace, collection, check);
    if k < |trace| {
      AllOutcomeAtThrow(trace, collection, check, k);
      assert AllStep(trace[k], collection, check) == Unsatisfied && trace[k].interrupted;
    } else {
      AllOutcomeWithoutThrow(trace, collection, check);
    }
  }

  /** When every snapshot read holds the collection and no sleep is interrupted,
      waitToSeeLive returns true exactly when some poll shows the live target. */
  lemma SeeLiveReturnsTrueIffSeen(trace: seq<Poll>, collection: string, coreNodeName: string, baseUrl: string)
    requires forall j :: 0 <= j < |trace| && trace[j].snapshot.Some? ==>
      collection in trace[j].snapshot.value.collections && !trace[j].interrupted
    ensures SeeLiveOutcome(trace, collection, coreNodeName, baseUrl)
         == Returned(exists k :: 0 <= k < |trace| && Finds(trace[k], collection, coreNodeName, baseUrl))
  {
    var k := SeeLiveFirstStop(trace, collection, coreNodeName, baseUrl);
    if k < |trace| {
      SeeLiveOutcomeAtStop(trace, collection, coreNodeName, baseUrl, k);
      assert Finds(trace[k], collection, coreNodeName, baseUrl);
    } else {
      SeeLiveOutcomeWithoutStop(trace, collection, coreNodeName, baseUrl);
      forall j | 0 <= j < |trace| ensures !Finds(trace[j], collection, coreNodeName, baseUrl) {
        assert !SeeLiveStops(trace[j], collection, coreNodeName, baseUrl);
      }
    }
  }

  /** waitToSeeLive returns true only after a sighting, and it stops at the first one:
      the polls after it are never read. */
  lemma SeeLiveStopsAtFirstSighting(trace: seq<Poll>, rest: seq<Poll>, collection: string, coreNodeName: string, baseUrl: string)
    requires SeeLiveOutcome(trace, collection, coreNodeName, baseUrl) == Returned(true)
    ensures exists k :: 0 <= k < |trace| && Finds(trace[k], collection, coreNodeName, baseUrl)
    ensures SeeLiveOutcome(trace + rest, collection, coreNodeName, baseUrl) == Returned(true)
    ensures SeeLiveIterations(trace + rest, collection, coreNodeName, baseUrl) == SeeLiveIterations(trace, collection, coreNodeName, baseUrl)
  {
    var k := SeeLiveFirstStop(trace, collection, coreNodeName, baseUrl);
    if k == |trace| {
      SeeLiveOutcomeWithoutStop(trace, collection, coreNodeName, baseUrl);
    } else {
      SeeLiveOutcomeAtStop(trace, collection, coreNodeName, baseUrl, k);
      assert Finds(trace[k], collection, coreNodeName, baseUrl);
      var t := trace + rest;
      assert forall j :: 0 <= j <= k ==> t[j] == trace[j];
      SeeLiveOutcomeAtStop(t, collection, coreNodeName, baseUrl, k);
    }
  }

  /** A poll in which waitToSeeLive sees its replica live is one in which the not-live
      wait on that collection fails its scan. */
  lemma SightingDefeatsNotLive(poll: Poll, collection: string, coreNodeName: string, baseUrl: string)
    requires Finds(poll, collection, coreNodeName, baseUrl)
    ensures AllStep(poll, Some(collection), NotLive) == Unsatisfied
  {
    var cs := poll.snapshot.value;
    SeesLiveDefeatsNotLive(cs.collections[collection], cs.liveNodes, coreNodeName, baseUrl);
    assert !AllPass(cs, {collection}, NotLive);
  }
}
