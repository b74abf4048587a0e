/** The cluster-state snapshot that ClusterStateUtil reads, as plain values, and the
    order-free predicates its scans compute over it. */
module Snapshot {

  datatype Option<T> = None | Some(value: T)

  /** The state string of an active slice (Slice.ACTIVE). */
  const SLICE_ACTIVE := "active"
  /** The state property of an active replica (ZkStateReader.ACTIVE). */
  const REPLICA_ACTIVE := "active"

  /** A replica: its core-node name, the node hosting it, its base URL property
      (which may be absent) and its state property. */
  datatype Replica = Replica(name: string, nodeName: string, baseUrl: Option<string>, state: string)

  /** A slice (shard): its state and its replicas, in iteration order. */
  datatype Slice = Slice(state: string, replicas: seq<Replica>)

  datatype DocCollection = DocCollection(slices: seq<Slice>, autoAddReplicas: bool)

  /** A point-in-time view: the collections by name and the live node names. */
  datatype ClusterState = ClusterState(collections: map<string, DocCollection>, liveNodes: set<string>)

  predicate IsActive(s: Slice) {
    s.state == SLICE_ACTIVE
  }

  /** ClusterState.getCollectionOrNull: the named collection, or None when there is none. */
  function Lookup(cs: ClusterState, name: string): Option<DocCollection> {
    if name in cs.collections then Some(cs.collections[name]) else None
  }

  /** The collections a scan looks at: the named one, or every collection of the snapshot. */
  function Scope(cs: ClusterState, collection: Option<string>): (r: set<string>) {
    match collection
    case None => cs.collections.Keys
    case Some(c) => {c}
  }

  /** Every collection in scope can be fetched from the snapshot. */
  predicate ScopeResolves(cs: ClusterState, collection: Option<string>)
    ensures ScopeResolves(cs, collection) ==> Scope(cs, collection) <= cs.collections.Keys
  {
    collection.None? || collection.value in cs.collections
  }

  /** The per-replica condition of the two all-replica waits. */
  datatype ReplicaCheck = ActiveAndLive | NotLive

  predicate Passes(check: ReplicaCheck, r: Replica, liveNodes: set<string>) {
    match check
    case ActiveAndLive => r.nodeName in liveNodes && r.state == REPLICA_ACTIVE
    case NotLive => r.nodeName !in liveNodes
  }

  /** A slice that is not active imposes nothing; an active one needs every replica to pass. */
  predicate SlicePasses(s: Slice, liveNodes: set<string>, check: ReplicaCheck) {
    IsActive(s) ==> forall r :: r in s.replicas ==> Passes(check, r, liveNodes)
  }

  predicate CollectionPasses(d: DocCollection, liveNodes: set<string>, check: ReplicaCheck) {
    forall s :: s in d.slices ==> SlicePasses(s, liveNodes, check)
  }

  /** Every replica of every active slice of every collection in `scope` passes `check`. */
  predicate AllPass(cs: ClusterState, scope: set<string>, check: ReplicaCheck)
    requires scope <= cs.collections.Keys
  {
    forall c :: c in scope ==> CollectionPasses(cs.collections[c], cs.liveNodes, check)
  }

  /** `r` is the replica waitToSeeLive looks for, and it is on a live node. */
  predicate IsLiveTarget(r: Replica, liveNodes: set<string>, coreNodeName: string, baseUrl: string) {
    r.nodeName in liveNodes && r.name == coreNodeName && r.baseUrl == Some(baseUrl)
  }

  /** Some replica of an active slice of `d` is the live target. */
  predicate SeesLive(d: DocCollection, liveNodes: set<string>, coreNodeName: string, baseUrl: string) {
    exists s, r :: s in d.slices && IsActive(s) && r in s.replicas && IsLiveTarget(r, liveNodes, coreNodeName, baseUrl)
  }

  /** No active slice of a collection in `scope` has a replica. */
  predicate NoActiveReplicas(cs: ClusterState, scope: set<string>)
    requires scope <= cs.collections.Keys
  {
    forall c, s :: c in scope && s in cs.collections[c].slices && IsActive(s) ==> s.replicas == []
  }

  /** The same snapshot with every replica's state property replaced by `st`. */
  function WithReplicaStates(cs: ClusterState, st: string): (r: ClusterState)
    ensures r.collections.Keys == cs.collections.Keys && r.liveNodes == cs.liveNodes
  {
    ClusterState(map c | c in cs.collections :: CollectionWithReplicaStates(cs.collections[c], st), cs.liveNodes)
  }

  function CollectionWithReplicaStates(d: DocCollection, st: string): (r: DocCollection)
    ensures |r.slices| == |d.slices| && r.autoAddReplicas == d.autoAddReplicas
    ensures forall i :: 0 <= i < |d.slices| ==> r.slices[i] == SliceWithReplicaStates(d.slices[i], st)
  {
    DocCollection(seq(|d.slices|, i requires 0 <= i < |d.slices| => SliceWithReplicaStates(d.slices[i], st)), d.autoAddReplicas)
  }

  function SliceWithReplicaStates(s: Slice, st: string): (r: Slice)
    ensures r.state == s.state && |r.replicas| == |s.replicas|
    ensures forall i :: 0 <= i < |s.replicas| ==> r.replicas[i] == s.replicas[i].(state := st)
  {
    Slice(s.state, seq(|s.replicas|, i requires 0 <= i < |s.replicas| => s.replicas[i].(state := st)))
  }

  // ---------------------------------------------------------------------------
  // Properties of the scan predicates
  // ---------------------------------------------------------------------------

  /** The not-live condition never consults a replica's state property: rewriting every
      state leaves its verdict unchanged. */
  lemma NotLiveIgnoresReplicaState(cs: ClusterState, scope: set<string>, st: string)
    requires scope <= cs.collections.Keys
    ensures AllPass(WithReplicaStates(cs, st), scope, NotLive) == AllPass(cs, scope, NotLive)
  {
    var cs' := WithReplicaStates(cs, st);
    forall c | c in scope
      ensures CollectionPasses(cs'.collections[c], cs.liveNodes, NotLive) == CollectionPasses(cs.collections[c], cs.liveNodes, NotLive)
    {
      var d, d' := cs.collections[c], cs'.collections[c];
      forall i | 0 <= i < |d.slices|
        ensures SlicePasses(d'.slices[i], cs.liveNodes, NotLive) == SlicePasses(d.slices[i], cs.liveNodes, NotLive)
      {
        SliceStateIrrelevant(d.slices[i], cs.liveNodes, st);
      }
      SlicesPassIndexwise(d.slices, cs.liveNodes, NotLive);
      SlicesPassIndexwise(d'.slices, cs.liveNodes, NotLive);
    }
  }

  lemma SliceStateIrrelevant(s: Slice, liveNodes: set<string>, st: string)
    ensures SlicePasses(SliceWithReplicaStates(s, st), liveNodes, NotLive) == SlicePasses(s, liveNodes, NotLive)
  {
    var s' := SliceWithReplicaStates(s, st);
    ReplicasPassIndexwise(s.replicas, liveNodes, NotLive);
    ReplicasPassIndexwise(s'.replicas, liveNodes, NotLive);
  }

  lemma ReplicasPassIndexwise(rs: seq<Replica>, liveNodes: set<string>, check: ReplicaCheck)
    ensures (forall r :: r in rs ==> Passes(check, r, liveNodes))
        <==> (forall i :: 0 <= i < |rs| ==> Passes(check, rs[i], liveNodes))
  {
  }

  lemma SlicesPassIndexwise(ss: seq<Slice>, liveNodes: set<string>, check: ReplicaCheck)
    ensures (forall s :: s in ss ==> SlicePasses(s, liveNodes, check))
        <==> (forall i :: 0 <= i < |ss| ==> SlicePasses(ss[i], liveNodes, check))
  {
  }

  /** The overloads without a collection look at every collection: they are satisfied
      exactly when each collection, waited on by name, would be. */
  lemma EverywhereIffEachCollection(cs: ClusterState, check: ReplicaCheck)
    ensures ScopeResolves(cs, None)
    ensures AllPass(cs, Scope(cs, None), check)
        <==> forall c :: c in cs.collections ==> ScopeResolves(cs, Some(c)) && AllPass(cs, Scope(cs, Some(c)), check)
  {
    if forall c :: c in cs.collections ==> AllPass(cs, {c}, check) {
      forall c | c in cs.collections
        ensures CollectionPasses(cs.collections[c], cs.liveNodes, check)
      {
        assert c in {c};
      }
    }
  }

  /** Both all-replica conditions hold together only when they are vacuous: no active
      slice in scope has any replica. */
  lemma BothChecksOnlyWhenVacuous(cs: ClusterState, scope: set<string>)
    requires scope <= cs.collections.Keys
    ensures AllPass(cs, scope, ActiveAndLive) && AllPass(cs, scope, NotLive) <==> NoActiveReplicas(cs, scope)
  {
    forall c, s | c in scope && s in cs.collections[c].slices && IsActive(s) && s.replicas != []
      ensures !(SlicePasses(s, cs.liveNodes, ActiveAndLive) && SlicePasses(s, cs.liveNodes, NotLive))
    {
      var r := s.replicas[0];
      assert r in s.replicas;
      assert !(Passes(ActiveAndLive, r, cs.liveNodes) && Passes(NotLive, r, cs.liveNodes));
    }
  }

  /** A scope whose active slices hold no replica satisfies both conditions. */
  lemma VacuousScopeSatisfiesBoth(cs: ClusterState, scope: set<string>)
    requires scope <= cs.collections.Keys
    requires NoActiveReplicas(cs, scope)
    ensures AllPass(cs, scope, ActiveAndLive) && AllPass(cs, scope, NotLive)
  {
    BothChecksOnlyWhenVacuous(cs, scope);
  }

  /** A collection whose target replica is seen live fails the not-live condition. */
  lemma SeesLiveDefeatsNotLive(d: DocCollection, liveNodes: set<string>, coreNodeName: string, baseUrl: string)
    requires SeesLive(d, liveNodes, coreNodeName, baseUrl)
    ensures !CollectionPasses(d, liveNodes, NotLive)
  {
    var s, r :| s in d.slices && IsActive(s) && r in s.replicas && IsLiveTarget(r, liveNodes, coreNodeName, baseUrl);
    assert !Passes(NotLive, r, liveNodes);
    assert !SlicePasses(s, liveNodes, NotLive);
  }

  /** The scans' verdict does not depend on the order of slices or of replicas. */
  lemma CollectionPassesIgnoresOrder(d: DocCollection, d': DocCollection, liveNodes: set<string>, check: ReplicaCheck)
    requires multiset(d.slices) == multiset(d'.slices)
    ensures CollectionPasses(d, liveNodes, check) == CollectionPasses(d', liveNodes, check)
  {
    forall s ensures s in d.slices <==> s in d'.slices {
      assert s in d.slices <==> s in multiset(d.slices);
      assert s in d'.slices <==> s in multiset(d'.slices);
    }
  }

  lemma SlicePassesIgnoresOrder(s: Slice, s': Slice, liveNodes: set<string>, check: ReplicaCheck)
    requires s.state == s'.state && multiset(s.replicas) == multiset(s'.replicas)
    ensures SlicePasses(s, liveNodes, check) == SlicePasses(s', liveNodes, check)
  {
    forall r ensures r in s.replicas <==> r in s'.replicas {
      assert r in s.replicas <==> r in multiset(s.replicas);
      assert r in s'.replicas <==> r in multiset(s'.replicas);
    }
  }
}
