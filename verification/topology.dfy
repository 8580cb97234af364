/** The immutable ordered set of shards every resolver is bound to. */
module Topology {
  import opened Errors

  /** A shard is a handle on one cluster; two clusters may carry the same ID. */
  datatype Shard = Shard(id: Id, cluster: nat)

  datatype Topology = Topology(shards: seq<Shard>, byId: map<Id, Shard>)

  predicate UniqueIds(shards: seq<Shard>) {
    forall i: nat, j: nat :: i < j < |shards| ==> shards[i].id != shards[j].id
  }

  /** What `NewTopology` guarantees. */
  ghost predicate Valid(t: Topology) {
    && t.shards != []
    && UniqueIds(t.shards)
    && (forall s :: s in t.shards ==> s.id != [] && s.id in t.byId && t.byId[s.id] == s)
    && (forall id :: id in t.byId ==> t.byId[id] in t.shards && t.byId[id].id == id)
  }

  function Lookup(t: Topology, id: Id): Option<Shard> {
    if id in t.byId then Some(t.byId[id]) else None
  }

  /** Looking an ID up finds the registered shard that carries it, and nothing for any other ID. */
  lemma LookupFindsRegistered(t: Topology, id: Id)
    requires Valid(t)
    ensures Lookup(t, id).None? <==> forall s :: s in t.shards ==> s.id != id
    ensures Lookup(t, id).Some? ==> Lookup(t, id).value in t.shards && Lookup(t, id).value.id == id
    ensures forall s :: s in t.shards && s.id == id ==> Lookup(t, id) == Some(s)
  {
  }

  /** The first `k` clusters are not nil and have distinct non-empty IDs; `None` in the list is a nil pointer. */
  ghost predicate Usable(clusters: seq<Option<Shard>>, k: nat) {
    && k <= |clusters|
    && (forall i: nat :: i < k ==> clusters[i].Some? && clusters[i].value.id != [])
    && (forall i: nat, j: nat :: i < j < k ==> clusters[i].value.id != clusters[j].value.id)
  }

  /** Accepts exactly non-empty lists of usable clusters, and otherwise reports the first that is not usable. */
  method NewTopology(clusters: seq<Option<Shard>>) returns (r: Result<Topology>)
    ensures clusters == [] ==> r == Err(Leaf(Invalid(NoTopology)))
    ensures r.Ok? <==>
      && clusters != []
      && (forall i: nat :: i < |clusters| ==> clusters[i].Some? && clusters[i].value.id != [])
      && (forall i: nat, j: nat :: i < j < |clusters| ==> clusters[i].value.id != clusters[j].value.id)
    ensures r.Ok? ==>
      && Valid(r.value) && |r.value.shards| == |clusters|
      && forall i: nat :: i < |clusters| ==> clusters[i] == Some(r.value.shards[i])
    ensures clusters != [] && r.Err? ==>
      exists i: nat :: Usable(clusters, i) && i < |clusters| && !Usable(clusters, i + 1) && r.error ==
        match clusters[i]
        case None => Wrap(AtShard(i), Leaf(Invalid(NilCluster)))
        case Some(c) =>
          if c.id == [] then Wrap(AtShard(i), Leaf(Invalid(EmptyId))) else Leaf(Invalid(DuplicateId(c.id)))
  {
    if |clusters| == 0 {
      return Err(Leaf(Invalid(NoTopology)));
    }
    var shards: seq<Shard> := [];
    var byId: map<Id, Shard> := map[];
    for k := 0 to |clusters|
      invariant Usable(clusters, k) && Registered(clusters, k, shards) && Indexes(byId, shards)
    {
      if clusters[k].None? {
        assert !Usable(clusters, k + 1);
        return Err(Wrap(AtShard(k), Leaf(Invalid(NilCluster))));
      }
      var current := clusters[k].value;
      if current.id == [] {
        assert !Usable(clusters, k + 1);
        return Err(Wrap(AtShard(k), Leaf(Invalid(EmptyId))));
      }
      UsableNext(clusters, k, shards, byId);
      if current.id in byId {
        return Err(Leaf(Invalid(DuplicateId(current.id))));
      }
      IndexNext(byId, shards, current);
      shards := shards + [current];
      byId := byId[current.id := current];
    }
    AllRegistered(clusters, shards, byId);
    r := Ok(Topology(shards, byId));
  }

  /** The shards of the first `k` clusters. */
  ghost predicate Registered(clusters: seq<Option<Shard>>, k: nat, shards: seq<Shard>) {
    |shards| == k <= |clusters| && forall i: nat :: i < k ==> clusters[i] == Some(shards[i])
  }

  ghost predicate Indexes(byId: map<Id, Shard>, shards: seq<Shard>) {
    && (forall s :: s in shards ==> s.id in byId && byId[s.id] == s)
    && (forall id :: id in byId ==> byId[id] in shards && byId[id].id == id)
  }

  /** A cluster with a non-empty ID can join exactly if its ID is not indexed yet. */
  lemma UsableNext(clusters: seq<Option<Shard>>, k: nat, shards: seq<Shard>, byId: map<Id, Shard>)
    requires k < |clusters| && Usable(clusters, k) && Registered(clusters, k, shards) && Indexes(byId, shards)
    requires clusters[k].Some? && clusters[k].value.id != []
    ensures Usable(clusters, k + 1) <==> clusters[k].value.id !in byId
  {
    var id := clusters[k].value.id;
    if id in byId {
      var j: nat :| j < k && shards[j] == byId[id];
      assert clusters[j].value.id == clusters[k].value.id;
    } else {
      forall j: nat | j < k ensures clusters[j].value.id != id {
        assert shards[j] in shards;
      }
    }
  }

  lemma IndexNext(byId: map<Id, Shard>, shards: seq<Shard>, s: Shard)
    requires Indexes(byId, shards) && s.id !in byId
    ensures Indexes(byId[s.id := s], shards + [s])
  {
  }

  lemma AllRegistered(clusters: seq<Option<Shard>>, shards: seq<Shard>, byId: map<Id, Shard>)
    requires clusters != [] && Usable(clusters, |clusters|)
    requires Registered(clusters, |clusters|, shards) && Indexes(byId, shards)
    ensures Valid(Topology(shards, byId))
  {
  }

  /** A list stops being usable at one place only. */
  lemma FirstUnusable(clusters: seq<Option<Shard>>, i: nat, k: nat)
    requires i < |clusters| && Usable(clusters, i) && !Usable(clusters, i + 1)
    requires k < |clusters| && Usable(clusters, k) && !Usable(clusters, k + 1)
    ensures i == k && !Usable(clusters, |clusters|)
  {
  }
}
