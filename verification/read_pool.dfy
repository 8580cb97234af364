/** Read routing inside one cluster: policies, the selector's answer, and the fallback. */
module ReadRouting {
  import opened Errors
  import opened Encoder
  import S = Selector

  /** Label keys and values; no entry for a nil map. */
  type Labels = map<Id, Id>

  /** A handle on a pool; `valid` is false for a pool without an underlying connection pool. */
  datatype PoolHandle = PoolHandle(handle: nat, name: Id, labels: Labels, valid: bool)

  datatype ReplicaInfo = ReplicaInfo(name: Id, labels: Labels)

  datatype Config = Config(id: Id, labels: Labels, primary: Option<PoolHandle>, replicas: seq<Option<PoolHandle>>)

  datatype ReadCluster = ReadCluster(
    id: Id,
    labels: Labels,
    primary: Option<PoolHandle>,
    replicas: seq<PoolHandle>,
    metadata: seq<ReplicaInfo>)

  datatype Policy = Primary | ReplicaPreferred | ReplicaRequired | Unsupported(value: nat)

  /** `cluster.New`; `None` in the replica list is a nil pointer. The captured metadata has one entry for each
      replica, in order. */
  method NewCluster(c: Config) returns (r: Result<ReadCluster>)
    ensures c.id == [] ==> r == Err(Leaf(Invalid(EmptyId)))
    ensures c.id != [] && c.primary.Some? && !c.primary.value.valid ==> r == Err(Leaf(Invalid(InvalidPool)))
    ensures c.id != [] && c.primary.None? && c.replicas == [] ==> r == Err(Leaf(Invalid(NoPool)))
    ensures (c.id != [] && (c.primary.Some? ==> c.primary.value.valid) && (c.primary.Some? || c.replicas != [])
             && [] in c.labels) ==>
      r == Err(Wrap(ClusterLabels, Leaf(Invalid(EmptyLabelKey))))
    ensures r.Ok? <==>
      && c.id != [] && (c.primary.Some? ==> c.primary.value.valid) && (c.primary.Some? || c.replicas != [])
      && [] !in c.labels
      && forall i: nat :: i < |c.replicas| ==> c.replicas[i].Some? && c.replicas[i].value.valid
    ensures r.Ok? ==> (
        && r.value.id == c.id && r.value.labels == c.labels && r.value.primary == c.primary
        && |r.value.replicas| == |r.value.metadata| == |c.replicas|
        && forall i: nat :: i < |c.replicas| ==>
          && c.replicas[i] == Some(r.value.replicas[i])
          && r.value.metadata[i] == ReplicaInfo(r.value.replicas[i].name, r.value.replicas[i].labels))
    ensures (r.Err? && c.id != [] && (c.primary.Some? ==> c.primary.value.valid)
             && (c.primary.Some? || c.replicas != []) && [] !in c.labels) ==>
      exists i: nat :: i < |c.replicas| && (c.replicas[i].None? || !c.replicas[i].value.valid)
        && r == Err(Wrap(AtReplica(i), Leaf(Invalid(InvalidPool))))
        && forall j: nat :: j < i ==> c.replicas[j].Some? && c.replicas[j].value.valid
  {
    if c.id == [] {
      return Err(Leaf(Invalid(EmptyId)));
    }
    if c.primary.Some? && !c.primary.value.valid {
      return Err(Leaf(Invalid(InvalidPool)));
    }
    if c.primary.None? && |c.replicas| == 0 {
      return Err(Leaf(Invalid(NoPool)));
    }
    var keys := c.labels.Keys;
    while keys != {}
      invariant [] in c.labels <==> [] in keys
    {
      var key :| key in keys;
      if key == [] {
        return Err(Wrap(ClusterLabels, Leaf(Invalid(EmptyLabelKey))));
      }
      keys := keys - {key};
    }
    var pools: seq<PoolHandle> := [];
    var metadata: seq<ReplicaInfo> := [];
    for k := 0 to |c.replicas|
      invariant |pools| == |metadata| == k
      invariant forall i: nat :: i < k ==>
        && c.replicas[i] == Some(pools[i]) && pools[i].valid
        && metadata[i] == ReplicaInfo(pools[i].name, pools[i].labels)
    {
      if c.replicas[k].None? || !c.replicas[k].value.valid {
        return Err(Wrap(AtReplica(k), Leaf(Invalid(InvalidPool))));
      }
      pools := pools + [c.replicas[k].value];
      metadata := metadata + [ReplicaInfo(c.replicas[k].value.name, c.replicas[k].value.labels)];
    }
    r := Ok(ReadCluster(c.id, c.labels, c.primary, pools, metadata));
  }

  function ResolvePrimary(c: ReadCluster): Result<PoolHandle> {
    if c.primary.None? then Err(Leaf(ErrNoPrimary)) else Ok(c.primary.value)
  }

  /** `selected` is what the selector answers if it is asked. */
  function ResolveReplica(c: ReadCluster, selected: Result<int>): Result<PoolHandle> {
    if |c.replicas| == 0 then Err(Leaf(ErrNoReplica))
    else
      match selected
      case Err(e) => Err(Wrap(SelectingReplica, e))
      case Ok(index) =>
        if index < 0 || |c.replicas| <= index then Err(Leaf(Invalid(BadReplicaIndex(index))))
        else Ok(c.replicas[index])
  }

  /** `ReadPool`; a nil cluster is `None`. */
  function ReadPool(c: Option<ReadCluster>, policy: Policy, selected: Result<int>): Result<PoolHandle> {
    if c.None? then Err(Leaf(Invalid(NilCluster)))
    else
      match policy
      case Primary => ResolvePrimary(c.value)
      case ReplicaPreferred =>
        (match ResolveReplica(c.value, selected)
         case Ok(replica) => Ok(replica)
         case Err(e) => if !Is(e, ErrNoReplica) then Err(e) else ResolvePrimary(c.value))
      case ReplicaRequired => ResolveReplica(c.value, selected)
      case Unsupported(_) => Err(Leaf(Invalid(BadPolicy)))
  }

  /** What the round-robin selector answers for a given counter value. */
  function RoundRobinAnswer(next: Uint64, length: nat): Result<int> {
    if length == 0 then Err(Leaf(ErrNoReplica))
    else if length == 1 then Ok(0)
    else Ok(next % length)
  }

  /** One read through a cluster that uses the default selector: the counter picks among two or more replicas, and
      moves only then; without replicas the preferred policy reads from the primary. */
  method ReadPoolRoundRobin(c: ReadCluster, policy: Policy, selector: S.RoundRobinSelector)
    returns (r: Result<PoolHandle>)
    modifies selector`next
    ensures r == ReadPool(Some(c), policy, RoundRobinAnswer(old(selector.next), |c.replicas|))
    ensures policy == Primary || (policy == ReplicaPreferred && c.replicas == []) ==>
      r == if c.primary.Some? then Ok(c.primary.value) else Err(Leaf(ErrNoPrimary))
    ensures policy == ReplicaRequired && c.replicas == [] ==> r == Err(Leaf(ErrNoReplica))
    ensures policy.Unsupported? ==> r == Err(Leaf(Invalid(BadPolicy)))
    ensures (policy == ReplicaPreferred || policy == ReplicaRequired) && c.replicas != [] ==>
      r == Ok(c.replicas[old(selector.next) % |c.replicas|])
    ensures selector.next ==
      if (policy == ReplicaPreferred || policy == ReplicaRequired) && 2 <= |c.replicas| then
        if old(selector.next) == TWO64 - 1 then 0 else old(selector.next) + 1
      else old(selector.next)
  {
    var selected: Result<int> := Err(Leaf(ErrNoReplica));
    if (policy == ReplicaPreferred || policy == ReplicaRequired) && |c.replicas| != 0 {
      var index := selector.Select(|c.replicas|);
      selected := Ok(index.value);
    }
    r := ReadPool(Some(c), policy, selected);
  }

  /** `ReadPool` for whatever a selector answers: the replica it names, the index error for an index outside the list,
      and for an error the fallback to the primary exactly if the policy prefers replicas and the error is
      ErrNoReplica, under any number of layers. */
  lemma AnySelector(c: ReadCluster, policy: Policy, selected: Result<int>)
    requires (policy == ReplicaPreferred || policy == ReplicaRequired) && c.replicas != []
    ensures selected.Ok? && 0 <= selected.value < |c.replicas| ==>
      ReadPool(Some(c), policy, selected) == Ok(c.replicas[selected.value])
    ensures selected.Ok? && !(0 <= selected.value < |c.replicas|) ==>
      ReadPool(Some(c), policy, selected) == Err(Leaf(Invalid(BadReplicaIndex(selected.value))))
    ensures selected.Err? && policy == ReplicaRequired ==>
      ReadPool(Some(c), policy, selected) == Err(Wrap(SelectingReplica, selected.error))
    ensures selected.Err? && policy == ReplicaPreferred && Wrapped(selected.error, ErrNoReplica) ==>
      ReadPool(Some(c), policy, selected) ==
        if c.primary.Some? then Ok(c.primary.value) else Err(Leaf(ErrNoPrimary))
    ensures forall cause :: selected.Err? && Wrapped(selected.error, cause) && cause != ErrNoReplica ==>
      ReadPool(Some(c), policy, selected) == Err(Wrap(SelectingReplica, selected.error))
  {
    if selected.Err? {
      forall cause | Wrapped(selected.error, cause)
        ensures Is(Wrap(SelectingReplica, selected.error), ErrNoReplica) <==> cause == ErrNoReplica
      {
        WrappedMatches(selected.error, cause, ErrNoReplica);
      }
    }
  }

  /** When `ReadPool` does not depend on the selector: no cluster, the primary policy, a policy it does not know, or
      no replicas. */
  lemma WithoutSelector(c: ReadCluster, policy: Policy, selected: Result<int>)
    ensures ReadPool(None, policy, selected) == Err(Leaf(Invalid(NilCluster)))
    ensures policy == Primary || (policy == ReplicaPreferred && c.replicas == []) ==>
      ReadPool(Some(c), policy, selected) == if c.primary.Some? then Ok(c.primary.value) else Err(Leaf(ErrNoPrimary))
    ensures policy == ReplicaRequired && c.replicas == [] ==>
      ReadPool(Some(c), policy, selected) == Err(Leaf(ErrNoReplica))
    ensures policy.Unsupported? ==> ReadPool(Some(c), policy, selected) == Err(Leaf(Invalid(BadPolicy)))
  {
  }

  /** A pool returned is one of the cluster's own. */
  lemma RoutesWithinCluster(c: ReadCluster, policy: Policy, selected: Result<int>)
    requires ReadPool(Some(c), policy, selected).Ok?
    ensures var p := ReadPool(Some(c), policy, selected).value; p in c.replicas || c.primary == Some(p)
  {
  }
}
