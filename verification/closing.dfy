/** Layered, once-guarded closing: a topology closes clusters, a cluster closes pools, a
    pool closes its metrics registration first. Pools may be shared between slots. */
module Closing {
  import opened Errors

  datatype Event = MetricsClosed(pool: OwnedPool) | PoolClosed(pool: OwnedPool)

  /** What closing one pool does: the registration, if there is one, then the pool. */
  function PoolEvents(p: OwnedPool): seq<Event> {
    (if p.metrics then [MetricsClosed(p)] else []) + [PoolClosed(p)]
  }

  function Events(order: seq<OwnedPool>): seq<Event> {
    if order == [] then [] else Events(order[..|order| - 1]) + PoolEvents(order[|order| - 1])
  }

  lemma EventsSnoc(order: seq<OwnedPool>, p: OwnedPool)
    ensures Events(order + [p]) == Events(order) + PoolEvents(p)
    ensures forall q :: q in order + [p] <==> q in order || q == p
  {
    assert (order + [p])[..|order|] == order;
  }

  function Backward<T>(s: seq<T>): seq<T> {
    if s == [] then [] else [s[|s| - 1]] + Backward(s[..|s| - 1])
  }

  /** Once flags and pools in the order they closed. */
  datatype World = World(order: seq<OwnedPool>, clusters: set<OwnedCluster>, topologies: set<OwnedTopology>)

  const UNTOUCHED := World([], {}, {})

  function ClosePool(w: World, p: OwnedPool): World {
    if p in w.order then w else w.(order := w.order + [p])
  }

  function ClosePools(w: World, pools: seq<OwnedPool>): World
    decreases |pools|
  {
    if pools == [] then w else ClosePools(ClosePool(w, pools[0]), pools[1..])
  }

  function CloseCluster(w: World, c: OwnedCluster): World {
    if c in w.clusters then w
    else var after := ClosePools(w, c.ClosingOrder()); after.(clusters := after.clusters + {c})
  }

  function CloseClusters(w: World, clusters: seq<OwnedCluster>): World
    decreases |clusters|
  {
    if clusters == [] then w else CloseClusters(CloseCluster(w, clusters[0]), clusters[1..])
  }

  function CloseTopology(w: World, t: OwnedTopology): World {
    if t in w.topologies then w
    else var after := CloseClusters(w, Backward(t.clusters)); after.(topologies := after.topologies + {t})
  }

  /** All objects, and the log of what was closed. */
  class Journal {
    var events: seq<Event>
    ghost var w: World
    ghost const pools: set<OwnedPool>
    ghost const clusters: set<OwnedCluster>
    ghost const topologies: set<OwnedTopology>

    constructor (ghost pools: set<OwnedPool>, ghost clusters: set<OwnedCluster>, ghost topologies: set<OwnedTopology>)
      requires forall p :: p in pools ==> !p.done
      requires forall c :: c in clusters ==> !c.done && c.Pools() <= pools
      requires forall t :: t in topologies ==> !t.done && forall c :: c in t.clusters ==> c in clusters
      ensures Valid() && w == UNTOUCHED && events == []
      ensures this.pools == pools && this.clusters == clusters && this.topologies == topologies
    {
      this.pools, this.clusters, this.topologies := pools, clusters, topologies;
      events, w := [], UNTOUCHED;
    }

    ghost predicate Valid()
      reads this, pools, clusters, topologies
    {
      && events == Events(w.order)
      && (forall p :: p in pools ==> (p.done <==> p in w.order))
      && (forall c :: c in clusters ==> (c.done <==> c in w.clusters) && c.Pools() <= pools)
      && (forall t :: t in topologies ==>
            (t.done <==> t in w.topologies) && forall c :: c in t.clusters ==> c in clusters)
    }
  }

  class OwnedPool {
    const metrics: bool
    var done: bool

    constructor (metrics: bool)
      ensures !done && this.metrics == metrics
    {
      this.metrics := metrics;
      done := false;
    }

    method Close(j: Journal)
      requires j.Valid() && this in j.pools
      modifies j, this
      ensures j.Valid() && j.w == ClosePool(old(j.w), this)
      ensures done
      ensures j.events == old(j.events) +
        if old(done) then [] else if metrics then [MetricsClosed(this), PoolClosed(this)] else [PoolClosed(this)]
    {
      if !done {
        ghost var after := ClosePool(j.w, this);
        EventsSnoc(j.w.order, this);
        if metrics {
          j.events := j.events + [MetricsClosed(this)];
        }
        j.events := j.events + [PoolClosed(this)];
        done := true;
        j.w := after;
      }
    }
  }

  datatype Registration = NoMetrics | Registered | Refused(error: Error)

  /** `xpg.New` past its options: a pool whose metrics cannot be registered is closed again and not returned.
      `events` is what was closed on the way. */
  method NewPool(hasConfig: bool, options: Outcome, creation: Outcome, registration: Registration)
    returns (pool: OwnedPool?, err: Outcome, events: seq<Event>)
    ensures !hasConfig ==> pool == null && err == Some(Leaf(Invalid(NilConfig))) && events == []
    ensures hasConfig && options.Some? ==> pool == null && err == options && events == []
    ensures hasConfig && options.None? && creation.Some? ==>
      pool == null && err == Some(Wrap(CreatingPool, creation.value)) && events == []
    ensures hasConfig && options.None? && creation.None? && registration.Refused? ==>
      && pool == null && err == Some(Wrap(RegisteringMetrics, registration.error))
      && |events| == 1 && events[0].PoolClosed? && fresh(events[0].pool) && events[0].pool.done
    ensures hasConfig && options.None? && creation.None? && !registration.Refused? ==>
      && pool != null && fresh(pool) && !pool.done && pool.metrics == registration.Registered?
      && err.None? && events == []
  {
    if !hasConfig {
      return null, Some(Leaf(Invalid(NilConfig))), [];
    }
    if options.Some? {
      return null, options, [];
    }
    if creation.Some? {
      return null, Some(Wrap(CreatingPool, creation.value)), [];
    }
    var made := new OwnedPool(registration.Registered?);
    if registration.Refused? {
      var j := new Journal({made}, {}, {});
      made.Close(j);
      assert j.w.order == [made];
      assert j.events == Events([]) + PoolEvents(made);
      return null, Some(Wrap(RegisteringMetrics, registration.error)), j.events;
    }
    return made, None, [];
  }

  class OwnedCluster {
    const replicas: seq<OwnedPool>
    const primary: Option<OwnedPool>
    var done: bool

    constructor (replicas: seq<OwnedPool>, primary: Option<OwnedPool>)
      ensures !done && this.replicas == replicas && this.primary == primary
    {
      this.replicas, this.primary := replicas, primary;
      done := false;
    }

    /** The primary, if there is one. */
    function Last(): seq<OwnedPool> { if primary.Some? then [primary.value] else [] }

    /** Replicas backwards, then the primary. */
    function ClosingOrder(): seq<OwnedPool> {
      Backward(replicas) + Last()
    }

    function Pools(): set<OwnedPool> { set p | p in ClosingOrder() }

    method CloseReplicas(j: Journal)
      requires j.Valid() && Pools() <= j.pools
      modifies j, j.pools
      ensures j.Valid() && j.w == ClosePools(old(j.w), Backward(replicas))
    {
      ghost var start := j.w;
      assert replicas[..|replicas|] == replicas;
      for k := |replicas| downto 0
        invariant j.Valid()
        invariant ClosePools(start, Backward(replicas)) == ClosePools(j.w, Backward(replicas[..k]))
      {
        assert replicas[k] in j.pools by {
          InBackward(replicas, replicas[k]);
          assert replicas[k] in ClosingOrder();
        }
        BackwardNext(replicas, k);
        replicas[k].Close(j);
      }
    }

    method ClosePrimary(j: Journal)
      requires j.Valid() && Pools() <= j.pools
      modifies j, j.pools
      ensures j.Valid() && j.w == ClosePools(old(j.w), Last())
    {
      if primary.Some? {
        assert primary.value in ClosingOrder();
        OnePool(j.w, primary.value);
        primary.value.Close(j);
      }
    }

    lemma OrderSplit(w: World)
      ensures ClosePools(w, ClosingOrder()) == ClosePools(ClosePools(w, Backward(replicas)), Last())
      ensures ClosePools(w, ClosingOrder()).clusters == w.clusters
      ensures ClosePools(w, ClosingOrder()).topologies == w.topologies
    {
      ClosePoolsConcat(w, Backward(replicas), Last());
      FlagsOfPools(w, ClosingOrder());
    }

    lemma ClosesOwned(w: World)
      ensures forall p :: p in replicas || primary == Some(p) ==>
        p in Pools() && p in ClosePools(w, ClosingOrder()).order
    {
      forall p | p in replicas || primary == Some(p)
        ensures p in Pools() && p in ClosePools(w, ClosingOrder()).order
      {
        ClosingOrderOwned(this, p);
        PoolsClosed(w, ClosingOrder(), p);
      }
    }

    method Close(j: Journal)
      requires j.Valid() && this in j.clusters
      modifies j, this, j.pools
      ensures j.Valid() && j.w == CloseCluster(old(j.w), this)
      ensures done && (!old(done) ==> forall p :: p in replicas || primary == Some(p) ==> p.done)
    {
      if !done {
        ClosesOwned(j.w);
        OrderSplit(j.w);
        CloseReplicas(j);
        ClosePrimary(j);
        done := true;
        j.w := j.w.(clusters := j.w.clusters + {this});
      }
    }
  }

  class OwnedTopology {
    const clusters: seq<OwnedCluster>
    var done: bool

    constructor (clusters: seq<OwnedCluster>)
      ensures !done && this.clusters == clusters
    {
      this.clusters := clusters;
      done := false;
    }

    lemma ShardsClosed(w: World)
      ensures forall c :: c in clusters ==> c in CloseClusters(w, Backward(clusters)).clusters
    {
      forall c | c in clusters ensures c in CloseClusters(w, Backward(clusters)).clusters {
        InBackward(clusters, c);
        ClustersClosed(w, Backward(clusters), c);
      }
    }

    method CloseShards(j: Journal)
      requires j.Valid() && forall c :: c in clusters ==> c in j.clusters
      modifies j, j.pools, j.clusters
      ensures j.Valid() && j.w == CloseClusters(old(j.w), Backward(clusters))
      ensures j.w.topologies == old(j.w).topologies
    {
      ghost var start := j.w;
      assert clusters[..|clusters|] == clusters;
      for k := |clusters| downto 0
        invariant j.Valid() && j.w.topologies == start.topologies
        invariant CloseClusters(start, Backward(clusters)) == CloseClusters(j.w, Backward(clusters[..k]))
      {
        assert clusters[k] in clusters;
        BackwardNext(clusters, k);
        FlagsOfCluster(j.w, clusters[k]);
        clusters[k].Close(j);
      }
    }

    method Close(j: Journal)
      requires j.Valid() && this in j.topologies
      modifies j, this, j.pools, j.clusters
      ensures j.Valid() && j.w == CloseTopology(old(j.w), this)
      ensures done && (!old(done) ==> forall c :: c in clusters ==> c.done)
    {
      if !done {
        ShardsClosed(j.w);
        CloseShards(j);
        done := true;
        j.w := j.w.(topologies := j.w.topologies + {this});
      }
    }
  }

  /** Position `i` from the front is position `i` from the back. */
  lemma {:induction false} BackwardAt<T>(s: seq<T>, i: nat)
    requires i < |s|
    ensures |Backward(s)| == |s| && Backward(s)[i] == s[|s| - 1 - i]
  {
    if 1 < |s| {
      var front := s[..|s| - 1];
      BackwardAt(front, if i == 0 then 0 else i - 1);
    }
  }

  /** A cluster closes its last replica first and its primary last. */
  lemma ClosingOrderAt(c: OwnedCluster, i: nat)
    requires i < |c.replicas| + if c.primary.Some? then 1 else 0
    ensures |c.ClosingOrder()| == |c.replicas| + if c.primary.Some? then 1 else 0
    ensures i < |c.replicas| ==> c.ClosingOrder()[i] == c.replicas[|c.replicas| - 1 - i]
    ensures i == |c.replicas| ==> c.ClosingOrder()[i] == c.primary.value
  {
    if i < |c.replicas| {
      BackwardAt(c.replicas, i);
    } else if c.replicas != [] {
      BackwardAt(c.replicas, 0);
    }
  }

  /** `p` is one of the cluster's replicas or its primary. */
  predicate Owns(c: OwnedCluster, p: OwnedPool) { p in c.replicas || c.primary == Some(p) }

  lemma ClosingOrderOwned(c: OwnedCluster, p: OwnedPool)
    ensures p in c.ClosingOrder() <==> Owns(c, p)
  {
    InBackward(c.replicas, p);
  }

  lemma {:induction false} PoolsClosed(w: World, pools: seq<OwnedPool>, p: OwnedPool)
    ensures p in ClosePools(w, pools).order <==> p in w.order || p in pools
    decreases |pools|
  {
    if pools != [] {
      assert pools == [pools[0]] + pools[1..];
      PoolsClosed(ClosePool(w, pools[0]), pools[1..], p);
    }
  }

  lemma {:induction false} ClustersClosed(w: World, clusters: seq<OwnedCluster>, c: OwnedCluster)
    ensures c in CloseClusters(w, clusters).clusters <==> c in w.clusters || c in clusters
    decreases |clusters|
  {
    if clusters != [] {
      assert clusters == [clusters[0]] + clusters[1..];
      FlagsOfCluster(w, clusters[0]);
      ClustersClosed(CloseCluster(w, clusters[0]), clusters[1..], c);
    }
  }

  lemma BackwardNext<T>(s: seq<T>, k: nat)
    requires k < |s|
    ensures var b := Backward(s[..k + 1]); b != [] && b[0] == s[k] && b[1..] == Backward(s[..k])
  {
    assert s[..k + 1][..k] == s[..k];
  }

  lemma {:induction false} InBackward<T>(s: seq<T>, x: T)
    ensures x in Backward(s) <==> x in s
    ensures |Backward(s)| == |s|
  {
    if s != [] {
      InBackward(s[..|s| - 1], x);
      assert s == s[..|s| - 1] + [s[|s| - 1]];
    }
  }

  lemma OnePool(w: World, p: OwnedPool)
    ensures ClosePools(w, [p]) == ClosePool(w, p)
  {
    var none: seq<OwnedPool> := [];
    assert [p][1..] == none && ClosePools(ClosePool(w, p), none) == ClosePool(w, p);
  }

  lemma {:induction false} ClosePoolsConcat(w: World, a: seq<OwnedPool>, b: seq<OwnedPool>)
    ensures ClosePools(w, a + b) == ClosePools(ClosePools(w, a), b)
    decreases |a|
  {
    if a == [] {
      assert a + b == b;
    } else {
      assert (a + b)[1..] == a[1..] + b;
      ClosePoolsConcat(ClosePool(w, a[0]), a[1..], b);
    }
  }

  lemma {:induction false} FlagsOfPools(w: World, pools: seq<OwnedPool>)
    ensures ClosePools(w, pools).clusters == w.clusters && ClosePools(w, pools).topologies == w.topologies
    decreases |pools|
  {
    if pools != [] {
      FlagsOfPools(ClosePool(w, pools[0]), pools[1..]);
    }
  }

  lemma FlagsOfCluster(w: World, c: OwnedCluster)
    ensures CloseCluster(w, c).topologies == w.topologies && CloseCluster(w, c).clusters == w.clusters + {c}
  {
    FlagsOfPools(w, c.ClosingOrder());
  }
}
