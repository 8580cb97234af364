/** What any sequence of Close calls, on any mix of topologies, clusters and pools, amounts to. */
module ClosingRuns {
  import opened Closing
  import opened Errors

  datatype Call = OfPool(pool: OwnedPool) | OfCluster(cluster: OwnedCluster) | OfTopology(topology: OwnedTopology)

  function Do(w: World, call: Call): World {
    match call
    case OfPool(p) => ClosePool(w, p)
    case OfCluster(c) => CloseCluster(w, c)
    case OfTopology(t) => CloseTopology(w, t)
  }

  function DoAll(w: World, calls: seq<Call>): World
    decreases |calls|
  {
    if calls == [] then w else DoAll(Do(w, calls[0]), calls[1..])
  }

  function ClusterOrders(clusters: seq<OwnedCluster>): seq<OwnedPool> {
    if clusters == [] then [] else clusters[0].ClosingOrder() + ClusterOrders(clusters[1..])
  }

  /** Shards backwards, and in each replicas backwards and then the primary. */
  function TopologyOrder(t: OwnedTopology): seq<OwnedPool> { ClusterOrders(Backward(t.clusters)) }

  function OrderOf(call: Call): seq<OwnedPool> {
    match call
    case OfPool(p) => [p]
    case OfCluster(c) => c.ClosingOrder()
    case OfTopology(t) => TopologyOrder(t)
  }

  function Requested(calls: seq<Call>): seq<OwnedPool> {
    if calls == [] then [] else OrderOf(calls[0]) + Requested(calls[1..])
  }

  /** `s` after `done`, without repetitions. */
  function WithoutRepeats(done: seq<OwnedPool>, s: seq<OwnedPool>): seq<OwnedPool>
    decreases |s|
  {
    if s == [] then done else WithoutRepeats(if s[0] in done then done else done + [s[0]], s[1..])
  }

  /** Where `p` is first mentioned in `s`. */
  function FirstTurn(s: seq<OwnedPool>, p: OwnedPool): (i: nat)
    requires p in s
    ensures i < |s| && s[i] == p && p !in s[..i]
  {
    if s[0] == p then 0 else 1 + FirstTurn(s[1..], p)
  }

  /** `order` lists pools of `s` by where each is first mentioned. */
  ghost predicate ByFirstTurn(order: seq<OwnedPool>, s: seq<OwnedPool>) {
    && (forall p :: p in order ==> p in s)
    && (forall i: nat, j: nat :: i < j < |order| ==> FirstTurn(s, order[i]) < FirstTurn(s, order[j]))
  }

  /** A set once flag means the work behind it is done. */
  ghost predicate Sound(w: World) {
    && (forall c, p :: c in w.clusters && p in c.ClosingOrder() ==> p in w.order)
    && (forall t, p :: t in w.topologies && p in TopologyOrder(t) ==> p in w.order)
  }

  lemma {:induction false} RepeatsConcat(done: seq<OwnedPool>, a: seq<OwnedPool>, b: seq<OwnedPool>)
    ensures WithoutRepeats(done, a + b) == WithoutRepeats(WithoutRepeats(done, a), b)
    decreases |a|
  {
    if a == [] {
      assert a + b == b;
    } else {
      assert (a + b)[1..] == a[1..] + b;
      RepeatsConcat(if a[0] in done then done else done + [a[0]], a[1..], b);
    }
  }

  lemma {:induction false} RepeatsMembers(done: seq<OwnedPool>, s: seq<OwnedPool>)
    ensures forall p :: p in WithoutRepeats(done, s) <==> p in done || p in s
    ensures (forall p :: p in s ==> p in done) ==> WithoutRepeats(done, s) == done
    ensures done <= WithoutRepeats(done, s)
    decreases |s|
  {
    if s != [] {
      assert s == [s[0]] + s[1..];
      RepeatsMembers(if s[0] in done then done else done + [s[0]], s[1..]);
    }
  }

  ghost predicate Distinct<T>(s: seq<T>) {
    forall i: nat, j: nat :: i < j < |s| ==> s[i] != s[j]
  }

  lemma {:induction false} RepeatsDistinct(done: seq<OwnedPool>, s: seq<OwnedPool>)
    requires Distinct(done)
    ensures Distinct(WithoutRepeats(done, s))
    decreases |s|
  {
    if s != [] {
      RepeatsDistinct(if s[0] in done then done else done + [s[0]], s[1..]);
    }
  }

  lemma {:induction false} PrefixTurns(s: seq<OwnedPool>, t: seq<OwnedPool>, p: OwnedPool)
    requires s <= t && p in s
    ensures p in t && FirstTurn(t, p) == FirstTurn(s, p)
  {
    if s[0] != p {
      PrefixTurns(s[1..], t[1..], p);
    }
  }

  lemma RepeatsSnoc(s: seq<OwnedPool>, p: OwnedPool)
    ensures WithoutRepeats([], s + [p]) ==
      if p in WithoutRepeats([], s) then WithoutRepeats([], s) else WithoutRepeats([], s) + [p]
  {
    var none: seq<OwnedPool> := [];
    assert [p][1..] == none;
    RepeatsConcat([], s, [p]);
  }

  /** Dropping repetitions keeps the pools in the order of their first mention. */
  lemma {:induction false} RepeatsInOrder(s: seq<OwnedPool>)
    ensures ByFirstTurn(WithoutRepeats([], s), s)
  {
    if s != [] {
      var k := |s| - 1;
      var before, p, r := s[..k], s[k], WithoutRepeats([], s[..k]);
      assert s == before + [p];
      RepeatsInOrder(before);
      RepeatsSnoc(before, p);
      RepeatsMembers([], before);
      TurnsLonger(r, before, p);
      if p !in r {
        LastTurn(r, before, p);
      }
    }
  }

  lemma TurnsLonger(order: seq<OwnedPool>, s: seq<OwnedPool>, p: OwnedPool)
    requires ByFirstTurn(order, s)
    ensures ByFirstTurn(order, s + [p])
  {
    forall i: nat | i < |order| ensures order[i] in s + [p] && FirstTurn(s + [p], order[i]) == FirstTurn(s, order[i]) {
      assert order[i] in order;
      PrefixTurns(s, s + [p], order[i]);
    }
  }

  lemma LastTurn(order: seq<OwnedPool>, s: seq<OwnedPool>, p: OwnedPool)
    requires ByFirstTurn(order, s + [p]) && p !in s && forall q :: q in order ==> q in s
    ensures ByFirstTurn(order + [p], s + [p])
  {
    assert p in s + [p] && FirstTurn(s + [p], p) == |s|;
    forall i: nat | i < |order| ensures order[i] in s && FirstTurn(s + [p], order[i]) < |s| {
      assert order[i] in order;
      PrefixTurns(s, s + [p], order[i]);
    }
  }

  lemma {:induction false} PoolsOrder(w: World, pools: seq<OwnedPool>)
    ensures ClosePools(w, pools).order == WithoutRepeats(w.order, pools)
    decreases |pools|
  {
    if pools != [] {
      PoolsOrder(ClosePool(w, pools[0]), pools[1..]);
    }
  }

  lemma SoundLater(w: World, v: World, c: set<OwnedCluster>, t: set<OwnedTopology>)
    requires Sound(w) && v.clusters == w.clusters + c && v.topologies == w.topologies + t
    requires forall p :: p in w.order ==> p in v.order
    requires forall d, p :: d in c && p in d.ClosingOrder() ==> p in v.order
    requires forall u, p :: u in t && p in TopologyOrder(u) ==> p in v.order
    ensures Sound(v)
  {
  }

  lemma ClusterOrder(w: World, c: OwnedCluster)
    requires Sound(w)
    ensures CloseCluster(w, c).order == WithoutRepeats(w.order, c.ClosingOrder())
    ensures Sound(CloseCluster(w, c)) && CloseCluster(w, c).topologies == w.topologies
  {
    PoolsOrder(w, c.ClosingOrder());
    FlagsOfPools(w, c.ClosingOrder());
    RepeatsMembers(w.order, c.ClosingOrder());
    if c in w.clusters {
      assert forall p :: p in c.ClosingOrder() ==> p in w.order;
    } else {
      var after := CloseCluster(w, c);
      assert after.order == WithoutRepeats(w.order, c.ClosingOrder());
      assert forall p :: p in c.ClosingOrder() ==> p in WithoutRepeats(w.order, c.ClosingOrder());
      assert forall p :: p in c.ClosingOrder() ==> p in after.order;
      SoundLater(w, CloseCluster(w, c), {c}, {});
    }
  }

  lemma {:induction false} ClustersOrder(w: World, clusters: seq<OwnedCluster>)
    requires Sound(w)
    ensures CloseClusters(w, clusters).order == WithoutRepeats(w.order, ClusterOrders(clusters))
    ensures Sound(CloseClusters(w, clusters)) && CloseClusters(w, clusters).topologies == w.topologies
    decreases |clusters|
  {
    if clusters != [] {
      ClusterOrder(w, clusters[0]);
      ClustersOrder(CloseCluster(w, clusters[0]), clusters[1..]);
      RepeatsConcat(w.order, clusters[0].ClosingOrder(), ClusterOrders(clusters[1..]));
    }
  }

  lemma TopologyOrderLaw(w: World, t: OwnedTopology)
    requires Sound(w)
    ensures CloseTopology(w, t).order == WithoutRepeats(w.order, TopologyOrder(t))
    ensures Sound(CloseTopology(w, t))
  {
    RepeatsMembers(w.order, TopologyOrder(t));
    if t in w.topologies {
      assert forall p :: p in TopologyOrder(t) ==> p in w.order;
    } else {
      var after := CloseClusters(w, Backward(t.clusters));
      ClustersOrder(w, Backward(t.clusters));
      assert after.order == WithoutRepeats(w.order, TopologyOrder(t));
      assert forall p :: p in TopologyOrder(t) ==> p in WithoutRepeats(w.order, TopologyOrder(t));
      assert forall p :: p in TopologyOrder(t) ==> p in after.order;
      SoundLater(after, after.(topologies := after.topologies + {t}), {}, {t});
    }
  }

  lemma CallOrder(w: World, call: Call)
    requires Sound(w)
    ensures Do(w, call).order == WithoutRepeats(w.order, OrderOf(call))
    ensures Sound(Do(w, call))
  {
    match call {
      case OfPool(p) =>
        var rest: seq<OwnedPool> := [];
        assert [p][1..] == rest;
        assert WithoutRepeats(w.order, [p]) == WithoutRepeats(if p in w.order then w.order else w.order + [p], rest);
        SoundLater(w, ClosePool(w, p), {}, {});
      case OfCluster(c) => ClusterOrder(w, c);
      case OfTopology(t) => TopologyOrderLaw(w, t);
    }
  }

  lemma {:induction false} CallsOrder(w: World, calls: seq<Call>)
    requires Sound(w)
    ensures DoAll(w, calls).order == WithoutRepeats(w.order, Requested(calls))
    ensures Sound(DoAll(w, calls))
    decreases |calls|
  {
    if calls != [] {
      CallOrder(w, calls[0]);
      CallsOrder(Do(w, calls[0]), calls[1..]);
      RepeatsConcat(w.order, OrderOf(calls[0]), Requested(calls[1..]));
    }
  }

  /** The call asks for `p`: by itself, as a pool of the cluster, or as a pool of one of the topology's clusters. */
  ghost predicate AsksFor(call: Call, p: OwnedPool) {
    match call
    case OfPool(q) => p == q
    case OfCluster(c) => Owns(c, p)
    case OfTopology(t) => exists c :: c in t.clusters && Owns(c, p)
  }

  lemma {:induction false} OrdersOwned(clusters: seq<OwnedCluster>, p: OwnedPool)
    ensures p in ClusterOrders(clusters) <==> exists c :: c in clusters && Owns(c, p)
  {
    if clusters != [] {
      ClosingOrderOwned(clusters[0], p);
      OrdersOwned(clusters[1..], p);
      assert clusters == [clusters[0]] + clusters[1..];
    }
  }

  lemma BackwardOwned(clusters: seq<OwnedCluster>, p: OwnedPool)
    ensures (exists c :: c in Backward(clusters) && Owns(c, p)) <==> (exists c :: c in clusters && Owns(c, p))
  {
    if c :| c in Backward(clusters) && Owns(c, p) {
      InBackward(clusters, c);
    }
    if c :| c in clusters && Owns(c, p) {
      InBackward(clusters, c);
    }
  }

  lemma OrderOfAsked(call: Call, p: OwnedPool)
    ensures p in OrderOf(call) <==> AsksFor(call, p)
  {
    match call
    case OfPool(_) =>
    case OfCluster(c) => ClosingOrderOwned(c, p);
    case OfTopology(t) =>
      OrdersOwned(Backward(t.clusters), p);
      BackwardOwned(t.clusters, p);
  }

  lemma {:induction false} RequestedAsked(calls: seq<Call>, p: OwnedPool)
    ensures p in Requested(calls) <==> exists call :: call in calls && AsksFor(call, p)
  {
    if calls != [] {
      OrderOfAsked(calls[0], p);
      RequestedAsked(calls[1..], p);
      assert calls == [calls[0]] + calls[1..];
    }
  }

  /** The whole effect of any sequence of Close calls: the pools they ask for, each once, in the order in which
      they are first asked for. */
  lemma AnyCalls(calls: seq<Call>)
    ensures var order := DoAll(UNTOUCHED, calls).order;
      forall i: nat, j: nat :: i < j < |order| ==> order[i] != order[j]
    ensures forall p :: p in DoAll(UNTOUCHED, calls).order <==> p in Requested(calls)
    ensures forall p :: p in DoAll(UNTOUCHED, calls).order <==> exists call :: call in calls && AsksFor(call, p)
    ensures forall call, p :: AsksFor(call, p) <==>
      match call
      case OfPool(q) => p == q
      case OfCluster(c) => p in c.replicas || c.primary == Some(p)
      case OfTopology(t) => exists c :: c in t.clusters && (p in c.replicas || c.primary == Some(p))
    ensures ByFirstTurn(DoAll(UNTOUCHED, calls).order, Requested(calls))
  {
    CallsOrder(UNTOUCHED, calls);
    RepeatsDistinct([], Requested(calls));
    RepeatsMembers([], Requested(calls));
    RepeatsInOrder(Requested(calls));
    forall p ensures p in Requested(calls) <==> exists call :: call in calls && AsksFor(call, p) {
      RequestedAsked(calls, p);
    }
  }

  /** Once a topology's Close has been called, whatever else was, every replica and every primary of its clusters
      is closed. */
  lemma TopologyClosesAll(calls: seq<Call>, t: OwnedTopology, c: OwnedCluster, p: OwnedPool)
    requires OfTopology(t) in calls && c in t.clusters && (p in c.replicas || c.primary == Some(p))
    ensures p in DoAll(UNTOUCHED, calls).order
  {
    AnyCalls(calls);
    assert AsksFor(OfTopology(t), p);
  }

  /** `q` is closed before `p`. */
  ghost predicate Before(order: seq<OwnedPool>, q: OwnedPool, p: OwnedPool) {
    exists i: nat, j: nat :: i < j < |order| && order[i] == q && order[j] == p
  }

  /** In a closing order a pool is not both before and after another. */
  lemma BeforeOneWay(calls: seq<Call>, q: OwnedPool, p: OwnedPool)
    ensures var order := DoAll(UNTOUCHED, calls).order; !(Before(order, q, p) && Before(order, p, q))
  {
    AnyCalls(calls);
  }

  lemma {:induction false} TurnInConcat(x: seq<OwnedPool>, y: seq<OwnedPool>, p: OwnedPool)
    requires p in x + y
    ensures p in x ==> FirstTurn(x + y, p) < |x|
    ensures p !in x ==> |x| <= FirstTurn(x + y, p)
  {
    if x != [] && p != x[0] {
      assert (x + y)[1..] == x[1..] + y && x == [x[0]] + x[1..];
      TurnInConcat(x[1..], y, p);
    }
  }

  lemma OneCall(t: OwnedTopology)
    ensures Requested([OfTopology(t)]) == TopologyOrder(t)
  {
    var none: seq<Call> := [];
    assert [OfTopology(t)][1..] == none && Requested(none) == [];
    assert TopologyOrder(t) + [] == TopologyOrder(t);
  }

  lemma EarlierTurn(order: seq<OwnedPool>, s: seq<OwnedPool>, q: OwnedPool, p: OwnedPool)
    requires ByFirstTurn(order, s) && q in order && p in order && FirstTurn(s, q) < FirstTurn(s, p)
    ensures Before(order, q, p)
  {
    var i: nat :| i < |order| && order[i] == q;
    var j: nat :| j < |order| && order[j] == p;
    assert i < j;
  }

  /** What a topology asks for in the part `x` of its order, and nowhere earlier, closes before the rest. */
  lemma AskedEarlier(t: OwnedTopology, x: seq<OwnedPool>, y: seq<OwnedPool>, q: OwnedPool, p: OwnedPool)
    requires TopologyOrder(t) == x + y && q in x && p in y && p !in x
    ensures Before(DoAll(UNTOUCHED, [OfTopology(t)]).order, q, p)
  {
    OneCall(t);
    AnyCalls([OfTopology(t)]);
    assert q in x + y && p in x + y;
    TurnInConcat(x, y, q);
    TurnInConcat(x, y, p);
    EarlierTurn(DoAll(UNTOUCHED, [OfTopology(t)]).order, x + y, q, p);
  }

  lemma BackwardSnoc<T>(s: seq<T>, x: T)
    ensures Backward(s + [x]) == [x] + Backward(s)
  {
    assert (s + [x])[..|s|] == s;
  }

  lemma Reassociate<T>(a: seq<T>, b: seq<T>, c: seq<T>)
    ensures a + (b + c) == a + b + c
  {
  }

  lemma {:induction false} BackwardConcat<T>(a: seq<T>, b: seq<T>)
    ensures Backward(a + b) == Backward(b) + Backward(a)
  {
    if b == [] {
      assert a + b == a;
    } else {
      var before, x := b[..|b| - 1], b[|b| - 1];
      assert b == before + [x];
      Reassociate(a, before, [x]);
      BackwardConcat(a, before);
      BackwardSnoc(a + before, x);
      BackwardSnoc(before, x);
      Reassociate([x], Backward(before), Backward(a));
    }
  }

  lemma {:induction false} OrdersConcat(a: seq<OwnedCluster>, b: seq<OwnedCluster>)
    ensures ClusterOrders(a + b) == ClusterOrders(a) + ClusterOrders(b)
  {
    if a == [] {
      assert a + b == b;
    } else {
      assert (a + b)[1..] == a[1..] + b;
      OrdersConcat(a[1..], b);
    }
  }

  /** The pools of the clusters from `k` on, in closing order. */
  ghost function From(t: OwnedTopology, k: nat): seq<OwnedPool>
    requires k <= |t.clusters|
  {
    ClusterOrders(Backward(t.clusters[k..]))
  }

  lemma OwnedFrom(t: OwnedTopology, k: nat, p: OwnedPool)
    requires k <= |t.clusters|
    ensures p in From(t, k) <==> exists j: nat :: k <= j < |t.clusters| && Owns(t.clusters[j], p)
  {
    var rest := t.clusters[k..];
    OrdersOwned(Backward(rest), p);
    BackwardOwned(rest, p);
    if j: nat :| k <= j < |t.clusters| && Owns(t.clusters[j], p) {
      assert rest[j - k] == t.clusters[j];
    }
    if c :| c in rest && Owns(c, p) {
      var i: nat :| i < |rest| && rest[i] == c;
      assert t.clusters[k + i] == c;
    }
  }

  lemma OrderFrom(t: OwnedTopology, k: nat)
    requires k <= |t.clusters|
    ensures TopologyOrder(t) == From(t, k) + ClusterOrders(Backward(t.clusters[..k]))
  {
    assert t.clusters == t.clusters[..k] + t.clusters[k..];
    BackwardConcat(t.clusters[..k], t.clusters[k..]);
    OrdersConcat(Backward(t.clusters[k..]), Backward(t.clusters[..k]));
  }

  lemma FromNext(t: OwnedTopology, k: nat)
    requires k < |t.clusters|
    ensures From(t, k) == From(t, k + 1) + t.clusters[k].ClosingOrder()
  {
    var one := [t.clusters[k]];
    var none: seq<OwnedCluster> := [];
    assert t.clusters[k..] == one + t.clusters[k + 1..];
    BackwardConcat(one, t.clusters[k + 1..]);
    assert one[..|one| - 1] == none && Backward(one) == one + Backward(none) == one;
    OrdersConcat(Backward(t.clusters[k + 1..]), one);
    var order := t.clusters[k].ClosingOrder();
    assert one[1..] == none && ClusterOrders(one) == order + ClusterOrders(none) == order;
  }

  /** Closing an untouched topology closes a later shard's pool before an earlier shard's, unless the latter is
      shared with a shard at least as late. */
  lemma ShardsBackwards(t: OwnedTopology, i: nat, j: nat, q: OwnedPool, p: OwnedPool)
    requires i < j < |t.clusters| && Owns(t.clusters[j], q) && Owns(t.clusters[i], p)
    requires forall k: nat :: j <= k < |t.clusters| ==> !Owns(t.clusters[k], p)
    ensures Before(DoAll(UNTOUCHED, [OfTopology(t)]).order, q, p)
  {
    OwnedFrom(t, j, q);
    OwnedFrom(t, j, p);
    OwnedFrom(t, 0, p);
    assert t.clusters[0..] == t.clusters && p in TopologyOrder(t);
    OrderFrom(t, j);
    AskedEarlier(t, From(t, j), ClusterOrders(Backward(t.clusters[..j])), q, p);
  }

  lemma Regroup<T>(f: seq<T>, a: seq<T>, b: seq<T>, l: seq<T>, e: seq<T>)
    ensures (f + ((a + b) + l)) + e == (f + a) + ((b + l) + e)
  {
  }

  lemma SplitCluster(t: OwnedTopology, j: nat, b: nat)
    requires j < |t.clusters| && b <= |t.clusters[j].replicas|
    ensures var c := t.clusters[j];
      TopologyOrder(t) == (From(t, j + 1) + Backward(c.replicas[b..]))
        + ((Backward(c.replicas[..b]) + c.Last()) + ClusterOrders(Backward(t.clusters[..j])))
  {
    var c := t.clusters[j];
    OrderFrom(t, j);
    assert TopologyOrder(t) == (From(t, j + 1) + c.ClosingOrder()) + ClusterOrders(Backward(t.clusters[..j])) by {
      FromNext(t, j);
    }
    assert c.replicas == c.replicas[..b] + c.replicas[b..];
    BackwardConcat(c.replicas[..b], c.replicas[b..]);
    Regroup(From(t, j + 1), Backward(c.replicas[b..]), Backward(c.replicas[..b]), c.Last(),
            ClusterOrders(Backward(t.clusters[..j])));
  }

  /** Within a shard later replicas close first and the primary last, pools shared with later shards apart. */
  lemma ReplicasBackwards(t: OwnedTopology, j: nat, b: nat, q: OwnedPool, p: OwnedPool)
    requires j < |t.clusters| && b <= |t.clusters[j].replicas|
    requires q in t.clusters[j].replicas[b..] && p !in t.clusters[j].replicas[b..]
    requires p in t.clusters[j].replicas[..b] || t.clusters[j].primary == Some(p)
    requires forall k: nat :: j < k < |t.clusters| ==> !Owns(t.clusters[k], p)
    ensures Before(DoAll(UNTOUCHED, [OfTopology(t)]).order, q, p)
  {
    var c := t.clusters[j];
    OwnedFrom(t, j + 1, p);
    SplitCluster(t, j, b);
    InBackward(c.replicas[b..], q);
    InBackward(c.replicas[b..], p);
    InBackward(c.replicas[..b], p);
    AskedEarlier(t, From(t, j + 1) + Backward(c.replicas[b..]),
                 (Backward(c.replicas[..b]) + c.Last()) + ClusterOrders(Backward(t.clusters[..j])), q, p);
  }

  lemma {:induction false} EventsMembers(order: seq<OwnedPool>, e: Event)
    ensures e in Events(order) <==> e.pool in order && (e.MetricsClosed? ==> e.pool.metrics)
  {
    if order != [] {
      EventsMembers(order[..|order| - 1], e);
      assert order == order[..|order| - 1] + [order[|order| - 1]];
    }
  }

  /** Every registration and every pool is closed at most once, exactly those asked for, a registration right
      before its pool. */
  lemma EachClosedOnce(calls: seq<Call>)
    ensures var log := Events(DoAll(UNTOUCHED, calls).order);
      && (forall i: nat, j: nat :: i < j < |log| ==> log[i] != log[j])
      && (forall p: OwnedPool :: PoolClosed(p) in log <==> exists call :: call in calls && AsksFor(call, p))
      && (forall p: OwnedPool :: MetricsClosed(p) in log <==> PoolClosed(p) in log && p.metrics)
      && (forall i: nat :: i < |log| && log[i].PoolClosed? && log[i].pool.metrics ==>
            0 < i && log[i - 1] == MetricsClosed(log[i].pool))
  {
    AnyCalls(calls);
    var order := DoAll(UNTOUCHED, calls).order;
    EventsDistinct(order);
    forall e: Event ensures e in Events(order) <==> e.pool in order && (e.MetricsClosed? ==> e.pool.metrics) {
      EventsMembers(order, e);
    }
  }

  lemma {:induction false} EventsDistinct(order: seq<OwnedPool>)
    requires Distinct(order)
    ensures Distinct(Events(order))
    ensures forall i: nat :: i < |Events(order)| && Events(order)[i].PoolClosed? && Events(order)[i].pool.metrics ==>
      0 < i && Events(order)[i - 1] == MetricsClosed(Events(order)[i].pool)
  {
    if order != [] {
      var k := |order| - 1;
      EventsDistinct(order[..k]);
      var before, p := Events(order[..k]), order[k];
      forall i: nat | i < |before| ensures before[i].pool != p {
        assert before[i] in before;
        EventsMembers(order[..k], before[i]);
      }
    }
  }

  lemma {:induction false} DoAllSnoc(w: World, calls: seq<Call>, call: Call)
    ensures DoAll(w, calls + [call]) == Do(DoAll(w, calls), call)
    decreases |calls|
  {
    if calls == [] {
      var none: seq<Call> := [];
      assert calls + [call] == [call] && [call][1..] == none;
      assert DoAll(Do(w, call), none) == Do(w, call);
    } else {
      assert (calls + [call])[1..] == calls[1..] + [call];
      DoAllSnoc(Do(w, calls[0]), calls[1..], call);
    }
  }

  /** Any sequence of Close calls on the objects themselves leaves the world, and so the log, described above. */
  method Perform(j: Journal, calls: seq<Call>)
    requires j.Valid()
    requires forall call :: call in calls ==>
      match call
      case OfPool(p) => p in j.pools
      case OfCluster(c) => c in j.clusters
      case OfTopology(t) => t in j.topologies
    modifies j, j.pools, j.clusters, j.topologies
    ensures j.Valid() && j.w == DoAll(old(j.w), calls)
    ensures j.events == Events(DoAll(old(j.w), calls).order)
    ensures old(j.w) == UNTOUCHED ==>
      && (forall p :: p in j.pools ==> (p.done <==> exists call :: call in calls && AsksFor(call, p)))
      && (forall p :: PoolClosed(p) in j.events <==> exists call :: call in calls && AsksFor(call, p))
  {
    ghost var start := j.w;
    assert calls[..0] == [];
    for k := 0 to |calls|
      invariant j.Valid() && j.w == DoAll(start, calls[..k])
    {
      DoAllSnoc(start, calls[..k], calls[k]);
      assert calls[..k + 1] == calls[..k] + [calls[k]];
      assert calls[k] in calls;
      match calls[k]
      case OfPool(p) => p.Close(j);
      case OfCluster(c) => c.Close(j);
      case OfTopology(t) => t.Close(j);
    }
    assert calls[..|calls|] == calls;
    AnyCalls(calls);
    EachClosedOnce(calls);
  }
}
