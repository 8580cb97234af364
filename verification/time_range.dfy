/** `NewTimeRange` and `TimeRangeResolver.Resolve`: intervals of instants. */
module TimeRangeResolver {
  import opened Errors
  import opened Topology
  import opened OrderedTable
  import RR = RangeResolver

  /** Go's `time.Time`: a wall instant in nanoseconds, an optional monotonic reading, and a location (0 is UTC). */
  datatype Time = Time(wall: int, mono: Option<int>, zone: nat)

  /** `t.Before(u)`: on the monotonic readings when both have one. */
  predicate Before(t: Time, u: Time) {
    if t.mono.Some? && u.mono.Some? then t.mono.value < u.mono.value else t.wall < u.wall
  }

  /** `t.After(u)`. */
  predicate After(t: Time, u: Time) {
    if t.mono.Some? && u.mono.Some? then t.mono.value > u.mono.value else t.wall > u.wall
  }

  /** `t.Compare(u)`. */
  function CompareTimes(t: Time, u: Time): int {
    var x, y := if t.mono.Some? && u.mono.Some? then t.mono.value else t.wall,
                if t.mono.Some? && u.mono.Some? then u.mono.value else u.wall;
    if x < y then -1 else if x > y then 1 else 0
  }

  type Utc = t: Time | t.mono.None? && t.zone == 0 witness Time(0, None, 0)

  /** `timeToUTC`: same instant, no monotonic reading. */
  function ToUtc(t: Time): Utc { Time(t.wall, None, 0) }

  function UtcOrder(): Order<Utc> { Order((t, u) => Before(t, u), _ => false) }

  function RawOrder(): Order<Time> { Order((t, u) => Before(t, u), _ => false) }

  /** Among normalised times the three comparisons the code uses are one strict total order, that of the instants. */
  lemma UtcIsTotalOrder(t: Utc, u: Utc)
    ensures Lawful(UtcOrder())
    ensures t == u || Before(t, u) || Before(u, t)
    ensures After(t, u) <==> !Le(UtcOrder(), t, u)
    ensures CompareTimes(t, u) == Compare(UtcOrder(), t, u)
    ensures Before(t, u) <==> t.wall < u.wall
  {
  }

  /** Without normalisation they are not an order at all: readings with and without a monotonic part form a cycle. */
  lemma RawBeforeIsCyclic() returns (a: Time, b: Time, c: Time)
    ensures Before(a, b) && Before(b, c) && Before(c, a)
    ensures !Lawful(RawOrder())
  {
    a, b, c := Time(0, Some(10), 0), Time(1, None, 0), Time(2, Some(5), 0);
    assert RawOrder().lt(a, b) && RawOrder().lt(b, c) && RawOrder().lt(c, a);
  }

  function Normalised(ranges: seq<RR.Range<Time>>): seq<RR.Range<Utc>> {
    seq(|ranges|, i requires 0 <= i < |ranges| =>
      RR.Range(ToUtc(ranges[i].start), ToUtc(ranges[i].end), ranges[i].shardId))
  }

  /** The caller's ranges as plain instants: everything routing may depend on. */
  function Walls(ranges: seq<RR.Range<Time>>): seq<RR.Range<int>> {
    seq(|ranges|, i requires 0 <= i < |ranges| => RR.Range(ranges[i].start.wall, ranges[i].end.wall, ranges[i].shardId))
  }

  lemma SameFaults(t: Topology, ranges: seq<RR.Range<Time>>)
    ensures forall i: nat :: i < |ranges| ==>
      RR.Fault(UtcOrder(), t, Normalised(ranges), i) == RR.Fault(IntOrder(), t, Walls(ranges), i)
    ensures RR.Faultless(UtcOrder(), t, Normalised(ranges)) <==> RR.Faultless(IntOrder(), t, Walls(ranges))
  {
    var us, ws := Normalised(ranges), Walls(ranges);
    assert forall i: nat :: i < |ranges| ==> RR.Fault(UtcOrder(), t, us, i) == RR.Fault(IntOrder(), t, ws, i);
  }

  lemma SameShared(ranges: seq<RR.Range<Time>>, i: nat, j: nat, w: int)
    ensures RR.Shared(UtcOrder(), Normalised(ranges), i, j, Time(w, None, 0))
      <==> RR.Shared(IntOrder(), Walls(ranges), i, j, w)
  {
  }

  lemma SameClash(ranges: seq<RR.Range<Time>>, i: nat, j: nat)
    requires RR.FirstClash(UtcOrder(), Normalised(ranges), i, j)
    ensures RR.FirstClash(IntOrder(), Walls(ranges), i, j)
  {
    var us, ws := Normalised(ranges), Walls(ranges);
    assert forall a: nat, b: nat :: RR.Earlier(IntOrder(), ws, a, b) <==> RR.Earlier(UtcOrder(), us, a, b);
    var key :| RR.Shared(UtcOrder(), us, i, j, key);
    SameShared(ranges, i, j, key.wall);
    forall a: nat, b: nat, w | RR.Shared(IntOrder(), ws, a, b, w) && RR.Earlier(IntOrder(), ws, a, b)
      ensures b == j || RR.Earlier(IntOrder(), ws, j, b)
    {
      SameShared(ranges, a, b, w);
    }
  }

  lemma SameDisjoint(ranges: seq<RR.Range<Time>>)
    ensures RR.Disjoint(UtcOrder(), Normalised(ranges)) <==> RR.Disjoint(IntOrder(), Walls(ranges))
  {
    var us, ws := Normalised(ranges), Walls(ranges);
    if RR.Disjoint(UtcOrder(), us) {
      forall i: nat, j: nat, w ensures !RR.Shared(IntOrder(), ws, i, j, w) {
        SameShared(ranges, i, j, w);
        assert !RR.Shared(UtcOrder(), us, i, j, Time(w, None, 0));
      }
    }
    if RR.Disjoint(IntOrder(), ws) {
      forall i: nat, j: nat, u: Utc ensures !RR.Shared(UtcOrder(), us, i, j, u) {
        SameShared(ranges, i, j, u.wall);
        assert !RR.Shared(IntOrder(), ws, i, j, u.wall);
      }
    }
  }

  lemma {:induction false} SameScan(t: Topology, ranges: seq<RR.Range<Time>>, key: Time)
    ensures RR.Scan(UtcOrder(), t, Normalised(ranges), ToUtc(key)) == RR.Scan(IntOrder(), t, Walls(ranges), key.wall)
  {
    if ranges != [] {
      SameScan(t, ranges[1..], key);
      assert Normalised(ranges)[1..] == Normalised(ranges[1..]);
      assert Walls(ranges)[1..] == Walls(ranges[1..]);
    }
  }

  /** The instant `w` lies in the half-open range. */
  predicate During(r: RR.Range<Time>, w: int) { r.start.wall <= w < r.end.wall }

  ghost predicate Routable(t: Topology, r: RR.Range<Time>) {
    r.shardId != [] && r.start.wall < r.end.wall && exists s :: s in t.shards && s.id == r.shardId
  }

  lemma WallsRoutable(t: Topology, ranges: seq<RR.Range<Time>>)
    requires Valid(t)
    ensures RR.Faultless(IntOrder(), t, Walls(ranges)) <==> forall i: nat :: i < |ranges| ==> Routable(t, ranges[i])
  {
    forall i: nat | i < |ranges|
      ensures RR.Fault(IntOrder(), t, Walls(ranges), i).None? <==> Routable(t, ranges[i])
    {
      RR.FaultIsComplaint(IntOrder(), t, Walls(ranges), i);
    }
  }

  lemma WallsDisjoint(ranges: seq<RR.Range<Time>>)
    ensures RR.Disjoint(IntOrder(), Walls(ranges)) <==>
      forall i: nat, j: nat, w: int :: i < j < |ranges| ==> !(During(ranges[i], w) && During(ranges[j], w))
  {
    var walls := Walls(ranges);
    if RR.Disjoint(IntOrder(), walls) {
      forall i: nat, j: nat, w: int | i < j < |ranges| ensures !(During(ranges[i], w) && During(ranges[j], w)) {
        assert !RR.Shared(IntOrder(), walls, i, j, w);
      }
    } else {
      var i: nat, j: nat, w :| RR.Shared(IntOrder(), walls, i, j, w);
      assert During(ranges[i], w) && During(ranges[j], w);
    }
  }

  /** Accepts, rejects and reports by the wall instants alone. */
  method NewTimeRange(topology: Option<Topology>, ranges: seq<RR.Range<Time>>) returns (r: Result<RR.Resolver<Utc>>)
    ensures topology.None? || topology.value.shards == [] ==> r == Err(Leaf(Invalid(NoTopology)))
    ensures topology.Some? && topology.value.shards != [] && ranges == [] ==> r == Err(Leaf(Invalid(NoRanges)))
    ensures topology.Some? && topology.value.shards != [] && ranges != [] ==>
      && (r.Ok? <==> RR.Faultless(IntOrder(), topology.value, Walls(ranges)) && RR.Disjoint(IntOrder(), Walls(ranges)))
      && (r.Ok? ==> RR.Represents(UtcOrder(), topology.value, Normalised(ranges), r.value))
      && (forall i: nat :: i < |ranges| && RR.FirstFault(IntOrder(), topology.value, Walls(ranges), i) ==>
            r == Err(RR.Fault(IntOrder(), topology.value, Walls(ranges), i).value))
      && (r.Err? && RR.Faultless(IntOrder(), topology.value, Walls(ranges)) ==>
            exists i: nat, j: nat ::
              RR.FirstClash(IntOrder(), Walls(ranges), i, j) && r == Err(Leaf(Invalid(Overlap(i, j)))))
    ensures topology.Some? && Valid(topology.value) && ranges != [] ==>
      (r.Ok? <==>
        && (forall i: nat :: i < |ranges| ==>
              && ranges[i].shardId != [] && ranges[i].start.wall < ranges[i].end.wall
              && exists s :: s in topology.value.shards && s.id == ranges[i].shardId)
        && (forall i: nat, j: nat, w: int :: i < j < |ranges| ==>
              !(During(ranges[i], w) && During(ranges[j], w))))
  {
    var normalised: seq<RR.Range<Utc>> := [];
    for k := 0 to |ranges|
      invariant |normalised| == k && forall i: nat :: i < k ==> normalised[i] == Normalised(ranges)[i]
    {
      normalised := normalised + [RR.Range(ToUtc(ranges[k].start), ToUtc(ranges[k].end), ranges[k].shardId)];
    }
    assert normalised == Normalised(ranges);
    UtcIsTotalOrder(Time(0, None, 0), Time(0, None, 0));
    r := RR.NewRange(UtcOrder(), topology, normalised);
    if topology.Some? && topology.value.shards != [] && ranges != [] {
      SameFaults(topology.value, ranges);
      SameDisjoint(ranges);
      if r.Err? && RR.Faultless(UtcOrder(), topology.value, normalised) {
        ghost var i: nat, j: nat :|
          RR.FirstClash(UtcOrder(), normalised, i, j) && r == Err(Leaf(Invalid(Overlap(i, j))));
        SameClash(ranges, i, j);
      }
      if Valid(topology.value) {
        WallsRoutable(topology.value, ranges);
        WallsDisjoint(ranges);
      }
    }
  }

  /** Routes by the key's wall instant alone: the answer is that of scanning the caller's ranges as instants. */
  method Resolve(resolver: Option<RR.Resolver<Utc>>, key: Time, ghost t: Topology, ghost ranges: seq<RR.Range<Time>>)
    returns (r: Result<Shard>)
    requires resolver.Some? && resolver.value.ranges != [] ==>
      RR.Represents(UtcOrder(), t, Normalised(ranges), resolver.value)
    ensures resolver.None? || resolver.value.ranges == [] ==> r == Err(Leaf(Invalid(NotInitialized)))
    ensures resolver.Some? && resolver.value.ranges != [] ==> r == RR.Scan(IntOrder(), t, Walls(ranges), key.wall)
    ensures resolver.Some? && resolver.value.ranges != [] && Valid(t) ==>
      if r.Ok? then
        r.value in t.shards
        && exists i: nat :: (
          i < |ranges| && ranges[i].shardId == r.value.id
          && ranges[i].start.wall <= key.wall < ranges[i].end.wall)
      else
        && r == Err(Leaf(ErrNoShard))
        && forall i: nat :: i < |ranges| ==> !(ranges[i].start.wall <= key.wall < ranges[i].end.wall)
  {
    UtcIsTotalOrder(Time(0, None, 0), Time(0, None, 0));
    SameScan(t, ranges, key);
    r := RR.Resolve(UtcOrder(), resolver, ToUtc(key), t, Normalised(ranges));
    if resolver.Some? && resolver.value.ranges != [] && Valid(t) {
      RoutedByInstant(t, ranges, key, r);
    }
  }

  lemma RoutedByInstant(t: Topology, ranges: seq<RR.Range<Time>>, key: Time, r: Result<Shard>)
    requires RR.Routed(UtcOrder(), t, Normalised(ranges), ToUtc(key), r)
    ensures if r.Ok? then
        r.value in t.shards
        && exists i: nat :: i < |ranges| && ranges[i].shardId == r.value.id && During(ranges[i], key.wall)
      else r == Err(Leaf(ErrNoShard)) && forall i: nat :: i < |ranges| ==> !During(ranges[i], key.wall)
  {
    var us := Normalised(ranges);
    forall i: nat | i < |ranges| ensures RR.Holds(UtcOrder(), us[i], ToUtc(key)) <==> During(ranges[i], key.wall) {
    }
    if r.Ok? {
      var i: nat :| i < |us| && us[i].shardId == r.value.id && RR.Holds(UtcOrder(), us[i], ToUtc(key));
      assert During(ranges[i], key.wall);
    }
  }

  /** Zones and monotonic readings, of keys and of boundaries, change neither acceptance nor any answer. */
  lemma OnlyInstantsMatter(t: Topology, a: seq<RR.Range<Time>>, b: seq<RR.Range<Time>>, k: Time, k': Time)
    requires |a| == |b| && k.wall == k'.wall
    requires forall i: nat :: i < |a| ==>
      a[i].shardId == b[i].shardId && a[i].start.wall == b[i].start.wall && a[i].end.wall == b[i].end.wall
    ensures RR.Scan(UtcOrder(), t, Normalised(a), ToUtc(k)) == RR.Scan(UtcOrder(), t, Normalised(b), ToUtc(k'))
    ensures RR.Faultless(UtcOrder(), t, Normalised(a)) && RR.Disjoint(UtcOrder(), Normalised(a))
      <==> RR.Faultless(UtcOrder(), t, Normalised(b)) && RR.Disjoint(UtcOrder(), Normalised(b))
  {
    assert Walls(a) == Walls(b);
    SameScan(t, a, k);
    SameScan(t, b, k');
    SameFaults(t, a);
    SameFaults(t, b);
    SameDisjoint(a);
    SameDisjoint(b);
  }

  /** Comparing without normalising would not route by instant: a key inside a range can be refused. */
  lemma RawComparisonMisroutes() returns (start: Time, end: Time, key: Time)
    ensures Contains(IntOrder(), start.wall, end.wall, key.wall) && !Contains(RawOrder(), start, end, key)
  {
    start, end, key := Time(0, None, 0), Time(10, Some(1), 0), Time(5, Some(2), 0);
  }
}
