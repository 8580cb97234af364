/** `NewRange` and `RangeResolver.Resolve` over any ordered key type. */
module RangeResolver {
  import opened Errors
  import opened Topology
  import opened OrderedTable

  datatype Range<K> = Range(start: K, end: K, shardId: Id)

  datatype Resolver<K> = Resolver(ranges: seq<Entry<K>>)

  predicate Holds<K>(o: Order<K>, r: Range<K>, key: K) { Contains(o, r.start, r.end, key) }

  /** Why the range at `i` cannot be used. */
  function Fault<K>(o: Order<K>, t: Topology, ranges: seq<Range<K>>, i: nat): Outcome
    requires i < |ranges|
  {
    var r := ranges[i];
    if r.shardId == [] then Some(Wrap(AtRange(i), Leaf(Invalid(EmptyId))))
    else if !o.lt(r.start, r.end) then Some(Wrap(AtRange(i), Leaf(Invalid(StartNotBeforeEnd))))
    else if Lookup(t, r.shardId).None? then Some(Wrap(AtRange(i), UnknownShard(r.shardId)))
    else None
  }

  predicate Faultless<K>(o: Order<K>, t: Topology, ranges: seq<Range<K>>) {
    forall i: nat :: i < |ranges| ==> Fault(o, t, ranges, i).None?
  }

  predicate FirstFault<K>(o: Order<K>, t: Topology, ranges: seq<Range<K>>, i: nat)
    requires i < |ranges|
  {
    Fault(o, t, ranges, i).Some? && forall j: nat :: j < i ==> Fault(o, t, ranges, j).None?
  }

  ghost predicate Shared<K>(o: Order<K>, ranges: seq<Range<K>>, i: nat, j: nat, key: K) {
    i < |ranges| && j < |ranges| && i != j && Holds(o, ranges[i], key) && Holds(o, ranges[j], key)
  }

  /** `i` comes before `j` in routing order: by start, and between equal starts by position in the list. */
  predicate Earlier<K>(o: Order<K>, ranges: seq<Range<K>>, i: nat, j: nat) {
    && i < |ranges| && j < |ranges|
    && (o.lt(ranges[i].start, ranges[j].start) || (!o.lt(ranges[j].start, ranges[i].start) && i < j))
  }

  /** The pair an overlap is reported for: `j` is the first range to share a key with an earlier one, and `i` is the
      range right before it. */
  ghost predicate FirstClash<K(!new)>(o: Order<K>, ranges: seq<Range<K>>, i: nat, j: nat) {
    && Earlier(o, ranges, i, j)
    && (exists key :: Shared(o, ranges, i, j, key))
    && (forall c: nat :: Earlier(o, ranges, c, j) ==> c == i || Earlier(o, ranges, c, i))
    && (forall a: nat, b: nat, key :: Shared(o, ranges, a, b, key) && Earlier(o, ranges, a, b) ==>
          b == j || Earlier(o, ranges, j, b))
  }

  /** There is only one such pair. */
  lemma FirstClashUnique<K(!new)>(o: Order<K>, ranges: seq<Range<K>>, i: nat, j: nat, i': nat, j': nat)
    requires Lawful(o) && FirstClash(o, ranges, i, j) && FirstClash(o, ranges, i', j')
    ensures i == i' && j == j'
  {
    var key :| Shared(o, ranges, i, j, key);
    var key' :| Shared(o, ranges, i', j', key');
    assert j == j' || (Earlier(o, ranges, j, j') && Earlier(o, ranges, j', j));
  }

  /** No key belongs to two of the caller's ranges. */
  ghost predicate Disjoint<K(!new)>(o: Order<K>, ranges: seq<Range<K>>) {
    forall i: nat, j: nat, key :: !Shared(o, ranges, i, j, key)
  }

  function EntryOf<K>(t: Topology, r: Range<K>, i: nat): Entry<K>
    requires Lookup(t, r.shardId).Some?
  {
    Entry(r.start, r.end, Lookup(t, r.shardId).value, i)
  }

  function Entries<K>(o: Order<K>, t: Topology, ranges: seq<Range<K>>): seq<Entry<K>>
    requires Faultless(o, t, ranges)
  {
    seq(|ranges|, i requires 0 <= i < |ranges| && Faultless(o, t, ranges) =>
      assert Fault(o, t, ranges, i).None?; EntryOf(t, ranges[i], i))
  }

  /** A range that can be used: a shard ID registered in the topology, and a start below the end. */
  ghost predicate Routable<K>(o: Order<K>, t: Topology, r: Range<K>) {
    r.shardId != [] && o.lt(r.start, r.end) && exists s :: s in t.shards && s.id == r.shardId
  }

  /** What is reported of a range that cannot be used. */
  function Complaint<K>(o: Order<K>, r: Range<K>, i: nat): Error {
    Wrap(AtRange(i),
      if r.shardId == [] then Leaf(Invalid(EmptyId))
      else if !o.lt(r.start, r.end) then Leaf(Invalid(StartNotBeforeEnd))
      else UnknownShard(r.shardId))
  }

  lemma FaultIsComplaint<K>(o: Order<K>, t: Topology, ranges: seq<Range<K>>, i: nat)
    requires Valid(t) && i < |ranges|
    ensures Fault(o, t, ranges, i) == if Routable(o, t, ranges[i]) then None else Some(Complaint(o, ranges[i], i))
  {
    LookupFindsRegistered(t, ranges[i].shardId);
  }

  /** The table a resolver holds: the caller's ranges, sorted, with no two overlapping. */
  ghost predicate Represents<K(!new)>(o: Order<K>, t: Topology, ranges: seq<Range<K>>, r: Resolver<K>) {
    && Faultless(o, t, ranges)
    && r.ranges == StableSort(o, Entries(o, t, ranges))
    && Chained(o, r.ranges)
  }

  /** The plain meaning of a range list: the first range holding the key, in the caller's order. */
  function Scan<K>(o: Order<K>, t: Topology, ranges: seq<Range<K>>, key: K): Result<Shard> {
    if ranges == [] then Err(Leaf(ErrNoShard))
    else if Holds(o, ranges[0], key) && Lookup(t, ranges[0].shardId).Some? then Ok(Lookup(t, ranges[0].shardId).value)
    else Scan(o, t, ranges[1..], key)
  }

  lemma {:induction false} ScanFinds<K>(o: Order<K>, t: Topology, ranges: seq<Range<K>>, key: K)
    requires forall r :: r in ranges ==> Lookup(t, r.shardId).Some?
    ensures Scan(o, t, ranges, key).Ok? ==>
      exists r :: r in ranges && Holds(o, r, key) && Scan(o, t, ranges, key) == Ok(Lookup(t, r.shardId).value)
    ensures Scan(o, t, ranges, key).Err? ==>
      Scan(o, t, ranges, key) == Err(Leaf(ErrNoShard)) && forall r :: r in ranges ==> !Holds(o, r, key)
  {
    if ranges != [] && !Holds(o, ranges[0], key) {
      ScanFinds(o, t, ranges[1..], key);
      assert ranges == [ranges[0]] + ranges[1..];
    }
  }

  /** In a disjoint list the only range holding a key decides. */
  lemma ScanOfHolder<K(!new)>(o: Order<K>, t: Topology, ranges: seq<Range<K>>, key: K, i: nat)
    requires i < |ranges| && Disjoint(o, ranges) && Holds(o, ranges[i], key)
    requires forall r :: r in ranges ==> Lookup(t, r.shardId).Some?
    ensures Scan(o, t, ranges, key) == Ok(Lookup(t, ranges[i].shardId).value)
  {
    assert ranges[i] in ranges;
    ScanFinds(o, t, ranges, key);
    if Scan(o, t, ranges, key).Ok? {
      var r :| r in ranges && Holds(o, r, key) && Scan(o, t, ranges, key) == Ok(Lookup(t, r.shardId).value);
      var j: nat :| j < |ranges| && ranges[j] == r;
      assert !Shared(o, ranges, i, j, key);
    }
  }

  lemma EntriesNumbered<K>(o: Order<K>, t: Topology, ranges: seq<Range<K>>)
    requires Faultless(o, t, ranges)
    ensures Numbered(o, Entries(o, t, ranges)) && |Entries(o, t, ranges)| == |ranges|
    ensures forall i: nat :: i < |ranges| ==> Fault(o, t, ranges, i).None? && Lookup(t, ranges[i].shardId).Some?
    ensures forall i: nat :: i < |ranges| ==> Entries(o, t, ranges)[i] == EntryOf(t, ranges[i], i)
  {
    forall i: nat | i < |ranges|
      ensures Lookup(t, ranges[i].shardId).Some? && o.lt(ranges[i].start, ranges[i].end)
    {
      assert Fault(o, t, ranges, i).None?;
    }
  }

  /** Sorting moves entries about and loses none: an entry still knows its range. */
  lemma SortedMembers<K(!new)>(o: Order<K>, t: Topology, ranges: seq<Range<K>>, e: Entry<K>)
    requires Lawful(o) && Faultless(o, t, ranges)
    ensures e in StableSort(o, Entries(o, t, ranges)) <==>
      e.source < |ranges| && e == Entries(o, t, ranges)[e.source]
  {
    var entries := Entries(o, t, ranges);
    EntriesNumbered(o, t, ranges);
    StableSortCorrect(o, entries);
    assert e in StableSort(o, entries) <==> e in multiset(StableSort(o, entries));
    assert e in entries <==> e in multiset(entries);
  }

  /** The adjacent check after sorting is sound: a chained table means no two of the caller's ranges share a key. */
  lemma ChainedMeansDisjoint<K(!new)>(o: Order<K>, t: Topology, ranges: seq<Range<K>>)
    requires Lawful(o) && Faultless(o, t, ranges) && Chained(o, StableSort(o, Entries(o, t, ranges)))
    ensures Disjoint(o, ranges)
  {
    EntriesNumbered(o, t, ranges);
    var entries := Entries(o, t, ranges);
    var sorted := StableSort(o, entries);
    forall i: nat, j: nat, key ensures !Shared(o, ranges, i, j, key) {
      if Shared(o, ranges, i, j, key) {
        SortedMembers(o, t, ranges, entries[i]);
        SortedMembers(o, t, ranges, entries[j]);
        var p: nat :| p < |sorted| && sorted[p] == entries[i];
        var q: nat :| q < |sorted| && sorted[q] == entries[j];
        assert entries[i].source != entries[j].source;
        if p < q { ChainDisjoint(o, sorted, p, q, key); } else { ChainDisjoint(o, sorted, q, p, key); }
      }
    }
  }

  /** And complete: where two neighbours of the sorted table overlap, the later one's start is a key of both. */
  lemma OverlapHasKey<K(!new)>(o: Order<K>, t: Topology, ranges: seq<Range<K>>, k: nat)
    requires Lawful(o) && Faultless(o, t, ranges)
    requires k + 1 < |StableSort(o, Entries(o, t, ranges))|
    requires var s := StableSort(o, Entries(o, t, ranges)); !Le(o, s[k].end, s[k + 1].start)
    ensures var s := StableSort(o, Entries(o, t, ranges));
      Shared(o, ranges, s[k].source, s[k + 1].source, s[k + 1].start)
  {
    EntriesNumbered(o, t, ranges);
    var entries := Entries(o, t, ranges);
    var s := StableSort(o, entries);
    SortedMembers(o, t, ranges, s[k]);
    SortedMembers(o, t, ranges, s[k + 1]);
    StableSortCorrect(o, entries);
    assert Precedes(o, s[k], s[k + 1]);
    assert Proper(o, s[k]) && Proper(o, s[k + 1]);
  }

  /** Where an entry stands in the sorted table, and what that says of its range. */
  lemma SortedPosition<K(!new)>(o: Order<K>, t: Topology, ranges: seq<Range<K>>, c: nat) returns (p: nat)
    requires Lawful(o) && Faultless(o, t, ranges) && c < |ranges|
    ensures var s := StableSort(o, Entries(o, t, ranges));
      p < |s| && s[p].source == c && s[p].start == ranges[c].start && s[p].end == ranges[c].end
  {
    EntriesNumbered(o, t, ranges);
    var s := StableSort(o, Entries(o, t, ranges));
    SortedMembers(o, t, ranges, Entries(o, t, ranges)[c]);
    p :| p < |s| && s[p] == Entries(o, t, ranges)[c];
  }

  lemma PositionsEarlier<K(!new)>(o: Order<K>, t: Topology, ranges: seq<Range<K>>, p: nat, q: nat)
    requires Lawful(o) && Faultless(o, t, ranges)
    requires p < |StableSort(o, Entries(o, t, ranges))| && q < |StableSort(o, Entries(o, t, ranges))|
    ensures var s := StableSort(o, Entries(o, t, ranges));
      Earlier(o, ranges, s[p].source, s[q].source) <==> p < q
  {
    EntriesNumbered(o, t, ranges);
    var s := StableSort(o, Entries(o, t, ranges));
    StableSortCorrect(o, Entries(o, t, ranges));
    SortedMembers(o, t, ranges, s[p]);
    SortedMembers(o, t, ranges, s[q]);
    if p < q {
      assert Precedes(o, s[p], s[q]);
    } else if q < p {
      assert Precedes(o, s[q], s[p]);
    }
  }

  lemma Predecessor<K(!new)>(o: Order<K>, t: Topology, ranges: seq<Range<K>>, k: nat, c: nat)
    requires Lawful(o) && Faultless(o, t, ranges)
    requires k + 1 < |StableSort(o, Entries(o, t, ranges))|
    requires Earlier(o, ranges, c, StableSort(o, Entries(o, t, ranges))[k + 1].source)
    ensures var i := StableSort(o, Entries(o, t, ranges))[k].source; c == i || Earlier(o, ranges, c, i)
  {
    var p := SortedPosition(o, t, ranges, c);
    PositionsEarlier(o, t, ranges, p, k + 1);
    PositionsEarlier(o, t, ranges, p, k);
  }

  lemma NoEarlierClash<K(!new)>(o: Order<K>, t: Topology, ranges: seq<Range<K>>, k: nat, a: nat, b: nat, key: K)
    requires Lawful(o) && Faultless(o, t, ranges)
    requires k + 1 < |StableSort(o, Entries(o, t, ranges))|
    requires var s := StableSort(o, Entries(o, t, ranges));
      forall i: nat :: i < k ==> Le(o, s[i].end, s[i + 1].start)
    requires Shared(o, ranges, a, b, key) && Earlier(o, ranges, a, b)
    ensures var j := StableSort(o, Entries(o, t, ranges))[k + 1].source; b == j || Earlier(o, ranges, j, b)
  {
    var p := SortedPosition(o, t, ranges, a);
    var q := SortedPosition(o, t, ranges, b);
    PositionsEarlier(o, t, ranges, p, q);
    PositionsEarlier(o, t, ranges, k + 1, q);
    if q <= k {
      PrefixDisjoint(o, t, ranges, k, p, q, key);
    }
  }

  /** The first neighbours of the sorted table that overlap are the first clash in the caller's list. */
  lemma ClashIsFirst<K(!new)>(o: Order<K>, t: Topology, ranges: seq<Range<K>>, k: nat)
    requires Lawful(o) && Faultless(o, t, ranges)
    requires k + 1 < |StableSort(o, Entries(o, t, ranges))|
    requires var s := StableSort(o, Entries(o, t, ranges));
      && !Le(o, s[k].end, s[k + 1].start)
      && forall i: nat :: i < k ==> Le(o, s[i].end, s[i + 1].start)
    ensures var s := StableSort(o, Entries(o, t, ranges)); FirstClash(o, ranges, s[k].source, s[k + 1].source)
  {
    var s := StableSort(o, Entries(o, t, ranges));
    var i, j := s[k].source, s[k + 1].source;
    OverlapHasKey(o, t, ranges, k);
    PositionsEarlier(o, t, ranges, k, k + 1);
    forall c: nat | Earlier(o, ranges, c, j) ensures c == i || Earlier(o, ranges, c, i) {
      Predecessor(o, t, ranges, k, c);
    }
    forall a: nat, b: nat, key | Shared(o, ranges, a, b, key) && Earlier(o, ranges, a, b)
      ensures b == j || Earlier(o, ranges, j, b)
    {
      NoEarlierClash(o, t, ranges, k, a, b, key);
    }
  }

  /** Before the first overlap the table is a chain, so no key lies in two of its entries. */
  lemma PrefixDisjoint<K(!new)>(o: Order<K>, t: Topology, ranges: seq<Range<K>>, k: nat, p: nat, q: nat, key: K)
    requires Lawful(o) && Faultless(o, t, ranges)
    requires p < q <= k < |StableSort(o, Entries(o, t, ranges))|
    requires var s := StableSort(o, Entries(o, t, ranges));
      forall i: nat :: i < k ==> Le(o, s[i].end, s[i + 1].start)
    ensures var s := StableSort(o, Entries(o, t, ranges));
      !(Contains(o, s[p].start, s[p].end, key) && Contains(o, s[q].start, s[q].end, key))
  {
    EntriesNumbered(o, t, ranges);
    var s := StableSort(o, Entries(o, t, ranges));
    var prefix := s[..k + 1];
    forall e | e in prefix ensures Proper(o, e) {
      SortedMembers(o, t, ranges, e);
    }
    assert forall i: nat :: i < |prefix| ==> prefix[i] == s[i];
    ChainDisjoint(o, prefix, p, q, key);
  }

  /** The constructor. Accepts exactly the lists in which every range is usable and no two share a key;
      otherwise reports the first unusable range, or the first clash. */
  method NewRange<K(!new)>(o: Order<K>, topology: Option<Topology>, ranges: seq<Range<K>>)
    returns (r: Result<Resolver<K>>)
    requires Lawful(o)
    ensures topology.None? || topology.value.shards == [] ==> r == Err(Leaf(Invalid(NoTopology)))
    ensures topology.Some? && topology.value.shards != [] && ranges == [] ==> r == Err(Leaf(Invalid(NoRanges)))
    ensures topology.Some? && topology.value.shards != [] && ranges != [] ==>
      && (r.Ok? <==> Faultless(o, topology.value, ranges) && Disjoint(o, ranges))
      && (r.Ok? ==> Represents(o, topology.value, ranges, r.value))
      && (forall i: nat :: i < |ranges| && FirstFault(o, topology.value, ranges, i) ==>
            r == Err(Fault(o, topology.value, ranges, i).value))
      && (r.Err? && Faultless(o, topology.value, ranges) ==>
            exists i: nat, j: nat :: FirstClash(o, ranges, i, j) && r == Err(Leaf(Invalid(Overlap(i, j)))))
    ensures topology.Some? && Valid(topology.value) && ranges != [] ==>
      && (r.Ok? <==>
            && (forall i: nat :: i < |ranges| ==>
                  && ranges[i].shardId != [] && o.lt(ranges[i].start, ranges[i].end)
                  && exists s :: s in topology.value.shards && s.id == ranges[i].shardId)
            && Disjoint(o, ranges))
      && (forall i: nat :: i < |ranges| && !Routable(o, topology.value, ranges[i])
                           && (forall j: nat :: j < i ==> Routable(o, topology.value, ranges[j])) ==>
            r == Err(Wrap(AtRange(i),
              if ranges[i].shardId == [] then Leaf(Invalid(EmptyId))
              else if !o.lt(ranges[i].start, ranges[i].end) then Leaf(Invalid(StartNotBeforeEnd))
              else UnknownShard(ranges[i].shardId))))
  {
    if topology.None? || |topology.value.shards| == 0 {
      return Err(Leaf(Invalid(NoTopology)));
    }
    if |ranges| == 0 {
      return Err(Leaf(Invalid(NoRanges)));
    }
    var fault, filled := Fill(o, topology.value, ranges);
    if fault.Some? {
      r := Err(fault.value);
    } else {
      r := FromEntries(o, filled, topology.value, ranges);
    }
    if Valid(topology.value) {
      OutcomeExplained(o, topology.value, ranges, r);
    }
  }

  /** The constructor's answer in the caller's terms. */
  ghost predicate Explained<K(!new)>(o: Order<K>, t: Topology, ranges: seq<Range<K>>, r: Result<Resolver<K>>) {
    && (r.Ok? <==> (forall i: nat :: i < |ranges| ==> Routable(o, t, ranges[i])) && Disjoint(o, ranges))
    && (forall i: nat :: i < |ranges| && !Routable(o, t, ranges[i])
                         && (forall j: nat :: j < i ==> Routable(o, t, ranges[j])) ==>
          r == Err(Complaint(o, ranges[i], i)))
  }

  lemma OutcomeExplained<K(!new)>(o: Order<K>, t: Topology, ranges: seq<Range<K>>, r: Result<Resolver<K>>)
    requires Valid(t) && (r.Ok? <==> Faultless(o, t, ranges) && Disjoint(o, ranges))
    requires forall i: nat :: i < |ranges| && FirstFault(o, t, ranges, i) ==> r == Err(Fault(o, t, ranges, i).value)
    ensures Explained(o, t, ranges, r)
  {
    forall i: nat | i < |ranges|
      ensures Fault(o, t, ranges, i) == if Routable(o, t, ranges[i]) then None else Some(Complaint(o, ranges[i], i))
    {
      FaultIsComplaint(o, t, ranges, i);
    }
    forall i: nat | i < |ranges| && !Routable(o, t, ranges[i]) && forall j: nat :: j < i ==> Routable(o, t, ranges[j])
      ensures r == Err(Complaint(o, ranges[i], i))
    {
      assert FirstFault(o, t, ranges, i);
    }
  }

  /** The second half of the constructor: sorts the entries and compares neighbours. */
  method FromEntries<K(!new)>(o: Order<K>, filled: seq<Entry<K>>, ghost t: Topology, ghost ranges: seq<Range<K>>)
    returns (r: Result<Resolver<K>>)
    requires Lawful(o) && Faultless(o, t, ranges) && filled == Entries(o, t, ranges)
    ensures r.Ok? ==> Disjoint(o, ranges) && Represents(o, t, ranges, r.value)
    ensures r.Err? ==>
      !Disjoint(o, ranges)
      && exists i: nat, j: nat :: FirstClash(o, ranges, i, j) && r == Err(Leaf(Invalid(Overlap(i, j))))
  {
    var entries := Sorted(o, filled);
    var overlap := FirstOverlap(o, entries);
    if overlap.Some? {
      var previous, current := entries[overlap.value], entries[overlap.value + 1];
      assert entries[..][overlap.value] == previous && entries[..][overlap.value + 1] == current;
      OverlapHasKey(o, t, ranges, overlap.value);
      ClashIsFirst(o, t, ranges, overlap.value);
      return Err(Leaf(Invalid(Overlap(previous.source, current.source))));
    }
    TableRepresents(o, t, ranges, entries[..]);
    r := Ok(Resolver(entries[..]));
  }

  /** A sorted table that passed the adjacent-pair check stands for the caller's ranges. */
  lemma TableRepresents<K(!new)>(o: Order<K>, t: Topology, ranges: seq<Range<K>>, s: seq<Entry<K>>)
    requires Lawful(o) && Faultless(o, t, ranges) && s == StableSort(o, Entries(o, t, ranges))
    requires forall i: nat :: i + 1 < |s| ==> Le(o, s[i].end, s[i + 1].start)
    ensures Represents(o, t, ranges, Resolver(s)) && Disjoint(o, ranges)
  {
    EntriesNumbered(o, t, ranges);
    forall e | e in s ensures Proper(o, e) {
      SortedMembers(o, t, ranges, e);
    }
    ChainedMeansDisjoint(o, t, ranges);
  }

  /** The entry slice, filled and sorted. */
  method Sorted<K>(o: Order<K>, filled: seq<Entry<K>>) returns (entries: array<Entry<K>>)
    ensures fresh(entries) && entries[..] == StableSort(o, filled)
  {
    entries := new Entry<K>[|filled|](i requires 0 <= i < |filled| => filled[i]);
    assert entries[..] == filled;
    SortInPlace(o, entries);
  }

  /** The adjacent-pair check: the first entry whose successor starts before it ends. */
  method FirstOverlap<K>(o: Order<K>, entries: array<Entry<K>>) returns (at: Option<nat>)
    ensures at.Some? ==> at.value + 1 < entries.Length && !Le(o, entries[at.value].end, entries[at.value + 1].start)
    ensures at.Some? ==> forall i: nat :: i < at.value ==> Le(o, entries[i].end, entries[i + 1].start)
    ensures at.None? ==> forall i: nat :: i + 1 < entries.Length ==> Le(o, entries[i].end, entries[i + 1].start)
  {
    var index := 1;
    while index < entries.Length
      invariant 1 <= index
      invariant forall i: nat :: i + 1 < index && i + 1 < entries.Length ==> Le(o, entries[i].end, entries[i + 1].start)
    {
      if !Le(o, entries[index - 1].end, entries[index].start) {
        return Some(index - 1);
      }
      index := index + 1;
    }
    at := None;
  }

  /** The filling loop: stops at the first unusable range. */
  method Fill<K>(o: Order<K>, t: Topology, ranges: seq<Range<K>>) returns (fault: Outcome, entries: seq<Entry<K>>)
    ensures fault.None? ==> Faultless(o, t, ranges) && entries == Entries(o, t, ranges)
    ensures fault.Some? ==>
      exists i: nat :: i < |ranges| && Fault(o, t, ranges, i) == fault && FirstFault(o, t, ranges, i)
  {
    entries := [];
    for k := 0 to |ranges|
      invariant |entries| == k
      invariant forall i: nat :: i < k ==>
        Fault(o, t, ranges, i).None? && Lookup(t, ranges[i].shardId).Some? && entries[i] == EntryOf(t, ranges[i], i)
    {
      var r := ranges[k];
      ghost var expected := Fault(o, t, ranges, k);
      if r.shardId == [] {
        return Some(Wrap(AtRange(k), Leaf(Invalid(EmptyId)))), [];
      }
      if !o.lt(r.start, r.end) {
        return Some(Wrap(AtRange(k), Leaf(Invalid(StartNotBeforeEnd)))), [];
      }
      var resolved := Lookup(t, r.shardId);
      if resolved.None? {
        return Some(Wrap(AtRange(k), UnknownShard(r.shardId))), [];
      }
      entries := entries + [Entry(r.start, r.end, resolved.value, k)];
    }
    fault := None;
    EntriesNumbered(o, t, ranges);
  }

  /** Binary search agrees with scanning the caller's own list. A nil resolver is `None`. */
  method Resolve<K(!new)>(o: Order<K>, resolver: Option<Resolver<K>>, key: K,
                          ghost t: Topology, ghost ranges: seq<Range<K>>)
    returns (r: Result<Shard>)
    requires Lawful(o)
    requires resolver.Some? && resolver.value.ranges != [] ==> Represents(o, t, ranges, resolver.value)
    ensures resolver.None? || resolver.value.ranges == [] ==> r == Err(Leaf(Invalid(NotInitialized)))
    ensures resolver.Some? && resolver.value.ranges != [] ==> r == Scan(o, t, ranges, key)
    ensures resolver.Some? && resolver.value.ranges != [] && Valid(t) ==>
      if r.Ok? then
        r.value in t.shards
        && exists i: nat :: i < |ranges| && ranges[i].shardId == r.value.id && Holds(o, ranges[i], key)
      else r == Err(Leaf(ErrNoShard)) && forall i: nat :: i < |ranges| ==> !Holds(o, ranges[i], key)
  {
    if resolver.None? || |resolver.value.ranges| == 0 {
      return Err(Leaf(Invalid(NotInitialized)));
    }
    r := Search(o, resolver.value.ranges, key, t, ranges);
    if Valid(t) {
      EntriesNumbered(o, t, ranges);
      ScanRoutes(o, t, ranges, key);
    }
  }

  /** The answer in the caller's terms: a registered shard whose range holds the key, or ErrNoShard if no range does. */
  ghost predicate Routed<K>(o: Order<K>, t: Topology, ranges: seq<Range<K>>, key: K, r: Result<Shard>) {
    if r.Ok? then
      r.value in t.shards
      && exists i: nat :: i < |ranges| && ranges[i].shardId == r.value.id && Holds(o, ranges[i], key)
    else
      r == Err(Leaf(ErrNoShard)) && forall i: nat :: i < |ranges| ==> !Holds(o, ranges[i], key)
  }

  lemma ScanRoutes<K>(o: Order<K>, t: Topology, ranges: seq<Range<K>>, key: K)
    requires Valid(t) && forall r :: r in ranges ==> Lookup(t, r.shardId).Some?
    ensures Routed(o, t, ranges, key, Scan(o, t, ranges, key))
  {
    ScanFinds(o, t, ranges, key);
    if Scan(o, t, ranges, key).Ok? {
      var r :| r in ranges && Holds(o, r, key) && Scan(o, t, ranges, key) == Ok(Lookup(t, r.shardId).value);
      var i: nat :| i < |ranges| && ranges[i] == r;
      LookupFindsRegistered(t, r.shardId);
    }
  }

  method Search<K(!new)>(o: Order<K>, s: seq<Entry<K>>, key: K, ghost t: Topology, ghost ranges: seq<Range<K>>)
    returns (r: Result<Shard>)
    requires Lawful(o) && Represents(o, t, ranges, Resolver(s))
    ensures r == Scan(o, t, ranges, key)
  {
    EntriesNumbered(o, t, ranges);
    ChainedMeansDisjoint(o, t, ranges);
    var index := FirstEndingAfter(o, s, key);
    if index == |s| {
      NoHolder(o, t, ranges, s, key, index);
      return Err(Leaf(ErrNoShard));
    }
    var entry := s[index];
    assert entry in s && Proper(o, entry);
    if o.lt(key, entry.start) {
      NoHolder(o, t, ranges, s, key, index);
      return Err(Leaf(ErrNoShard));
    }
    SortedMembers(o, t, ranges, entry);
    ScanOfHolder(o, t, ranges, key, entry.source);
    r := Ok(entry.shard);
  }

  /** Past every end, or in the gap before the first entry ending after the key, no range holds the key. */
  lemma NoHolder<K(!new)>(o: Order<K>, t: Topology, ranges: seq<Range<K>>, s: seq<Entry<K>>, key: K, index: nat)
    requires Lawful(o) && Represents(o, t, ranges, Resolver(s)) && index <= |s|
    requires forall h: nat :: h < index ==> !o.lt(key, s[h].end)
    requires index < |s| ==> o.lt(key, s[index].start)
    ensures Scan(o, t, ranges, key) == Err(Leaf(ErrNoShard))
  {
    EntriesNumbered(o, t, ranges);
    var entries := Entries(o, t, ranges);
    forall i: nat | i < |ranges| ensures !Holds(o, ranges[i], key) {
      SortedMembers(o, t, ranges, entries[i]);
      var p: nat :| p < |s| && s[p] == entries[i];
      if index < p {
        ChainOrder(o, s, index, p);
        assert s[index] in s && Proper(o, s[index]);
      }
    }
    ScanFinds(o, t, ranges, key);
  }

  lemma {:induction false} TwoPositions<K>(s: seq<Range<K>>, x: Range<K>)
    requires multiset(s)[x] >= 2
    ensures exists i: nat, j: nat :: i < j < |s| && s[i] == x && s[j] == x
  {
    var k := |s| - 1;
    assert s == s[..k] + [s[k]];
    if s[k] == x {
      assert x in multiset(s[..k]);
      var i: nat :| i < k && s[..k][i] == x;
      assert s[i] == x;
    } else {
      TwoPositions(s[..k], x);
      var i: nat, j: nat :| i < j < k && s[..k][i] == x && s[..k][j] == x;
      assert s[i] == x && s[j] == x;
    }
  }

  lemma DisjointPermuted<K(!new)>(o: Order<K>, a: seq<Range<K>>, b: seq<Range<K>>)
    requires Disjoint(o, a) && multiset(a) == multiset(b)
    ensures Disjoint(o, b)
  {
    forall i: nat, j: nat, key ensures !Shared(o, b, i, j, key) {
      if Shared(o, b, i, j, key) {
        if b[i] == b[j] {
          SamePair(b, i, j);
          TwoPositions(a, b[i]);
          var p: nat, q: nat :| p < q < |a| && a[p] == b[i] && a[q] == b[i];
          assert Shared(o, a, p, q, key);
        } else {
          assert b[i] in multiset(a) && b[j] in multiset(a);
          var p: nat :| p < |a| && a[p] == b[i];
          var q: nat :| q < |a| && a[q] == b[j];
          assert Shared(o, a, p, q, key);
        }
      }
    }
  }

  lemma SamePair<K>(b: seq<Range<K>>, i: nat, j: nat)
    requires i < |b| && j < |b| && i != j && b[i] == b[j]
    ensures multiset(b)[b[i]] >= 2
  {
    var lo, hi := if i < j then i else j, if i < j then j else i;
    assert b == b[..hi] + [b[hi]] + b[hi + 1..];
    assert b[..hi][lo] == b[i];
    assert b[i] in multiset(b[..hi]);
  }

  /** Permuting the caller's list changes neither whether it is accepted nor any answer. */
  lemma OrderOfRangesIrrelevant<K(!new)>(o: Order<K>, t: Topology, a: seq<Range<K>>, b: seq<Range<K>>, key: K)
    requires Lawful(o) && multiset(a) == multiset(b)
    ensures Faultless(o, t, a) && Disjoint(o, a) <==> Faultless(o, t, b) && Disjoint(o, b)
    ensures Faultless(o, t, a) && Disjoint(o, a) ==> Scan(o, t, a, key) == Scan(o, t, b, key)
  {
    if Faultless(o, t, a) { FaultlessPermuted(o, t, a, b); }
    if Faultless(o, t, b) { FaultlessPermuted(o, t, b, a); }
    if Disjoint(o, a) { DisjointPermuted(o, a, b); }
    if Disjoint(o, b) { DisjointPermuted(o, b, a); }
    if Faultless(o, t, a) && Disjoint(o, a) {
      EntriesNumbered(o, t, a);
      EntriesNumbered(o, t, b);
      ScanFinds(o, t, a, key);
      if Scan(o, t, a, key).Ok? {
        var r :| r in a && Holds(o, r, key) && Scan(o, t, a, key) == Ok(Lookup(t, r.shardId).value);
        assert r in multiset(b);
        var j: nat :| j < |b| && b[j] == r;
        ScanOfHolder(o, t, b, key, j);
      } else {
        ScanFinds(o, t, b, key);
        forall r | r in b ensures !Holds(o, r, key) {
          assert r in multiset(a);
        }
      }
    }
  }

  lemma FaultlessPermuted<K>(o: Order<K>, t: Topology, a: seq<Range<K>>, b: seq<Range<K>>)
    requires multiset(a) == multiset(b) && Faultless(o, t, a)
    ensures Faultless(o, t, b)
  {
    forall i: nat | i < |b| ensures Fault(o, t, b, i).None? {
      assert b[i] in multiset(a);
      var j: nat :| j < |a| && a[j] == b[i];
      assert Fault(o, t, a, j).None?;
    }
  }

  /** A NaN key belongs to no range, whatever the list. */
  lemma NaNResolvesNowhere<K(!new)>(o: Order<K>, t: Topology, ranges: seq<Range<K>>, key: K)
    requires Lawful(o) && o.nan(key) && Faultless(o, t, ranges)
    ensures Scan(o, t, ranges, key) == Err(Leaf(ErrNoShard))
  {
    EntriesNumbered(o, t, ranges);
    ScanFinds(o, t, ranges, key);
  }
}
