# Verified model of the xpg topology packages

xpg routes PostgreSQL work over shards and replicas. This project models the parts of it that
decide something without talking to PostgreSQL, and proves what they promise:

- **Fan-out** (`fanout*.dfy`). `ForEachShard` is a step relation over the calling goroutine, the
  worker goroutines, the unbuffered channel and a context that may be cancelled between any two
  steps. The context check, the callback's start and the callback's return are separate steps, and
  so are the loop guard and the select. A run is any list of enabled steps. `fanout_safety` has the
  inductive invariant, `fanout_liveness` the bound on every run and the absence of deadlock,
  `fanout_cancel` the effect of a cancellation, determinism and sequential order.
  `fanout_program` is the program over shared arrays under a scheduler that may pick any goroutine
  able to move; each of its steps is one step of the relation.
- **Rendezvous placement** (`bytes`, `encoder`, `rendezvous*.dfy`). SHA-256 is an arbitrary function
  to 32 bytes and may collide. Placement is an argmax over (score, ID); the program reuses one byte
  buffer for all candidates.
- **Range and time-range routing** (`ordered_table`, `range_resolver`, `time_range`). Keys are any
  type with a strict weak order and possibly NaN; integers, strings and floats are instances. A
  `time.Time` has a wall instant, an optional monotonic reading and a zone. The library's stable
  sort is modelled by the insertion sort it uses on short slices; `StableSortUnique` shows that any
  stable sort gives the same table. Time ranges share the table code of key ranges, at the order
  that `Before` is after normalisation.
- **Multi-key grouping** (`group`, `group_program`). A resolver may answer differently at every call;
  what the three functions compute is a function of the answers, and they are related on that level;
  `PartitionInTwoCalls` and `StatelessCallsAgree` carry this over to calls made one after another.
- **Replica selection and reads** (`selector`, `read_pool`). Concurrent callers of the wrapping ticket
  counter are a step relation; `Select` is a method on the counter field.
- **Closing** (`closing`, `closing_runs`). Pools, clusters and topologies are objects with once flags;
  a journal records what closes. Any sequence of Close calls is then described as a list of pools.

`subsequences` says what it is for a list to be the elements picked at given positions, in order; the
groupings and the joined errors are stated with it.

Where the code is finer than its documentation, the code is followed:

- The documentation of `ForEachShard` says callbacks not started are skipped once a cancellation is
  *observed*. A callback whose worker had looked at the context just before the cancellation is not
  skipped. `StartedAfterCancellation` gives the exact condition: after a cancellation a callback runs
  if and only if it had started or its worker had passed the check. `LateStarts` counts these, and
  `EveryWorkerLate` reaches the most there can be, one per worker, at every size.
- Round-robin selection is even until the 64-bit counter wraps. After that each wrap can add one to
  the difference between two replicas unless their number divides 2^64. `FairForEver` states both
  directions over the runs of the selector, and `GapIsMet` gives the uneven runs.

Conventions: a Go error variable is an `Option<Error>`, nil is `None`; errors are trees of sentinels,
`%w` layers and joins, and `Is` is `errors.Is` for a sentinel. Message text is not represented. A nil
pointer argument is `None` or `null`. Strings are byte sequences. History fields of the step relations
(`dealt`, `writes`, `started`, `returned`, `taken`) record what happened and decide nothing.

## Model

| member | source | states |
|---|---|---|
| FanOutSafety.EverySlotWrittenOnce | topology/shard/foreach.go:65-118 | in every complete run, with any schedule and a cancellation before, during or never, each slot is written exactly once: with its callback's answer if the callback started, with ctx.Err() if it did not |
| FanOutSafety.OnePlace | topology/shard/foreach.go:78-116 | in every reachable state each index is in exactly one of: not handed out, held by one worker, written; no slot is ever written twice |
| FanOutSafety.NoOverwrite | topology/shard/foreach.go:84-116 | no step reachable in any run writes a slot already written; the fill loop writes exactly the indices never handed out; a step leaves every other slot alone |
| FanOutSafety.ConcurrencyBound | topology/shard/foreach.go:78-97 | in any reachable state the callbacks that started and have not returned are no more than the concurrency limit and no more than the shards |
| FanOutSafety.RunInv | topology/shard/foreach.go:70-118 | the ownership, contents and start-once invariant holds after every run |
| FanOutLiveness.BoundedRuns | topology/shard/foreach.go:84-116 | no run under any schedule has more than 5n + min(concurrency, n) + 10 steps, so every run terminates |
| FanOutLiveness.NoDeadlock | topology/shard/foreach.go:84-110 | until the call returns some step other than a cancellation is possible, blocked sends and waiting included |
| FanOutLiveness.CanReturn | topology/shard/foreach.go:84-118 | every partial run can be completed without relying on a cancellation |
| FanOutLiveness.MaximalRunReturns | topology/shard/foreach.go:84-118 | a schedule that stops only when nothing can move has returned |
| FanOutCancel.AfterCancellation | topology/shard/foreach.go:88-107 | from a cancellation on, at most one more index is handed out, and only from inside the select; the callbacks that still start are among those already past their check, at most one per worker |
| FanOutCancel.StartedAfterCancellation | topology/shard/foreach.go:88-94 | in every complete run a callback starts iff it had started before the cancellation or its worker had passed the context check at it |
| FanOutCancel.SlotsAfterCancellation | topology/shard/foreach.go:88-118 | so a slot ends with its own callback's answer for exactly these indices and with ctx.Err() for every other |
| FanOutCancel.LateStarts | topology/shard/foreach.go:89-94 | the number of callbacks that start after the cancellation is the number past their check at it |
| FanOutCancel.EveryWorkerLate | topology/shard/foreach.go:84-107 | for every number of shards and every concurrency some complete run starts min(concurrency, shards) callbacks, all of them after the cancellation |
| FanOutCancel.HandOutAfterCancel | topology/shard/foreach.go:101-107 | the one hand-out after a cancellation does occur, for every number of shards and every concurrency |
| FanOutCancel.CancelledOnEntry | topology/shard/foreach.go:70-76 | a context cancelled before the call starts no callback, and every slot ends with its error |
| FanOutCancel.UncancelledIsMap | topology/shard/foreach.go:78-118 | without cancellation, every schedule and concurrency gives the results of a left-to-right map over the shards |
| FanOutCancel.CanAnswer | topology/shard/foreach.go:84-118 | whatever the callbacks are to answer, some uncancelled schedule completes with these answers, so the map is reached |
| FanOutCancel.SequentialOrder | topology/shard/foreach.go:84-107 | with concurrency 1 callbacks start in registration order, cancelled or not, each after the previous one returned |
| FanOutProgram.Machine.Step | topology/shard/foreach.go:84-116 | whichever goroutine is scheduled, what it does to the shared memory is one step of the relation, and some goroutine can always move |
| FanOutProgram.Machine.ReadyIsEnabled | topology/shard/foreach.go:84-116 | the scheduler may pick a goroutine exactly when the relation lets that goroutine move |
| FanOutProgram.ForEachShard | topology/shard/foreach.go:48-119 | the three argument errors; otherwise the results name the shards in registration order, each holds its callback's answer if that started and the context's error if not, all hold the latter if the context was cancelled on entry; the error joins the failures in order and is nil exactly if every callback returned nil |
| FanOutProgram.ResultsErr | topology/shard/foreach.go:20-39 | nil exactly if no shard failed; otherwise a join of the failed shards' errors, each wrapped with its shard, all of them, in registration order |
| FanOutProgram.InOrderUnique | topology/shard/foreach.go:19-39 | that order admits one list only |
| FanOutProgram.JoinedMatchesShards | topology/shard/foreach.go:19-39 | the joined error is nil iff no shard failed, and errors.Is finds a sentinel in it iff some shard's error matches |
| Bytes.PutBigEndian | topology/shard/resolver/rendezvous.go:118-121 | writes exactly the k bytes of the number at the offset and nothing else |
| Bytes.CompareSigns | topology/shard/resolver/rendezvous.go:144-148 | the three-way byte comparison and the string order agree |
| Bytes.LessByFirstDifference | topology/shard/resolver/rendezvous.go:144-148 | strings are ordered by the first byte that differs, a proper prefix first |
| Bytes.BigEndianOrder | topology/shard/resolver/encoder.go:67-90 | encodings of a fixed size are ordered like the numbers: the most significant byte comes first |
| Errors.IsFindsSentinels | topology/shard/errors.go:8-53 | errors.Is finds a sentinel at the root, under layers, behind the two typed errors and in any branch of a join, and nowhere else |
| Errors.WrappedMatches | topology/shard/group.go:106-109 | under any number of layers a sentinel matches itself and no other |
| Encoder.EncodeInt64 | topology/shard/resolver/encoder.go:67-77 | a new slice with the eight big-endian bytes of the two's complement |
| Encoder.EncodeUint64 | topology/shard/resolver/encoder.go:80-90 | a new slice with the eight big-endian bytes |
| Encoder.EncodeBytes | topology/shard/resolver/encoder.go:40-64 | a fresh copy of the same bytes |
| Encoder.TwosComplement | topology/shard/resolver/encoder.go:72 | the unsigned value is congruent to the signed key modulo 2^64 |
| Encoder.Int64RoundTrip | topology/shard/resolver/encoder.go:66-77 | signed keys and eight-byte strings correspond one to one, over the whole type |
| Encoder.Uint64RoundTrip | topology/shard/resolver/encoder.go:79-90 | unsigned keys and eight-byte strings correspond one to one |
| RendezvousFrame.FrameRoundTrip | topology/shard/resolver/rendezvous.go:71-84 | a decoder recovers namespace, key and shard ID from the bytes hashed, when all lengths fit uint32 |
| RendezvousFrame.FrameLayout | topology/shard/resolver/rendezvous.go:71-84 | the bytes hashed are the domain string, then namespace, key and ID, each behind its four-byte length, at these offsets |
| RendezvousFrame.UnframeExact | topology/shard/resolver/rendezvous.go:109-141 | the decoder accepts nothing but frames |
| RendezvousFrame.FrameInjective | topology/shard/resolver/rendezvous.go:109-141 | distinct (namespace, key, ID) triples are hashed from distinct bytes |
| RendezvousFrame.Int64FrameInjective | topology/shard/resolver/encoder.go:66-77 | and so are distinct signed integer keys |
| RendezvousFrame.Uint64FrameInjective | topology/shard/resolver/encoder.go:79-90 | and distinct unsigned integer keys |
| RendezvousPlacement.WinnerIsTop | topology/shard/resolver/rendezvous.go:125-154 | the selected shard is a registered one and beats every other ID by score, then by smaller ID |
| RendezvousPlacement.BeatsTotal | topology/shard/resolver/rendezvous.go:144-148 | with the tie-break any two IDs are ordered, even when their scores collide |
| RendezvousPlacement.BeatsTransitive | topology/shard/resolver/rendezvous.go:144-148 | the preference order is transitive |
| RendezvousPlacement.OrderIndependent | topology/shard/resolver/rendezvous.go:132-154 | placement is the same for any two topologies with the same set of IDs |
| RendezvousPlacement.PermutationKeepsShard | topology/shard/resolver/rendezvous.go:132-154 | for a permutation of one topology it is the same shard handle |
| RendezvousPlacement.PermutedTopologies | topology/shard/topology.go:25-56 | two topologies built from the same clusters in any order have the same index, place every key on the same shard, and find it again by its ID |
| RendezvousPlacement.Disruption | topology/shard/resolver/rendezvous.go:125-154 | growing a topology by any shards, a key stays iff its new placement is not a new ID; read backwards, shrinking moves no key off a remaining shard |
| RendezvousPlacement.AddingOneShard | topology/shard/resolver/rendezvous.go:125-154 | a fresh shard, registered anywhere, takes a key iff it beats the key's current shard; otherwise the key stays |
| RendezvousPlacement.RemovingOneShard | topology/shard/resolver/rendezvous.go:125-154 | removing a shard moves exactly the keys placed on it |
| Rendezvous.NewRendezvous | topology/shard/resolver/rendezvous.go:37-92 | each rejected argument's error, and for the rest the prefix and a maximum ID length covering every shard |
| Rendezvous.WriteCandidate | topology/shard/resolver/rendezvous.go:136-141 | after any earlier candidate, shorter or longer, the part to be hashed is exactly the candidate's frame and the common part is intact |
| Rendezvous.SelectShard | topology/shard/resolver/rendezvous.go:125-154 | the pass over the reused buffer hashes the frames of the candidates in order and selects the argmax of their hashes |
| Rendezvous.WinnerByHash | topology/shard/resolver/rendezvous.go:143-152 | the selected shard is a registered one, and every other has a smaller hash of its frame, or the same hash and a greater ID |
| Rendezvous.Resolve | topology/shard/resolver/rendezvous.go:95-161 | the uninitialised, encoding and size errors; otherwise the registered shard with the greatest hash of its frame, the smaller ID among equal hashes, nothing but frames being hashed |
| Topology.NewTopology | topology/shard/topology.go:25-56 | accepts exactly non-empty lists of non-nil clusters with distinct non-empty IDs, keeps their order, indexes each by its ID; otherwise reports the first cluster that is nil, has no ID or repeats one |
| Topology.LookupFindsRegistered | topology/shard/topology.go:83-91 | an ID is found iff a registered shard carries it, and then that shard |
| OrderedTable.OrderedTypes | topology/shard/resolver/range.go:17-21 | integers, strings and floats with NaN satisfy the order laws the table needs |
| OrderedTable.HalfOpen | topology/shard/resolver/range.go:12-16 | on integers a range holds start <= key < end |
| OrderedTable.HalfOpenStrings | topology/shard/resolver/range.go:12-16 | on strings the same in the bytewise order |
| OrderedTable.FloatsByValue | topology/shard/resolver/range.go:17-21 | floats are ordered by value between the infinities, the zeros are equal, NaN is unordered |
| OrderedTable.SortInPlace | topology/shard/resolver/range.go:78-83 | sorts the entry slice in place to the stable sort of what it held |
| OrderedTable.StableSortCorrect | topology/shard/resolver/range.go:78-83 | that is a permutation, sorted by start, ties in source order |
| OrderedTable.StableSortOrder | topology/shard/resolver/range.go:78-83 | no later entry starts below an earlier one, and among equal starts the caller's order is kept |
| OrderedTable.StableSortUnique | topology/shard/resolver/range.go:78-83 | there is only one such sequence, whatever algorithm sorts |
| OrderedTable.FirstEndingAfter | topology/shard/resolver/range.go:114-121 | binary search finds the first entry ending after the key |
| OrderedTable.ChainOrder | topology/shard/resolver/range.go:114-115 | upper bounds strictly increase, so the search predicate is monotonic |
| RangeResolver.ChainedMeansDisjoint | topology/shard/resolver/range.go:85-98 | comparing neighbours after sorting is enough: no two of the caller's ranges share a key |
| RangeResolver.OverlapHasKey | topology/shard/resolver/range.go:85-98 | a rejected pair of neighbours really shares a key, the later start |
| RangeResolver.NewRange | topology/shard/resolver/range.go:41-103 | accepts iff every range names a shard registered in the topology, has start < end, and no key lies in two ranges; otherwise the first unusable range with its error, an unregistered ID among them, or the first clash: the first range by start to share a key with an earlier one, and the range right before it |
| RangeResolver.FirstClashUnique | topology/shard/resolver/range.go:85-98 | only one pair can be the first clash, so the reported source indices are determined |
| RangeResolver.Resolve | topology/shard/resolver/range.go:109-136 | answers what scanning the caller's unsorted list answers, for every key, gaps, boundaries and NaN included: the registered shard of a range holding the key, or ErrNoShard when none does |
| RangeResolver.ScanFinds | topology/shard/resolver/range.go:14-16 | the scan returns the shard of a range holding the key, or ErrNoShard when none does |
| RangeResolver.OrderOfRangesIrrelevant | topology/shard/resolver/range.go:15-16 | permuting the ranges changes neither acceptance nor any answer |
| RangeResolver.NaNResolvesNowhere | topology/shard/resolver/range.go:116-125 | a NaN key resolves to ErrNoShard |
| TimeRangeResolver.RawBeforeIsCyclic | topology/shard/resolver/time_range.go:59-62 | without normalisation Before can form a cycle, so sorting and searching would be meaningless |
| TimeRangeResolver.RawComparisonMisroutes | topology/shard/resolver/time_range.go:122-130 | and a key inside a range could be refused |
| TimeRangeResolver.NewTimeRange | topology/shard/resolver/time_range.go:43-111 | accepts iff every range names a registered shard, starts before it ends as instants, and no instant lies in two; rejects and reports by the instants alone |
| TimeRangeResolver.Resolve | topology/shard/resolver/time_range.go:117-146 | the registered shard of a range with start <= key < end as instants, or ErrNoShard when there is none; the same as scanning the caller's list |
| TimeRangeResolver.OnlyInstantsMatter | topology/shard/resolver/time_range.go:148-150 | zones and monotonic readings of keys and boundaries change no acceptance and no answer |
| Grouping.FirstsInOrder | topology/shard/group.go:51-52 | group shards have distinct IDs, each is the first answer with its ID, and they come in order of these first answers |
| Grouping.GroupsAreGrouped | topology/shard/group.go:44-52 | every answered shard has one group, groups come in the order of first answers, and each holds exactly the keys answered with its shard, in input order |
| Grouping.GroupedUnique | topology/shard/group.go:44-52 | there is only one such grouping |
| Grouping.SameShardMeaning | topology/shard/group.go:10-42 | SameShard succeeds iff there are keys and all are answered with one shard ID; no keys give ErrNoShard |
| Grouping.GroupMeaning | topology/shard/group.go:53-76 | GroupByShard succeeds iff every key is answered with a shard, with that grouping |
| Grouping.PartitionMeaning | topology/shard/group.go:82-122 | PartitionByShard succeeds when every key is answered with a shard or with ErrNoShard under any number of layers, and fails on any other sentinel; the keys set aside are those without a shard, in input order |
| Grouping.KeysConserved | topology/shard/group.go:78-80 | the keys of all groups and the unresolved keys are together exactly the input keys |
| Grouping.SameShardIsOneGroup | topology/shard/group.go:8-9 | for non-empty keys SameShard succeeds iff GroupByShard gives one group, which has that shard and all keys |
| Grouping.PartitionGroupsResolvable | topology/shard/group.go:78-80 | the partition's groups are the strict grouping of the resolvable keys |
| Grouping.StrictIsTolerantWithoutRest | topology/shard/group.go:86-88 | GroupByShard succeeds iff PartitionByShard succeeds with nothing unresolved, and then with the same groups |
| Grouping.GroupsOfConcat | topology/shard/group.go:62-75 | grouping a concatenation is merging the two groupings |
| Grouping.PartitionOfConcat | topology/shard/group.go:103-121 | the same for partitions, unresolved keys included, and when either part fails |
| Grouping.SameShardReportsEarliest | topology/shard/group.go:19-39 | the failure or mismatch reported is that of the earliest such key, with the first key's shard as the expected one |
| Grouping.GroupingReportsEarliest | topology/shard/group.go:62-66 | the grouping functions report the earliest failure, the tolerant one the earliest that is not ErrNoShard |
| GroupProgram.SameShard | topology/shard/group.go:10-42 | result by the answers, earliest failure or mismatch first; asks each key once in order and stops there |
| GroupProgram.AddKeyToGroup | topology/shard/group.go:124-142 | keeps the index map pointing at the group with its ID and extends the grouping by one key |
| GroupProgram.GroupByShard | topology/shard/group.go:53-76 | groups in order of first appearance with exactly their keys in order; asks each key once in order, stops at the first failure |
| GroupProgram.PartitionByShard | topology/shard/group.go:89-122 | the same with ErrNoShard, wrapped or not, setting keys aside in order |
| GroupProgram.AskedByResult | topology/shard/group.go:10-122 | on success all keys were asked; on failure those up to the one reported |
| GroupProgram.StatelessCallsAgree | topology/shard/group.go:10-122 | with a resolver that depends on the key alone, the three functions agree whenever each is called: SameShard succeeds iff GroupByShard gives one group, of all keys, and PartitionByShard then gives it too |
| GroupProgram.PartitionInTwoCalls | topology/shard/group.go:89-122 | two calls on one resolver, the second starting from the history the first left, merge to one call on the concatenated keys; a failure of either is the failure of the one call, at its position in the whole list |
| Selector.RoundRobinSelector.Select | topology/cluster/selector.go:81-94 | no replica, one replica, or the ticket modulo the number of replicas; the counter moves by one and wraps |
| Selector.UncontendedCall | topology/cluster/selector.go:91-93 | a call alone in the step relation of concurrent callers does what that method does |
| Selector.FairUnderConcurrency | topology/cluster/selector.go:71-94 | under any interleaving of concurrent calls indices are valid and loads differ by at most one before the counter wraps and wraps + 1 after |
| Selector.GapIsMet | topology/cluster/selector.go:91-93 | that bound is reached: unless the number of replicas divides 2^64, for every number of wraps there is a run after which two loads differ by wraps + 1 |
| Selector.FairForEver | topology/cluster/selector.go:91-93 | the loads stay within one in every run iff the number of replicas divides 2^64 |
| Selector.DivModAreOperators | topology/cluster/selector.go:93 | the quotient and remainder used in the proofs are the usual operators |
| ReadRouting.NewCluster | topology/cluster/cluster.go:57-101 | accepts exactly a non-empty ID, valid pools, at least one pool and no empty label key; metadata holds the replicas' names and labels in order; otherwise the first fault in the order of the checks, or the first bad replica |
| ReadRouting.ReadPoolRoundRobin | topology/cluster/resolver.go:68-124 | with the default selector a replica policy gives the replica at the counter modulo the number of replicas, never the invalid-index error; without replicas the preferred policy gives the primary and the required one ErrNoReplica; the counter moves by one exactly when it chose |
| ReadRouting.AnySelector | topology/cluster/resolver.go:66-124 | with any selector: the replica it names, the index error outside the list, its error wrapped, or the primary exactly if the policy prefers replicas and the error is ErrNoReplica under any layers |
| ReadRouting.WithoutSelector | topology/cluster/resolver.go:68-107 | a nil cluster, an unknown policy, the primary policy and a cluster without replicas have answers that no selector changes |
| Closing.NewPool | pool.go:42-82 | a pool whose metrics registration fails is closed once and not returned; every other failure closes nothing |
| Closing.OwnedPool.Close | pool.go:111-119 | the first call logs the registration, if there is one, and then the pool; later calls log nothing |
| Closing.OwnedCluster.Close | topology/cluster/cluster.go:166-180 | the first call closes the replicas backwards and then the primary, skipping pools already closed, and leaves every one of them closed |
| Closing.ClosingOrderAt | topology/cluster/cluster.go:171-179 | the replica closed at position i is the i-th from the end, and the primary comes last |
| Closing.OwnedTopology.Close | topology/shard/topology.go:95-105 | the first call closes the clusters backwards, skipping those already closed |
| ClosingRuns.AnyCalls | topology/shard/topology.go:93-105 | any sequence of Close calls closes exactly the pools some call asks for by itself, as a replica or primary of a cluster, or through a topology, each once, in the order of their first turn; the once flags of clusters and topologies never change what closes |
| ClosingRuns.Perform | topology/shard/topology.go:95-105 | carrying any sequence of Close calls out on the objects writes exactly the log the statements here describe |
| ClosingRuns.EachClosedOnce | pool.go:109-119 | over any such sequence each registration and pool closes at most once, exactly those asked for, a registration right before its pool |
| ClosingRuns.TopologyClosesAll | topology/shard/topology.go:14-15 | after a topology's Close every pool it owns is closed, whatever was closed before or by whom |
| ClosingRuns.ShardsBackwards | topology/shard/topology.go:100-104 | a topology closed first closes a later shard's pools before an earlier shard's, shared pools at their first turn |
| ClosingRuns.ReplicasBackwards | topology/cluster/cluster.go:171-179 | and within a shard later replicas before earlier ones and all before the primary |

## Left out

- pgx and pgxpool calls, transactions, advisory locks and SQLSTATE classifiers: decided by PostgreSQL or foreign code.
- Panicking callbacks and contexts that break their contract: callbacks return, and a context's error, once set, stays the same.
- The slot write that follows a context check or a callback's return is part of that step: the slot is read by no one before `Wait` returns.
- Concurrent Close calls: `sync.Once` makes a second caller wait for the first, so calls are taken one after another.
- Resolver errors from NaN boundaries are covered by the start < end rule and have no member of their own.
- `EncodeBytes` stands for the byte-slice, 16-byte and 32-byte encoders; the string encoder is the identity on bytes.
- `Encode` of a nil encoder function, `CustomResolver`, label lookups, `ParseReadPolicy`, option setters and defensive map copies: each is settled by reading one branch.
- The distribution quality of SHA-256: the hash is arbitrary.
- The final ErrNoShard of rendezvous `Resolve` is unreachable for an initialised resolver and is an assertion here.
