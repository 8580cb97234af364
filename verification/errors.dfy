/** Error values of the library: sentinels, `%w` wrapping, the two typed routing
    errors and `errors.Join`. Message text is not represented. */
module Errors {
  import opened Bytes

  datatype Option<+T> = None | Some(value: T)

  datatype Result<+T> = Ok(value: T) | Err(error: Error)

  /** Cluster and shard identifiers: Go strings, compared bytewise. */
  type Id = seq<Byte>

  /** Leaves of an error tree. `Foreign` stands for any error made outside the library. */
  datatype Cause =
    | ErrNoShard
    | ErrUnknownShard
    | ErrShardMismatch
    | ErrNoPrimary
    | ErrNoReplica
    | Invalid(reason: Reason)
    | Foreign(tag: nat)

  /** Plain `errors.New` failures, by what they report. */
  datatype Reason =
    | NoTopology
    | BadConcurrency
    | NilCallback
    | NilResolver
    | NilCluster
    | NilEncoder
    | EmptyId
    | EmptyNamespace
    | DuplicateId(id: Id)
    | TooLarge
    | NotInitialized
    | NoRanges
    | StartNotBeforeEnd
    | Overlap(first: nat, second: nat)
    | BadPolicy
    | BadReplicaIndex(index: int)
    | NilConfig
    | InvalidPool
    | NoPool
    | EmptyLabelKey

  /** What a `fmt.Errorf("...: %w", err)` layer adds to the error below it. */
  datatype Note =
    | ResolvingKey(index: nat)
    | CallbackOf(shard: Id)
    | EncodingKey
    | AtRange(index: nat)
    | AtShard(index: nat)
    | AtReplica(index: nat)
    | SelectingReplica
    | CreatingPool
    | RegisteringMetrics
    | ClusterLabels

  datatype Error =
    | Leaf(cause: Cause)
    | Wrap(note: Note, inner: Error)
    | UnknownShard(id: Id)
    | Mismatch(expected: Id, actual: Id, index: nat)
    | Joined(errs: seq<Error>)

  /** A Go error variable: `None` is nil. */
  type Outcome = Option<Error>

  /** `errors.Is(err, target)` for a sentinel target. */
  predicate Is(err: Error, target: Cause) {
    match err
    case Leaf(cause) => cause == target
    case Wrap(_, inner) => Is(inner, target)
    case UnknownShard(_) => target == ErrUnknownShard
    case Mismatch(_, _, _) => target == ErrShardMismatch
    case Joined(errs) => exists e | e in errs :: Is(e, target)
  }

  /** `errors.Join(errs...)` of non-nil errors. */
  function JoinErrors(errs: seq<Error>): Outcome {
    if errs == [] then None else Some(Joined(errs))
  }

  /** `errors.Is` finds a sentinel at the root, below any number of layers, behind the two typed errors and in
      any branch of a join, and nowhere else. */
  lemma IsFindsSentinels(cause: Cause, note: Note, inner: Error, id: Id, index: nat, errs: seq<Error>, target: Cause)
    ensures Is(Leaf(cause), target) <==> cause == target
    ensures Is(Wrap(note, inner), target) <==> Is(inner, target)
    ensures Is(UnknownShard(id), target) <==> target == ErrUnknownShard
    ensures Is(Mismatch(id, id, index), target) <==> target == ErrShardMismatch
    ensures Is(Joined(errs), target) <==> exists e :: e in errs && Is(e, target)
  {
    if Is(Joined(errs), target) {
      var e :| e in errs && Is(e, target);
    }
  }

  /** The sentinel `cause` under any number of `%w` layers. */
  predicate Wrapped(err: Error, cause: Cause) {
    match err
    case Leaf(c) => c == cause
    case Wrap(_, inner) => Wrapped(inner, cause)
    case _ => false
  }

  lemma {:induction false} WrappedMatches(err: Error, cause: Cause, target: Cause)
    requires Wrapped(err, cause)
    ensures Is(err, target) <==> cause == target
  {
    if err.Wrap? {
      WrappedMatches(err.inner, cause, target);
    }
  }
}
