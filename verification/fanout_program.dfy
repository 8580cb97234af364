/** `ForEachShard` and `ForEachShardResults.Err` as programs that write the result
    slice in place, under a scheduler that may pick any enabled goroutine. */
module FanOutProgram {
  import opened Errors
  import opened FanOut
  import opened FanOutSafety
  import opened FanOutLiveness
  import opened FanOutCancel
  import opened Subsequences

  datatype ShardResult = ShardResult(shard: Id, err: Outcome)

  /** The failures of a result list, each wrapped with its shard, in registration order. */
  function Failures(results: seq<ShardResult>): seq<Error> {
    if results == [] then []
    else
      var last := results[|results| - 1];
      Failures(results[..|results| - 1])
      + if last.err.None? then [] else [Wrap(CallbackOf(last.shard), last.err.value)]
  }

  ghost function FailedAt(results: seq<ShardResult>): set<nat> {
    set i: nat | i < |results| && results[i].err.Some?
  }

  /** `errs` wraps the errors of the failed shards, every one of them, in registration order. */
  ghost predicate InOrderOfShards(errs: seq<Error>, results: seq<ShardResult>) {
    exists failed: seq<ShardResult> :: Picked(failed, results, FailedAt(results)) && WrapsEach(errs, failed)
  }

  ghost predicate WrapsEach(errs: seq<Error>, failed: seq<ShardResult>) {
    && |errs| == |failed|
    && forall k: nat :: k < |errs| ==>
      failed[k].err.Some? && errs[k] == Wrap(CallbackOf(failed[k].shard), failed[k].err.value)
  }

  lemma {:induction false} FailuresInOrder(results: seq<ShardResult>)
    ensures InOrderOfShards(Failures(results), results)
  {
    var none: seq<ShardResult> := [];
    if results == [] {
      NonePicked(results);
      assert FailedAt(results) == {};
      assert WrapsEach(Failures(results), none);
    } else {
      var k := |results| - 1;
      var before, last := results[..k], results[k];
      FailuresInOrder(before);
      assert results == before + [last];
      OneResultMore(before, last, Failures(before));
      var errs: seq<Error> := if last.err.None? then [] else [Wrap(CallbackOf(last.shard), last.err.value)];
      assert Failures(results) == Failures(before) + errs;
    }
  }

  lemma OneResultMore(results: seq<ShardResult>, last: ShardResult, errs: seq<Error>)
    requires InOrderOfShards(errs, results)
    ensures InOrderOfShards(
      errs + if last.err.None? then [] else [Wrap(CallbackOf(last.shard), last.err.value)], results + [last])
  {
    var failed: seq<ShardResult> :| Picked(failed, results, FailedAt(results)) && WrapsEach(errs, failed);
    if last.err.Some? {
      PickedLast(failed, results, FailedAt(results), last);
      assert FailedAt(results + [last]) == FailedAt(results) + {|results|};
      assert WrapsEach(errs + [Wrap(CallbackOf(last.shard), last.err.value)], failed + [last]);
    } else {
      PickedLonger(failed, results, FailedAt(results), last);
      assert FailedAt(results + [last]) == FailedAt(results);
      assert errs + [] == errs;
    }
  }

  /** There is only one such list. */
  lemma InOrderUnique(a: seq<Error>, b: seq<Error>, results: seq<ShardResult>)
    requires InOrderOfShards(a, results) && InOrderOfShards(b, results)
    ensures a == b
  {
    var f: seq<ShardResult> :| Picked(f, results, FailedAt(results)) && WrapsEach(a, f);
    var g: seq<ShardResult> :| Picked(g, results, FailedAt(results)) && WrapsEach(b, g);
    PickedUnique(f, g, results, FailedAt(results));
  }

  method ResultsErr(results: seq<ShardResult>) returns (joined: Outcome)
    ensures joined == JoinErrors(Failures(results))
    ensures joined.Some? <==> exists r :: r in results && r.err.Some?
    ensures joined.Some? ==> joined.value.Joined? && InOrderOfShards(joined.value.errs, results)
  {
    FailuresInOrder(results);
    JoinedIsNil(results);
    var errs: seq<Error> := [];
    for k := 0 to |results|
      invariant errs == Failures(results[..k])
    {
      assert results[..k + 1][..k] == results[..k];
      if results[k].err.None? {
        continue;
      }
      errs := errs + [Wrap(CallbackOf(results[k].shard), results[k].err.value)];
    }
    assert results[..|results|] == results;
    joined := JoinErrors(errs);
  }

  lemma {:induction false} FailuresMembers(results: seq<ShardResult>, e: Error)
    ensures e in Failures(results) <==>
      exists r :: r in results && r.err.Some? && e == Wrap(CallbackOf(r.shard), r.err.value)
  {
    if results != [] {
      var k := |results| - 1;
      FailuresMembers(results[..k], e);
      assert results == results[..k] + [results[k]];
    }
  }

  lemma JoinedIsNil(results: seq<ShardResult>)
    ensures JoinErrors(Failures(results)).None? <==> forall r :: r in results ==> r.err.None?
  {
    if Failures(results) != [] {
      var e := Failures(results)[0];
      FailuresMembers(results, e);
    } else {
      forall r | r in results ensures r.err.None? {
        if r.err.Some? {
          FailuresMembers(results, Wrap(CallbackOf(r.shard), r.err.value));
        }
      }
    }
  }

  /** The joined error is nil exactly when no shard failed, and matches exactly the sentinels some shard's
      failure matches. */
  lemma JoinedMatchesShards(results: seq<ShardResult>, target: Cause)
    ensures JoinErrors(Failures(results)).None? <==> forall r :: r in results ==> r.err.None?
    ensures (JoinErrors(Failures(results)).Some? && Is(JoinErrors(Failures(results)).value, target))
      <==> exists r :: r in results && r.err.Some? && Is(r.err.value, target)
  {
    JoinedIsNil(results);
    var errs := Failures(results);
    if r :| r in results && r.err.Some? && Is(r.err.value, target) {
      var e := Wrap(CallbackOf(r.shard), r.err.value);
      FailuresMembers(results, e);
      assert e in errs && Is(e, target);
    }
    if e :| e in errs && Is(e, target) {
      FailuresMembers(results, e);
      var r :| r in results && r.err.Some? && e == Wrap(CallbackOf(r.shard), r.err.value);
    }
  }

  /** Steps of the calling goroutine alone. */
  predicate OwnStep(a: Action) {
    a.Enter? || a.TestGuard? || a.SeeDone? || a.CloseChannel? || a.WaitDone? || a.TestFinal? || a.FillOne?
  }

  /** Steps of worker `w`. */
  predicate StepOf(a: Action, w: nat) {
    (a.Send? || a.Check? || a.Call? || a.Finish? || a.Exit?) && a.worker == w
  }

  /** The goroutines' shared memory. `s` is the abstract state the memory stands for. */
  class Machine {
    ghost var s: State
    const n: nat
    const results: array<Outcome>
    const workers: array<Worker>
    var spawned: bool
    var dispatcher: Dispatcher
    var next: nat
    var closed: bool
    var cancel: Option<Error>

    ghost predicate Valid()
      reads this, results, workers
    {
      && Inv(s)
      && s.n == n && s.dispatcher == dispatcher && s.next == next && s.closed == closed && s.cancel == cancel
      && results.Length == n && s.slots == results[..]
      && workers.Length == Min(s.limit, n)
      && s.workers == if spawned then workers[..] else []
    }

    constructor (n: nat, limit: nat, cancel: Option<Error>)
      requires 0 < n && 0 < limit
      ensures Valid() && s == Init(n, limit, cancel)
      ensures this.n == n && fresh(results) && fresh(workers)
    {
      this.n := n;
      results := new Outcome[n](_ => None);
      workers := new Worker[Min(limit, n)](_ => Idle);
      spawned, dispatcher, next, closed := false, Entry, 0, false;
      this.cancel := cancel;
      s := Init(n, limit, cancel);
      InitInv(n, limit, cancel);
    }

    /** The calling goroutine's steps, apart from handing out an index. */
    method Dispatch(a: Action)
      requires Valid() && Enabled(s, a)
      requires a.TestGuard? || a.SeeDone? || a.CloseChannel? || a.WaitDone? || a.TestFinal?
      modifies this`s, this`dispatcher, this`closed
      ensures Valid() && s == Apply(old(s), a)
    {
      StepInv(s, a);
      ghost var after := Apply(s, a);
      match a {
        case TestGuard => dispatcher := if next < n && cancel.None? then Select else CloseJobs;
        case SeeDone => dispatcher := Guard;
        case CloseChannel => closed, dispatcher := true, Wait;
        case WaitDone => dispatcher := FinalCheck;
        case TestFinal => dispatcher := if cancel.Some? then Fill(next) else Returned;
      }
      s := after;
    }

    method Start()
      requires Valid() && Enabled(s, Enter)
      modifies this`s, this`dispatcher, this`spawned, workers
      ensures Valid() && s == Apply(old(s), Enter)
    {
      if cancel.Some? {
        dispatcher := Fill(next);
      } else {
        forall w | 0 <= w < workers.Length { workers[w] := Idle; }
        spawned, dispatcher := true, Guard;
        assert workers[..] == seq(Min(s.limit, s.n), _ => Idle);
      }
      StepInv(s, Enter);
      s := Apply(s, Enter);
    }

    method FillSlot()
      requires Valid() && Enabled(s, FillOne)
      modifies this`s, this`dispatcher, results
      ensures Valid() && s == Apply(old(s), FillOne)
    {
      StepInv(s, FillOne);
      var i := dispatcher.index;
      s := Apply(s, FillOne);
      if i < n {
        results[i] := cancel;
        dispatcher := Fill(i + 1);
      } else {
        dispatcher := Returned;
      }
    }

    /** The unbuffered channel: the dispatcher's send and an idle worker's receive happen together. */
    method HandOut(w: nat)
      requires Valid() && Enabled(s, Send(w))
      modifies this`s, this`dispatcher, this`next, workers
      ensures Valid() && s == Apply(old(s), Send(w))
    {
      workers[w] := Got(next);
      next, dispatcher := next + 1, Guard;
      StepInv(s, Send(w));
      s := Apply(s, Send(w));
    }

    method CheckContext(w: nat)
      requires Valid() && Enabled(s, Check(w))
      modifies this`s, workers, results
      ensures Valid() && s == Apply(old(s), Check(w))
    {
      var i := workers[w].index;
      if cancel.Some? {
        results[i] := cancel;
        workers[w] := Idle;
      } else {
        workers[w] := Checked(i);
      }
      StepInv(s, Check(w));
      s := Apply(s, Check(w));
    }

    method CallBack(w: nat)
      requires Valid() && Enabled(s, Call(w))
      modifies this`s, workers
      ensures Valid() && s == Apply(old(s), Call(w))
    {
      workers[w] := Running(workers[w].index);
      StepInv(s, Call(w));
      s := Apply(s, Call(w));
    }

    method StoreResult(w: nat, v: Outcome)
      requires Valid() && Enabled(s, Finish(w, v))
      modifies this`s, workers, results
      ensures Valid() && s == Apply(old(s), Finish(w, v))
    {
      results[workers[w].index] := v;
      workers[w] := Idle;
      StepInv(s, Finish(w, v));
      s := Apply(s, Finish(w, v));
    }

    method Leave(w: nat)
      requires Valid() && Enabled(s, Exit(w))
      modifies this`s, workers
      ensures Valid() && s == Apply(old(s), Exit(w))
    {
      workers[w] := Exited;
      StepInv(s, Exit(w));
      s := Apply(s, Exit(w));
    }

    method CancelContext(e: Error)
      requires Valid() && Enabled(s, Cancel(e))
      modifies this`s, this`cancel
      ensures Valid() && s == Apply(old(s), Cancel(e))
    {
      cancel := Some(e);
      StepInv(s, Cancel(e));
      s := Apply(s, Cancel(e));
    }

    /** The calling goroutine can take a step of its own. */
    predicate DispatcherReady()
      reads this, workers
    {
      match dispatcher
      case Select => cancel.Some?
      case Wait => forall w :: 0 <= w < workers.Length ==> workers[w] == Exited
      case Returned => false
      case _ => true
    }

    /** Worker `w` is running and not blocked on the channel. */
    predicate WorkerReady(w: nat)
      reads this, workers
    {
      w < workers.Length && spawned &&
      match workers[w]
      case Idle => dispatcher == Select || closed
      case Exited => false
      case _ => true
    }

    method StepDispatcher() returns (ghost a: Action)
      requires Valid() && DispatcherReady()
      modifies this, workers, results
      ensures Enabled(old(s), a) && Valid() && s == Apply(old(s), a)
    {
      match dispatcher
      case Entry => a := Enter; Start();
      case Guard => a := TestGuard; Dispatch(TestGuard);
      case Select => a := SeeDone; Dispatch(SeeDone);
      case CloseJobs => a := CloseChannel; Dispatch(CloseChannel);
      case Wait => a := WaitDone; Dispatch(WaitDone);
      case FinalCheck => a := TestFinal; Dispatch(TestFinal);
      case Fill(_) => a := FillOne; FillSlot();
    }

    method StepWorker(w: nat) returns (ghost a: Action)
      requires Valid() && WorkerReady(w)
      modifies this, workers, results
      ensures Enabled(old(s), a) && Valid() && s == Apply(old(s), a)
    {
      match workers[w]
      case Idle =>
        if dispatcher == Select {
          a := Send(w); HandOut(w);
        } else {
          a := Exit(w); Leave(w);
        }
      case Got(_) => a := Check(w); CheckContext(w);
      case Checked(_) => a := Call(w); CallBack(w);
      case Running(_) =>
        var v: Outcome := *;
        a := Finish(w, v); StoreResult(w, v);
    }

    /** One step of whichever goroutine the scheduler picks, or a cancellation. */
    method Step() returns (ghost a: Action)
      requires Valid() && dispatcher != Returned
      modifies this, workers, results
      ensures Enabled(old(s), a) && Valid() && s == Apply(old(s), a)
    {
      SomeoneReady();
      if
      case DispatcherReady() => a := StepDispatcher();
      case w: nat :| w < workers.Length && WorkerReady(w) => a := StepWorker(w);
      case cancel.None? =>
        var e: Error := *;
        a := Cancel(e); CancelContext(e);
    }

    lemma OwnStepReady()
      requires Valid()
      ensures DispatcherReady() <==> exists a :: Enabled(s, a) && OwnStep(a)
    {
      if DispatcherReady() {
        var a := match dispatcher
          case Entry => Enter
          case Guard => TestGuard
          case Select => SeeDone
          case CloseJobs => CloseChannel
          case Wait => WaitDone
          case FinalCheck => TestFinal
          case _ => FillOne;
        assert Enabled(s, a) && OwnStep(a);
      }
    }

    lemma WorkerStepReady(w: nat)
      requires Valid()
      ensures WorkerReady(w) <==> exists a :: Enabled(s, a) && StepOf(a, w)
    {
      if WorkerReady(w) {
        var a := match workers[w]
          case Idle => if dispatcher == Select then Send(w) else Exit(w)
          case Got(_) => Check(w)
          case Checked(_) => Call(w)
          case _ => Finish(w, None);
        assert Enabled(s, a) && StepOf(a, w);
      }
    }

    /** Ready means that some step of that goroutine is enabled, a worker's including the receive: the scheduler
        is free to take every enabled step but a cancellation, which it can add at any time. */
    lemma ReadyIsEnabled(w: nat)
      requires Valid()
      ensures DispatcherReady() <==> exists a :: Enabled(s, a) && OwnStep(a)
      ensures WorkerReady(w) <==> exists a :: Enabled(s, a) && StepOf(a, w)
    {
      OwnStepReady();
      WorkerStepReady(w);
    }

    lemma SomeoneReady()
      requires Valid() && dispatcher != Returned
      ensures DispatcherReady() || exists w: nat :: w < workers.Length && WorkerReady(w)
    {
      var a := NoDeadlock(s);
      if a.Send? || a.Check? || a.Call? || a.Finish? || a.Exit? {
        assert WorkerReady(a.worker);
      }
    }
  }

  /** Lets the goroutines run, in whatever order the scheduler picks, until the call is about to return. */
  method RunToReturn(n: nat, limit: nat, cancel: Option<Error>) returns (m: Machine, ghost run: seq<Action>)
    requires 0 < n && 0 < limit
    ensures fresh(m) && fresh(m.results) && m.Valid() && m.n == n
    ensures Complete(n, limit, cancel, run) && Exec(Init(n, limit, cancel), run) == m.s
  {
    run := [];
    m := new Machine(n, limit, cancel);
    ghost var init := m.s;
    while m.dispatcher != Returned
      invariant m.Valid() && m.n == n && fresh(m) && fresh(m.results) && fresh(m.workers)
      invariant Runs(init, run) && Exec(init, run) == m.s
      decreases Potential(m.s)
    {
      PotentialNonNegative(m.s);
      label before:
      ghost var a := m.Step();
      StepPotential(old@before(m.s), a);
      PotentialNonNegative(m.s);
      RunsSnoc(init, run, a);
      run := run + [a];
    }
  }

  /** `ids` are the topology's shard IDs, none for a nil or empty topology; `cancel` is the context's error on entry.
      `run` is the schedule that happened: what it says of started and returned callbacks explains every slot. */
  method ForEachShard(ids: seq<Id>, concurrency: int, hasCallback: bool, cancel: Option<Error>)
    returns (results: seq<ShardResult>, err: Outcome, ghost run: seq<Action>)
    ensures ids == [] ==> results == [] && err == Some(Leaf(Invalid(NoTopology)))
    ensures ids != [] && concurrency <= 0 ==> results == [] && err == Some(Leaf(Invalid(BadConcurrency)))
    ensures ids != [] && 0 < concurrency && !hasCallback ==> results == [] && err == Some(Leaf(Invalid(NilCallback)))
    ensures ids != [] && 0 < concurrency && hasCallback ==>
      && Complete(|ids|, concurrency, cancel, run)
      && |run| <= 5 * |ids| + Min(concurrency, |ids|) + 10
      && |results| == |ids|
      && err == JoinErrors(Failures(results))
      && (err.Some? ==> err.value.Joined? && InOrderOfShards(err.value.errs, results))
      && (forall i: nat :: i < |ids| ==>
            && results[i].shard == ids[i]
            && var t := Exec(Init(|ids|, concurrency, cancel), run);
            if i in t.started then i in t.returned && results[i].err == t.returned[i]
            else t.cancel.Some? && results[i].err == t.cancel)
      && (cancel.Some? ==> forall i: nat :: i < |ids| ==> results[i].err == cancel)
      && (err.None? <==> forall i: nat :: i < |ids| ==>
            var t := Exec(Init(|ids|, concurrency, cancel), run); i in t.returned && t.returned[i].None?)
  {
    run := [];
    if |ids| == 0 {
      return [], Some(Leaf(Invalid(NoTopology))), [];
    }
    if concurrency <= 0 {
      return [], Some(Leaf(Invalid(BadConcurrency))), [];
    }
    if !hasCallback {
      return [], Some(Leaf(Invalid(NilCallback))), [];
    }
    var m;
    m, run := RunToReturn(|ids|, concurrency, cancel);
    results := seq(|ids|, i requires 0 <= i < |ids| reads m, m.results requires m.results.Length == |ids| =>
      ShardResult(ids[i], m.results[i]));
    err := ResultsErr(results);
    Summary(ids, concurrency, cancel, run, results);
  }

  /** What the final memory of a complete run says about the results built from it. */
  lemma Summary(ids: seq<Id>, concurrency: int, cancel: Option<Error>, run: seq<Action>, results: seq<ShardResult>)
    requires 0 < concurrency && Complete(|ids|, concurrency, cancel, run)
    requires |results| == |ids| == |Exec(Init(|ids|, concurrency, cancel), run).slots|
    requires forall i: nat :: i < |ids| ==>
      results[i] == ShardResult(ids[i], Exec(Init(|ids|, concurrency, cancel), run).slots[i])
    ensures var t := Exec(Init(|ids|, concurrency, cancel), run);
      && |run| <= 5 * |ids| + Min(concurrency, |ids|) + 10
      && (forall i: nat :: i < |ids| ==>
            if i in t.started then i in t.returned && results[i].err == t.returned[i]
            else t.cancel.Some? && results[i].err == t.cancel)
      && (JoinErrors(Failures(results)).None? <==>
            forall i: nat :: i < |ids| ==> i in t.returned && t.returned[i].None?)
      && (cancel.Some? ==> forall i: nat :: i < |ids| ==> results[i].err == cancel)
  {
    if cancel.Some? {
      CancelledOnEntry(|ids|, concurrency, cancel.value, run);
    }
    BoundedRuns(|ids|, concurrency, cancel, run);
    var t := Exec(Init(|ids|, concurrency, cancel), run);
    forall i: nat | i < |ids|
      ensures results[i] in results
      ensures if i in t.started then i in t.returned && results[i].err == t.returned[i]
              else t.cancel.Some? && results[i].err == t.cancel
      ensures (i in t.returned && t.returned[i].None?) <==> results[i].err.None?
    {
      EverySlotWrittenOnce(|ids|, concurrency, cancel, run, i);
    }
    JoinedIsNil(results);
  }
}
