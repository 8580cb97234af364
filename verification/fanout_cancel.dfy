/** Cancellation, determinism and sequential execution of `ForEachShard`. */
module FanOutCancel {
  import opened Errors
  import opened FanOut
  import opened FanOutSafety
  import opened FanOutLiveness

  /** Indices the dispatcher may still hand out once the context is cancelled. */
  function Credit(s: State): nat { if s.dispatcher == Select then 1 else 0 }

  /** How a state `t` later than the cancelled state `s` is limited by `s`. */
  ghost predicate LaterThan(s: State, t: State) {
    && t.cancel == s.cancel
    && s.next <= t.next
    && t.next + Credit(t) <= s.next + Credit(s)
    && |s.workers| <= |t.workers|
    && s.started <= t.started
    && (forall w: nat :: w < |t.workers| && t.workers[w].Checked? ==> w < |s.workers| && s.workers[w] == t.workers[w])
    && (forall i :: i in t.started && i !in s.started ==>
          exists w: nat :: w < |s.workers| && s.workers[w] == Checked(i))
  }

  lemma StepLater(s: State, t: State, a: Action)
    requires s.cancel.Some? && LaterThan(s, t) && Enabled(t, a)
    ensures LaterThan(s, Apply(t, a))
  {
  }

  lemma {:induction false} RunLater(s: State, t: State, run: seq<Action>)
    requires s.cancel.Some? && LaterThan(s, t) && Runs(t, run)
    ensures LaterThan(s, Exec(t, run))
    decreases |run|
  {
    if run != [] {
      StepLater(s, t, run[0]);
      RunLater(s, Apply(t, run[0]), run[1..]);
    }
  }

  /** Indices whose worker had passed the context check when the context was cancelled. */
  ghost function PastCheck(s: State): set<nat> { CheckedIndices(s.workers) }

  ghost function CheckedIndices(workers: seq<Worker>): set<nat> {
    set w: nat | w < |workers| && workers[w].Checked? :: workers[w].index
  }

  lemma {:induction false} CheckedSet(workers: seq<Worker>)
    ensures |CheckedIndices(workers)| <= |workers|
  {
    if workers == [] {
      assert CheckedIndices(workers) == {};
    } else {
      var k := |workers| - 1;
      CheckedSet(workers[..k]);
      var rest := CheckedIndices(workers[..k]);
      if workers[k].Checked? {
        assert CheckedIndices(workers) == rest + {workers[k].index};
      } else {
        assert CheckedIndices(workers) == rest;
      }
    }
  }

  lemma {:induction false} DistinctWithin(xs: seq<nat>, s: set<nat>)
    requires forall a: nat, b: nat :: a < b < |xs| ==> xs[a] != xs[b]
    requires forall x :: x in xs ==> x in s
    ensures |xs| <= |s|
  {
    if xs != [] {
      DistinctWithin(xs[1..], s - {xs[0]});
    }
  }

  /** From the cancellation on, whatever happens: the dispatcher hands out at most one more index, and only
      if it is inside the select; the only callbacks that still start are those already past their check,
      at most one per worker. */
  lemma AfterCancellation(s: State, run: seq<Action>)
    requires Inv(s) && s.cancel.Some? && Runs(s, run)
    ensures var t := Exec(s, run);
      && t.cancel == s.cancel
      && t.next <= s.next + (if s.dispatcher == Select then 1 else 0)
      && s.started <= t.started
      && (forall i :: i in t.started[|s.started|..] ==> i in PastCheck(s))
      && |t.started| <= |s.started| + |PastCheck(s)|
      && |PastCheck(s)| <= |s.workers|
  {
    RunLater(s, s, run);
    RunInv(s, run);
    var t := Exec(s, run);
    var late := t.started[|s.started|..];
    forall i | i in late ensures i in PastCheck(s) {
      var k :| 0 <= k < |late| && late[k] == i;
      assert t.started[|s.started| + k] == i;
      assert i !in s.started;
      var w: nat :| w < |s.workers| && s.workers[w] == Checked(i);
      assert s.workers[w].index in CheckedIndices(s.workers);
    }
    DistinctWithin(late, PastCheck(s));
    CheckedSet(s.workers);
  }

  lemma Extend(s: State, run: seq<Action>, a: Action) returns (longer: seq<Action>)
    requires Runs(s, run) && Enabled(Exec(s, run), a)
    ensures longer == run + [a] && Runs(s, longer) && Exec(s, longer) == Apply(Exec(s, run), a)
  {
    RunsSnoc(s, run, a);
    longer := run + [a];
  }

  lemma NotStartedLater(s: State, run: seq<Action>, i: nat)
    requires Inv(s) && s.cancel.Some? && Runs(s, run)
    requires i !in s.started && i !in PastCheck(s)
    ensures i !in Exec(s, run).started
  {
    AfterCancellation(s, run);
    var t := Exec(s, run);
    assert t.started == s.started + t.started[|s.started|..];
  }

  /** The callback of `i` has started, or its worker is past the check and about to start it. */
  ghost predicate Bound(s: State, i: nat) {
    i in s.started || exists w: nat :: w < |s.workers| && s.workers[w] == Checked(i)
  }

  lemma StepStaysBound(s: State, a: Action, i: nat)
    requires Shape(s) && Enabled(s, a) && Bound(s, i)
    ensures Bound(Apply(s, a), i)
  {
    if i !in s.started {
      var w: nat :| w < |s.workers| && s.workers[w] == Checked(i);
      var t := Apply(s, a);
      if a == Call(w) {
        assert i in t.started;
      } else {
        assert w < |t.workers| && t.workers[w] == Checked(i);
      }
    }
  }

  lemma {:induction false} RunStaysBound(s: State, run: seq<Action>, i: nat)
    requires Inv(s) && Runs(s, run) && Bound(s, i)
    ensures Bound(Exec(s, run), i)
    decreases |run|
  {
    if run != [] {
      StepInv(s, run[0]);
      StepStaysBound(s, run[0], i);
      RunStaysBound(Apply(s, run[0]), run[1..], i);
    }
  }

  /** A callback past its check starts, cancelled or not, by the time the call returns. */
  lemma BoundStarts(s: State, run: seq<Action>, i: nat)
    requires Inv(s) && Runs(s, run) && Exec(s, run).dispatcher == Returned && Bound(s, i)
    ensures i in Exec(s, run).started
  {
    RunInv(s, run);
    RunStaysBound(s, run, i);
  }

  /** Which callbacks run although the context is cancelled: exactly those started before the cancellation
      and those past their check at it. */
  lemma StartedAfterCancellation(s: State, run: seq<Action>, i: nat)
    requires Inv(s) && s.cancel.Some? && Runs(s, run) && Exec(s, run).dispatcher == Returned
    ensures i in Exec(s, run).started <==> i in s.started || i in PastCheck(s)
    ensures i in PastCheck(s) <==> exists w: nat :: w < |s.workers| && s.workers[w] == Checked(i)
  {
    if i in s.started || i in PastCheck(s) {
      BoundStarts(s, run, i);
    } else {
      NotStartedLater(s, run, i);
    }
  }

  /** So a slot ends with its own callback's answer for exactly these, and with ctx.Err() for the rest. */
  lemma SlotsAfterCancellation(s: State, run: seq<Action>, i: nat)
    requires Inv(s) && s.cancel.Some? && i < s.n
    requires Runs(s, run) && Exec(s, run).dispatcher == Returned
    ensures var t := Exec(s, run);
      && |t.slots| == s.n
      && (i in t.returned <==> i in s.started || i in PastCheck(s))
      && t.slots[i] == if i in s.started || i in PastCheck(s) then t.returned[i] else s.cancel
  {
    RunInv(s, run);
    InputsKept(s, run);
    AfterCancellation(s, run);
    StartedAfterCancellation(s, run, i);
  }

  lemma CheckedNotStarted(s: State, i: nat)
    requires Inv(s) && i in PastCheck(s)
    ensures i !in s.started
  {
    var w: nat :| w < |s.workers| && s.workers[w].Checked? && s.workers[w].index == i;
    assert s.dealt[i] == w && s.writes[i] == 0;
  }

  lemma {:induction false} Covers(xs: seq<nat>, s: set<nat>)
    requires forall x :: x in s ==> x in xs
    ensures |s| <= |xs|
  {
    if xs == [] {
      assert s == {};
    } else {
      Covers(xs[1..], s - {xs[0]});
    }
  }

  /** How many callbacks still start after a cancellation: as many as were past their check. */
  lemma LateStarts(s: State, run: seq<Action>)
    requires Inv(s) && s.cancel.Some? && Runs(s, run) && Exec(s, run).dispatcher == Returned
    ensures |Exec(s, run).started| == |s.started| + |PastCheck(s)|
  {
    AfterCancellation(s, run);
    var t := Exec(s, run);
    var late := t.started[|s.started|..];
    assert t.started == s.started + late;
    forall i | i in PastCheck(s) ensures i in late {
      StartedAfterCancellation(s, run, i);
      CheckedNotStarted(s, i);
    }
    Covers(late, PastCheck(s));
  }

  /** A cancellation inside the select can still be followed by a hand-out. */
  lemma HandOutAfterCancel(n: nat, limit: nat, e: Error) returns (run: seq<Action>)
    requires 0 < n && 0 < limit
    ensures Runs(Init(n, limit, None), run)
    ensures var s := Exec(Init(n, limit, None), run);
      s.cancel == Some(e) && Enabled(s, Send(0)) && Apply(s, Send(0)).next == s.next + 1
  {
    var s := Init(n, limit, None);
    run := [];
    run := Extend(s, run, Enter);
    run := Extend(s, run, TestGuard);
    run := Extend(s, run, Cancel(e));
  }

  /** The first `k` workers hold the first `k` shards, past their checks; nothing has started. */
  ghost predicate Poised(s: State, k: nat) {
    && s.dispatcher == Guard && s.cancel.None? && s.started == []
    && s.next == k <= s.n && |s.slots| == |s.writes| == s.n
    && k <= |s.workers|
    && (forall w: nat :: w < k ==> s.workers[w] == Checked(w))
    && (forall w: nat :: k <= w < |s.workers| ==> s.workers[w] == Idle)
  }

  lemma {:induction false} PoiseWorkers(n: nat, limit: nat, k: nat) returns (run: seq<Action>)
    requires 0 < n && 0 < limit && k <= Min(limit, n)
    ensures Runs(Init(n, limit, None), run)
    ensures var s := Exec(Init(n, limit, None), run);
      s.n == n && |s.workers| == Min(limit, n) && Poised(s, k)
  {
    var s := Init(n, limit, None);
    if k == 0 {
      run := [];
      run := Extend(s, run, Enter);
    } else {
      run := PoiseWorkers(n, limit, k - 1);
      run := Extend(s, run, TestGuard);
      run := Extend(s, run, Send(k - 1));
      run := Extend(s, run, Check(k - 1));
    }
  }

  lemma PoisedSet(s: State)
    requires Poised(s, |s.workers|)
    ensures |PastCheck(s)| == |s.workers|
  {
    var all := seq(|s.workers|, i requires 0 <= i => i);
    forall i | i in all ensures i in PastCheck(s) {
      assert s.workers[i] == Checked(i);
    }
    DistinctWithin(all, PastCheck(s));
    CheckedSet(s.workers);
  }

  /** The limit of one late callback per worker is met at every size: for every number of shards and every
      concurrency some complete run starts min(concurrency, n) callbacks, all after the cancellation. */
  lemma EveryWorkerLate(n: nat, limit: nat, e: Error) returns (run: seq<Action>, rest: seq<Action>)
    requires 0 < n && 0 < limit
    ensures Runs(Init(n, limit, None), run)
    ensures var s := Exec(Init(n, limit, None), run);
      && s.cancel == Some(e) && s.started == []
      && Runs(s, rest) && Exec(s, rest).dispatcher == Returned
      && |Exec(s, rest).started| == if limit < n then limit else n
  {
    var init := Init(n, limit, None);
    run := PoiseWorkers(n, limit, Min(limit, n));
    PoisedSet(Exec(init, run));
    ghost var poised := Exec(init, run);
    run := Extend(init, run, Cancel(e));
    var s := Exec(init, run);
    assert PastCheck(s) == PastCheck(poised);
    InitInv(n, limit, None);
    RunInv(init, run);
    rest := CanReturn(s);
    LateStarts(s, rest);
  }

  /** A context cancelled before the call starts no callback: every slot ends with its error. */
  lemma CancelledOnEntry(n: nat, limit: nat, e: Error, run: seq<Action>)
    requires Complete(n, limit, Some(e), run)
    ensures var t := Exec(Init(n, limit, Some(e)), run);
      t.started == [] && |t.slots| == n && forall i: nat :: i < n ==> t.slots[i] == Some(e)
  {
    var s := Init(n, limit, Some(e));
    InitInv(n, limit, Some(e));
    assert PastCheck(s) == {};
    LateStarts(s, run);
    SlotsAfterCancellation(s, run, 0);
    forall i: nat | i < n ensures Exec(s, run).slots[i] == Some(e) {
      SlotsAfterCancellation(s, run, i);
    }
  }

  /** Every callback that returns in this run returns what `fn` says for its shard. */
  ghost predicate Answers(s: State, run: seq<Action>, fn: nat -> Outcome)
    requires Runs(s, run)
    decreases |run|
  {
    run == [] || (
      && (run[0].Finish? ==> run[0].result == fn(s.workers[run[0].worker].index))
      && Answers(Apply(s, run[0]), run[1..], fn))
  }

  lemma {:induction false} ReturnedByFn(s: State, run: seq<Action>, fn: nat -> Outcome)
    requires Runs(s, run) && Answers(s, run, fn)
    requires forall i :: i in s.returned ==> s.returned[i] == fn(i)
    ensures forall i :: i in Exec(s, run).returned ==> Exec(s, run).returned[i] == fn(i)
    decreases |run|
  {
    if run != [] {
      ReturnedByFn(Apply(s, run[0]), run[1..], fn);
    }
  }

  /** Some step other than a cancellation, with `fn`'s answer if it is a callback's return. */
  lemma NextAnswer(s: State, fn: nat -> Outcome) returns (a: Action)
    requires Inv(s) && s.dispatcher != Returned
    ensures Enabled(s, a) && Apply(s, a).cancel == s.cancel
    ensures a.Finish? ==> a.result == fn(s.workers[a.worker].index)
  {
    a := NoDeadlock(s);
    if a.Finish? {
      a := Finish(a.worker, fn(s.workers[a.worker].index));
    }
  }

  /** Whatever the callbacks are to answer, some schedule completes with these answers and no cancellation. */
  lemma {:induction false} CanAnswer(s: State, fn: nat -> Outcome) returns (rest: seq<Action>)
    requires Inv(s)
    ensures Runs(s, rest) && Exec(s, rest).dispatcher == Returned && Answers(s, rest, fn)
    ensures Exec(s, rest).cancel == s.cancel
    decreases Potential(s)
  {
    rest := [];
    if s.dispatcher != Returned {
      var a := NextAnswer(s, fn);
      StepInv(s, a);
      StepPotential(s, a);
      PotentialNonNegative(s);
      PotentialNonNegative(Apply(s, a));
      var tail := CanAnswer(Apply(s, a), fn);
      rest := [a] + tail;
      assert rest[1..] == tail;
    }
  }

  /** If the context is not cancelled by the time the call returns, every schedule and every concurrency
      gives the results of calling `fn` on the shards from left to right. */
  lemma UncancelledIsMap(n: nat, limit: nat, run: seq<Action>, fn: nat -> Outcome)
    requires Complete(n, limit, None, run) && Answers(Init(n, limit, None), run, fn)
    requires Exec(Init(n, limit, None), run).cancel.None?
    ensures Exec(Init(n, limit, None), run).slots == seq(n, i requires 0 <= i => fn(i))
  {
    var t := Exec(Init(n, limit, None), run);
    ReturnedByFn(Init(n, limit, None), run, fn);
    forall i: nat | i < n
      ensures |t.slots| == n && t.slots[i] == fn(i)
    {
      EverySlotWrittenOnce(n, limit, None, run, i);
    }
    EverySlotWrittenOnce(n, limit, None, run, 0);
  }

  /** With one worker, callbacks start in registration order. */
  ghost predicate InOrder(s: State) {
    && |s.workers| <= 1
    && |s.started| <= s.next
    && (forall k: nat :: k < |s.started| ==> s.started[k] == k)
    && (|s.workers| == 0 ==> s.started == [])
    && (|s.workers| == 1 ==>
          match s.workers[0]
          case Idle => s.cancel.None? ==> |s.started| == s.next
          case Got(i) => i + 1 == s.next && |s.started| <= i && (s.cancel.None? ==> |s.started| == i)
          case Checked(i) => i + 1 == s.next && |s.started| == i
          case Running(i) => i + 1 == s.next && |s.started| == i + 1
          case Exited => true)
  }

  lemma WorkerInOrder(s: State, a: Action)
    requires Shape(s) && s.limit == 1 && InOrder(s) && Enabled(s, a)
    requires a.Check? || a.Call? || a.Finish? || a.Exit?
    ensures InOrder(Apply(s, a))
  {
  }

  lemma StepInOrder(s: State, a: Action)
    requires Shape(s) && s.limit == 1 && InOrder(s) && Enabled(s, a)
    ensures InOrder(Apply(s, a))
  {
    if a.Check? || a.Call? || a.Finish? || a.Exit? {
      WorkerInOrder(s, a);
    }
  }

  lemma {:induction false} RunInOrder(s: State, run: seq<Action>)
    requires Inv(s) && s.limit == 1 && InOrder(s) && Runs(s, run)
    ensures InOrder(Exec(s, run))
    decreases |run|
  {
    if run != [] {
      StepInOrder(s, run[0]);
      StepInv(s, run[0]);
      RunInOrder(Apply(s, run[0]), run[1..]);
    }
  }

  /** With concurrency 1 the callbacks that start, cancelled or not, are a prefix of the shards in
      registration order; one starts only after all earlier ones returned. */
  lemma SequentialOrder(n: nat, cancel: Option<Error>, run: seq<Action>)
    requires 0 < n && Runs(Init(n, 1, cancel), run)
    ensures var t := Exec(Init(n, 1, cancel), run);
      && (forall k: nat :: k < |t.started| ==> t.started[k] == k)
      && (forall k: nat :: k + 1 < |t.started| ==> k in t.returned)
      && |Active(t)| <= 1
  {
    InitInv(n, 1, cancel);
    RunInOrder(Init(n, 1, cancel), run);
    RunInv(Init(n, 1, cancel), run);
    ConcurrencyBound(n, 1, cancel, run);
    var t := Exec(Init(n, 1, cancel), run);
    forall k: nat | k + 1 < |t.started|
      ensures k in t.returned
    {
      assert t.started[k] == k;
      assert k in t.started;
    }
  }
}
