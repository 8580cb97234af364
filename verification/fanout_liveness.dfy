/** `ForEachShard` always returns: no schedule deadlocks and none runs for ever. */
module FanOutLiveness {
  import opened Errors
  import opened FanOut
  import opened FanOutSafety

  /** Steps a worker may still take before it is gone. */
  function Left(w: Worker): nat {
    match w
    case Exited => 0
    case Idle => 1
    case Running(_) => 2
    case Checked(_) => 3
    case Got(_) => 4
  }

  function WorkersLeft(workers: seq<Worker>): nat {
    if workers == [] then 0 else WorkersLeft(workers[..|workers| - 1]) + Left(workers[|workers| - 1])
  }

  function DispatcherLeft(s: State): int {
    var rest := s.n - s.next;
    match s.dispatcher
    case Entry => 5 * s.n + 9 + Min(s.limit, s.n)
    case Guard => 5 * rest + if s.cancel.Some? then 6 else 8
    case Select => 5 * rest + 7
    case CloseJobs => rest + 5
    case Wait => rest + 4
    case FinalCheck => rest + 3
    case Fill(i) => s.n - i + 1
    case Returned => 0
  }

  /** An upper bound on the number of steps still to come. */
  function Potential(s: State): int {
    DispatcherLeft(s) + WorkersLeft(s.workers) + if s.cancel.Some? then 0 else 1
  }

  lemma {:induction false} WorkersLeftUpdate(workers: seq<Worker>, w: nat, pc: Worker)
    requires w < |workers|
    ensures WorkersLeft(workers[w := pc]) == WorkersLeft(workers) - Left(workers[w]) + Left(pc)
  {
    var k := |workers| - 1;
    if w == k {
      assert workers[w := pc][..k] == workers[..k];
    } else {
      WorkersLeftUpdate(workers[..k], w, pc);
      assert workers[w := pc][..k] == workers[..k][w := pc];
    }
  }

  lemma {:induction false} IdleWorkersLeft(workers: seq<Worker>)
    requires forall w: nat :: w < |workers| ==> workers[w] == Idle
    ensures WorkersLeft(workers) == |workers|
  {
    if workers != [] {
      IdleWorkersLeft(workers[..|workers| - 1]);
    }
  }

  /** A step that only brings one worker closer to its end lowers the potential. */
  lemma WorkerPotential(s: State, t: State, w: nat, pc: Worker)
    requires w < |s.workers| && Left(pc) < Left(s.workers[w])
    requires t.workers == s.workers[w := pc] && t.dispatcher == s.dispatcher && t.cancel == s.cancel
    requires t.n == s.n && t.limit == s.limit && t.next == s.next
    ensures Potential(t) < Potential(s)
  {
    WorkersLeftUpdate(s.workers, w, pc);
  }

  lemma EnterPotential(s: State)
    requires Shape(s) && Enabled(s, Enter)
    ensures Potential(Apply(s, Enter)) < Potential(s)
  {
    IdleWorkersLeft(seq(Min(s.limit, s.n), _ => Idle));
  }

  lemma SendPotential(s: State, w: nat)
    requires Shape(s) && Enabled(s, Send(w))
    ensures Potential(Apply(s, Send(w))) < Potential(s)
  {
    WorkersLeftUpdate(s.workers, w, Got(s.next));
  }

  lemma DispatcherPotential(s: State, a: Action)
    requires Shape(s) && Enabled(s, a) && Apply(s, a).workers == s.workers
    requires a.TestGuard? || a.SeeDone? || a.CloseChannel? || a.WaitDone? || a.TestFinal? || a.FillOne? || a.Cancel?
    ensures Potential(Apply(s, a)) < Potential(s)
  {
  }

  lemma StepPotential(s: State, a: Action)
    requires Shape(s) && Enabled(s, a)
    ensures Potential(Apply(s, a)) < Potential(s)
  {
    match a
    case Enter => EnterPotential(s);
    case Send(w) => SendPotential(s, w);
    case Check(w) =>
      WorkerPotential(s, Apply(s, a), w, if s.cancel.Some? then Idle else Checked(s.workers[w].index));
    case Call(w) => WorkerPotential(s, Apply(s, a), w, Running(s.workers[w].index));
    case Finish(w, _) => WorkerPotential(s, Apply(s, a), w, Idle);
    case Exit(w) => WorkerPotential(s, Apply(s, a), w, Exited);
    case _ => DispatcherPotential(s, a);
  }

  lemma PotentialNonNegative(s: State)
    requires Inv(s)
    ensures 0 <= Potential(s)
  {
  }

  lemma {:induction false} RunPotential(s: State, run: seq<Action>)
    requires Inv(s) && Runs(s, run)
    ensures |run| + Potential(Exec(s, run)) <= Potential(s)
    decreases |run|
  {
    if run != [] {
      StepInv(s, run[0]);
      StepPotential(s, run[0]);
      RunPotential(Apply(s, run[0]), run[1..]);
    }
  }

  /** No schedule is longer than this, whatever the callbacks return and whenever the context is cancelled. */
  lemma BoundedRuns(n: nat, limit: nat, cancel: Option<Error>, run: seq<Action>)
    requires 0 < n && 0 < limit && Runs(Init(n, limit, cancel), run)
    ensures |run| <= 5 * n + Min(limit, n) + 10
  {
    InitInv(n, limit, cancel);
    RunPotential(Init(n, limit, cancel), run);
    RunInv(Init(n, limit, cancel), run);
    PotentialNonNegative(Exec(Init(n, limit, cancel), run));
  }

  /** The step a given worker can take when it is not waiting for the channel. */
  function WorkerStep(s: State, w: nat): Action
    requires w < |s.workers|
  {
    match s.workers[w]
    case Got(_) => Check(w)
    case Checked(_) => Call(w)
    case Running(_) => Finish(w, None)
    case _ => Exit(w)
  }

  /** Until it returns, some step other than a cancellation can be taken: a blocked send is released by
      a worker or by the context, a waiting dispatcher by its workers. */
  lemma NoDeadlock(s: State) returns (a: Action)
    requires Inv(s) && s.dispatcher != Returned
    ensures !a.Cancel? && Enabled(s, a)
  {
    match s.dispatcher
    case Entry => a := Enter;
    case Guard => a := TestGuard;
    case Select =>
      a := if s.workers[0] == Idle then Send(0) else WorkerStep(s, 0);
    case CloseJobs => a := CloseChannel;
    case Wait =>
      if exists w: nat :: w < |s.workers| && s.workers[w] != Exited {
        var w: nat :| w < |s.workers| && s.workers[w] != Exited;
        a := WorkerStep(s, w);
      } else {
        a := WaitDone;
      }
    case FinalCheck => a := TestFinal;
    case Fill(_) => a := FillOne;
  }

  lemma TailOfConcat<T>(a: seq<T>, b: seq<T>)
    requires a != []
    ensures (a + b)[0] == a[0] && (a + b)[1..] == a[1..] + b
  {
  }

  lemma {:induction false} RunsAppend(s: State, run: seq<Action>, more: seq<Action>)
    requires Runs(s, run) && Runs(Exec(s, run), more)
    ensures Runs(s, run + more) && Exec(s, run + more) == Exec(Exec(s, run), more)
    decreases |run|
  {
    if run == [] {
      assert run + more == more;
    } else {
      TailOfConcat(run, more);
      RunsAppend(Apply(s, run[0]), run[1..], more);
    }
  }

  lemma OneStep(s: State, a: Action)
    requires Enabled(s, a)
    ensures Runs(s, [a]) && Exec(s, [a]) == Apply(s, a)
  {
    var none: seq<Action> := [];
    assert [a][0] == a && [a][1..] == none;
    assert Runs(Apply(s, a), none) && Exec(Apply(s, a), none) == Apply(s, a);
  }

  lemma RunsSnoc(s: State, run: seq<Action>, a: Action)
    requires Runs(s, run) && Enabled(Exec(s, run), a)
    ensures Runs(s, run + [a]) && Exec(s, run + [a]) == Apply(Exec(s, run), a)
  {
    OneStep(Exec(s, run), a);
    RunsAppend(s, run, [a]);
  }

  /** Every partial run, under any schedule so far, can be completed without any further cancellation. */
  lemma {:induction false} CanReturn(s: State) returns (rest: seq<Action>)
    requires Inv(s)
    ensures Runs(s, rest) && Exec(s, rest).dispatcher == Returned
    ensures forall a :: a in rest ==> !a.Cancel?
    decreases Potential(s)
  {
    if s.dispatcher == Returned {
      rest := [];
    } else {
      var a := NoDeadlock(s);
      StepInv(s, a);
      StepPotential(s, a);
      PotentialNonNegative(s);
      PotentialNonNegative(Apply(s, a));
      var tail := CanReturn(Apply(s, a));
      rest := [a] + tail;
      assert rest[1..] == tail;
    }
  }

  /** A schedule that stops only when nothing but a cancellation is possible has returned. */
  lemma MaximalRunReturns(n: nat, limit: nat, cancel: Option<Error>, run: seq<Action>)
    requires 0 < n && 0 < limit && Runs(Init(n, limit, cancel), run)
    requires forall a: Action :: Enabled(Exec(Init(n, limit, cancel), run), a) ==> a.Cancel?
    ensures Complete(n, limit, cancel, run)
  {
    InitInv(n, limit, cancel);
    RunInv(Init(n, limit, cancel), run);
    if Exec(Init(n, limit, cancel), run).dispatcher != Returned {
      var a := NoDeadlock(Exec(Init(n, limit, cancel), run));
    }
  }
}
