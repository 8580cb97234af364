/** What every interleaving of `ForEachShard` keeps, and what it returns. */
module FanOutSafety {
  import opened Errors
  import opened FanOut

  ghost predicate Shape(s: State) {
    && 0 < s.n && 0 < s.limit
    && |s.slots| == |s.writes| == s.n
    && s.next <= s.n
    && (s.dispatcher == Entry ==> |s.workers| == 0 && !s.closed)
    && (|s.workers| == 0 ==>
      s.next == 0 && (s.dispatcher == Entry || (s.cancel.Some? && (s.dispatcher.Fill? || s.dispatcher == Returned))))
    && (|s.workers| != 0 ==>
      && |s.workers| == Min(s.limit, s.n)
      && (s.closed <==>
            s.dispatcher == Wait || s.dispatcher == FinalCheck || s.dispatcher.Fill? || s.dispatcher == Returned))
    && (s.dispatcher == Select ==> s.next < s.n)
    && (s.dispatcher.Fill? ==> s.cancel.Some? && s.next <= s.dispatcher.index <= s.n)
    && (s.next < s.n && s.dispatcher != Entry && s.dispatcher != Guard && s.dispatcher != Select ==> s.cancel.Some?)
  }

  ghost predicate Exits(s: State) {
    && (forall w: nat :: w < |s.workers| && s.workers[w] == Exited ==> s.closed)
    && (s.dispatcher == FinalCheck || s.dispatcher.Fill? || s.dispatcher == Returned ==>
          forall w: nat :: w < |s.workers| ==> s.workers[w] == Exited)
  }

  /** Every dispatched index is either held by the worker that received it and
      unwritten, or written once and held by none. */
  ghost predicate Ownership(s: State)
    requires |s.writes| == s.n && s.next <= s.n
  {
    && |s.dealt| == s.next
    && (forall i: nat :: i < s.next ==> s.dealt[i] < |s.workers| && s.writes[i] <= 1)
    && (forall i: nat :: i < s.next && s.writes[i] == 0 ==>
          Busy(s.workers[s.dealt[i]]) && s.workers[s.dealt[i]].index == i)
    && (forall w: nat :: w < |s.workers| && Busy(s.workers[w]) ==>
          var i := s.workers[w].index; i < s.next && s.writes[i] == 0 && s.dealt[i] == w)
  }

  predicate Filled(s: State, i: nat) {
    s.dispatcher == Returned || (s.dispatcher.Fill? && i < s.dispatcher.index)
  }

  /** Undispatched slots are written by the fill loop only. */
  ghost predicate Undispatched(s: State)
    requires |s.writes| == s.n && s.next <= s.n
  {
    forall i: nat :: s.next <= i < s.n ==> s.writes[i] == if Filled(s, i) then 1 else 0
  }

  /** What a slot holds, by its history. */
  ghost predicate Contents(s: State)
    requires |s.slots| == |s.writes| == s.n && s.next <= s.n
  {
    && (forall i: nat :: i < s.n && s.writes[i] == 0 ==> s.slots[i] == None)
    && (forall i: nat :: i < s.n && s.writes[i] != 0 && i !in s.returned ==> s.cancel.Some? && s.slots[i] == s.cancel)
    && (forall i :: i in s.returned ==> i < s.next && s.writes[i] == 1 && s.slots[i] == s.returned[i])
  }

  /** A callback starts at most once, and is running or has returned once it started. */
  ghost predicate Starts(s: State)
    requires |s.writes| == s.n && s.next <= s.n && Ownership(s)
  {
    && (forall a: nat, b: nat :: a < b < |s.started| ==> s.started[a] != s.started[b])
    && (forall i :: i in s.returned ==> i in s.started)
    && (forall i :: i in s.started ==> i < s.next)
    && (forall w: nat :: w < |s.workers| && s.workers[w].Running? ==> s.workers[w].index in s.started)
    && (forall i :: i in s.started && i !in s.returned ==> s.workers[s.dealt[i]] == Running(i))
  }

  ghost predicate Inv(s: State) {
    Shape(s) && Exits(s) && Ownership(s) && Undispatched(s) && Contents(s) && Starts(s)
  }

  lemma InitInv(n: nat, limit: nat, cancel: Option<Error>)
    requires 0 < n && 0 < limit
    ensures Inv(Init(n, limit, cancel))
  {
  }

  lemma DispatcherInv(s: State, a: Action)
    requires Inv(s) && Enabled(s, a)
    requires a.TestGuard? || a.SeeDone? || a.CloseChannel?
    ensures Inv(Apply(s, a))
  {
  }

  lemma EnterInv(s: State)
    requires Inv(s) && Enabled(s, Enter)
    ensures Inv(Apply(s, Enter))
  {
  }

  lemma EndgameInv(s: State, a: Action)
    requires Inv(s) && Enabled(s, a)
    requires a.WaitDone? || a.TestFinal? || a.Cancel?
    ensures Inv(Apply(s, a))
  {
  }

  lemma SendOwnership(s: State, w: nat)
    requires Inv(s) && Enabled(s, Send(w))
    ensures var t := Apply(s, Send(w)); Shape(t) && Exits(t) && Ownership(t)
  {
  }

  lemma SendInv(s: State, w: nat)
    requires Inv(s) && Enabled(s, Send(w))
    ensures Inv(Apply(s, Send(w)))
  {
    SendOwnership(s, w);
  }

  /** A worker moving on with the index it holds keeps everything but the record of starts. */
  lemma AdvanceKeeps(s: State, t: State, w: nat, pc: Worker)
    requires Inv(s) && w < |s.workers| && Busy(s.workers[w]) && Busy(pc) && pc.index == s.workers[w].index
    requires t == s.(workers := s.workers[w := pc], started := t.started)
    ensures Shape(t) && Exits(t) && Ownership(t) && Undispatched(t) && Contents(t)
  {
  }

  lemma CheckInv(s: State, w: nat)
    requires Inv(s) && Enabled(s, Check(w)) && s.cancel.None?
    ensures Inv(Apply(s, Check(w)))
  {
    AdvanceKeeps(s, Apply(s, Check(w)), w, Checked(s.workers[w].index));
  }

  /** Writing the held slot and going back to the receive keeps the ownership part. */
  lemma SettleOwnership(s: State, t: State, w: nat)
    requires Shape(s) && Exits(s) && Ownership(s) && Undispatched(s)
    requires w < |s.workers| && Busy(s.workers[w])
    requires var i := s.workers[w].index;
      t == s.(slots := t.slots, returned := t.returned, workers := s.workers[w := Idle], writes := s.writes[i := 1])
    requires |t.slots| == |s.slots|
    ensures Shape(t) && Exits(t) && Ownership(t) && Undispatched(t)
  {
  }

  lemma SkipInv(s: State, w: nat)
    requires Inv(s) && Enabled(s, Check(w)) && s.cancel.Some?
    ensures Inv(Apply(s, Check(w)))
  {
    SettleOwnership(s, Apply(s, Check(w)), w);
  }

  lemma CallInv(s: State, w: nat)
    requires Inv(s) && Enabled(s, Call(w))
    ensures Inv(Apply(s, Call(w)))
  {
    AdvanceKeeps(s, Apply(s, Call(w)), w, Running(s.workers[w].index));
  }

  lemma FinishStarts(s: State, w: nat, v: Outcome)
    requires Inv(s) && Enabled(s, Finish(w, v)) && Shape(Apply(s, Finish(w, v))) && Ownership(Apply(s, Finish(w, v)))
    ensures Starts(Apply(s, Finish(w, v)))
  {
  }

  lemma FinishInv(s: State, w: nat, v: Outcome)
    requires Inv(s) && Enabled(s, Finish(w, v))
    ensures Inv(Apply(s, Finish(w, v)))
  {
    SettleOwnership(s, Apply(s, Finish(w, v)), w);
    FinishStarts(s, w, v);
  }

  lemma FillOwnership(s: State)
    requires Inv(s) && Enabled(s, FillOne) && s.dispatcher.index < s.n
    ensures var t := Apply(s, FillOne); Shape(t) && Exits(t) && Ownership(t) && Undispatched(t)
  {
  }

  lemma FillInv(s: State)
    requires Inv(s) && Enabled(s, FillOne) && s.dispatcher.index < s.n
    ensures Inv(Apply(s, FillOne))
  {
    FillOwnership(s);
  }

  lemma FillEndInv(s: State)
    requires Inv(s) && Enabled(s, FillOne) && s.n <= s.dispatcher.index
    ensures Inv(Apply(s, FillOne))
  {
  }

  lemma ExitInv(s: State, w: nat)
    requires Inv(s) && Enabled(s, Exit(w))
    ensures Inv(Apply(s, Exit(w)))
  {
  }

  lemma StepInv(s: State, a: Action)
    requires Inv(s) && Enabled(s, a)
    ensures Inv(Apply(s, a))
  {
    match a
    case Enter => EnterInv(s);
    case Send(w) => SendInv(s, w);
    case FillOne => if s.dispatcher.index < s.n { FillInv(s); } else { FillEndInv(s); }
    case Check(w) => if s.cancel.None? { CheckInv(s, w); } else { SkipInv(s, w); }
    case Call(w) => CallInv(s, w);
    case Finish(w, v) => FinishInv(s, w, v);
    case Exit(w) => ExitInv(s, w);
    case WaitDone => EndgameInv(s, a);
    case TestFinal => EndgameInv(s, a);
    case Cancel(_) => EndgameInv(s, a);
    case _ => DispatcherInv(s, a);
  }

  lemma {:induction false} RunInv(s: State, run: seq<Action>)
    requires Inv(s) && Runs(s, run)
    ensures Inv(Exec(s, run))
    decreases |run|
  {
    if run != [] {
      StepInv(s, run[0]);
      RunInv(Apply(s, run[0]), run[1..]);
    }
  }

  /** A complete run: any schedule, with the context cancelled before, during or never. */
  ghost predicate Complete(n: nat, limit: nat, cancel: Option<Error>, run: seq<Action>) {
    && 0 < n && 0 < limit
    && Runs(Init(n, limit, cancel), run)
    && Exec(Init(n, limit, cancel), run).dispatcher == Returned
  }

  /** On return every slot was written exactly once: by its callback if that ran, by ctx.Err() if not. */
  lemma EverySlotWrittenOnce(n: nat, limit: nat, cancel: Option<Error>, run: seq<Action>, i: nat)
    requires Complete(n, limit, cancel, run) && i < n
    ensures var t := Exec(Init(n, limit, cancel), run);
      && |t.slots| == |t.writes| == n
      && t.writes[i] == 1
      && (i in t.started <==> i in t.returned)
      && (i in t.started ==> t.slots[i] == t.returned[i])
      && (i !in t.started ==> t.cancel.Some? && t.slots[i] == t.cancel)
  {
    InitInv(n, limit, cancel);
    RunInv(Init(n, limit, cancel), run);
    var t := Exec(Init(n, limit, cancel), run);
    InputsKept(Init(n, limit, cancel), run);
  }

  lemma {:induction false} InputsKept(s: State, run: seq<Action>)
    requires Runs(s, run)
    ensures Exec(s, run).n == s.n && Exec(s, run).limit == s.limit
    decreases |run|
  {
    if run != [] {
      InputsKept(Apply(s, run[0]), run[1..]);
    }
  }

  /** Worker `w` has received index `i` and not settled it yet. */
  predicate Holding(s: State, w: nat, i: nat) {
    w < |s.workers| && match s.workers[w]
    case Got(j) => j == i
    case Checked(j) => j == i
    case Running(j) => j == i
    case _ => false
  }

  /** Where an index is: not handed out, held by one worker, or written. */
  datatype Place = Undealt | HeldBy(worker: nat) | Done

  ghost predicate IsAt(s: State, i: nat, p: Place)
    requires |s.writes| == s.n && i < s.n
  {
    match p
    case Undealt => s.next <= i && s.writes[i] == 0
    case HeldBy(w) => w < |s.workers| && Busy(s.workers[w]) && s.workers[w].index == i
    case Done => 0 < s.writes[i]
  }

  lemma OnePlaceIn(s: State, i: nat)
    requires Inv(s) && i < s.n
    ensures exists p :: IsAt(s, i, p)
    ensures forall p, q :: IsAt(s, i, p) && IsAt(s, i, q) ==> p == q
    ensures s.writes[i] <= 1
  {
    if s.writes[i] > 0 {
      assert IsAt(s, i, Done);
    } else if s.next <= i {
      assert IsAt(s, i, Undealt);
    } else {
      assert IsAt(s, i, HeldBy(s.dealt[i]));
    }
  }

  lemma HoldingIsBusy(s: State, w: nat, i: nat)
    ensures Holding(s, w, i) <==> w < |s.workers| && Busy(s.workers[w]) && s.workers[w].index == i
  {
  }

  lemma OneHolder(s: State, i: nat)
    requires Inv(s) && i < s.n
    ensures s.writes[i] == 0 && i < s.next ==> exists w: nat :: Holding(s, w, i)
    ensures forall w: nat :: Holding(s, w, i) ==> i < s.next && s.writes[i] == 0 && s.dealt[i] == w
  {
    forall w: nat ensures Holding(s, w, i) <==> w < |s.workers| && Busy(s.workers[w]) && s.workers[w].index == i {
      HoldingIsBusy(s, w, i);
    }
    if s.writes[i] == 0 && i < s.next {
      assert Holding(s, s.dealt[i], i);
    }
  }

  /** In every reachable state each index is in exactly one place. */
  lemma OnePlace(n: nat, limit: nat, cancel: Option<Error>, run: seq<Action>, i: nat)
    requires 0 < n && 0 < limit && i < n && Runs(Init(n, limit, cancel), run)
    ensures var t := Exec(Init(n, limit, cancel), run);
      && |t.writes| == t.n == n
      && (t.writes[i] == 1 || (t.writes[i] == 0 && (t.next <= i || exists w: nat :: Holding(t, w, i))))
      && (forall w: nat :: Holding(t, w, i) ==> i < t.next && t.writes[i] == 0)
      && (forall w: nat, v: nat :: Holding(t, w, i) && Holding(t, v, i) ==> w == v)
      && (exists p :: IsAt(t, i, p))
      && (forall p, q :: IsAt(t, i, p) && IsAt(t, i, q) ==> p == q)
      && t.writes[i] <= 1
  {
    InitInv(n, limit, cancel);
    RunInv(Init(n, limit, cancel), run);
    InputsKept(Init(n, limit, cancel), run);
    var t := Exec(Init(n, limit, cancel), run);
    OnePlaceIn(t, i);
    OneHolder(t, i);
  }

  /** Which slot a step writes, if any. */
  function Writes(s: State, a: Action): Option<nat>
    requires Enabled(s, a)
  {
    match a
    case FillOne => if s.dispatcher.index < s.n then Some(s.dispatcher.index) else None
    case Check(w) => if s.cancel.Some? then Some(s.workers[w].index) else None
    case Finish(w, _) => Some(s.workers[w].index)
    case _ => None
  }

  lemma StepWritesFreshSlot(s: State, a: Action)
    requires Inv(s) && Enabled(s, a)
    ensures Writes(s, a).Some? ==> Writes(s, a).value < s.n && s.writes[Writes(s, a).value] == 0
    ensures Writes(s, a).Some? ==> (a.FillOne? <==> s.next <= Writes(s, a).value)
    ensures |Apply(s, a).slots| == s.n
    ensures forall i: nat :: i < s.n && Writes(s, a) != Some(i) ==> Apply(s, a).slots[i] == s.slots[i]
  {
  }

  /** No step of any run overwrites a slot, the fill loop only touches indices never
      handed out, a worker only its own, and no other slot changes. */
  lemma NoOverwrite(n: nat, limit: nat, cancel: Option<Error>, run: seq<Action>, a: Action)
    requires 0 < n && 0 < limit && Runs(Init(n, limit, cancel), run)
    requires Enabled(Exec(Init(n, limit, cancel), run), a)
    ensures var s := Exec(Init(n, limit, cancel), run);
      var t := Apply(s, a);
      && |s.writes| == |t.slots| == |s.slots| == n
      && (Writes(s, a).Some? ==> Writes(s, a).value < n && s.writes[Writes(s, a).value] == 0)
      && (Writes(s, a).Some? ==> (a.FillOne? <==> s.next <= Writes(s, a).value))
      && (forall i: nat :: i < n && Writes(s, a) != Some(i) ==> t.slots[i] == s.slots[i])
  {
    InitInv(n, limit, cancel);
    RunInv(Init(n, limit, cancel), run);
    InputsKept(Init(n, limit, cancel), run);
    StepWritesFreshSlot(Exec(Init(n, limit, cancel), run), a);
  }

  /** Indices whose callback is running right now. */
  ghost function Active(s: State): set<nat> {
    RunningIndices(s.workers)
  }

  ghost function RunningIndices(workers: seq<Worker>): set<nat> {
    set w: nat | w < |workers| && workers[w].Running? :: workers[w].index
  }

  lemma {:induction false} RunningSet(workers: seq<Worker>)
    ensures |RunningIndices(workers)| <= |workers|
  {
    if workers == [] {
      assert RunningIndices(workers) == {};
    } else {
      var k := |workers| - 1;
      RunningSet(workers[..k]);
      var rest := RunningIndices(workers[..k]);
      if workers[k].Running? {
        assert RunningIndices(workers) == rest + {workers[k].index};
      } else {
        assert RunningIndices(workers) == rest;
      }
    }
  }

  /** At most `limit` callbacks, and at most one per shard, run at once: those that started and have not returned. */
  lemma ConcurrencyBound(n: nat, limit: nat, cancel: Option<Error>, run: seq<Action>)
    requires 0 < n && 0 < limit && Runs(Init(n, limit, cancel), run)
    ensures var t := Exec(Init(n, limit, cancel), run);
      && |Active(t)| <= limit && |Active(t)| <= n
      && (forall i: nat :: i in Active(t) <==> i in t.started && i !in t.returned)
  {
    InitInv(n, limit, cancel);
    RunInv(Init(n, limit, cancel), run);
    InputsKept(Init(n, limit, cancel), run);
    var t := Exec(Init(n, limit, cancel), run);
    RunningSet(t.workers);
    ActiveByHistory(t);
  }

  lemma ActiveByHistory(s: State)
    requires Inv(s)
    ensures forall i: nat :: i in Active(s) <==> i in s.started && i !in s.returned
  {
    forall i: nat ensures i in Active(s) <==> i in s.started && i !in s.returned {
      if i in s.started && i !in s.returned {
        assert s.workers[s.dealt[i]] == Running(i);
        assert s.workers[s.dealt[i]].index in RunningIndices(s.workers);
      }
    }
  }
}
