/** The goroutines of `ForEachShard` as a step relation: one dispatcher, up to
    `limit` workers on an unbuffered channel, and a context that may be
    cancelled between any two steps. */
module FanOut {
  import opened Errors

  /** Program counter of one worker goroutine (foreach.go:85-96). */
  datatype Worker =
    | Idle                  // blocked on the channel receive
    | Got(index: nat)       // received an index, context not looked at yet
    | Checked(index: nat)   // context was not cancelled, callback not called yet
    | Running(index: nat)   // inside the callback
    | Exited                // channel closed and drained

  /** Program counter of the calling goroutine (foreach.go:70-118). */
  datatype Dispatcher =
    | Entry                 // about to look at the context for the first time
    | Guard                 // at the loop condition
    | Select                // blocked in the select
    | CloseJobs             // about to close the channel
    | Wait                  // in workers.Wait
    | FinalCheck            // about to look at the context for the last time
    | Fill(index: nat)      // writing ctx.Err() from index on
    | Returned

  /** `dealt`, `writes`, `started` and `returned` are history: which worker received
      each index, how often each slot was written, the callbacks in starting order,
      and what each callback returned. */
  datatype State = State(
    n: nat,
    limit: nat,
    dispatcher: Dispatcher,
    workers: seq<Worker>,
    next: nat,
    closed: bool,
    cancel: Option<Error>,
    slots: seq<Outcome>,
    dealt: seq<nat>,
    writes: seq<nat>,
    started: seq<nat>,
    returned: map<nat, Outcome>)

  datatype Action =
    | Enter                           // foreach.go:70
    | TestGuard                       // foreach.go:101
    | Send(worker: nat)               // foreach.go:103 meets foreach.go:88
    | SeeDone                         // foreach.go:105
    | CloseChannel                    // foreach.go:109
    | WaitDone                          // foreach.go:110
    | TestFinal                       // foreach.go:112
    | FillOne                         // foreach.go:71-73 and 113-115
    | Check(worker: nat)              // foreach.go:89-92
    | Call(worker: nat)               // foreach.go:94, callback entered
    | Finish(worker: nat, result: Outcome)  // foreach.go:94, callback returned
    | Exit(worker: nat)               // foreach.go:88, channel closed
    | Cancel(error: Error)            // the environment cancels the context

  function Min(a: nat, b: nat): (m: nat)
    ensures m <= a && m <= b && (m == a || m == b)
  {
    if a < b then a else b
  }

  predicate Busy(w: Worker) {
    w.Got? || w.Checked? || w.Running?
  }

  predicate At(s: State, w: nat) { w < |s.workers| }

  function Init(n: nat, limit: nat, cancel: Option<Error>): State {
    State(n, limit, Entry, [], 0, false, cancel, seq(n, _ => None), [], seq(n, _ => 0), [], map[])
  }

  predicate Enabled(s: State, a: Action) {
    match a
    case Enter => s.dispatcher == Entry
    case TestGuard => s.dispatcher == Guard
    case Send(w) => s.dispatcher == Select && At(s, w) && s.workers[w] == Idle
    case SeeDone => s.dispatcher == Select && s.cancel.Some?
    case CloseChannel => s.dispatcher == CloseJobs
    case WaitDone => s.dispatcher == Wait && forall w :: 0 <= w < |s.workers| ==> s.workers[w] == Exited
    case TestFinal => s.dispatcher == FinalCheck
    case FillOne => s.dispatcher.Fill? && s.cancel.Some? && |s.slots| == |s.writes| == s.n
    case Check(w) => At(s, w) && s.workers[w].Got? && s.workers[w].index < |s.slots| == |s.writes|
    case Call(w) => At(s, w) && s.workers[w].Checked?
    case Finish(w, _) => At(s, w) && s.workers[w].Running? && s.workers[w].index < |s.slots| == |s.writes|
    case Exit(w) => At(s, w) && s.workers[w] == Idle && s.closed
    case Cancel(_) => s.cancel.None?
  }

  function Write(s: State, i: nat, v: Outcome): State
    requires i < |s.slots| == |s.writes|
  {
    s.(slots := s.slots[i := v], writes := s.writes[i := s.writes[i] + 1])
  }

  function Move(s: State, w: nat, pc: Worker): State
    requires w < |s.workers|
  {
    s.(workers := s.workers[w := pc])
  }

  function Apply(s: State, a: Action): State
    requires Enabled(s, a)
  {
    match a
    case Enter =>
      if s.cancel.Some? then s.(dispatcher := Fill(s.next))
      else s.(dispatcher := Guard, workers := seq(Min(s.limit, s.n), _ => Idle))
    case TestGuard =>
      s.(dispatcher := if s.next < s.n && s.cancel.None? then Select else CloseJobs)
    case Send(w) =>
      Move(s, w, Got(s.next)).(dispatcher := Guard, next := s.next + 1, dealt := s.dealt + [w])
    case SeeDone => s.(dispatcher := Guard)
    case CloseChannel => s.(dispatcher := Wait, closed := true)
    case WaitDone => s.(dispatcher := FinalCheck)
    case TestFinal => s.(dispatcher := if s.cancel.Some? then Fill(s.next) else Returned)
    case FillOne =>
      var i := s.dispatcher.index;
      if i < s.n then Write(s, i, s.cancel).(dispatcher := Fill(i + 1))
      else s.(dispatcher := Returned)
    case Check(w) =>
      var i := s.workers[w].index;
      if s.cancel.Some? then Move(Write(s, i, s.cancel), w, Idle)
      else Move(s, w, Checked(i))
    case Call(w) =>
      var i := s.workers[w].index;
      Move(s, w, Running(i)).(started := s.started + [i])
    case Finish(w, v) =>
      var i := s.workers[w].index;
      Move(Write(s, i, v), w, Idle).(returned := s.returned[i := v])
    case Exit(w) => Move(s, w, Exited)
    case Cancel(e) => s.(cancel := Some(e))
  }

  /** A run is the list of steps some scheduler took. */
  predicate Runs(s: State, run: seq<Action>)
    decreases |run|
  {
    run == [] || (Enabled(s, run[0]) && Runs(Apply(s, run[0]), run[1..]))
  }

  function Exec(s: State, run: seq<Action>): State
    requires Runs(s, run)
    decreases |run|
  {
    if run == [] then s else Exec(Apply(s, run[0]), run[1..])
  }
}
