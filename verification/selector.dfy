/** The round-robin selector: an atomic uint64 ticket counter shared by concurrent callers. */
module Selector {
  import opened Errors
  import opened Encoder

  class RoundRobinSelector {
    var next: Uint64

    constructor ()
      ensures next == 0
    {
      next := 0;
    }

    /** One uncontended call; `length` is the number of replicas. */
    method Select(length: nat) returns (r: Result<nat>)
      modifies this`next
      ensures length == 0 ==> r == Err(Leaf(ErrNoReplica)) && next == old(next)
      ensures length == 1 ==> r == Ok(0) && next == old(next)
      ensures 2 <= length ==> r == Ok(old(next) % length) && next == if old(next) == TWO64 - 1 then 0 else old(next) + 1
      ensures 0 < length ==> r.Ok? && r.value < length
    {
      if length == 0 {
        return Err(Leaf(ErrNoReplica));
      }
      if length == 1 {
        return Ok(0);
      }
      // The atomic addition and the subtraction of one both wrap at 2^64.
      next := if next == TWO64 - 1 then 0 else next + 1;
      var ticket := if next == 0 then TWO64 - 1 else next - 1;
      r := Ok(ticket % length);
    }
  }

  /** The remainder and quotient of an unsigned division, by repeated subtraction. */
  function Mod(a: nat, n: nat): (r: nat)
    requires 0 < n
    ensures r < n
  {
    if a < n then a else Mod(a - n, n)
  }

  function Div(a: nat, n: nat): nat
    requires 0 < n
  {
    if a < n then 0 else 1 + Div(a - n, n)
  }

  /** They are Go's `%` and `/` on unsigned operands. */
  lemma {:induction false} DivModAreOperators(a: nat, n: nat)
    requires 0 < n
    ensures Mod(a, n) == a % n && Div(a, n) == a / n
  {
    if a < n {
      DivModUnique(a, n, 0, a);
    } else {
      DivModAreOperators(a - n, n);
      DivModUnique(a, n, (a - n) / n + 1, (a - n) % n);
    }
  }

  lemma MultipleIsLarge(d: int, n: nat)
    ensures d == 0 || n <= d * n || d * n <= -(n as int)
  {
    if 1 <= d {
      assert (d - 1) * n >= 0;
    } else if d <= -1 {
      assert (-d - 1) * n >= 0;
    }
  }

  lemma DivModUnique(k: int, n: nat, q: int, r: int)
    requires 0 < n && k == q * n + r && 0 <= r < n
    ensures k / n == q && k % n == r
  {
    var q', r' := k / n, k % n;
    assert k == q' * n + r';
    assert (q' - q) * n == q' * n - q * n;
    MultipleIsLarge(q' - q, n);
  }

  /** One concurrent call: not yet at the counter, holding a ticket, or returned. */
  datatype Caller = Pending | Holding(ticket: nat) | Chose(index: nat)

  /** `taken` counts tickets ever taken; `modulus` is the counter's range, `n` the number of replicas. */
  datatype Run = Run(n: nat, modulus: nat, next: nat, taken: nat, callers: seq<Caller>)

  datatype Action = Call | Take(caller: nat) | Return(caller: nat)

  function Fresh(n: nat, modulus: nat): Run { Run(n, modulus, 0, 0, []) }

  predicate Enabled(s: Run, a: Action) {
    match a
    case Call => true
    case Take(c) => c < |s.callers| && s.callers[c] == Pending && 0 < s.modulus
    case Return(c) => c < |s.callers| && s.callers[c].Holding? && 0 < s.n
  }

  function Apply(s: Run, a: Action): Run
    requires Enabled(s, a)
  {
    match a
    case Call => s.(callers := s.callers + [Pending])
    case Take(c) =>
      s.(next := Mod(s.next + 1, s.modulus), taken := s.taken + 1, callers := s.callers[c := Holding(s.next)])
    case Return(c) => s.(callers := s.callers[c := Chose(Mod(s.callers[c].ticket, s.n))])
  }

  predicate Runs(s: Run, run: seq<Action>)
    decreases |run|
  {
    run == [] || (Enabled(s, run[0]) && Runs(Apply(s, run[0]), run[1..]))
  }

  function Exec(s: Run, run: seq<Action>): Run
    requires Runs(s, run)
    decreases |run|
  {
    if run == [] then s else Exec(Apply(s, run[0]), run[1..])
  }

  /** Whether a call has been given replica `r`, returned or not. */
  function Given(c: Caller, n: nat, r: nat): nat
    requires 0 < n
  {
    match c
    case Pending => 0
    case Holding(t) => if Mod(t, n) == r then 1 else 0
    case Chose(i) => if i == r then 1 else 0
  }

  /** How many calls were given replica `r`. */
  function Load(callers: seq<Caller>, n: nat, r: nat): nat
    requires 0 < n
  {
    if callers == [] then 0
    else Load(callers[..|callers| - 1], n, r) + Given(callers[|callers| - 1], n, r)
  }

  /** How many of the first `k` tickets of a counter wrapping at `modulus` belong to replica `r`. */
  function Share(k: nat, modulus: nat, n: nat, r: nat): nat
    requires 0 < n && 0 < modulus
  {
    if k == 0 then 0
    else Share(k - 1, modulus, n, r) + if Mod(Mod(k - 1, modulus), n) == r then 1 else 0
  }

  ghost predicate Inv(s: Run) {
    && 0 < s.n && 0 < s.modulus && s.next == Mod(s.taken, s.modulus)
    && (forall c: nat :: c < |s.callers| && s.callers[c].Chose? ==> s.callers[c].index < s.n)
    && (forall r: nat :: Load(s.callers, s.n, r) == Share(s.taken, s.modulus, s.n, r))
  }

  lemma {:induction false} LoadUpdate(callers: seq<Caller>, c: nat, pc: Caller, n: nat, r: nat)
    requires 0 < n && c < |callers|
    ensures Load(callers[c := pc], n, r) == Load(callers, n, r) - Given(callers[c], n, r) + Given(pc, n, r)
  {
    var k := |callers| - 1;
    if c == k {
      assert callers[c := pc][..k] == callers[..k];
    } else {
      LoadUpdate(callers[..k], c, pc, n, r);
      assert callers[c := pc][..k] == callers[..k][c := pc];
    }
  }

  lemma {:induction false} DivModNext(k: nat, n: nat)
    requires 0 < n
    ensures Div(k + 1, n) == Div(k, n) + if Mod(k, n) == n - 1 then 1 else 0
    ensures Mod(k + 1, n) == if Mod(k, n) == n - 1 then 0 else Mod(k, n) + 1
  {
    if n <= k {
      DivModNext(k - n, n);
    }
  }

  lemma NextTicket(taken: nat, modulus: nat)
    requires 0 < modulus
    ensures Mod(Mod(taken, modulus) + 1, modulus) == Mod(taken + 1, modulus)
  {
    DivModNext(taken, modulus);
  }

  lemma TakeLoad(s: Run, c: nat, r: nat)
    requires Inv(s) && Enabled(s, Take(c))
    ensures var t := Apply(s, Take(c)); Load(t.callers, t.n, r) == Share(t.taken, t.modulus, t.n, r)
  {
    assert Load(s.callers, s.n, r) == Share(s.taken, s.modulus, s.n, r);
    LoadUpdate(s.callers, c, Holding(s.next), s.n, r);
  }

  lemma ReturnLoad(s: Run, c: nat, r: nat)
    requires Inv(s) && Enabled(s, Return(c))
    ensures var t := Apply(s, Return(c)); Load(t.callers, t.n, r) == Share(t.taken, t.modulus, t.n, r)
  {
    assert Load(s.callers, s.n, r) == Share(s.taken, s.modulus, s.n, r);
    LoadUpdate(s.callers, c, Chose(Mod(s.callers[c].ticket, s.n)), s.n, r);
  }

  lemma CallLoad(s: Run, r: nat)
    requires Inv(s)
    ensures var t := Apply(s, Call); Load(t.callers, t.n, r) == Share(t.taken, t.modulus, t.n, r)
  {
    assert Load(s.callers, s.n, r) == Share(s.taken, s.modulus, s.n, r);
    assert (s.callers + [Pending])[..|s.callers|] == s.callers;
  }

  lemma StepInv(s: Run, a: Action)
    requires Inv(s) && Enabled(s, a)
    ensures Inv(Apply(s, a))
  {
    var t := Apply(s, a);
    forall r: nat ensures Load(t.callers, t.n, r) == Share(t.taken, t.modulus, t.n, r) {
      match a
      case Call => CallLoad(s, r);
      case Take(c) => TakeLoad(s, c, r);
      case Return(c) => ReturnLoad(s, c, r);
    }
    NextTicket(s.taken, s.modulus);
  }

  lemma {:induction false} RunInv(s: Run, run: seq<Action>)
    requires Inv(s) && Runs(s, run)
    ensures Inv(Exec(s, run)) && Exec(s, run).n == s.n && Exec(s, run).modulus == s.modulus
    decreases |run|
  {
    if run != [] {
      StepInv(s, run[0]);
      RunInv(Apply(s, run[0]), run[1..]);
    }
  }

  lemma FreshInv(n: nat, modulus: nat)
    requires 0 < n && 0 < modulus
    ensures Inv(Fresh(n, modulus))
  {
  }

  function One(b: bool): nat { if b then 1 else 0 }

  /** Within one lap of the counter every replica has the quotient, and the first `k mod n` one more. */
  lemma {:induction false} ShareOneLap(k: nat, modulus: nat, n: nat, r: nat)
    requires 0 < n && r < n && k <= modulus && 0 < modulus
    ensures Share(k, modulus, n, r) == Div(k, n) + One(r < Mod(k, n))
  {
    if k != 0 {
      ShareOneLap(k - 1, modulus, n, r);
      assert Mod(k - 1, modulus) == k - 1;
      DivModNext(k - 1, n);
    }
  }

  lemma {:induction false} ShareAddLap(k: nat, modulus: nat, n: nat, r: nat)
    requires 0 < n && 0 < modulus
    ensures Share(k + modulus, modulus, n, r) == Share(k, modulus, n, r) + Share(modulus, modulus, n, r)
  {
    if k != 0 {
      ShareAddLap(k - 1, modulus, n, r);
      assert Mod(k - 1 + modulus, modulus) == Mod(k - 1, modulus);
    }
  }

  /** Two replicas differ by at most one more than the number of laps, and by at most one if the laps come out even. */
  lemma {:induction false} ShareGap(k: nat, modulus: nat, n: nat, r: nat, r': nat)
    requires 0 < n && r < n && r' < n && 0 < modulus
    ensures Share(k, modulus, n, r) <= Share(k, modulus, n, r') + Div(k, modulus) + 1
    ensures Mod(modulus, n) == 0 || k <= modulus ==> Share(k, modulus, n, r) <= Share(k, modulus, n, r') + 1
  {
    if k <= modulus {
      ShareOneLap(k, modulus, n, r);
      ShareOneLap(k, modulus, n, r');
    } else {
      ShareGap(k - modulus, modulus, n, r, r');
      ShareAddLap(k - modulus, modulus, n, r);
      ShareAddLap(k - modulus, modulus, n, r');
      ShareOneLap(modulus, modulus, n, r);
      ShareOneLap(modulus, modulus, n, r');
    }
  }

  lemma LapGap(modulus: nat, n: nat)
    requires 2 <= n && 0 < modulus && Mod(modulus, n) != 0
    ensures Share(modulus, modulus, n, 0) == Share(modulus, modulus, n, n - 1) + 1
  {
    var q, m := Div(modulus, n), Mod(modulus, n);
    assert Share(modulus, modulus, n, 0) == q + One(0 < m) by { ShareOneLap(modulus, modulus, n, 0); }
    assert Share(modulus, modulus, n, n - 1) == q + One(n - 1 < m) by { ShareOneLap(modulus, modulus, n, n - 1); }
  }

  lemma NextLap(k: nat, modulus: nat, n: nat, gap: nat)
    requires 2 <= n && 0 < modulus && Mod(modulus, n) != 0
    requires Share(k, modulus, n, 0) == Share(k, modulus, n, n - 1) + gap
    ensures Share(k + modulus, modulus, n, 0) == Share(k + modulus, modulus, n, n - 1) + gap + 1
  {
    ShareAddLap(k, modulus, n, 0);
    ShareAddLap(k, modulus, n, n - 1);
    LapGap(modulus, n);
  }

  lemma FirstTicket(modulus: nat, n: nat)
    requires 2 <= n && 1 < modulus
    ensures Share(1, modulus, n, 0) == Share(1, modulus, n, n - 1) + 1
  {
    ShareOneLap(1, modulus, n, 0);
    ShareOneLap(1, modulus, n, n - 1);
  }

  lemma OneLapMore(w: nat, modulus: nat)
    requires 0 < w
    ensures 0 <= (w - 1) * modulus && w * modulus == (w - 1) * modulus + modulus
  {
  }

  /** The gap of two counts after `w` laps and one more ticket, when the laps come out uneven. */
  lemma {:induction false} UnevenLaps(w: nat, modulus: nat, n: nat)
    requires 2 <= n && 1 < modulus && Mod(modulus, n) != 0
    ensures Share(w * modulus + 1, modulus, n, 0) == Share(w * modulus + 1, modulus, n, n - 1) + w + 1
  {
    if w == 0 {
      FirstTicket(modulus, n);
    } else {
      UnevenLaps(w - 1, modulus, n);
      OneLapMore(w, modulus);
      NextLap((w - 1) * modulus + 1, modulus, n, w);
    }
  }

  lemma {:induction false} RunsAppend(s: Run, run: seq<Action>, more: seq<Action>)
    requires Runs(s, run) && Runs(Exec(s, run), more)
    ensures Runs(s, run + more) && Exec(s, run + more) == Exec(Exec(s, run), more)
    decreases |run|
  {
    if run == [] {
      assert run + more == more;
    } else {
      RunsAppend(Apply(s, run[0]), run[1..], more);
      assert (run + more)[1..] == run[1..] + more;
    }
  }

  /** One more call that goes as far as its ticket. */
  lemma CallAndTake(s: Run)
    requires 0 < s.modulus
    ensures var run := [Call, Take(|s.callers|)];
      && Runs(s, run)
      && Exec(s, run).taken == s.taken + 1 && |Exec(s, run).callers| == |s.callers| + 1
      && Exec(s, run).modulus == s.modulus
  {
    var c := |s.callers|;
    var called, none: seq<Action> := Apply(s, Call), [];
    assert [Call, Take(c)][1..] == [Take(c)] && [Take(c)][1..] == none;
    assert Runs(Apply(called, Take(c)), none);
    assert Runs(called, [Take(c)]) && Exec(called, [Take(c)]) == Apply(called, Take(c));
  }

  /** The counter can be driven through any number of tickets. */
  lemma {:induction false} AnyNumberOfTickets(n: nat, modulus: nat, k: nat) returns (run: seq<Action>)
    requires 0 < n && 0 < modulus
    ensures Runs(Fresh(n, modulus), run)
    ensures Exec(Fresh(n, modulus), run).taken == k && |Exec(Fresh(n, modulus), run).callers| == k
    ensures Exec(Fresh(n, modulus), run).modulus == modulus
  {
    run := [];
    if k != 0 {
      run := AnyNumberOfTickets(n, modulus, k - 1);
      var s := Exec(Fresh(n, modulus), run);
      CallAndTake(s);
      RunsAppend(Fresh(n, modulus), run, [Call, Take(|s.callers|)]);
      run := run + [Call, Take(|s.callers|)];
    }
  }

  /** A call that is alone does in the step relation what `Select` does: it takes the counter's value, moves the
      counter by one around its range, and answers with the value's remainder. */
  lemma UncontendedCall(s: Run, c: nat)
    requires 0 < s.n && 0 < s.modulus && s.next < s.modulus && c < |s.callers| && s.callers[c] == Pending
    ensures var run := [Take(c), Return(c)];
      && Runs(s, run)
      && Exec(s, run).callers == s.callers[c := Chose(s.next % s.n)]
      && Exec(s, run).next == if s.next == s.modulus - 1 then 0 else s.next + 1
  {
    var none: seq<Action> := [];
    var taken := Apply(s, Take(c));
    assert [Take(c), Return(c)][1..] == [Return(c)] && [Return(c)][1..] == none;
    assert Runs(Apply(taken, Return(c)), none);
    assert Runs(taken, [Return(c)]) && Exec(taken, [Return(c)]) == Apply(taken, Return(c));
    DivModAreOperators(s.next, s.n);
    DivModAreOperators(s.next + 1, s.modulus);
    DivModNext(s.next, s.modulus);
  }

  /** Under any interleaving of concurrent calls: every index returned is valid, and the replicas' loads differ by
      at most one before the counter wraps and by at most one more than the number of wraps after. */
  lemma FairUnderConcurrency(n: nat, run: seq<Action>, r: nat, r': nat)
    requires 2 <= n && r < n && r' < n && Runs(Fresh(n, TWO64), run)
    ensures var s := Exec(Fresh(n, TWO64), run);
      && s.n == n
      && (forall c: nat :: c < |s.callers| && s.callers[c].Chose? ==> s.callers[c].index < n)
      && Load(s.callers, n, r) <= Load(s.callers, n, r') + s.taken / TWO64 + 1
      && (s.taken <= TWO64 || TWO64 % n == 0 ==> Load(s.callers, n, r) <= Load(s.callers, n, r') + 1)
  {
    FreshInv(n, TWO64);
    RunInv(Fresh(n, TWO64), run);
    var s := Exec(Fresh(n, TWO64), run);
    ShareGap(s.taken, TWO64, n, r, r');
    DivModAreOperators(s.taken, TWO64);
    DivModAreOperators(TWO64, n);
    assert Load(s.callers, n, r) == Share(s.taken, TWO64, n, r);
    assert Load(s.callers, n, r') == Share(s.taken, TWO64, n, r');
  }

  /** That bound is met: unless the number of replicas divides 2^64, every number of wraps `w` has a run
      after which the first replica is ahead of the last by `w + 1`. */
  lemma GapIsMet(n: nat, w: nat) returns (run: seq<Action>)
    requires 2 <= n && TWO64 % n != 0
    ensures Runs(Fresh(n, TWO64), run)
    ensures var s := Exec(Fresh(n, TWO64), run);
      s.taken == w * TWO64 + 1 && Load(s.callers, n, 0) == Load(s.callers, n, n - 1) + w + 1
  {
    run := AnyNumberOfTickets(n, TWO64, w * TWO64 + 1);
    FreshInv(n, TWO64);
    RunInv(Fresh(n, TWO64), run);
    DivModAreOperators(TWO64, n);
    UnevenLaps(w, TWO64, n);
    var s := Exec(Fresh(n, TWO64), run);
    assert Load(s.callers, n, 0) == Share(s.taken, TWO64, n, 0);
    assert Load(s.callers, n, n - 1) == Share(s.taken, TWO64, n, n - 1);
  }

  /** No run leaves two replicas further apart than one call. */
  ghost predicate AlwaysEven(n: nat)
    requires 0 < n
  {
    forall run, r: nat, r': nat :: r < n && r' < n && Runs(Fresh(n, TWO64), run) ==>
      Load(Exec(Fresh(n, TWO64), run).callers, n, r) <= Load(Exec(Fresh(n, TWO64), run).callers, n, r') + 1
  }

  /** Round robin stays even for ever if and only if the number of replicas divides 2^64. */
  lemma FairForEver(n: nat)
    requires 2 <= n
    ensures AlwaysEven(n) <==> TWO64 % n == 0
  {
    if TWO64 % n == 0 {
      forall run, r: nat, r': nat | r < n && r' < n && Runs(Fresh(n, TWO64), run)
        ensures Load(Exec(Fresh(n, TWO64), run).callers, n, r) <= Load(Exec(Fresh(n, TWO64), run).callers, n, r') + 1
      {
        FairUnderConcurrency(n, run, r, r');
      }
    } else {
      var run := GapIsMet(n, 1);
      var callers := Exec(Fresh(n, TWO64), run).callers;
      assert !(Load(callers, n, 0) <= Load(callers, n, n - 1) + 1);
    }
  }
}
