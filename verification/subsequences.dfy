/** Elements picked out of a list in their order. */
module Subsequences {
  ghost predicate Increasing(at: seq<nat>) {
    forall k: nat, l: nat :: k < l < |at| ==> at[k] < at[l]
  }

  /** `ys` are the elements of `xs` at the positions `at`. */
  ghost predicate PickedAt<T>(ys: seq<T>, xs: seq<T>, at: seq<nat>) {
    |at| == |ys| && forall k: nat :: k < |at| ==> at[k] < |xs| && ys[k] == xs[at[k]]
  }

  /** `ys` are exactly the elements of `xs` at the positions in `keep`, in the order of `xs`. */
  ghost predicate Picked<T>(ys: seq<T>, xs: seq<T>, keep: set<nat>) {
    exists at: seq<nat> :: Increasing(at) && (forall i: nat :: i in at <==> i in keep) && PickedAt(ys, xs, at)
  }

  lemma NonePicked<T>(xs: seq<T>)
    ensures Picked([], xs, {})
  {
    var none: seq<nat> := [];
    assert Increasing(none) && PickedAt([], xs, none);
  }

  lemma PickedLonger<T>(ys: seq<T>, xs: seq<T>, keep: set<nat>, x: T)
    requires Picked(ys, xs, keep)
    ensures Picked(ys, xs + [x], keep)
  {
    var at: seq<nat> :| Increasing(at) && (forall i: nat :: i in at <==> i in keep) && PickedAt(ys, xs, at);
    assert PickedAt(ys, xs + [x], at);
  }

  lemma PickedLast<T>(ys: seq<T>, xs: seq<T>, keep: set<nat>, x: T)
    requires Picked(ys, xs, keep)
    ensures Picked(ys + [x], xs + [x], keep + {|xs|})
  {
    var at: seq<nat> :| Increasing(at) && (forall i: nat :: i in at <==> i in keep) && PickedAt(ys, xs, at);
    var longer := at + [|xs|];
    forall i: nat ensures i in longer <==> i in keep + {|xs|} {
      assert i in longer <==> i in at || i == |xs|;
    }
    assert Increasing(longer) && PickedAt(ys + [x], xs + [x], longer);
  }

  lemma IncreasingHead(a: seq<nat>, b: seq<nat>)
    requires Increasing(a) && Increasing(b) && a != [] && b != [] && a[0] in b && b[0] in a
    ensures a[0] == b[0]
  {
    var i: nat :| i < |a| && a[i] == b[0];
    assert a[0] <= b[0];
    var j: nat :| j < |b| && b[j] == a[0];
    assert b[0] <= a[0];
  }

  lemma {:induction false} SamePositions(a: seq<nat>, b: seq<nat>)
    requires Increasing(a) && Increasing(b) && forall i: nat :: i in a <==> i in b
    ensures a == b
  {
    if a != [] { assert a[0] in b; }
    if b != [] { assert b[0] in a; }
    if a != [] {
      IncreasingHead(a, b);
      forall i: nat ensures i in a[1..] <==> i in b[1..] {
        RestMembers(a, i);
        RestMembers(b, i);
      }
      assert Increasing(a[1..]) && Increasing(b[1..]);
      SamePositions(a[1..], b[1..]);
      assert a == [a[0]] + a[1..] && b == [b[0]] + b[1..];
    }
  }

  lemma RestMembers(a: seq<nat>, i: nat)
    requires a != [] && Increasing(a)
    ensures i in a[1..] <==> i in a && i != a[0]
  {
    assert a == [a[0]] + a[1..];
    if i in a[1..] {
      var k: nat :| k < |a| - 1 && a[1..][k] == i;
      assert a[0] < a[k + 1];
    }
  }

  /** What is picked is determined: there is only one such list. */
  lemma PickedUnique<T>(ys: seq<T>, zs: seq<T>, xs: seq<T>, keep: set<nat>)
    requires Picked(ys, xs, keep) && Picked(zs, xs, keep)
    ensures ys == zs
  {
    var a: seq<nat> :| Increasing(a) && (forall i: nat :: i in a <==> i in keep) && PickedAt(ys, xs, a);
    var b: seq<nat> :| Increasing(b) && (forall i: nat :: i in b <==> i in keep) && PickedAt(zs, xs, b);
    SamePositions(a, b);
  }
}
