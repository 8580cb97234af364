/** What the multi-key functions compute from the answers of a resolver, and how they agree. */
module Grouping {
  import opened Errors
  import opened Subsequences
  import opened Topology

  type Answer = Result<Shard>

  datatype Group<K> = Group(shard: Shard, keys: seq<K>)

  datatype Partition<K> = Partition(groups: seq<Group<K>>, unresolved: seq<K>)

  predicate Fatal(a: Answer) { a.Err? && !Is(a.error, ErrNoShard) }

  predicate Failed(a: Answer) { a.Err? }

  /** The earliest answer with a property. */
  function First(outs: seq<Answer>, bad: Answer -> bool): Option<nat> {
    if outs == [] then None
    else
      var k := |outs| - 1;
      var earlier := First(outs[..k], bad);
      if earlier.Some? then earlier else if bad(outs[k]) then Some(k) else None
  }

  lemma {:induction false} FirstIsEarliest(outs: seq<Answer>, bad: Answer -> bool)
    ensures First(outs, bad).Some? ==>
      var i := First(outs, bad).value; i < |outs| && bad(outs[i]) && forall j: nat :: j < i ==> !bad(outs[j])
    ensures First(outs, bad).None? ==> forall j: nat :: j < |outs| ==> !bad(outs[j])
  {
    if outs != [] {
      var k := |outs| - 1;
      FirstIsEarliest(outs[..k], bad);
      assert forall j: nat :: j < k ==> outs[..k][j] == outs[j];
    }
  }

  predicate Knows(shards: seq<Shard>, id: Id) { exists s :: s in shards && s.id == id }

  /** The shards answered, one per ID, in order of first appearance. */
  function Firsts(outs: seq<Answer>): seq<Shard> {
    if outs == [] then []
    else
      var k := |outs| - 1;
      var earlier := Firsts(outs[..k]);
      if outs[k].Ok? && !Knows(earlier, outs[k].value.id) then earlier + [outs[k].value] else earlier
  }

  /** The keys resolved to `id`, in input order. */
  function KeysOf<K>(keys: seq<K>, outs: seq<Answer>, id: Id): seq<K>
    requires |keys| == |outs|
  {
    if keys == [] then []
    else
      var k := |keys| - 1;
      KeysOf(keys[..k], outs[..k], id) + if outs[k].Ok? && outs[k].value.id == id then [keys[k]] else []
  }

  /** One group per shard in order of first appearance, each with exactly its keys. */
  function Groups<K>(keys: seq<K>, outs: seq<Answer>): seq<Group<K>>
    requires |keys| == |outs|
  {
    var firsts := Firsts(outs);
    seq(|firsts|, i requires 0 <= i < |firsts| => Group(firsts[i], KeysOf(keys, outs, firsts[i].id)))
  }

  function UnresolvedKeys<K>(keys: seq<K>, outs: seq<Answer>): seq<K>
    requires |keys| == |outs|
  {
    if keys == [] then []
    else
      var k := |keys| - 1;
      UnresolvedKeys(keys[..k], outs[..k]) + if outs[k].Err? then [keys[k]] else []
  }

  function SameShardResult(outs: seq<Answer>): Result<Shard> {
    if outs == [] then Err(Leaf(ErrNoShard))
    else if outs[0].Err? then Err(Wrap(ResolvingKey(0), outs[0].error))
    else
      match First(outs, Differs(outs[0].value.id))
      case None => outs[0]
      case Some(i) =>
        FirstIsEarliest(outs, Differs(outs[0].value.id));
        if outs[i].Err? then Err(Wrap(ResolvingKey(i), outs[i].error))
        else Err(Mismatch(outs[0].value.id, outs[i].value.id, i))
  }

  function Differs(expected: Id): Answer -> bool {
    (a: Answer) => a.Err? || a.value.id != expected
  }

  function GroupResult<K>(keys: seq<K>, outs: seq<Answer>): Result<seq<Group<K>>>
    requires |keys| == |outs|
  {
    match First(outs, Failed)
    case None => Ok(Groups(keys, outs))
    case Some(i) => FirstIsEarliest(outs, Failed); Err(Wrap(ResolvingKey(i), outs[i].error))
  }

  function PartitionResult<K>(keys: seq<K>, outs: seq<Answer>): Result<Partition<K>>
    requires |keys| == |outs|
  {
    match First(outs, Fatal)
    case None => Ok(Partition(Groups(keys, outs), UnresolvedKeys(keys, outs)))
    case Some(i) => FirstIsEarliest(outs, Fatal); Err(Wrap(ResolvingKey(i), outs[i].error))
  }

  lemma FirstIs(outs: seq<Answer>, bad: Answer -> bool, i: nat)
    requires i < |outs| && bad(outs[i]) && forall j: nat :: j < i ==> !bad(outs[j])
    ensures First(outs, bad) == Some(i)
  {
    FirstIsEarliest(outs, bad);
  }

  /** The key reported by `SameShard` is the first one that fails to resolve or leaves the first key's shard. */
  lemma SameShardReportsEarliest(outs: seq<Answer>, i: nat)
    requires i < |outs| && (0 < i ==> outs[0].Ok?)
    requires forall j: nat :: j < i ==> outs[j].Ok? && outs[j].value.id == outs[0].value.id
    ensures outs[i].Err? ==> SameShardResult(outs) == Err(Wrap(ResolvingKey(i), outs[i].error))
    ensures 0 < i && outs[i].Ok? && outs[i].value.id != outs[0].value.id ==>
      SameShardResult(outs) == Err(Mismatch(outs[0].value.id, outs[i].value.id, i))
  {
    if 0 < i && Differs(outs[0].value.id)(outs[i]) {
      FirstIs(outs, Differs(outs[0].value.id), i);
    }
  }

  /** So is the one reported by the grouping functions: the first failure, or the first that is not ErrNoShard. */
  lemma GroupingReportsEarliest<K>(keys: seq<K>, outs: seq<Answer>, i: nat)
    requires |keys| == |outs| && i < |outs| && outs[i].Err?
    ensures (forall j: nat :: j < i ==> outs[j].Ok?) ==>
      GroupResult(keys, outs) == Err(Wrap(ResolvingKey(i), outs[i].error))
    ensures (!Is(outs[i].error, ErrNoShard)
             && forall j: nat :: j < i && outs[j].Err? ==> Is(outs[j].error, ErrNoShard)) ==>
      PartitionResult(keys, outs) == Err(Wrap(ResolvingKey(i), outs[i].error))
  {
    if forall j: nat :: j < i ==> outs[j].Ok? {
      FirstIs(outs, Failed, i);
    }
    if !Is(outs[i].error, ErrNoShard) && forall j: nat :: j < i && outs[j].Err? ==> Is(outs[j].error, ErrNoShard) {
      FirstIs(outs, Fatal, i);
    }
  }

  lemma FirstsSnoc(outs: seq<Answer>, a: Answer)
    ensures Firsts(outs + [a]) ==
      if a.Ok? && !Knows(Firsts(outs), a.value.id) then Firsts(outs) + [a.value] else Firsts(outs)
  {
    assert (outs + [a])[..|outs|] == outs;
  }

  lemma KnowsSnoc(shards: seq<Shard>, s: Shard, id: Id)
    ensures Knows(shards + [s], id) <==> Knows(shards, id) || s.id == id
  {
    var longer := shards + [s];
    assert s in longer && forall t :: t in longer <==> t in shards || t == s;
  }

  lemma {:induction false} FirstsComplete(outs: seq<Answer>)
    ensures UniqueIds(Firsts(outs))
    ensures forall i: nat :: i < |outs| && outs[i].Ok? ==> Knows(Firsts(outs), outs[i].value.id)
  {
    if outs != [] {
      var k := |outs| - 1;
      FirstsComplete(outs[..k]);
      assert forall i: nat :: i < k ==> outs[..k][i] == outs[i];
      if outs[k].Ok? && !Knows(Firsts(outs[..k]), outs[k].value.id) {
        forall id
          ensures Knows(Firsts(outs[..k]) + [outs[k].value], id)
            <==> Knows(Firsts(outs[..k]), id) || outs[k].value.id == id
        {
          KnowsSnoc(Firsts(outs[..k]), outs[k].value, id);
        }
        forall i: nat | i < |Firsts(outs[..k])| ensures Firsts(outs[..k])[i].id != outs[k].value.id {
          assert Firsts(outs[..k])[i] in Firsts(outs[..k]);
        }
      }
    }
  }

  /** Where each of `Firsts` was answered first. */
  function FirstPositions(outs: seq<Answer>): seq<nat> {
    if outs == [] then []
    else
      var k := |outs| - 1;
      FirstPositions(outs[..k])
      + if outs[k].Ok? && !Knows(Firsts(outs[..k]), outs[k].value.id) then [k] else []
  }

  /** `s` is the first answer with its ID, given at position `i`. */
  ghost predicate FirstAt(outs: seq<Answer>, s: Shard, i: nat) {
    i < |outs| && outs[i] == Ok(s) && forall j: nat :: j < i ==> outs[j].Err? || outs[j].value.id != s.id
  }

  lemma FirstAtLonger(outs: seq<Answer>, s: Shard, i: nat)
    requires outs != [] && FirstAt(outs[..|outs| - 1], s, i)
    ensures FirstAt(outs, s, i)
  {
    var prior := outs[..|outs| - 1];
    assert forall j: nat :: j < |prior| ==> prior[j] == outs[j];
  }

  lemma NewFirstAt(outs: seq<Answer>)
    requires outs != [] && outs[|outs| - 1].Ok?
    requires !Knows(Firsts(outs[..|outs| - 1]), outs[|outs| - 1].value.id)
    ensures FirstAt(outs, outs[|outs| - 1].value, |outs| - 1)
  {
    var k := |outs| - 1;
    var prior := outs[..k];
    FirstsComplete(prior);
    forall j: nat | j < k && outs[j].Ok? ensures outs[j].value.id != outs[k].value.id {
      assert prior[j] == outs[j];
    }
  }

  /** IDs are distinct, each shard is the answer at its ID's first appearance, and these appearances are in order. */
  lemma {:induction false} FirstsInOrder(outs: seq<Answer>)
    ensures |FirstPositions(outs)| == |Firsts(outs)|
    ensures UniqueIds(Firsts(outs))
    ensures forall p: nat :: p < |Firsts(outs)| ==> FirstAt(outs, Firsts(outs)[p], FirstPositions(outs)[p])
    ensures forall p: nat, q: nat :: p < q < |Firsts(outs)| ==> FirstPositions(outs)[p] < FirstPositions(outs)[q]
  {
    FirstsComplete(outs);
    if outs != [] {
      var k := |outs| - 1;
      var prior, earlier, positions := outs[..k], Firsts(outs[..k]), FirstPositions(outs[..k]);
      FirstsInOrder(prior);
      forall p: nat | p < |earlier| ensures FirstAt(outs, earlier[p], positions[p]) && positions[p] < k {
        assert FirstAt(prior, earlier[p], positions[p]);
        FirstAtLonger(outs, earlier[p], positions[p]);
      }
      if outs[k].Ok? && !Knows(earlier, outs[k].value.id) {
        NewFirstAt(outs);
        assert Firsts(outs) == earlier + [outs[k].value] && FirstPositions(outs) == positions + [k];
      } else {
        assert Firsts(outs) == earlier && FirstPositions(outs) == positions + [];
      }
    }
  }

  lemma KeysOfSnoc<K>(keys: seq<K>, outs: seq<Answer>, key: K, a: Answer, id: Id)
    requires |keys| == |outs|
    ensures KeysOf(keys + [key], outs + [a], id) ==
      KeysOf(keys, outs, id) + if a.Ok? && a.value.id == id then [key] else []
  {
    assert (keys + [key])[..|keys|] == keys && (outs + [a])[..|outs|] == outs;
  }

  lemma {:induction false} NoKeysOfUnknown<K>(keys: seq<K>, outs: seq<Answer>, id: Id)
    requires |keys| == |outs| && !Knows(Firsts(outs), id)
    ensures KeysOf(keys, outs, id) == []
  {
    if keys != [] {
      var k := |keys| - 1;
      FirstsComplete(outs);
      assert forall s :: s in Firsts(outs[..k]) ==> s in Firsts(outs);
      NoKeysOfUnknown(keys[..k], outs[..k], id);
    }
  }

  lemma GroupsSnocAt<K>(keys: seq<K>, outs: seq<Answer>, key: K, a: Answer, i: nat)
    requires |keys| == |outs| && i < |Firsts(outs)|
    ensures i < |Groups(keys + [key], outs + [a])|
    ensures Groups(keys + [key], outs + [a])[i] ==
      if a.Ok? && a.value.id == Firsts(outs)[i].id then Group(Firsts(outs)[i], Groups(keys, outs)[i].keys + [key])
      else Groups(keys, outs)[i]
  {
    FirstsSnoc(outs, a);
    var id := Firsts(outs)[i].id;
    KeysOfSnoc(keys, outs, key, a, id);
    var none: seq<K> := [];
    assert KeysOf(keys, outs, id) + none == KeysOf(keys, outs, id);
  }

  lemma AppendedOne<T>(whole: seq<T>, a: seq<T>, x: T)
    requires |whole| == |a| + 1 && whole[|a|] == x
    requires forall i: nat :: i < |a| ==> whole[i] == a[i]
    ensures whole == a + [x]
  {
  }

  lemma NewGroupKeys<K>(keys: seq<K>, outs: seq<Answer>, key: K, s: Shard)
    requires |keys| == |outs| && !Knows(Firsts(outs), s.id)
    ensures KeysOf(keys + [key], outs + [Ok(s)], s.id) == [key]
    ensures Firsts(outs + [Ok(s)]) == Firsts(outs) + [s]
  {
    FirstsSnoc(outs, Ok(s));
    KeysOfSnoc(keys, outs, key, Ok(s), s.id);
    NoKeysOfUnknown(keys, outs, s.id);
  }

  /** An answer with a new ID opens a group at the end. */
  lemma NewGroupSnoc<K>(keys: seq<K>, outs: seq<Answer>, key: K, s: Shard)
    requires |keys| == |outs| && !Knows(Firsts(outs), s.id)
    ensures Groups(keys + [key], outs + [Ok(s)]) == Groups(keys, outs) + [Group(s, [key])]
  {
    var before, after := Groups(keys, outs), Groups(keys + [key], outs + [Ok(s)]);
    NewGroupKeys(keys, outs, key, s);
    forall i: nat | i < |before| ensures after[i] == before[i] {
      assert Firsts(outs)[i] in Firsts(outs);
      GroupsSnocAt(keys, outs, key, Ok(s), i);
    }
    AppendedOne(after, before, Group(s, [key]));
  }

  /** An answer with a known ID extends its group. */
  lemma OldGroupSnoc<K>(keys: seq<K>, outs: seq<Answer>, key: K, s: Shard, at: nat)
    requires |keys| == |outs| && at < |Firsts(outs)| && Firsts(outs)[at].id == s.id
    ensures Groups(keys + [key], outs + [Ok(s)]) ==
      Groups(keys, outs)[at := Group(Firsts(outs)[at], Groups(keys, outs)[at].keys + [key])]
  {
    var before, after := Groups(keys, outs), Groups(keys + [key], outs + [Ok(s)]);
    assert Firsts(outs)[at] in Firsts(outs);
    FirstsSnoc(outs, Ok(s));
    FirstsComplete(outs);
    assert |after| == |before|;
    forall i: nat | i < |before|
      ensures after[i] == before[at := Group(Firsts(outs)[at], before[at].keys + [key])][i]
    {
      GroupsSnocAt(keys, outs, key, Ok(s), i);
    }
  }

  /** A failed answer changes no group and leaves its key over. */
  lemma FailedSnoc<K>(keys: seq<K>, outs: seq<Answer>, key: K, e: Error)
    requires |keys| == |outs|
    ensures Groups(keys + [key], outs + [Err(e)]) == Groups(keys, outs)
    ensures UnresolvedKeys(keys + [key], outs + [Err(e)]) == UnresolvedKeys(keys, outs) + [key]
  {
    var before, after := Groups(keys, outs), Groups(keys + [key], outs + [Err(e)]);
    FirstsSnoc(outs, Err(e));
    assert |after| == |before|;
    forall i: nat | i < |before| ensures after[i] == before[i] {
      GroupsSnocAt(keys, outs, key, Err(e), i);
    }
    UnresolvedSnoc(keys, outs, key, Err(e));
  }

  lemma UnresolvedSnoc<K>(keys: seq<K>, outs: seq<Answer>, key: K, a: Answer)
    requires |keys| == |outs|
    ensures UnresolvedKeys(keys + [key], outs + [a]) == UnresolvedKeys(keys, outs) + if a.Err? then [key] else []
  {
    assert (keys + [key])[..|keys|] == keys && (outs + [a])[..|outs|] == outs;
  }

  /** All keys of all groups. */
  function AllKeys<K>(groups: seq<Group<K>>): multiset<K> {
    if groups == [] then multiset{} else AllKeys(groups[..|groups| - 1]) + multiset(groups[|groups| - 1].keys)
  }

  lemma {:induction false} AllKeysUpdate<K>(groups: seq<Group<K>>, i: nat, key: K)
    requires i < |groups|
    ensures AllKeys(groups[i := Group(groups[i].shard, groups[i].keys + [key])]) == AllKeys(groups) + multiset{key}
  {
    var k := |groups| - 1;
    var updated := groups[i := Group(groups[i].shard, groups[i].keys + [key])];
    if i == k {
      assert updated[..k] == groups[..k];
    } else {
      AllKeysUpdate(groups[..k], i, key);
      assert updated[..k] == groups[..k][i := Group(groups[i].shard, groups[i].keys + [key])];
    }
  }

  lemma AllKeysSnoc<K>(keys: seq<K>, outs: seq<Answer>, key: K, a: Answer)
    requires |keys| == |outs|
    ensures AllKeys(Groups(keys + [key], outs + [a])) ==
      AllKeys(Groups(keys, outs)) + if a.Ok? then multiset{key} else multiset{}
  {
    var before := Groups(keys, outs);
    if a.Ok? {
      if Knows(Firsts(outs), a.value.id) {
        var s :| s in Firsts(outs) && s.id == a.value.id;
        var i: nat :| i < |Firsts(outs)| && Firsts(outs)[i] == s;
        OldGroupSnoc(keys, outs, key, a.value, i);
        AllKeysUpdate(before, i, key);
      } else {
        NewGroupSnoc(keys, outs, key, a.value);
        assert (before + [Group(a.value, [key])])[..|before|] == before;
      }
    } else {
      FailedSnoc(keys, outs, key, a.error);
    }
  }

  lemma ConservedSnoc<K>(keys: seq<K>, outs: seq<Answer>, key: K, a: Answer)
    requires |keys| == |outs|
    requires AllKeys(Groups(keys, outs)) + multiset(UnresolvedKeys(keys, outs)) == multiset(keys)
    ensures AllKeys(Groups(keys + [key], outs + [a])) + multiset(UnresolvedKeys(keys + [key], outs + [a]))
      == multiset(keys + [key])
  {
    AllKeysSnoc(keys, outs, key, a);
    UnresolvedSnoc(keys, outs, key, a);
    var u := UnresolvedKeys(keys, outs);
    assert multiset(u + [key]) == multiset(u) + multiset{key};
  }

  /** No key is lost or duplicated. */
  lemma {:induction false} KeysConserved<K>(keys: seq<K>, outs: seq<Answer>)
    requires |keys| == |outs|
    ensures AllKeys(Groups(keys, outs)) + multiset(UnresolvedKeys(keys, outs)) == multiset(keys)
  {
    if keys == [] {
      assert Groups(keys, outs) == [];
    } else {
      var k := |keys| - 1;
      var ks, os, key, a := keys[..k], outs[..k], keys[k], outs[k];
      assert keys == ks + [key];
      assert outs == os + [a];
      KeysConserved(ks, os);
      ConservedSnoc(ks, os, key, a);
    }
  }

  /** `SameShard` succeeds exactly when grouping gives one group; then that group is the shard and holds all keys. */
  lemma SameShardIsOneGroup<K>(keys: seq<K>, outs: seq<Answer>)
    requires |keys| == |outs| && keys != []
    ensures SameShardResult(outs).Ok? <==> GroupResult(keys, outs).Ok? && |GroupResult(keys, outs).value| == 1
    ensures SameShardResult(outs).Ok? ==> GroupResult(keys, outs).value == [Group(SameShardResult(outs).value, keys)]
  {
    FirstIsEarliest(outs, Failed);
    FirstsComplete(outs);
    if outs[0].Ok? {
      FirstIsEarliest(outs, Differs(outs[0].value.id));
      if First(outs, Differs(outs[0].value.id)).None? {
        OneShard(keys, outs);
      } else if GroupResult(keys, outs).Ok? {
        var i := First(outs, Differs(outs[0].value.id)).value;
        var s :| s in Firsts(outs) && s.id == outs[0].value.id;
        var t :| t in Firsts(outs) && t.id == outs[i].value.id;
        assert |Firsts(outs)| != 1;
      }
    }
  }

  lemma {:induction false} OneShard<K>(keys: seq<K>, outs: seq<Answer>)
    requires |keys| == |outs| && keys != [] && outs[0].Ok?
    requires forall i: nat :: i < |outs| ==> outs[i].Ok? && outs[i].value.id == outs[0].value.id
    ensures Firsts(outs) == [outs[0].value] && KeysOf(keys, outs, outs[0].value.id) == keys
  {
    var k := |keys| - 1;
    var s := outs[0].value;
    assert keys == keys[..k] + [keys[k]] && outs == outs[..k] + [outs[k]];
    FirstsSnoc(outs[..k], outs[k]);
    KeysOfSnoc(keys[..k], outs[..k], keys[k], outs[k], s.id);
    if k == 0 {
      assert outs[..k] == [] && keys[..k] == [];
    } else {
      assert outs[..k][0] == outs[0];
      OneShard(keys[..k], outs[..k]);
      assert s in Firsts(outs[..k]);
    }
  }

  function Resolvable<K>(keys: seq<K>, outs: seq<Answer>): (r: (seq<K>, seq<Answer>))
    requires |keys| == |outs|
    ensures |r.0| == |r.1| <= |keys|
  {
    if keys == [] then ([], [])
    else
      var k := |keys| - 1;
      var r := Resolvable(keys[..k], outs[..k]);
      if outs[k].Ok? then (r.0 + [keys[k]], r.1 + [outs[k]]) else r
  }

  lemma {:induction false} ResolvableGroups<K>(keys: seq<K>, outs: seq<Answer>)
    requires |keys| == |outs|
    ensures var r := Resolvable(keys, outs);
      && (forall a :: a in r.1 ==> a.Ok?)
      && Firsts(r.1) == Firsts(outs)
      && forall id :: KeysOf(r.0, r.1, id) == KeysOf(keys, outs, id)
  {
    if keys != [] {
      var k := |keys| - 1;
      ResolvableGroups(keys[..k], outs[..k]);
      var r := Resolvable(keys[..k], outs[..k]);
      if outs[k].Ok? {
        assert (r.0 + [keys[k]])[..|r.0|] == r.0 && (r.1 + [outs[k]])[..|r.1|] == r.1;
      }
    }
  }

  ghost function Answered(outs: seq<Answer>): set<nat> {
    set i: nat | i < |outs| && outs[i].Ok?
  }

  lemma AnsweredSnoc(outs: seq<Answer>)
    requires outs != []
    ensures var k := |outs| - 1; Answered(outs) == Answered(outs[..k]) + if outs[k].Ok? then {k} else {}
  {
  }

  /** The keys that resolve, and their answers, in input order. */
  lemma {:induction false} ResolvablePicks<K>(keys: seq<K>, outs: seq<Answer>)
    requires |keys| == |outs|
    ensures Picked(Resolvable(keys, outs).0, keys, Answered(outs))
    ensures Picked(Resolvable(keys, outs).1, outs, Answered(outs))
  {
    if keys == [] {
      NonePicked(keys);
      NonePicked(outs);
      assert Answered(outs) == {};
    } else {
      var k := |keys| - 1;
      var r, earlier := Resolvable(keys[..k], outs[..k]), Answered(outs[..k]);
      ResolvablePicks(keys[..k], outs[..k]);
      AnsweredSnoc(outs);
      assert keys == keys[..k] + [keys[k]] && outs == outs[..k] + [outs[k]];
      if outs[k].Ok? {
        PickedLast(r.0, keys[..k], earlier, keys[k]);
        PickedLast(r.1, outs[..k], earlier, outs[k]);
      } else {
        PickedLonger(r.0, keys[..k], earlier, keys[k]);
        PickedLonger(r.1, outs[..k], earlier, outs[k]);
      }
    }
  }

  /** Partitioning is strict grouping of the keys that resolve, with the others set aside. */
  lemma PartitionGroupsResolvable<K>(keys: seq<K>, outs: seq<Answer>)
    requires |keys| == |outs| && PartitionResult(keys, outs).Ok?
    ensures var r := Resolvable(keys, outs);
      GroupResult(r.0, r.1) == Ok(PartitionResult(keys, outs).value.groups)
    ensures Picked(Resolvable(keys, outs).0, keys, Answered(outs))
    ensures Picked(Resolvable(keys, outs).1, outs, Answered(outs))
  {
    ResolvablePicks(keys, outs);
    ResolvableGroups(keys, outs);
    var r := Resolvable(keys, outs);
    FirstIsEarliest(r.1, Failed);
    assert Groups(r.0, r.1) == Groups(keys, outs);
  }

  lemma {:induction false} NoneUnresolved<K>(keys: seq<K>, outs: seq<Answer>)
    requires |keys| == |outs|
    ensures UnresolvedKeys(keys, outs) == [] <==> forall i: nat :: i < |outs| ==> outs[i].Ok?
  {
    if keys != [] {
      var k := |keys| - 1;
      NoneUnresolved(keys[..k], outs[..k]);
      assert forall i: nat :: i < k ==> outs[..k][i] == outs[i];
    }
  }

  /** Strict grouping succeeds exactly when tolerant partitioning leaves nothing over, and then with the same groups. */
  lemma StrictIsTolerantWithoutRest<K>(keys: seq<K>, outs: seq<Answer>)
    requires |keys| == |outs|
    ensures GroupResult(keys, outs).Ok?
      <==> PartitionResult(keys, outs).Ok? && PartitionResult(keys, outs).value.unresolved == []
    ensures GroupResult(keys, outs).Ok? ==>
      PartitionResult(keys, outs) == Ok(Partition(GroupResult(keys, outs).value, []))
  {
    FirstIsEarliest(outs, Failed);
    FirstIsEarliest(outs, Fatal);
    NoneUnresolved(keys, outs);
  }

  /** The shards of `b` whose IDs `a` does not have. */
  function NewShards(a: seq<Shard>, b: seq<Shard>): seq<Shard> {
    if b == [] then []
    else
      var k := |b| - 1;
      NewShards(a, b[..k]) + if Knows(a, b[k].id) then [] else [b[k]]
  }

  function KeysIn<K>(groups: seq<Group<K>>, id: Id): seq<K> {
    if groups == [] then []
    else
      var k := |groups| - 1;
      if groups[k].shard.id == id then groups[k].keys else KeysIn(groups[..k], id)
  }

  predicate HasGroup<K>(groups: seq<Group<K>>, id: Id) {
    exists i: nat :: i < |groups| && groups[i].shard.id == id
  }

  function NewGroups<K>(a: seq<Group<K>>, b: seq<Group<K>>): seq<Group<K>> {
    if b == [] then []
    else
      var k := |b| - 1;
      NewGroups(a, b[..k]) + if HasGroup(a, b[k].shard.id) then [] else [b[k]]
  }

  /** Groups of `a` extended by `b`'s keys of the same shard, then `b`'s other groups. */
  function Merge<K>(a: seq<Group<K>>, b: seq<Group<K>>): seq<Group<K>> {
    Extended(a, b) + NewGroups(a, b)
  }

  function Extended<K>(a: seq<Group<K>>, b: seq<Group<K>>): seq<Group<K>> {
    seq(|a|, i requires 0 <= i < |a| => Group(a[i].shard, a[i].keys + KeysIn(b, a[i].shard.id)))
  }

  lemma Reassociate<T>(a: seq<T>, b: seq<T>, c: seq<T>)
    ensures a + b + c == a + (b + c)
  {
  }

  lemma Unsnoc<T>(a: seq<T>, b: seq<T>)
    requires b != []
    ensures b == b[..|b| - 1] + [b[|b| - 1]]
    ensures a + b == (a + b[..|b| - 1]) + [b[|b| - 1]]
  {
  }

  lemma {:induction false} KeysOfConcat<K>(k1: seq<K>, o1: seq<Answer>, k2: seq<K>, o2: seq<Answer>, id: Id)
    requires |k1| == |o1| && |k2| == |o2|
    ensures KeysOf(k1 + k2, o1 + o2, id) == KeysOf(k1, o1, id) + KeysOf(k2, o2, id)
  {
    if k2 == [] {
      assert k1 + k2 == k1 && o1 + o2 == o1;
    } else {
      var k := |k2| - 1;
      KeysOfConcat(k1, o1, k2[..k], o2[..k], id);
      Unsnoc(k1, k2);
      Unsnoc(o1, o2);
      KeysOfSnoc(k1 + k2[..k], o1 + o2[..k], k2[k], o2[k], id);
      Reassociate(KeysOf(k1, o1, id), KeysOf(k2[..k], o2[..k], id),
                  if o2[k].Ok? && o2[k].value.id == id then [k2[k]] else []);
    }
  }

  lemma KnowsConcat(a: seq<Shard>, b: seq<Shard>, id: Id)
    ensures Knows(a + b, id) <==> Knows(a, id) || Knows(b, id)
  {
    assert forall s :: s in a + b <==> s in a || s in b;
  }

  lemma {:induction false} NewShardsKnown(a: seq<Shard>, b: seq<Shard>, id: Id)
    ensures Knows(NewShards(a, b), id) <==> !Knows(a, id) && Knows(b, id)
  {
    if b != [] {
      var k := |b| - 1;
      NewShardsKnown(a, b[..k], id);
      assert b == b[..k] + [b[k]];
      KnowsSnoc(b[..k], b[k], id);
      KnowsSnoc(NewShards(a, b[..k]), b[k], id);
    }
  }

  lemma NewShardsSnoc(a: seq<Shard>, b: seq<Shard>, s: Shard)
    ensures NewShards(a, b + [s]) == NewShards(a, b) + if Knows(a, s.id) then [] else [s]
  {
    assert (b + [s])[..|b|] == b;
  }

  lemma UnionKnows(f1: seq<Shard>, f2: seq<Shard>, id: Id)
    ensures Knows(f1 + NewShards(f1, f2), id) <==> Knows(f1, id) || Knows(f2, id)
  {
    NewShardsKnown(f1, f2, id);
    KnowsConcat(f1, NewShards(f1, f2), id);
  }

  lemma UnionGrows(f1: seq<Shard>, f2: seq<Shard>, s: Shard)
    ensures f1 + NewShards(f1, f2 + [s]) ==
      if Knows(f1, s.id) then f1 + NewShards(f1, f2) else f1 + NewShards(f1, f2) + [s]
  {
    NewShardsSnoc(f1, f2, s);
    if Knows(f1, s.id) {
      var none: seq<Shard> := [];
      assert NewShards(f1, f2) + none == NewShards(f1, f2);
    } else {
      Reassociate(f1, NewShards(f1, f2), [s]);
    }
  }

  lemma {:induction false} FirstsConcat(o1: seq<Answer>, o2: seq<Answer>)
    ensures Firsts(o1 + o2) == Firsts(o1) + NewShards(Firsts(o1), Firsts(o2))
  {
    if o2 == [] {
      assert o1 + o2 == o1;
    } else {
      var k := |o2| - 1;
      var a := o2[k];
      FirstsConcat(o1, o2[..k]);
      Unsnoc(o1, o2);
      FirstsSnoc(o1 + o2[..k], a);
      FirstsSnoc(o2[..k], a);
      if a.Ok? {
        UnionKnows(Firsts(o1), Firsts(o2[..k]), a.value.id);
        UnionGrows(Firsts(o1), Firsts(o2[..k]), a.value);
      }
    }
  }

  lemma {:induction false} KeysInGroups<K>(keys: seq<K>, outs: seq<Answer>, shards: seq<Shard>,
                                           groups: seq<Group<K>>, id: Id)
    requires |keys| == |outs| && |groups| == |shards|
    requires forall i: nat :: i < |groups| ==> groups[i] == Group(shards[i], KeysOf(keys, outs, shards[i].id))
    ensures KeysIn(groups, id) == if Knows(shards, id) then KeysOf(keys, outs, id) else []
  {
    if groups != [] {
      var k := |groups| - 1;
      assert shards == shards[..k] + [shards[k]];
      if shards[k].id == id {
        assert shards[k] in shards;
      } else {
        KeysInGroups(keys, outs, shards[..k], groups[..k], id);
        assert forall s :: s in shards ==> s in shards[..k] || s == shards[k];
        if Knows(shards[..k], id) {
          var s :| s in shards[..k] && s.id == id;
          assert s in shards;
        }
      }
    }
  }

  lemma {:induction false} NewGroupsOf<K>(a: seq<Group<K>>, shardsA: seq<Shard>, b: seq<Group<K>>, shardsB: seq<Shard>)
    requires |a| == |shardsA| && forall i: nat :: i < |a| ==> a[i].shard == shardsA[i]
    requires |b| == |shardsB| && forall i: nat :: i < |b| ==> b[i].shard == shardsB[i]
    ensures var late := NewShards(shardsA, shardsB);
      && |NewGroups(a, b)| == |late|
      && forall i: nat :: i < |late| ==>
        NewGroups(a, b)[i].shard == late[i] && NewGroups(a, b)[i] in b && !Knows(shardsA, late[i].id)
  {
    if b != [] {
      var k := |b| - 1;
      NewGroupsOf(a, shardsA, b[..k], shardsB[..k]);
      SameKnowledge(a, shardsA, shardsB[k].id);
      assert b == b[..k] + [b[k]];
    }
  }

  lemma SameKnowledge<K>(a: seq<Group<K>>, shards: seq<Shard>, id: Id)
    requires |a| == |shards| && forall i: nat :: i < |a| ==> a[i].shard == shards[i]
    ensures HasGroup(a, id) <==> Knows(shards, id)
  {
    if i: nat :| i < |a| && a[i].shard.id == id {
      assert shards[i] in shards;
    }
    if s :| s in shards && s.id == id {
      var i: nat :| i < |shards| && shards[i] == s;
      assert a[i].shard.id == id;
    }
  }

  lemma OldGroupOfConcat<K>(k1: seq<K>, o1: seq<Answer>, k2: seq<K>, o2: seq<Answer>, i: nat)
    requires |k1| == |o1| && |k2| == |o2| && i < |Firsts(o1)|
    ensures var a := Groups(k1, o1)[i];
      i < |Groups(k1 + k2, o1 + o2)|
      && Groups(k1 + k2, o1 + o2)[i] == Group(a.shard, a.keys + KeysIn(Groups(k2, o2), a.shard.id))
  {
    var id := Firsts(o1)[i].id;
    FirstsConcat(o1, o2);
    KeysOfConcat(k1, o1, k2, o2, id);
    KeysInGroups(k2, o2, Firsts(o2), Groups(k2, o2), id);
    if !Knows(Firsts(o2), id) {
      NoKeysOfUnknown(k2, o2, id);
    }
  }

  lemma NewGroupOfConcat<K>(k1: seq<K>, o1: seq<Answer>, k2: seq<K>, o2: seq<Answer>, i: nat)
    requires |k1| == |o1| && |k2| == |o2| && i < |NewGroups(Groups(k1, o1), Groups(k2, o2))|
    ensures |Groups(k1 + k2, o1 + o2)| == |Groups(k1, o1)| + |NewGroups(Groups(k1, o1), Groups(k2, o2))|
    ensures Groups(k1 + k2, o1 + o2)[|Groups(k1, o1)| + i] == NewGroups(Groups(k1, o1), Groups(k2, o2))[i]
  {
    ConcatLength(k1, o1, k2, o2);
    var g, s := NewGroups(Groups(k1, o1), Groups(k2, o2))[i], NewShards(Firsts(o1), Firsts(o2))[i];
    assert g.shard == s && g in Groups(k2, o2) && !Knows(Firsts(o1), s.id) by {
      NewGroupsOf(Groups(k1, o1), Firsts(o1), Groups(k2, o2), Firsts(o2));
    }
    MemberGroup(k2, o2, g);
    assert Firsts(o1 + o2)[|Firsts(o1)| + i] == s;
    OnlyLaterKeys(k1, o1, k2, o2, s.id);
  }

  lemma MemberGroup<K>(keys: seq<K>, outs: seq<Answer>, g: Group<K>)
    requires |keys| == |outs| && g in Groups(keys, outs)
    ensures g.keys == KeysOf(keys, outs, g.shard.id)
  {
    var i: nat :| i < |Groups(keys, outs)| && Groups(keys, outs)[i] == g;
    assert g == Group(Firsts(outs)[i], KeysOf(keys, outs, Firsts(outs)[i].id));
  }

  lemma OnlyLaterKeys<K>(k1: seq<K>, o1: seq<Answer>, k2: seq<K>, o2: seq<Answer>, id: Id)
    requires |k1| == |o1| && |k2| == |o2| && !Knows(Firsts(o1), id)
    ensures KeysOf(k1 + k2, o1 + o2, id) == KeysOf(k2, o2, id)
  {
    KeysOfConcat(k1, o1, k2, o2, id);
    NoKeysOfUnknown(k1, o1, id);
  }

  lemma ConcatLength<K>(k1: seq<K>, o1: seq<Answer>, k2: seq<K>, o2: seq<Answer>)
    requires |k1| == |o1| && |k2| == |o2|
    ensures |Groups(k1 + k2, o1 + o2)| == |Groups(k1, o1)| + |NewGroups(Groups(k1, o1), Groups(k2, o2))|
    ensures Firsts(o1 + o2) == Firsts(o1) + NewShards(Firsts(o1), Firsts(o2))
  {
    FirstsConcat(o1, o2);
    NewGroupsOf(Groups(k1, o1), Firsts(o1), Groups(k2, o2), Firsts(o2));
  }

  lemma MergeByElement<K>(whole: seq<Group<K>>, a: seq<Group<K>>, b: seq<Group<K>>)
    requires |whole| == |a| + |NewGroups(a, b)|
    requires forall i: nat :: i < |a| ==> whole[i] == Group(a[i].shard, a[i].keys + KeysIn(b, a[i].shard.id))
    requires forall i: nat :: i < |NewGroups(a, b)| ==> whole[|a| + i] == NewGroups(a, b)[i]
    ensures whole == Merge(a, b)
  {
    var extended, late := Extended(a, b), NewGroups(a, b);
    assert whole[..|a|] == extended && whole[|a|..] == late;
  }

  /** Grouping a concatenation is merging the two groupings: batches can be grouped apart and combined. */
  lemma GroupsOfConcat<K>(k1: seq<K>, o1: seq<Answer>, k2: seq<K>, o2: seq<Answer>)
    requires |k1| == |o1| && |k2| == |o2|
    ensures Groups(k1 + k2, o1 + o2) == Merge(Groups(k1, o1), Groups(k2, o2))
  {
    var a, b, whole := Groups(k1, o1), Groups(k2, o2), Groups(k1 + k2, o1 + o2);
    ConcatLength(k1, o1, k2, o2);
    forall i: nat | i < |a| ensures whole[i] == Group(a[i].shard, a[i].keys + KeysIn(b, a[i].shard.id)) {
      OldGroupOfConcat(k1, o1, k2, o2, i);
    }
    forall i: nat | i < |NewGroups(a, b)| ensures whole[|a| + i] == NewGroups(a, b)[i] {
      NewGroupOfConcat(k1, o1, k2, o2, i);
    }
    MergeByElement(whole, a, b);
  }

  lemma {:induction false} UnresolvedConcat<K>(k1: seq<K>, o1: seq<Answer>, k2: seq<K>, o2: seq<Answer>)
    requires |k1| == |o1| && |k2| == |o2|
    ensures UnresolvedKeys(k1 + k2, o1 + o2) == UnresolvedKeys(k1, o1) + UnresolvedKeys(k2, o2)
  {
    if k2 == [] {
      assert k1 + k2 == k1 && o1 + o2 == o1;
    } else {
      var k := |k2| - 1;
      assert (k1 + k2)[..|k1| + k] == k1 + k2[..k] && (o1 + o2)[..|o1| + k] == o1 + o2[..k];
      UnresolvedConcat(k1, o1, k2[..k], o2[..k]);
    }
  }

  lemma PartitionOfConcat<K>(k1: seq<K>, o1: seq<Answer>, k2: seq<K>, o2: seq<Answer>)
    requires |k1| == |o1| && |k2| == |o2|
    ensures PartitionResult(k1 + k2, o1 + o2).Ok? <==> PartitionResult(k1, o1).Ok? && PartitionResult(k2, o2).Ok?
    ensures PartitionResult(k1 + k2, o1 + o2).Ok? ==>
      var p, q := PartitionResult(k1, o1).value, PartitionResult(k2, o2).value;
      PartitionResult(k1 + k2, o1 + o2).value == Partition(Merge(p.groups, q.groups), p.unresolved + q.unresolved)
  {
    FirstIsEarliest(o1, Fatal);
    FirstIsEarliest(o2, Fatal);
    FirstIsEarliest(o1 + o2, Fatal);
    assert forall i: nat :: i < |o1| ==> (o1 + o2)[i] == o1[i];
    assert forall i: nat :: i < |o2| ==> (o1 + o2)[|o1| + i] == o2[i];
    GroupsOfConcat(k1, o1, k2, o2);
    UnresolvedConcat(k1, o1, k2, o2);
  }

  /** Positions answered with shard `id`. */
  ghost function AnsweredBy(outs: seq<Answer>, id: Id): set<nat> {
    set i: nat | i < |outs| && outs[i].Ok? && outs[i].value.id == id
  }

  ghost function Unanswered(outs: seq<Answer>): set<nat> {
    set i: nat | i < |outs| && outs[i].Err?
  }

  lemma {:induction false} KeysOfPicks<K>(keys: seq<K>, outs: seq<Answer>, id: Id)
    requires |keys| == |outs|
    ensures Picked(KeysOf(keys, outs, id), keys, AnsweredBy(outs, id))
  {
    if keys == [] {
      NonePicked(keys);
      assert AnsweredBy(outs, id) == {};
    } else {
      var k := |keys| - 1;
      var before := KeysOf(keys[..k], outs[..k], id);
      KeysOfPicks(keys[..k], outs[..k], id);
      assert keys == keys[..k] + [keys[k]];
      if outs[k].Ok? && outs[k].value.id == id {
        PickedLast(before, keys[..k], AnsweredBy(outs[..k], id), keys[k]);
        assert AnsweredBy(outs, id) == AnsweredBy(outs[..k], id) + {k};
      } else {
        PickedLonger(before, keys[..k], AnsweredBy(outs[..k], id), keys[k]);
        assert AnsweredBy(outs, id) == AnsweredBy(outs[..k], id);
        assert KeysOf(keys, outs, id) == before;
      }
    }
  }

  lemma {:induction false} UnresolvedPicks<K>(keys: seq<K>, outs: seq<Answer>)
    requires |keys| == |outs|
    ensures Picked(UnresolvedKeys(keys, outs), keys, Unanswered(outs))
  {
    if keys == [] {
      NonePicked(keys);
      assert Unanswered(outs) == {};
    } else {
      var k := |keys| - 1;
      var before := UnresolvedKeys(keys[..k], outs[..k]);
      UnresolvedPicks(keys[..k], outs[..k]);
      assert keys == keys[..k] + [keys[k]];
      if outs[k].Err? {
        PickedLast(before, keys[..k], Unanswered(outs[..k]), keys[k]);
        assert Unanswered(outs) == Unanswered(outs[..k]) + {k};
      } else {
        PickedLonger(before, keys[..k], Unanswered(outs[..k]), keys[k]);
        assert Unanswered(outs) == Unanswered(outs[..k]);
        assert UnresolvedKeys(keys, outs) == before;
      }
    }
  }

  /** The groups' shards are the first answers with their IDs, at the increasing positions `at`. */
  ghost predicate ByFirstAnswer<K>(groups: seq<Group<K>>, outs: seq<Answer>, at: seq<nat>) {
    && |at| == |groups| && Increasing(at)
    && forall p: nat :: p < |groups| ==> FirstAt(outs, groups[p].shard, at[p])
  }

  /** What grouping promises: every answered shard has one group, the groups come in the order of the shards' first
      answers, and each holds exactly the keys answered with its shard, in input order. */
  ghost predicate Grouped<K>(groups: seq<Group<K>>, keys: seq<K>, outs: seq<Answer>) {
    && (exists at: seq<nat> :: ByFirstAnswer(groups, outs, at))
    && (forall i: nat :: i < |outs| && outs[i].Ok? ==>
          exists p: nat :: p < |groups| && groups[p].shard.id == outs[i].value.id)
    && (forall p: nat :: p < |groups| ==> Picked(groups[p].keys, keys, AnsweredBy(outs, groups[p].shard.id)))
  }

  lemma GroupsAreGrouped<K>(keys: seq<K>, outs: seq<Answer>)
    requires |keys| == |outs|
    ensures Grouped(Groups(keys, outs), keys, outs)
  {
    var groups := Groups(keys, outs);
    FirstsInOrder(outs);
    assert ByFirstAnswer(groups, outs, FirstPositions(outs));
    FirstsComplete(outs);
    forall i: nat | i < |outs| && outs[i].Ok?
      ensures exists p: nat :: p < |groups| && groups[p].shard.id == outs[i].value.id
    {
      var s :| s in Firsts(outs) && s.id == outs[i].value.id;
      var p: nat :| p < |Firsts(outs)| && Firsts(outs)[p] == s;
      assert groups[p].shard == s;
    }
    forall p: nat | p < |groups| ensures Picked(groups[p].keys, keys, AnsweredBy(outs, groups[p].shard.id)) {
      KeysOfPicks(keys, outs, Firsts(outs)[p].id);
    }
  }

  /** `SameShard` succeeds exactly when there are keys and all are answered with one shard ID, with the first answer. */
  lemma SameShardMeaning(outs: seq<Answer>)
    ensures outs == [] ==> SameShardResult(outs) == Err(Leaf(ErrNoShard))
    ensures SameShardResult(outs).Ok? <==>
      outs != [] && outs[0].Ok? && forall i: nat :: i < |outs| ==> outs[i].Ok? && outs[i].value.id == outs[0].value.id
    ensures SameShardResult(outs).Ok? ==> SameShardResult(outs) == outs[0]
  {
    if outs != [] && outs[0].Ok? {
      FirstIsEarliest(outs, Differs(outs[0].value.id));
    }
  }

  /** `GroupByShard` succeeds exactly when every key is answered with a shard. */
  lemma GroupMeaning<K>(keys: seq<K>, outs: seq<Answer>)
    requires |keys| == |outs|
    ensures GroupResult(keys, outs).Ok? <==> forall i: nat :: i < |outs| ==> outs[i].Ok?
    ensures GroupResult(keys, outs).Ok? ==> Grouped(GroupResult(keys, outs).value, keys, outs)
  {
    FirstIsEarliest(outs, Failed);
    GroupsAreGrouped(keys, outs);
  }

  /** A key without a shard: ErrNoShard itself, or under `%w` layers. */
  predicate SetAside(a: Answer) { a.Err? && Wrapped(a.error, ErrNoShard) }

  /** `PartitionByShard` succeeds when every key is answered with a shard or with ErrNoShard, wrapped or not. It fails
      on any other sentinel. The keys set aside are exactly those without a shard, in input order. */
  lemma PartitionMeaning<K>(keys: seq<K>, outs: seq<Answer>)
    requires |keys| == |outs|
    ensures PartitionResult(keys, outs).Ok? <==>
      forall i: nat :: i < |outs| ==> outs[i].Ok? || Is(outs[i].error, ErrNoShard)
    ensures (forall i: nat :: i < |outs| ==> outs[i].Ok? || SetAside(outs[i])) ==> PartitionResult(keys, outs).Ok?
    ensures (exists i: nat, c :: i < |outs| && outs[i].Err? && c != ErrNoShard && Wrapped(outs[i].error, c)) ==>
      PartitionResult(keys, outs).Err?
    ensures PartitionResult(keys, outs).Ok? ==>
      && Grouped(PartitionResult(keys, outs).value.groups, keys, outs)
      && Picked(PartitionResult(keys, outs).value.unresolved, keys, Unanswered(outs))
  {
    FirstIsEarliest(outs, Fatal);
    forall i: nat | i < |outs| && SetAside(outs[i]) ensures !Fatal(outs[i]) {
      WrappedMatches(outs[i].error, ErrNoShard, ErrNoShard);
    }
    forall i: nat, c | i < |outs| && outs[i].Err? && c != ErrNoShard && Wrapped(outs[i].error, c)
      ensures Fatal(outs[i])
    {
      WrappedMatches(outs[i].error, c, ErrNoShard);
    }
    GroupsAreGrouped(keys, outs);
    UnresolvedPicks(keys, outs);
  }

  lemma FirstAnswers<K>(groups: seq<Group<K>>, keys: seq<K>, outs: seq<Answer>, at: seq<nat>, i: nat)
    requires Grouped(groups, keys, outs) && ByFirstAnswer(groups, outs, at)
    ensures i in at <==> i < |outs| && outs[i].Ok? && FirstAt(outs, outs[i].value, i)
  {
    if i in at {
      var p: nat :| p < |at| && at[p] == i;
      assert FirstAt(outs, groups[p].shard, at[p]);
    }
    if i < |outs| && outs[i].Ok? && FirstAt(outs, outs[i].value, i) {
      var p: nat :| p < |groups| && groups[p].shard.id == outs[i].value.id;
      assert FirstAt(outs, groups[p].shard, at[p]);
      assert at[p] == i;
    }
  }

  /** There is only one grouping. */
  lemma GroupedUnique<K>(a: seq<Group<K>>, b: seq<Group<K>>, keys: seq<K>, outs: seq<Answer>)
    requires Grouped(a, keys, outs) && Grouped(b, keys, outs)
    ensures a == b
  {
    var at: seq<nat> :| ByFirstAnswer(a, outs, at);
    var bt: seq<nat> :| ByFirstAnswer(b, outs, bt);
    forall i: nat ensures i in at <==> i in bt {
      FirstAnswers(a, keys, outs, at, i);
      FirstAnswers(b, keys, outs, bt, i);
    }
    SamePositions(at, bt);
    forall p: nat | p < |a| ensures a[p] == b[p] {
      assert FirstAt(outs, a[p].shard, at[p]) && FirstAt(outs, b[p].shard, bt[p]);
      PickedUnique(a[p].keys, b[p].keys, keys, AnsweredBy(outs, a[p].shard.id));
    }
  }
}
