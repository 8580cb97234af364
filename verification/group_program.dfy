/** `SameShard`, `GroupByShard` and `PartitionByShard` against a resolver that may keep state. */
module GroupProgram {
  import opened Errors
  import opened Topology
  import opened Grouping

  /** An arbitrary resolver: its answer may depend on every call made before. `log` records the calls. */
  class Resolver<K> {
    const answer: (seq<K>, K) -> Answer
    var log: seq<K>

    constructor (answer: (seq<K>, K) -> Answer)
      ensures this.answer == answer && log == []
    {
      this.answer := answer;
      log := [];
    }

    method Resolve(key: K) returns (a: Answer)
      modifies this`log
      ensures a == answer(old(log), key) && log == old(log) + [key]
    {
      a := answer(log, key);
      log := log + [key];
    }
  }

  /** The answers to `keys` asked in order, each once, after `log`. */
  function Answers<K>(answer: (seq<K>, K) -> Answer, log: seq<K>, keys: seq<K>): (outs: seq<Answer>)
    ensures |outs| == |keys|
  {
    seq(|keys|, i requires 0 <= i < |keys| => answer(log + keys[..i], keys[i]))
  }

  lemma AnswersSnoc<K>(answer: (seq<K>, K) -> Answer, log: seq<K>, keys: seq<K>, k: nat)
    requires k < |keys|
    ensures Answers(answer, log, keys[..k + 1]) == Answers(answer, log, keys[..k]) + [answer(log + keys[..k], keys[k])]
    ensures Answers(answer, log, keys)[..k] == Answers(answer, log, keys[..k])
    ensures Answers(answer, log, keys)[k] == answer(log + keys[..k], keys[k])
    ensures keys[..k + 1] == keys[..k] + [keys[k]]
    ensures log + keys[..k + 1] == log + keys[..k] + [keys[k]]
  {
    assert forall i: nat :: i < k ==> keys[..k + 1][..i] == keys[..i] && keys[..k][..i] == keys[..i];
    assert keys[..k + 1][..k] == keys[..k];
  }

  /** A resolver whose answer depends on the key alone answers a list the same way at any time. */
  lemma StatelessAnswers<K>(answer: (seq<K>, K) -> Answer, a: seq<K>, b: seq<K>, keys: seq<K>)
    requires forall h, h', k | k in keys :: answer(h, k) == answer(h', k)
    ensures Answers(answer, a, keys) == Answers(answer, b, keys)
  {
  }

  /** How many keys are asked when the loop stops at the first bad answer. */
  function Asked(outs: seq<Answer>, bad: Answer -> bool): (k: nat)
    ensures k <= |outs|
  {
    FirstIsEarliest(outs, bad);
    match First(outs, bad)
    case None => |outs|
    case Some(i) => i + 1
  }

  function SameShardAsked(outs: seq<Answer>): (k: nat)
    ensures k <= |outs|
  {
    if outs == [] then 0 else if outs[0].Err? then 1 else Asked(outs, Differs(outs[0].value.id))
  }

  lemma FirstIsNone(outs: seq<Answer>, bad: Answer -> bool)
    requires forall j: nat :: j < |outs| ==> !bad(outs[j])
    ensures First(outs, bad) == None
  {
    FirstIsEarliest(outs, bad);
  }

  /** The next call of a loop over `keys`: its answer is the next of `outs`. */
  method Ask<K>(resolver: Resolver<K>, keys: seq<K>, k: nat, ghost log: seq<K>, ghost outs: seq<Answer>)
    returns (a: Answer)
    requires k < |keys| && outs == Answers(resolver.answer, log, keys) && resolver.log == log + keys[..k]
    modifies resolver`log
    ensures a == outs[k] && resolver.log == log + keys[..k + 1]
    ensures keys[..k + 1] == keys[..k] + [keys[k]] && outs[..k + 1] == outs[..k] + [outs[k]]
  {
    AnswersSnoc(resolver.answer, log, keys, k);
    a := resolver.Resolve(keys[k]);
  }

  /** Asks each key once, in order, and stops at the first that fails or differs. */
  method SameShard<K>(resolver: Resolver?<K>, keys: seq<K>) returns (r: Result<Shard>)
    modifies resolver
    ensures resolver == null ==> r == Err(Leaf(Invalid(NilResolver)))
    ensures resolver != null ==> r == SameShardResult(Answers(resolver.answer, old(resolver.log), keys))
    ensures resolver != null ==>
      resolver.log == old(resolver.log) + keys[..SameShardAsked(Answers(resolver.answer, old(resolver.log), keys))]
  {
    if resolver == null {
      return Err(Leaf(Invalid(NilResolver)));
    }
    ghost var outs := Answers(resolver.answer, resolver.log, keys);
    if |keys| == 0 {
      assert resolver.log == old(resolver.log) + keys[..0];
      return Err(Leaf(ErrNoShard));
    }
    assert resolver.log + keys[..0] == resolver.log;
    var expected := Ask(resolver, keys, 0, resolver.log, outs);
    if expected.Err? {
      return Err(Wrap(ResolvingKey(0), expected.error));
    }
    var expectedId := expected.value.id;
    for k := 1 to |keys|
      invariant resolver.log == old(resolver.log) + keys[..k]
      invariant forall j: nat :: j < k ==> !Differs(expectedId)(outs[j])
    {
      var actual := Ask(resolver, keys, k, old(resolver.log), outs);
      if actual.Err? {
        FirstIs(outs, Differs(expectedId), k);
        return Err(Wrap(ResolvingKey(k), actual.error));
      }
      if actual.value.id != expectedId {
        FirstIs(outs, Differs(expectedId), k);
        return Err(Mismatch(expectedId, actual.value.id, k));
      }
    }
    FirstIsNone(outs, Differs(expectedId));
    assert keys[..|keys|] == keys;
    r := expected;
  }

  /** Every group is indexed by its ID, and nothing else is. */
  ghost predicate Indexed<K>(groups: seq<Group<K>>, indexById: map<Id, nat>) {
    && (forall id :: id in indexById ==> indexById[id] < |groups| && groups[indexById[id]].shard.id == id)
    && (forall i: nat :: i < |groups| ==> groups[i].shard.id in indexById && indexById[groups[i].shard.id] == i)
  }

  method AddKeyToGroup<K>(groups: seq<Group<K>>, indexById: map<Id, nat>, target: Shard, key: K,
                          ghost keys: seq<K>, ghost outs: seq<Answer>)
    returns (groups': seq<Group<K>>, indexById': map<Id, nat>)
    requires |keys| == |outs| && groups == Groups(keys, outs) && Indexed(groups, indexById)
    ensures groups' == Groups(keys + [key], outs + [Ok(target)]) && Indexed(groups', indexById')
  {
    var id := target.id;
    groups', indexById' := groups, indexById;
    var index;
    if id in indexById' {
      index := indexById'[id];
      OldGroupSnoc(keys, outs, key, target, index);
    } else {
      index := |groups'|;
      indexById' := indexById'[id := index];
      groups' := groups' + [Group(target, [])];
      UnindexedUnknown(keys, outs, groups, indexById, id);
      NewGroupSnoc(keys, outs, key, target);
    }
    groups' := groups'[index := Group(groups'[index].shard, groups'[index].keys + [key])];
  }

  lemma UnindexedUnknown<K>(keys: seq<K>, outs: seq<Answer>, groups: seq<Group<K>>, indexById: map<Id, nat>, id: Id)
    requires |keys| == |outs| && groups == Groups(keys, outs) && Indexed(groups, indexById) && id !in indexById
    ensures !Knows(Firsts(outs), id)
  {
    forall s | s in Firsts(outs) ensures s.id != id {
      var i: nat :| i < |Firsts(outs)| && Firsts(outs)[i] == s;
      assert groups[i].shard == s;
    }
  }

  lemma EmptyGroups<K>(keys: seq<K>, outs: seq<Answer>)
    requires keys == [] && outs == []
    ensures Groups(keys, outs) == [] && UnresolvedKeys(keys, outs) == []
  {
  }

  /** Asks each key once, in order; stops at the first failure. */
  method GroupByShard<K>(resolver: Resolver?<K>, keys: seq<K>) returns (r: Result<seq<Group<K>>>)
    modifies resolver
    ensures resolver == null ==> r == Err(Leaf(Invalid(NilResolver)))
    ensures resolver != null ==> r == GroupResult(keys, Answers(resolver.answer, old(resolver.log), keys))
    ensures resolver != null ==>
      resolver.log == old(resolver.log) + keys[..Asked(Answers(resolver.answer, old(resolver.log), keys), Failed)]
  {
    if resolver == null {
      return Err(Leaf(Invalid(NilResolver)));
    }
    ghost var outs := Answers(resolver.answer, resolver.log, keys);
    var groups: seq<Group<K>> := [];
    var indexById: map<Id, nat> := map[];
    EmptyGroups(keys[..0], outs[..0]);
    for k := 0 to |keys|
      invariant resolver.log == old(resolver.log) + keys[..k]
      invariant forall j: nat :: j < k ==> outs[j].Ok?
      invariant groups == Groups(keys[..k], outs[..k]) && Indexed(groups, indexById)
    {
      var resolved := Ask(resolver, keys, k, old(resolver.log), outs);
      if resolved.Err? {
        FirstIs(outs, Failed, k);
        return Err(Wrap(ResolvingKey(k), resolved.error));
      }
      groups, indexById := AddKeyToGroup(groups, indexById, resolved.value, keys[k], keys[..k], outs[..k]);
    }
    FirstIsNone(outs, Failed);
    assert keys[..|keys|] == keys && outs[..|keys|] == outs;
    r := Ok(groups);
  }

  /** One turn of the partitioning loop: the key joins its group, or is set aside. */
  method PartitionKey<K>(groups: seq<Group<K>>, indexById: map<Id, nat>, unresolved: seq<K>, resolved: Answer, key: K,
                         ghost keys: seq<K>, ghost outs: seq<Answer>)
    returns (groups': seq<Group<K>>, indexById': map<Id, nat>, unresolved': seq<K>)
    requires |keys| == |outs| && groups == Groups(keys, outs) && Indexed(groups, indexById)
    requires unresolved == UnresolvedKeys(keys, outs) && !Fatal(resolved)
    ensures groups' == Groups(keys + [key], outs + [resolved]) && Indexed(groups', indexById')
    ensures unresolved' == UnresolvedKeys(keys + [key], outs + [resolved])
  {
    if resolved.Err? {
      FailedSnoc(keys, outs, key, resolved.error);
      return groups, indexById, unresolved + [key];
    }
    UnresolvedSnoc(keys, outs, key, resolved);
    groups', indexById' := AddKeyToGroup(groups, indexById, resolved.value, key, keys, outs);
    unresolved' := unresolved;
  }

  /** The partitioning loop. */
  method PartitionAll<K>(resolver: Resolver<K>, keys: seq<K>) returns (r: Result<Partition<K>>)
    modifies resolver`log
    ensures r == PartitionResult(keys, Answers(resolver.answer, old(resolver.log), keys))
    ensures resolver.log == old(resolver.log) + keys[..Asked(Answers(resolver.answer, old(resolver.log), keys), Fatal)]
  {
    ghost var outs := Answers(resolver.answer, resolver.log, keys);
    var groups: seq<Group<K>> := [];
    var unresolved: seq<K> := [];
    var indexById: map<Id, nat> := map[];
    EmptyGroups(keys[..0], outs[..0]);
    for k := 0 to |keys|
      invariant resolver.log == old(resolver.log) + keys[..k]
      invariant forall j: nat :: j < k ==> !Fatal(outs[j])
      invariant groups == Groups(keys[..k], outs[..k]) && Indexed(groups, indexById)
      invariant unresolved == UnresolvedKeys(keys[..k], outs[..k])
    {
      var resolved := Ask(resolver, keys, k, old(resolver.log), outs);
      if resolved.Err? && !Is(resolved.error, ErrNoShard) {
        FirstIs(outs, Fatal, k);
        return Err(Wrap(ResolvingKey(k), resolved.error));
      }
      groups, indexById, unresolved :=
        PartitionKey(groups, indexById, unresolved, resolved, keys[k], keys[..k], outs[..k]);
    }
    FirstIsNone(outs, Fatal);
    assert keys[..|keys|] == keys && outs[..|keys|] == outs;
    r := Ok(Partition(groups, unresolved));
  }

  /** Asks each key once, in order; sets unroutable keys aside and stops at any other failure. */
  method PartitionByShard<K>(resolver: Resolver?<K>, keys: seq<K>) returns (r: Result<Partition<K>>)
    modifies resolver
    ensures resolver == null ==> r == Err(Leaf(Invalid(NilResolver)))
    ensures resolver != null ==> r == PartitionResult(keys, Answers(resolver.answer, old(resolver.log), keys))
    ensures resolver != null ==>
      resolver.log == old(resolver.log) + keys[..Asked(Answers(resolver.answer, old(resolver.log), keys), Fatal)]
  {
    if resolver == null {
      return Err(Leaf(Invalid(NilResolver)));
    }
    if |keys| == 0 {
      EmptyGroups(keys, Answers(resolver.answer, resolver.log, keys));
      assert resolver.log == old(resolver.log) + keys[..0];
      return Ok(Partition([], []));
    }
    r := PartitionAll(resolver, keys);
  }

  lemma AnswersConcat<K>(answer: (seq<K>, K) -> Answer, log: seq<K>, a: seq<K>, b: seq<K>)
    ensures Answers(answer, log, a + b) == Answers(answer, log, a) + Answers(answer, log + a, b)
  {
    var whole, parts := Answers(answer, log, a + b), Answers(answer, log, a) + Answers(answer, log + a, b);
    forall i: nat | i < |whole| ensures whole[i] == parts[i] {
      if i < |a| {
        assert (a + b)[..i] == a[..i];
      } else {
        assert log + (a + b)[..i] == log + a + b[..i - |a|];
      }
    }
  }

  /** Two `PartitionByShard` calls on one resolver amount to one call on the concatenated keys: `after` is the
      resolver's log between them. A failure of the second is reported at its position in the whole list. */
  lemma PartitionInTwoCalls<K>(answer: (seq<K>, K) -> Answer, log: seq<K>, a: seq<K>, b: seq<K>)
    ensures var outs := Answers(answer, log, a);
      var after := log + a[..Asked(outs, Fatal)];
      var first, second := PartitionResult(a, outs), PartitionResult(b, Answers(answer, after, b));
      var whole := PartitionResult(a + b, Answers(answer, log, a + b));
      && (first.Err? ==> whole == first)
      && (first.Ok? && second.Ok? ==>
            var p, q := first.value, second.value;
            whole == Ok(Partition(Merge(p.groups, q.groups), p.unresolved + q.unresolved)))
      && (first.Ok? && second.Err? ==>
            exists i: nat, e :: second == Err(Wrap(ResolvingKey(i), e)) && whole == Err(Wrap(ResolvingKey(|a| + i), e)))
  {
    var o1, o2 := Answers(answer, log, a), Answers(answer, log + a, b);
    AnswersConcat(answer, log, a, b);
    FirstIsEarliest(o1, Fatal);
    FirstIsEarliest(o2, Fatal);
    PartitionOfConcat(a, o1, b, o2);
    if First(o1, Fatal).Some? {
      FirstIs(o1 + o2, Fatal, First(o1, Fatal).value);
    } else {
      assert a[..|a|] == a;
      if First(o2, Fatal).Some? {
        var i := First(o2, Fatal).value;
        FatalLater(o1, o2, i);
        assert PartitionResult(b, o2) == Err(Wrap(ResolvingKey(i), o2[i].error));
      }
    }
  }

  lemma FatalLater(o1: seq<Answer>, o2: seq<Answer>, i: nat)
    requires First(o1, Fatal).None? && First(o2, Fatal) == Some(i)
    ensures i < |o2| && First(o1 + o2, Fatal) == Some(|o1| + i) && (o1 + o2)[|o1| + i] == o2[i]
  {
    FirstIsEarliest(o1, Fatal);
    FirstIsEarliest(o2, Fatal);
    var whole := o1 + o2;
    assert whole[|o1| + i] == o2[i];
    forall j: nat | j < |o1| + i ensures !Fatal(whole[j]) {
      assert whole[j] == if j < |o1| then o1[j] else o2[j - |o1|];
    }
    FirstIs(whole, Fatal, |o1| + i);
  }

  /** For a resolver that depends on the key alone, calls made at different times agree: `SameShard` succeeds
      exactly when `GroupByShard` gives one group, and `PartitionByShard` then gives the same one. */
  lemma StatelessCallsAgree<K>(answer: (seq<K>, K) -> Answer, log: seq<K>, later: seq<K>, last: seq<K>, keys: seq<K>)
    requires keys != [] && forall h, h', k | k in keys :: answer(h, k) == answer(h', k)
    ensures var same := SameShardResult(Answers(answer, log, keys));
      var grouped := GroupResult(keys, Answers(answer, later, keys));
      var partitioned := PartitionResult(keys, Answers(answer, last, keys));
      && (same.Ok? <==> grouped.Ok? && |grouped.value| == 1)
      && (same.Ok? ==> grouped == Ok([Group(same.value, keys)]))
      && (grouped.Ok? <==> partitioned.Ok? && partitioned.value.unresolved == [])
      && (grouped.Ok? ==> partitioned == Ok(Partition(grouped.value, [])))
  {
    StatelessAnswers(answer, log, later, keys);
    StatelessAnswers(answer, log, last, keys);
    SameShardIsOneGroup(keys, Answers(answer, log, keys));
    StrictIsTolerantWithoutRest(keys, Answers(answer, log, keys));
  }

  /** The result is an error about the key at `i`. */
  predicate Reports<T>(r: Result<T>, i: nat) {
    r.Err? && match r.error
    case Wrap(note, _) => note == ResolvingKey(i)
    case Mismatch(_, _, index) => index == i
    case _ => false
  }

  /** Which keys were asked, told from the result: all of them on success, and up to the reported one on failure. */
  lemma AskedByResult<K>(keys: seq<K>, outs: seq<Answer>, i: nat)
    requires |keys| == |outs|
    ensures SameShardResult(outs).Ok? ==> SameShardAsked(outs) == |keys|
    ensures Reports(SameShardResult(outs), i) ==> SameShardAsked(outs) == i + 1
    ensures GroupResult(keys, outs).Ok? ==> Asked(outs, Failed) == |keys|
    ensures Reports(GroupResult(keys, outs), i) ==> Asked(outs, Failed) == i + 1
    ensures PartitionResult(keys, outs).Ok? ==> Asked(outs, Fatal) == |keys|
    ensures Reports(PartitionResult(keys, outs), i) ==> Asked(outs, Fatal) == i + 1
  {
    FirstIsEarliest(outs, Failed);
    FirstIsEarliest(outs, Fatal);
  }
}
