/** Highest-random-weight placement as an argmax, for an arbitrary score function. */
module RendezvousPlacement {
  import opened Bytes
  import opened Errors
  import opened Topology

  /** A 32-byte digest. Nothing else is known of the hash: different inputs may collide. */
  type Digest = d: seq<Byte> | |d| == 32 witness seq(32, _ => 0)

  /** `a` is preferred to `b`: a higher score, or an equal score and a smaller ID. */
  predicate Beats(score: Id -> Digest, a: Id, b: Id) {
    Less(score(b), score(a)) || (score(a) == score(b) && Less(a, b))
  }

  lemma BeatsIrreflexive(score: Id -> Digest, a: Id)
    ensures !Beats(score, a, a)
  {
    LessIrreflexive(score(a));
    LessIrreflexive(a);
  }

  lemma BeatsTransitive(score: Id -> Digest, a: Id, b: Id, c: Id)
    requires Beats(score, a, b) && Beats(score, b, c)
    ensures Beats(score, a, c)
  {
    if Less(score(b), score(a)) && Less(score(c), score(b)) {
      LessTransitive(score(c), score(b), score(a));
    } else if score(a) == score(b) == score(c) {
      LessTransitive(a, b, c);
    }
  }

  lemma BeatsTotal(score: Id -> Digest, a: Id, b: Id)
    ensures a == b || Beats(score, a, b) || Beats(score, b, a)
  {
    LessTotal(score(a), score(b));
    LessTotal(a, b);
  }

  /** What one pass over the candidates selects. */
  function Winner(score: Id -> Digest, shards: seq<Shard>): Shard
    requires shards != []
  {
    var k := |shards| - 1;
    if k == 0 then shards[0]
    else
      var best := Winner(score, shards[..k]);
      if Beats(score, shards[k].id, best.id) then shards[k] else best
  }

  /** `w` is one of the shards and beats every other ID. */
  ghost predicate IsTop(score: Id -> Digest, shards: seq<Shard>, w: Shard) {
    w in shards && forall s :: s in shards ==> s.id == w.id || Beats(score, w.id, s.id)
  }

  lemma {:induction false} WinnerIsTop(score: Id -> Digest, shards: seq<Shard>)
    requires shards != []
    ensures IsTop(score, shards, Winner(score, shards))
  {
    var k := |shards| - 1;
    if k != 0 {
      WinnerIsTop(score, shards[..k]);
      var best := Winner(score, shards[..k]);
      BeatsTotal(score, shards[k].id, best.id);
      forall s | s in shards
        ensures s.id == Winner(score, shards).id || Beats(score, Winner(score, shards).id, s.id)
      {
        assert s in shards[..k] || s == shards[k];
        if Beats(score, shards[k].id, best.id) && s in shards[..k] && s.id != best.id {
          BeatsTransitive(score, shards[k].id, best.id, s.id);
        }
      }
    }
  }

  lemma TopIsUnique(score: Id -> Digest, shards: seq<Shard>, v: Shard, w: Shard)
    requires IsTop(score, shards, v) && IsTop(score, shards, w)
    ensures v.id == w.id
  {
    if v.id != w.id {
      BeatsTransitive(score, v.id, w.id, v.id);
      BeatsIrreflexive(score, v.id);
    }
  }

  /** `ids` of a topology. */
  ghost function Ids(shards: seq<Shard>): set<Id> {
    set s | s in shards :: s.id
  }

  /** Placement depends on the set of IDs alone: not on registration order, nor on which cluster handles carry them. */
  lemma OrderIndependent(score: Id -> Digest, a: seq<Shard>, b: seq<Shard>)
    requires a != [] && b != [] && Ids(a) == Ids(b)
    ensures Winner(score, a).id == Winner(score, b).id
  {
    Disruption(score, a, b);
    WinnerIsTop(score, b);
    assert Winner(score, b).id in Ids(b);
  }

  /** For a permutation of one topology it is the same shard, not just the same ID. */
  lemma PermutationKeepsShard(score: Id -> Digest, a: seq<Shard>, b: seq<Shard>)
    requires a != [] && b != [] && UniqueIds(a) && multiset(a) == multiset(b)
    ensures Winner(score, a) == Winner(score, b)
  {
    forall s ensures s in a <==> s in b {
      assert s in multiset(a) <==> s in multiset(b);
    }
    OrderIndependent(score, a, b);
    WinnerIsTop(score, a);
    WinnerIsTop(score, b);
    var i: nat :| i < |a| && a[i] == Winner(score, a);
    var j: nat :| j < |a| && a[j] == Winner(score, b);
  }

  /** Two topologies that `NewTopology` built from the same clusters in different orders route alike: the same
      lookups, the same placement, and a placed shard that the lookup finds again. */
  lemma PermutedTopologies(score: Id -> Digest, t: Topology, u: Topology)
    requires Valid(t) && Valid(u) && multiset(t.shards) == multiset(u.shards)
    ensures t.byId == u.byId
    ensures Winner(score, t.shards) == Winner(score, u.shards)
    ensures Lookup(t, Winner(score, t.shards).id) == Some(Winner(score, u.shards))
  {
    PermutationKeepsShard(score, t.shards, u.shards);
    WinnerIsTop(score, t.shards);
    forall s ensures s in t.shards <==> s in u.shards {
      assert s in multiset(t.shards) <==> s in multiset(u.shards);
    }
    forall id ensures id in t.byId <==> id in u.byId {
      if id in t.byId { assert t.byId[id] in u.shards; }
      if id in u.byId { assert u.byId[id] in t.shards; }
    }
    forall id | id in t.byId ensures t.byId[id] == u.byId[id] {
      assert t.byId[id] in u.shards;
    }
  }

  /** Growing a topology by any set of shards: a key stays, unless it moves to one of the new IDs.
      Read from `b` to `a` it is shrinking: a key not on a removed shard stays. */
  lemma Disruption(score: Id -> Digest, a: seq<Shard>, b: seq<Shard>)
    requires a != [] && b != [] && Ids(a) <= Ids(b)
    ensures Winner(score, b).id == Winner(score, a).id <==> Winner(score, b).id in Ids(a)
  {
    WinnerIsTop(score, a);
    WinnerIsTop(score, b);
    var v, w := Winner(score, a), Winner(score, b);
    assert v.id in Ids(a);
    if w.id in Ids(a) {
      var s :| s in a && s.id == w.id;
      forall x | x in a ensures x.id == s.id || Beats(score, s.id, x.id) {
        assert x.id in Ids(b);
      }
      TopIsUnique(score, a, v, s);
    }
  }

  /** Adding one shard with a fresh ID, wherever it is registered, moves a key if and only if it beats the
      key's current shard, and then to the new shard. */
  lemma AddingOneShard(score: Id -> Digest, shards: seq<Shard>, grown: seq<Shard>, added: Id)
    requires shards != [] && grown != [] && added !in Ids(shards) && Ids(grown) == Ids(shards) + {added}
    ensures Winner(score, grown).id ==
      if Beats(score, added, Winner(score, shards).id) then added else Winner(score, shards).id
  {
    WinnerIsTop(score, shards);
    WinnerIsTop(score, grown);
    Disruption(score, shards, grown);
    var v, w := Winner(score, shards).id, Winner(score, grown).id;
    assert v in Ids(shards) && w in Ids(grown);
    var s :| s in grown && s.id == added;
    var t :| t in grown && t.id == v;
    if w == added {
      assert Beats(score, w, t.id);
    } else if Beats(score, added, v) {
      BeatsTransitive(score, w, s.id, w);
      BeatsIrreflexive(score, w);
    }
  }

  /** Removing one shard moves exactly the keys placed on it. */
  lemma RemovingOneShard(score: Id -> Digest, shards: seq<Shard>, at: nat)
    requires at < |shards| && 1 < |shards| && UniqueIds(shards)
    ensures var shrunk := shards[..at] + shards[at + 1..];
      Winner(score, shrunk).id == Winner(score, shards).id <==> Winner(score, shards).id != shards[at].id
  {
    var shrunk := shards[..at] + shards[at + 1..];
    assert shards == shards[..at] + [shards[at]] + shards[at + 1..];
    forall s | s in shrunk ensures s.id != shards[at].id && s in shards {
      var k: nat :| k < |shrunk| && shrunk[k] == s;
      assert s == shards[if k < at then k else k + 1];
    }
    assert forall s :: s in shards ==> s in shrunk || s == shards[at];
    Disruption(score, shrunk, shards);
    WinnerIsTop(score, shards);
  }
}
