/** `NewRendezvous` and `RendezvousResolver.Resolve`: one score buffer, reused for every candidate. */
module Rendezvous {
  import opened Bytes
  import opened Errors
  import opened Encoder
  import opened Topology
  import opened RendezvousFrame
  import opened RendezvousPlacement

  datatype RendezvousResolver<!K> = RendezvousResolver(
    shards: seq<Shard>,
    prefix: seq<Byte>,
    encoder: Option<KeyEncoder<K>>,
    maxIdLength: nat)

  /** What `NewRendezvous` establishes. */
  ghost predicate Built<K>(r: RendezvousResolver<K>, namespace: seq<Byte>) {
    && r.shards != [] && r.encoder.Some?
    && r.prefix == Prefix(namespace) && namespace != [] && Fits(namespace)
    && (forall s :: s in r.shards ==> Fits(s.id) && |s.id| <= r.maxIdLength)
  }

  /** The longest ID length, or nothing when some ID is too long for a uint32 prefix. */
  method LongestId(shards: seq<Shard>) returns (longest: Option<nat>)
    ensures longest.None? <==> exists s :: s in shards && !Fits(s.id)
    ensures longest.Some? ==> forall s :: s in shards ==> |s.id| <= longest.value
  {
    var maxIdLength: nat := 0;
    for k := 0 to |shards|
      invariant forall i: nat :: i < k ==> Fits(shards[i].id) && |shards[i].id| <= maxIdLength
    {
      var id := shards[k].id;
      if |id| > MAX_UINT32 {
        assert shards[k] in shards;
        return None;
      }
      maxIdLength := if maxIdLength < |id| then |id| else maxIdLength;
    }
    longest := Some(maxIdLength);
  }

  lemma WrittenAfter(before: seq<Byte>, after: seq<Byte>, head: seq<Byte>, x: seq<Byte>, rest: seq<Byte>)
    requires |head| <= |before| && before[..|head|] == head
    requires after == before[..|head|] + x + rest
    ensures after[..|head| + |x|] == head + x && after[..|head|] == head
  {
  }

  /** Writes a length prefix and the bytes themselves behind `head`, over whatever was there. */
  method PutField(buf: array<Byte>, at: nat, x: seq<Byte>, ghost head: seq<Byte>)
    requires at + 4 + |x| <= buf.Length && at == |head| && buf[..at] == head
    modifies buf
    ensures buf[..at + 4 + |x|] == head + Field(x)
    ensures buf[..at] == head
  {
    ghost var before := buf[..];
    ghost var length := BigEndian(|x|, 4);
    PutBigEndian(buf, at, 4, |x|);
    ghost var middle := buf[..];
    WrittenAfter(before, middle, head, length, before[at + 4..]);
    CopyInto(buf, at + 4, x);
    WrittenAfter(middle, buf[..], head + length, x, middle[at + 4 + |x|..]);
    assert head + length + x == head + Field(x);
    assert buf[..at] == buf[..at + 4][..at] == head;
  }

  method NewPrefix(namespace: seq<Byte>) returns (prefix: array<Byte>)
    ensures fresh(prefix) && prefix[..] == Prefix(namespace)
  {
    prefix := new Byte[|DOMAIN| + 4 + |namespace|](_ => 0);
    CopyInto(prefix, 0, DOMAIN);
    assert prefix[..|DOMAIN|] == DOMAIN;
    PutField(prefix, |DOMAIN|, namespace, DOMAIN);
    assert prefix[..|DOMAIN| + 4 + |namespace|] == prefix[..];
  }

  method NewRendezvous<K>(topology: Option<Topology>, namespace: seq<Byte>, encoder: Option<KeyEncoder<K>>)
    returns (r: Result<RendezvousResolver<K>>)
    ensures topology.None? || topology.value.shards == [] ==> r == Err(Leaf(Invalid(NoTopology)))
    ensures topology.Some? && topology.value.shards != [] && encoder.None? ==> r == Err(Leaf(Invalid(NilEncoder)))
    ensures topology.Some? && topology.value.shards != [] && encoder.Some? && namespace == [] ==>
      r == Err(Leaf(Invalid(EmptyNamespace)))
    ensures topology.Some? && topology.value.shards != [] && encoder.Some? && namespace != [] ==>
      if Fits(namespace) && forall s :: s in topology.value.shards ==> Fits(s.id) then
        && r.Ok? && Built(r.value, namespace)
        && r.value.shards == topology.value.shards && r.value.encoder == encoder
      else r == Err(Leaf(Invalid(TooLarge)))
  {
    if topology.None? || |topology.value.shards| == 0 {
      return Err(Leaf(Invalid(NoTopology)));
    }
    if encoder.None? {
      return Err(Leaf(Invalid(NilEncoder)));
    }
    if namespace == [] {
      return Err(Leaf(Invalid(EmptyNamespace)));
    }
    if |namespace| > MAX_UINT32 {
      return Err(Leaf(Invalid(TooLarge)));
    }
    var shards := topology.value.shards;
    var longest := LongestId(shards);
    if longest.None? {
      return Err(Leaf(Invalid(TooLarge)));
    }
    var prefix := NewPrefix(namespace);
    r := Ok(RendezvousResolver(shards, prefix[..], encoder, longest.value));
  }

  /** The score of a candidate: the hash of its frame. */
  function Score(hash: seq<Byte> -> Digest, namespace: seq<Byte>, key: seq<Byte>): Id -> Digest {
    (id: Id) => hash(Frame(namespace, key, id))
  }

  /** One candidate's turn at the buffer: the hashed part becomes exactly its frame, whatever the last one left. */
  method WriteCandidate(buf: array<Byte>, at: nat, id: Id, ghost namespace: seq<Byte>, ghost key: seq<Byte>)
    requires at == |Prefix(namespace) + Field(key)| && at + 4 + |id| <= buf.Length
    requires buf[..at] == Prefix(namespace) + Field(key)
    modifies buf
    ensures buf[..at + 4 + |id|] == Frame(namespace, key, id)
    ensures buf[..at] == Prefix(namespace) + Field(key)
  {
    PutField(buf, at, id, Prefix(namespace) + Field(key));
  }

  /** The common part of every candidate's input, with room for the longest ID. */
  method NewBuffer(prefix: seq<Byte>, key: seq<Byte>, room: nat) returns (buf: array<Byte>)
    ensures fresh(buf) && buf.Length == |prefix + Field(key)| + 4 + room
    ensures buf[..|prefix + Field(key)|] == prefix + Field(key)
  {
    buf := new Byte[|prefix| + 4 + |key| + 4 + room](_ => 0);
    CopyInto(buf, 0, prefix);
    assert buf[..|prefix|] == prefix;
    PutField(buf, |prefix|, key, prefix);
  }

  /** The score of one candidate: its frame is written into the buffer and hashed. */
  method ScoreCandidate(buf: array<Byte>, at: nat, id: Id, hash: seq<Byte> -> Digest,
                        ghost namespace: seq<Byte>, ghost key: seq<Byte>)
    returns (digest: Digest, input: seq<Byte>)
    requires at == |Prefix(namespace) + Field(key)| && at + 4 + |id| <= buf.Length
    requires buf[..at] == Prefix(namespace) + Field(key)
    modifies buf
    ensures input == Frame(namespace, key, id) && digest == Score(hash, namespace, key)(id)
    ensures buf[..at] == Prefix(namespace) + Field(key)
  {
    WriteCandidate(buf, at, id, namespace, key);
    input := buf[..at + 4 + |id|];
    digest := hash(input);
  }

  /** The candidate at `k` replaces the best so far exactly if it beats it. */
  lemma WinnerNext(score: Id -> Digest, shards: seq<Shard>, k: nat)
    requires k < |shards|
    ensures Winner(score, shards[..k + 1]) ==
      if k == 0 || Beats(score, shards[k].id, Winner(score, shards[..k]).id) then shards[k]
      else Winner(score, shards[..k])
  {
    assert shards[..k + 1][..k] == shards[..k];
  }

  lemma ComparisonIsBeats(score: Id -> Digest, a: Id, b: Id)
    ensures Beats(score, a, b) <==>
      Compare(score(a), score(b)) > 0 || (Compare(score(a), score(b)) == 0 && Less(a, b))
  {
    CompareSigns(score(a), score(b));
  }

  /** `hashed` are the frames of the first `k` shards. */
  ghost predicate FramesOf(hashed: seq<seq<Byte>>, namespace: seq<Byte>, key: seq<Byte>, shards: seq<Shard>, k: nat) {
    |hashed| == k <= |shards| && forall i: nat :: i < k ==> hashed[i] == Frame(namespace, key, shards[i].id)
  }

  lemma OneFrameMore(hashed: seq<seq<Byte>>, namespace: seq<Byte>, key: seq<Byte>, shards: seq<Shard>, k: nat)
    requires k < |shards| && FramesOf(hashed, namespace, key, shards, k)
    ensures FramesOf(hashed + [Frame(namespace, key, shards[k].id)], namespace, key, shards, k + 1)
  {
  }

  /** The pass over the candidates. */
  method SelectShard(shards: seq<Shard>, scoreInput: array<Byte>, idLengthOffset: nat, hash: seq<Byte> -> Digest,
                     ghost namespace: seq<Byte>, ghost key: seq<Byte>)
    returns (selected: Shard, ghost hashed: seq<seq<Byte>>)
    requires shards != []
    requires idLengthOffset == |Prefix(namespace) + Field(key)| <= scoreInput.Length
    requires forall s :: s in shards ==> idLengthOffset + 4 + |s.id| <= scoreInput.Length
    requires scoreInput[..idLengthOffset] == Prefix(namespace) + Field(key)
    modifies scoreInput
    ensures selected == Winner(Score(hash, namespace, key), shards)
    ensures FramesOf(hashed, namespace, key, shards, |shards|)
  {
    selected := Shard([], 0);
    hashed := [];
    var best: Digest := seq(32, _ => 0);
    var bestId: Id := [];
    var hasBest := false;
    ghost var score := Score(hash, namespace, key);
    for k := 0 to |shards|
      invariant scoreInput[..idLengthOffset] == Prefix(namespace) + Field(key)
      invariant FramesOf(hashed, namespace, key, shards, k)
      invariant hasBest <==> 0 < k
      invariant hasBest ==> selected == Winner(score, shards[..k]) && bestId == selected.id && best == score(bestId)
    {
      var candidateId := shards[k].id;
      assert shards[k] in shards;
      var digest, input := ScoreCandidate(scoreInput, idLengthOffset, candidateId, hash, namespace, key);
      OneFrameMore(hashed, namespace, key, shards, k);
      hashed := hashed + [input];
      var comparison := Compare(digest, best);
      ComparisonIsBeats(score, candidateId, bestId);
      WinnerNext(score, shards, k);
      if !hasBest || comparison > 0 || (comparison == 0 && Less(candidateId, bestId)) {
        selected, best, bestId, hasBest := shards[k], digest, candidateId, true;
      }
    }
    // hasBest holds here, so the final ErrNoShard of the source is never returned.
    assert hasBest && shards[..|shards|] == shards;
  }

  /** What the argmax over scores means for the digests themselves. */
  lemma WinnerByHash(hash: seq<Byte> -> Digest, namespace: seq<Byte>, key: seq<Byte>, shards: seq<Shard>)
    requires shards != []
    ensures var w := Winner(Score(hash, namespace, key), shards);
      w in shards && forall x :: x in shards ==>
        || w.id == x.id
        || Less(hash(Frame(namespace, key, x.id)), hash(Frame(namespace, key, w.id)))
        || (hash(Frame(namespace, key, x.id)) == hash(Frame(namespace, key, w.id)) && Less(w.id, x.id))
  {
    WinnerIsTop(Score(hash, namespace, key), shards);
  }

  /** `hashed` lists what was given to the hash, in order. A nil receiver is `None`. */
  method Resolve<K>(resolver: Option<RendezvousResolver<K>>, hash: seq<Byte> -> Digest, key: K,
                    ghost namespace: seq<Byte>)
    returns (r: Result<Shard>, ghost hashed: seq<seq<Byte>>)
    requires resolver.Some? && resolver.value.shards != [] && resolver.value.encoder.Some? ==>
      Built(resolver.value, namespace)
    ensures resolver.None? || resolver.value.shards == [] || resolver.value.encoder.None? ==>
      r == Err(Leaf(Invalid(NotInitialized)))
    ensures resolver.Some? && resolver.value.shards != [] && resolver.value.encoder.Some? ==>
      match resolver.value.encoder.value(key)
      case Err(e) => r == Err(Wrap(EncodingKey, e))
      case Ok(encoded) =>
        if !Fits(encoded) then r == Err(Leaf(Invalid(TooLarge)))
        else r == Ok(Winner(Score(hash, namespace, encoded), resolver.value.shards))
    ensures r.Ok? ==>
      && r.value in resolver.value.shards && resolver.value.encoder.value(key).Ok?
      && var encoded := resolver.value.encoder.value(key).value;
      var digest := (id: Id) => hash(Frame(namespace, encoded, id));
      forall x :: x in resolver.value.shards ==>
        || r.value.id == x.id
        || Less(digest(x.id), digest(r.value.id))
        || (digest(x.id) == digest(r.value.id) && Less(r.value.id, x.id))
    ensures r.Err? ==> hashed == []
    ensures r.Ok? ==>
      && resolver.Some? && resolver.value.encoder.Some? && resolver.value.encoder.value(key).Ok?
      && |hashed| == |resolver.value.shards|
      && forall i: nat :: i < |hashed| ==>
        hashed[i] == Frame(namespace, resolver.value.encoder.value(key).value, resolver.value.shards[i].id)
  {
    hashed := [];
    if resolver.None? || |resolver.value.shards| == 0 || resolver.value.encoder.None? {
      return Err(Leaf(Invalid(NotInitialized))), [];
    }
    var encoding := resolver.value.encoder.value(key);
    if encoding.Err? {
      return Err(Wrap(EncodingKey, encoding.error)), [];
    }
    var encoded := encoding.value;
    if |encoded| > MAX_UINT32 {
      return Err(Leaf(Invalid(TooLarge))), [];
    }
    var shards := resolver.value.shards;
    var idLengthOffset := |resolver.value.prefix| + 4 + |encoded|;
    var scoreInput := NewBuffer(resolver.value.prefix, encoded, resolver.value.maxIdLength);
    var selected;
    selected, hashed := SelectShard(shards, scoreInput, idLengthOffset, hash, namespace, encoded);
    r := Ok(selected);
    WinnerByHash(hash, namespace, encoded, shards);
  }
}
