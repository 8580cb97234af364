/** The bytes hashed for one (namespace, key, shard ID) candidate, and a decoder for them. */
module RendezvousFrame {
  import opened Bytes
  import opened Errors
  import opened Encoder

  const MAX_UINT32 := 0xFFFF_FFFF

  const DOMAIN_NAME := "xpg.shard.rendezvous.v1"

  /** The bytes of `DOMAIN_NAME`. */
  const DOMAIN: seq<Byte> := [
    0x78, 0x70, 0x67, 0x2e, 0x73, 0x68, 0x61, 0x72, 0x64, 0x2e,
    0x72, 0x65, 0x6e, 0x64, 0x65, 0x7a, 0x76, 0x6f, 0x75, 0x73, 0x2e, 0x76, 0x31]

  lemma DomainSpellsName()
    ensures |DOMAIN| == |DOMAIN_NAME|
    ensures forall i: nat :: i < |DOMAIN| ==> DOMAIN[i] == DOMAIN_NAME[i] as int
  {
  }

  /** A uint32 length followed by that many bytes. */
  function Field(x: seq<Byte>): seq<Byte> { BigEndian(|x|, 4) + x }

  function Prefix(namespace: seq<Byte>): seq<Byte> { DOMAIN + Field(namespace) }

  function Frame(namespace: seq<Byte>, key: seq<Byte>, id: Id): seq<Byte> {
    Prefix(namespace) + Field(key) + Field(id)
  }

  datatype Triple = Triple(namespace: seq<Byte>, key: seq<Byte>, id: Id)

  /** The length can be written in four bytes. */
  predicate Fits(x: seq<Byte>): (fits: bool)
    ensures fits <==> |x| < Pow256(4)
  {
    Pow256Values();
    |x| <= MAX_UINT32
  }

  function TakeField(b: seq<Byte>): Option<(seq<Byte>, seq<Byte>)> {
    if |b| < 4 then None
    else
      var size := Value(b[..4]);
      if |b| < 4 + size then None else Some((b[4..4 + size], b[4 + size..]))
  }

  function Unframe(b: seq<Byte>): Option<Triple> {
    if |b| < |DOMAIN| || b[..|DOMAIN|] != DOMAIN then None
    else
      match TakeField(b[|DOMAIN|..])
      case None => None
      case Some((namespace, afterNamespace)) =>
        match TakeField(afterNamespace)
        case None => None
        case Some((key, afterKey)) =>
          match TakeField(afterKey)
          case None => None
          case Some((id, rest)) => if rest == [] then Some(Triple(namespace, key, id)) else None
  }

  lemma TakeFieldInverts(x: seq<Byte>, rest: seq<Byte>)
    requires Fits(x)
    ensures TakeField(Field(x) + rest) == Some((x, rest))
  {
    var b := Field(x) + rest;
    Pow256Values();
    ValueOfBigEndian(|x|, 4);
    assert b[..4] == BigEndian(|x|, 4);
    assert b[4..4 + |x|] == x && b[4 + |x|..] == rest;
  }

  lemma TakeFieldExact(b: seq<Byte>)
    requires TakeField(b).Some?
    ensures var (x, rest) := TakeField(b).value; Fits(x) && b == Field(x) + rest
  {
    Pow256Values();
    BigEndianOfValue(b[..4]);
    var size := Value(b[..4]);
    assert b == b[..4] + b[4..4 + size] + b[4 + size..];
  }

  /** Where each part of a frame lies. */
  lemma FrameLayout(namespace: seq<Byte>, key: seq<Byte>, id: Id)
    ensures var b := Frame(namespace, key, id);
      var n := |"xpg.shard.rendezvous.v1"|;
      var k := n + 4 + |namespace|;
      var d := k + 4 + |key|;
      && |b| == d + 4 + |id|
      && (forall i: nat :: i < n ==> b[i] == "xpg.shard.rendezvous.v1"[i] as int)
      && b[n..n + 4] == BigEndian(|namespace|, 4) && b[n + 4..k] == namespace
      && b[k..k + 4] == BigEndian(|key|, 4) && b[k + 4..d] == key
      && b[d..d + 4] == BigEndian(|id|, 4) && b[d + 4..] == id
  {
    DomainSpellsName();
    var l1, l2, l3 := BigEndian(|namespace|, 4), BigEndian(|key|, 4), BigEndian(|id|, 4);
    var p1 := DOMAIN + l1;
    var p2 := p1 + namespace;
    var p3 := p2 + l2;
    var p4 := p3 + key;
    var b := Frame(namespace, key, id);
    FrameFlat(namespace, key, id);
    Part([], DOMAIN, l1 + (namespace + (l2 + (key + (l3 + id)))), b);
    Part(DOMAIN, l1, namespace + (l2 + (key + (l3 + id))), b);
    Part(p1, namespace, l2 + (key + (l3 + id)), b);
    Part(p2, l2, key + (l3 + id), b);
    Part(p3, key, l3 + id, b);
    Part(p4, l3, id, b);
    assert b[|p4| + 4..] == id;
    forall i: nat | i < |DOMAIN| ensures b[i] == DOMAIN[i] {
      assert b[i] == b[0..|DOMAIN|][i];
    }
  }

  lemma FrameFlat(namespace: seq<Byte>, key: seq<Byte>, id: Id)
    ensures Frame(namespace, key, id) ==
      DOMAIN + (BigEndian(|namespace|, 4) + (namespace + (BigEndian(|key|, 4) + (key + (BigEndian(|id|, 4) + id)))))
  {
  }

  /** One part of a byte string, and the same string with that part moved to the left. */
  lemma Part(before: seq<Byte>, x: seq<Byte>, rest: seq<Byte>, whole: seq<Byte>)
    requires whole == before + (x + rest)
    ensures |whole| == |before| + |x| + |rest|
    ensures whole[|before|..|before| + |x|] == x && whole[|before| + |x|..] == rest
    ensures whole == (before + x) + rest
  {
  }

  /** Decoding undoes framing. */
  lemma FrameRoundTrip(t: Triple)
    requires Fits(t.namespace) && Fits(t.key) && Fits(t.id)
    ensures Unframe(Frame(t.namespace, t.key, t.id)) == Some(t)
  {
    var b := Frame(t.namespace, t.key, t.id);
    var none: seq<Byte> := [];
    assert b[..|DOMAIN|] == DOMAIN;
    assert b[|DOMAIN|..] == Field(t.namespace) + (Field(t.key) + Field(t.id));
    assert Field(t.id) == Field(t.id) + none;
    TakeFieldInverts(t.namespace, Field(t.key) + Field(t.id));
    TakeFieldInverts(t.key, Field(t.id));
    TakeFieldInverts(t.id, none);
  }

  /** And only frames decode: the byte strings accepted are exactly the frames of fields that fit. */
  lemma UnframeExact(b: seq<Byte>)
    requires Unframe(b).Some?
    ensures var t := Unframe(b).value;
      Fits(t.namespace) && Fits(t.key) && Fits(t.id) && b == Frame(t.namespace, t.key, t.id)
  {
    assert b == DOMAIN + b[|DOMAIN|..];
    TakeFieldExact(b[|DOMAIN|..]);
    var (namespace, afterNamespace) := TakeField(b[|DOMAIN|..]).value;
    TakeFieldExact(afterNamespace);
    var (key, afterKey) := TakeField(afterNamespace).value;
    TakeFieldExact(afterKey);
    assert b == DOMAIN + Field(namespace) + Field(key) + Field(Unframe(b).value.id);
  }

  /** No two candidates are ever hashed from the same bytes. */
  lemma FrameInjective(a: Triple, b: Triple)
    requires Fits(a.namespace) && Fits(a.key) && Fits(a.id)
    requires Fits(b.namespace) && Fits(b.key) && Fits(b.id)
    requires Frame(a.namespace, a.key, a.id) == Frame(b.namespace, b.key, b.id)
    ensures a == b
  {
    FrameRoundTrip(a);
    FrameRoundTrip(b);
  }

  /** Through the integer encoders the framing stays injective over the whole key type. */
  lemma Int64FrameInjective(n: seq<Byte>, k: Int64, i: Id, n': seq<Byte>, k': Int64, i': Id)
    requires Fits(n) && Fits(i) && Fits(n') && Fits(i')
    requires Frame(n, BigEndian(TwosComplement(k), 8), i) == Frame(n', BigEndian(TwosComplement(k'), 8), i')
    ensures n == n' && k == k' && i == i'
  {
    FrameInjective(Triple(n, BigEndian(TwosComplement(k), 8), i), Triple(n', BigEndian(TwosComplement(k'), 8), i'));
    Int64RoundTrip(k, BigEndian(0, 8));
    Int64RoundTrip(k', BigEndian(0, 8));
  }

  lemma Uint64FrameInjective(n: seq<Byte>, k: Uint64, i: Id, n': seq<Byte>, k': Uint64, i': Id)
    requires Fits(n) && Fits(i) && Fits(n') && Fits(i')
    requires Frame(n, BigEndian(k, 8), i) == Frame(n', BigEndian(k', 8), i')
    ensures n == n' && k == k' && i == i'
  {
    FrameInjective(Triple(n, BigEndian(k, 8), i), Triple(n', BigEndian(k', 8), i'));
    Uint64RoundTrip(k, BigEndian(0, 8));
    Uint64RoundTrip(k', BigEndian(0, 8));
  }
}
