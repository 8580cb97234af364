/** The key encoders that feed hash placement. */
module Encoder {
  import opened Bytes
  import opened Errors

  const TWO64 := 0x1_0000_0000_0000_0000

  type Int64 = v: int | -0x8000_0000_0000_0000 <= v < 0x8000_0000_0000_0000
  type Uint64 = v: int | 0 <= v < TWO64

  /** Go's `KeyEncoder[K]`: a deterministic, possibly failing function of the key. */
  type KeyEncoder<!K> = K -> Result<seq<Byte>>

  /** The conversion `uint64(key)` of a signed key: two's complement. */
  function TwosComplement(key: Int64): (bits: Uint64)
    ensures bits % TWO64 == key % TWO64
  {
    if key < 0 then key + TWO64 else key
  }

  function FromTwosComplement(bits: Uint64): Int64 {
    if bits < 0x8000_0000_0000_0000 then bits else bits - TWO64
  }

  method EncodeUint64(key: Uint64) returns (encoded: array<Byte>)
    ensures fresh(encoded) && encoded[..] == BigEndian(key, 8)
  {
    encoded := new Byte[8](_ => 0);
    PutBigEndian(encoded, 0, 8, key);
  }

  method EncodeInt64(key: Int64) returns (encoded: array<Byte>)
    ensures fresh(encoded) && encoded[..] == BigEndian(TwosComplement(key), 8)
  {
    encoded := new Byte[8](_ => 0);
    PutBigEndian(encoded, 0, 8, TwosComplement(key));
  }

  /** `bytes.Clone` behind the byte-slice and fixed-size encoders: a new slice with the same bytes. */
  method EncodeBytes(key: array<Byte>) returns (encoded: array<Byte>)
    ensures fresh(encoded) && encoded[..] == key[..]
  {
    encoded := new Byte[key.Length](i requires 0 <= i < key.Length reads key => key[i]);
  }

  /** The eight bytes determine the key, and every eight bytes are some key's. */
  lemma Uint64RoundTrip(key: Uint64, b: seq<Byte>)
    requires |b| == 8
    ensures Value(BigEndian(key, 8)) == key
    ensures 0 <= Value(b) < TWO64 && BigEndian(Value(b), 8) == b
  {
    Pow256Values();
    ValueOfBigEndian(key, 8);
    BigEndianOfValue(b);
  }

  lemma Int64RoundTrip(key: Int64, b: seq<Byte>)
    requires |b| == 8
    ensures 0 <= Value(BigEndian(TwosComplement(key), 8)) < TWO64
    ensures FromTwosComplement(Value(BigEndian(TwosComplement(key), 8))) == key
    ensures 0 <= Value(b) < TWO64 && BigEndian(TwosComplement(FromTwosComplement(Value(b))), 8) == b
  {
    Uint64RoundTrip(TwosComplement(key), b);
  }
}
