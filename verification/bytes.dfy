/** Byte strings: bytewise order and big-endian integers. */
module Bytes {

  type Byte = b: int | 0 <= b < 256

  /** Bytewise lexicographic order: Go's `<` on strings and `bytes.Compare(a, b) < 0`. */
  predicate Less(a: seq<Byte>, b: seq<Byte>)
    decreases |a|
  {
    if b == [] then false
    else if a == [] then true
    else if a[0] != b[0] then a[0] < b[0]
    else Less(a[1..], b[1..])
  }

  lemma {:induction false} LessIrreflexive(a: seq<Byte>)
    ensures !Less(a, a)
    decreases |a|
  {
    if a != [] {
      LessIrreflexive(a[1..]);
    }
  }

  lemma {:induction false} LessTransitive(a: seq<Byte>, b: seq<Byte>, c: seq<Byte>)
    requires Less(a, b) && Less(b, c)
    ensures Less(a, c)
    decreases |a|
  {
    if a != [] && a[0] == b[0] && b[0] == c[0] {
      LessTransitive(a[1..], b[1..], c[1..]);
    }
  }

  lemma {:induction false} LessTotal(a: seq<Byte>, b: seq<Byte>)
    ensures a == b || Less(a, b) || Less(b, a)
    decreases |a|
  {
    if a != [] && b != [] && a[0] == b[0] {
      LessTotal(a[1..], b[1..]);
      if a[1..] == b[1..] {
        assert a == [a[0]] + a[1..] == [b[0]] + b[1..] == b;
      }
    }
  }

  /** The order is decided by the first byte that differs, a proper prefix coming first. */
  lemma {:induction false} LessByFirstDifference(a: seq<Byte>, b: seq<Byte>)
    ensures Less(a, b) <==>
      exists k: nat :: k <= |a| && k < |b| && a[..k] == b[..k] && (k == |a| || a[k] < b[k])
    decreases |a|
  {
    if a == [] {
      if b != [] {
        assert a[..0] == b[..0];
      }
    } else if b != [] {
      if a[0] != b[0] {
        assert a[..0] == b[..0];
        forall k: nat | 0 < k <= |a| && k < |b| ensures a[..k] != b[..k] {
          assert a[..k][0] != b[..k][0];
        }
      } else {
        LessByFirstDifference(a[1..], b[1..]);
        var c, d := a[1..], b[1..];
        if k: nat :| k <= |c| && k < |d| && c[..k] == d[..k] && (k == |c| || c[k] < d[k]) {
          assert a[..k + 1] == [a[0]] + c[..k] && b[..k + 1] == [b[0]] + d[..k];
        }
        if k: nat :| k <= |a| && k < |b| && a[..k] == b[..k] && (k == |a| || a[k] < b[k]) {
          assert 0 < k;
          assert c[..k - 1] == a[..k][1..] && d[..k - 1] == b[..k][1..];
        }
      }
    }
  }

  /** `bytes.Compare`. */
  function Compare(a: seq<Byte>, b: seq<Byte>): int {
    if Less(a, b) then -1 else if Less(b, a) then 1 else 0
  }

  lemma {:induction false} CompareSigns(a: seq<Byte>, b: seq<Byte>)
    ensures Compare(a, b) > 0 <==> Less(b, a)
    ensures Compare(a, b) == 0 <==> a == b
  {
    LessTotal(a, b);
    LessIrreflexive(a);
    if Less(a, b) && Less(b, a) {
      LessTransitive(a, b, a);
    }
  }

  /** 256 to the power `k`. */
  function Pow256(k: nat): nat {
    if k == 0 then 1 else 256 * Pow256(k - 1)
  }

  /** `v` as `k` bytes, most significant first; higher bits are cut off, as by a Go integer conversion. */
  function BigEndian(v: nat, k: nat): (b: seq<Byte>)
    ensures |b| == k
  {
    if k == 0 then [] else BigEndian(v / 256, k - 1) + [v % 256]
  }

  function Value(b: seq<Byte>): nat {
    if b == [] then 0 else 256 * Value(b[..|b| - 1]) + b[|b| - 1]
  }

  lemma {:induction false} ValueOfBigEndian(v: nat, k: nat)
    requires v < Pow256(k)
    ensures Value(BigEndian(v, k)) == v
  {
    if k != 0 {
      ValueOfBigEndian(v / 256, k - 1);
      assert BigEndian(v, k)[..k - 1] == BigEndian(v / 256, k - 1);
    }
  }

  lemma {:induction false} BigEndianOfValue(b: seq<Byte>)
    ensures Value(b) < Pow256(|b|)
    ensures BigEndian(Value(b), |b|) == b
  {
    if b != [] {
      var k := |b| - 1;
      BigEndianOfValue(b[..k]);
      assert Value(b) / 256 == Value(b[..k]) && Value(b) % 256 == b[k];
    }
  }

  lemma {:induction false} LessSnoc(a: seq<Byte>, b: seq<Byte>, x: Byte, y: Byte)
    requires |a| == |b|
    ensures Less(a + [x], b + [y]) <==> Less(a, b) || (a == b && x < y)
    decreases |a|
  {
    if a == [] {
      assert [x][1..] == [] && [y][1..] == [];
    } else {
      assert (a + [x])[1..] == a[1..] + [x] && (b + [y])[1..] == b[1..] + [y];
      LessSnoc(a[1..], b[1..], x, y);
      if a[0] == b[0] && a[1..] == b[1..] {
        assert a == [a[0]] + a[1..] && b == [b[0]] + b[1..];
      }
    }
  }

  /** Big-endian encodings are ordered like the numbers: the first byte is the most significant one. */
  lemma {:induction false} BigEndianOrder(v: nat, w: nat, k: nat)
    requires v < Pow256(k) && w < Pow256(k)
    ensures Less(BigEndian(v, k), BigEndian(w, k)) <==> v < w
  {
    if k != 0 {
      BigEndianOrder(v / 256, w / 256, k - 1);
      ValueOfBigEndian(v / 256, k - 1);
      ValueOfBigEndian(w / 256, k - 1);
      LessSnoc(BigEndian(v / 256, k - 1), BigEndian(w / 256, k - 1), v % 256, w % 256);
    }
  }

  lemma Pow256Values()
    ensures Pow256(4) == 0x1_0000_0000
    ensures Pow256(8) == 0x1_0000_0000_0000_0000
  {
    assert Pow256(2) == 0x1_0000;
    assert Pow256(4) == 0x1_0000 * Pow256(2);
  }

  /** `binary.BigEndian.PutUint32` and `PutUint64`: writes exactly `k` bytes at `offset`. */
  method PutBigEndian(buf: array<Byte>, offset: nat, k: nat, v: nat)
    requires offset + k <= buf.Length
    modifies buf
    ensures buf[..] == old(buf[..offset]) + BigEndian(v, k) + old(buf[offset + k..])
  {
    var rest, left := v, k;
    while 0 < left
      invariant 0 <= left <= k && 0 <= rest
      invariant BigEndian(v, k) == BigEndian(rest, left) + buf[offset + left..offset + k]
      invariant buf[..offset] == old(buf[..offset])
      invariant buf[offset + k..] == old(buf[offset + k..])
    {
      ghost var done := buf[offset + left..offset + k];
      left := left - 1;
      buf[offset + left] := rest % 256;
      assert buf[offset + left..offset + k] == [rest % 256] + done;
      rest := rest / 256;
    }
    assert buf[..] == buf[..offset] + buf[offset..offset + k] + buf[offset + k..];
  }

  /** `copy(buf[offset:], src)` for a destination long enough. */
  method CopyInto(buf: array<Byte>, offset: nat, src: seq<Byte>)
    requires offset + |src| <= buf.Length
    modifies buf
    ensures buf[..] == old(buf[..offset]) + src + old(buf[offset + |src|..])
  {
    for k := 0 to |src|
      invariant buf[..offset] == old(buf[..offset])
      invariant buf[offset..offset + k] == src[..k]
      invariant buf[offset + k..] == old(buf[offset + k..])
    {
      ghost var tail := buf[offset + k..];
      buf[offset + k] := src[k];
      assert buf[offset + k + 1..] == tail[1..];
      assert old(buf[offset + k..])[1..] == old(buf[offset + k + 1..]);
      assert buf[offset..offset + k + 1] == buf[offset..offset + k] + [src[k]];
    }
    assert buf[..] == buf[..offset] + buf[offset..offset + |src|] + buf[offset + |src|..];
  }
}
