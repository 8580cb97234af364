/** Tables of half-open intervals sorted by lower bound: the key orders, the stable
    sort and the binary search behind the range resolvers. */
module OrderedTable {
  import opened Bytes
  import opened Topology

  /** Go's `<` on a `cmp.Ordered` type, and which values are not equal to themselves. */
  datatype Order<!K> = Order(lt: (K, K) -> bool, nan: K -> bool)

  /** A strict weak order on ordinary values; NaN is related to nothing. */
  ghost predicate Lawful<K(!new)>(o: Order<K>) {
    && (forall x, y :: o.lt(x, y) ==> !o.nan(x) && !o.nan(y))
    && (forall x :: !o.lt(x, x))
    && (forall x, y, z :: o.lt(x, y) && o.lt(y, z) ==> o.lt(x, z))
    && (forall x, y, z :: o.lt(x, z) && !o.nan(y) ==> o.lt(x, y) || o.lt(y, z))
  }

  /** Go's `<=`. */
  predicate Le<K>(o: Order<K>, x: K, y: K) {
    !o.nan(x) && !o.nan(y) && !o.lt(y, x)
  }

  /** `cmp.Compare`: NaN equals NaN and is below everything else. */
  function Compare<K>(o: Order<K>, x: K, y: K): int {
    if o.nan(x) then if o.nan(y) then 0 else -1
    else if o.nan(y) then 1
    else if o.lt(x, y) then -1
    else if o.lt(y, x) then 1
    else 0
  }

  function IntOrder(): Order<int> { Order((x, y) => x < y, _ => false) }

  function StringOrder(): Order<seq<Byte>> { Order((x, y) => Less(x, y), _ => false) }

  /** Floats by value: two zeros that are neither below the other, infinities, and NaN. */
  datatype Float = NaN | NegInf | Zero(negative: bool) | Finite(value: real) | PosInf

  predicate FloatLess(x: Float, y: Float) {
    match (x, y)
    case (NaN, _) => false
    case (_, NaN) => false
    case (NegInf, _) => y != NegInf
    case (_, PosInf) => x != PosInf
    case (PosInf, _) => false
    case (_, NegInf) => false
    case (_, _) => Real(x) < Real(y)
  }

  function Real(x: Float): real { if x.Finite? then x.value else 0.0 }

  function FloatOrder(): Order<Float> { Order((x, y) => FloatLess(x, y), x => x == NaN) }

  /** The three families of `cmp.Ordered` types. */
  lemma OrderedTypes()
    ensures Lawful(IntOrder()) && Lawful(StringOrder()) && Lawful(FloatOrder())
  {
    forall x: seq<Byte> ensures !Less(x, x) { LessIrreflexive(x); }
    forall x: seq<Byte>, y: seq<Byte>, z: seq<Byte> | Less(x, y) && Less(y, z) ensures Less(x, z) {
      LessTransitive(x, y, z);
    }
    forall x: seq<Byte>, y: seq<Byte>, z: seq<Byte> | Less(x, z) ensures Less(x, y) || Less(y, z) {
      LessTotal(x, y);
    }
  }

  /** On integers the half-open test is the usual one. */
  lemma HalfOpen(start: int, end: int, key: int)
    ensures Contains(IntOrder(), start, end, key) <==> start <= key < end
  {
  }

  /** A string is in a range if it is not below the start and below the end, bytewise. */
  lemma HalfOpenStrings(start: seq<Byte>, end: seq<Byte>, key: seq<Byte>)
    ensures Contains(StringOrder(), start, end, key) <==> (start == key || Less(start, key)) && Less(key, end)
  {
    LessTotal(start, key);
    LessIrreflexive(key);
    if Less(start, key) && Less(key, start) {
      LessTransitive(key, start, key);
    }
  }

  /** Floats are ordered by value between the infinities; the two zeros are equal, NaN is below and above nothing. */
  lemma FloatsByValue(x: Float, y: Float, a: real, b: real, p: bool, q: bool)
    ensures FloatOrder().lt(Finite(a), Finite(b)) <==> a < b
    ensures FloatOrder().lt(Zero(p), Finite(b)) <==> 0.0 < b
    ensures FloatOrder().lt(Finite(a), Zero(q)) <==> a < 0.0
    ensures !FloatOrder().lt(Zero(p), Zero(q))
    ensures FloatOrder().lt(NegInf, y) <==> y != NaN && y != NegInf
    ensures FloatOrder().lt(x, PosInf) <==> x != NaN && x != PosInf
    ensures !FloatOrder().lt(x, NegInf) && !FloatOrder().lt(PosInf, y)
    ensures !FloatOrder().lt(NaN, y) && !FloatOrder().lt(x, NaN)
    ensures FloatOrder().nan(x) <==> x == NaN
  {
  }

  datatype Entry<K> = Entry(start: K, end: K, shard: Shard, source: nat)

  predicate Proper<K>(o: Order<K>, e: Entry<K>) { o.lt(e.start, e.end) }

  /** Sorted position: by lower bound, and between equal ones by position in the caller's list. */
  predicate Precedes<K>(o: Order<K>, e: Entry<K>, f: Entry<K>) {
    o.lt(e.start, f.start) || (!o.lt(f.start, e.start) && e.source < f.source)
  }

  ghost predicate StablySorted<K>(o: Order<K>, s: seq<Entry<K>>) {
    forall i: nat, j: nat :: i < j < |s| ==> Precedes(o, s[i], s[j])
  }

  /** Entries as the constructor fills them in. */
  ghost predicate Numbered<K>(o: Order<K>, s: seq<Entry<K>>) {
    forall i: nat :: i < |s| ==> Proper(o, s[i]) && s[i].source == i
  }

  function Insert<K>(o: Order<K>, s: seq<Entry<K>>, e: Entry<K>): seq<Entry<K>> {
    if s == [] then [e]
    else
      var k := |s| - 1;
      if Compare(o, e.start, s[k].start) < 0 then Insert(o, s[..k], e) + [s[k]] else s + [e]
  }

  function StableSort<K>(o: Order<K>, s: seq<Entry<K>>): seq<Entry<K>> {
    if s == [] then [] else Insert(o, StableSort(o, s[..|s| - 1]), s[|s| - 1])
  }

  lemma {:induction false} InsertMembers<K>(o: Order<K>, s: seq<Entry<K>>, e: Entry<K>)
    ensures multiset(Insert(o, s, e)) == multiset(s) + multiset{e}
  {
    if s != [] {
      assert s == s[..|s| - 1] + [s[|s| - 1]];
      InsertMembers(o, s[..|s| - 1], e);
    }
  }

  lemma {:induction false} InsertSorted<K(!new)>(o: Order<K>, s: seq<Entry<K>>, e: Entry<K>)
    requires Lawful(o) && Proper(o, e) && StablySorted(o, s)
    requires forall f :: f in s ==> Proper(o, f) && f.source < e.source
    ensures StablySorted(o, Insert(o, s, e))
  {
    if s != [] {
      var k := |s| - 1;
      if Compare(o, e.start, s[k].start) < 0 {
        InsertSorted(o, s[..k], e);
        InsertMembers(o, s[..k], e);
        var t := Insert(o, s[..k], e);
        forall i: nat | i < |t| ensures Precedes(o, t[i], s[k]) {
          assert t[i] in multiset(t);
          assert t[i] in s[..k] || t[i] == e;
        }
      } else {
        forall i: nat | i < |s| ensures Precedes(o, s[i], e) {
          assert s[k] in s && s[i] in s;
        }
      }
    }
  }

  lemma {:induction false} StableSortCorrect<K(!new)>(o: Order<K>, s: seq<Entry<K>>)
    requires Lawful(o) && Numbered(o, s)
    ensures multiset(StableSort(o, s)) == multiset(s)
    ensures StablySorted(o, StableSort(o, s))
  {
    if s != [] {
      var k := |s| - 1;
      assert s == s[..k] + [s[k]];
      StableSortCorrect(o, s[..k]);
      var t := StableSort(o, s[..k]);
      forall f | f in t ensures Proper(o, f) && f.source < s[k].source {
        assert f in multiset(t);
        assert f in s[..k];
      }
      InsertMembers(o, t, s[k]);
      InsertSorted(o, t, s[k]);
    }
  }

  /** Sorted by start, and where two starts are not ordered, by the position in the caller's list. */
  lemma StableSortOrder<K(!new)>(o: Order<K>, s: seq<Entry<K>>, i: nat, j: nat)
    requires Lawful(o) && Numbered(o, s) && i < j < |StableSort(o, s)|
    ensures var t := StableSort(o, s);
      && !o.lt(t[j].start, t[i].start)
      && (!o.lt(t[i].start, t[j].start) ==> t[i].source < t[j].source)
  {
    StableSortCorrect(o, s);
    assert Precedes(o, StableSort(o, s)[i], StableSort(o, s)[j]);
  }

  lemma HeadPrecedes<K>(o: Order<K>, s: seq<Entry<K>>, e: Entry<K>)
    requires StablySorted(o, s) && e in s
    ensures e == s[0] || Precedes(o, s[0], e)
  {
    var i: nat :| i < |s| && s[i] == e;
  }

  lemma StableSortHead<K(!new)>(o: Order<K>, s: seq<Entry<K>>, t: seq<Entry<K>>)
    requires Lawful(o) && StablySorted(o, s) && StablySorted(o, t)
    requires s != [] && t != [] && s[0] in t && t[0] in s
    ensures s[0] == t[0]
  {
    HeadPrecedes(o, t, s[0]);
    HeadPrecedes(o, s, t[0]);
  }

  lemma TailSorted<K>(o: Order<K>, s: seq<Entry<K>>)
    requires s != [] && StablySorted(o, s)
    ensures StablySorted(o, s[1..])
  {
    forall i: nat, j: nat | i < j < |s| - 1 ensures Precedes(o, s[1..][i], s[1..][j]) {
      assert Precedes(o, s[i + 1], s[j + 1]);
    }
  }

  lemma TailMultiset<T>(s: seq<T>)
    requires s != []
    ensures s == [s[0]] + s[1..] && multiset(s[1..]) == multiset(s) - multiset{s[0]}
  {
    assert s == [s[0]] + s[1..];
  }

  lemma SameHeads<K(!new)>(o: Order<K>, s: seq<Entry<K>>, t: seq<Entry<K>>)
    requires Lawful(o) && StablySorted(o, s) && StablySorted(o, t) && multiset(s) == multiset(t)
    ensures |s| == |t| && (s != [] ==> s[0] == t[0])
  {
    assert |s| == |multiset(s)| == |multiset(t)| == |t|;
    if s != [] {
      assert s[0] in multiset(t) && t[0] in multiset(s);
      StableSortHead(o, s, t);
    }
  }

  /** Any stable sort gives this very sequence, so the library's choice of algorithm does not matter. */
  lemma {:induction false} StableSortUnique<K(!new)>(o: Order<K>, s: seq<Entry<K>>, t: seq<Entry<K>>)
    requires Lawful(o) && StablySorted(o, s) && StablySorted(o, t) && multiset(s) == multiset(t)
    ensures s == t
  {
    SameHeads(o, s, t);
    if s != [] {
      TailMultiset(s);
      TailMultiset(t);
      TailSorted(o, s);
      TailSorted(o, t);
      StableSortUnique(o, s[1..], t[1..]);
    }
  }

  lemma {:induction false} SortedLength<K>(o: Order<K>, s: seq<Entry<K>>)
    ensures |StableSort(o, s)| == |s|
  {
    if s != [] {
      SortedLength(o, s[..|s| - 1]);
      InsertMembers(o, StableSort(o, s[..|s| - 1]), s[|s| - 1]);
      assert |multiset(StableSort(o, s))| == |StableSort(o, s)|;
    }
  }

  /** `slices.SortStableFunc` by lower bound, as the insertion sort it is on short slices. */
  method SortInPlace<K>(o: Order<K>, a: array<Entry<K>>)
    modifies a
    ensures a[..] == StableSort(o, old(a[..]))
  {
    ghost var was := a[..];
    var n := a.Length;
    for i := 0 to n
      invariant a[..i] == StableSort(o, was[..i])
      invariant a[i..] == was[i..]
    {
      assert was[..i + 1][..i] == was[..i];
      assert a[i] == a[i..][0] && a[i + 1..] == was[i + 1..];
      InsertLast(o, a, i);
      SortedLength(o, was[..i + 1]);
    }
    assert a[..n] == a[..] && was[..n] == was;
  }

  /** Where an insertion lands: below everything after, not below what is before. */
  lemma {:induction false} InsertAt<K>(o: Order<K>, s: seq<Entry<K>>, e: Entry<K>, j: nat)
    requires j <= |s|
    requires forall h: nat :: j <= h < |s| ==> Compare(o, e.start, s[h].start) < 0
    requires 0 < j ==> Compare(o, e.start, s[j - 1].start) >= 0
    ensures Insert(o, s, e) == s[..j] + [e] + s[j..]
  {
    if j < |s| {
      var k := |s| - 1;
      InsertAt(o, s[..k], e, j);
      assert s[..k][..j] == s[..j] && s[..k][j..] + [s[k]] == s[j..];
    } else {
      assert s[..j] == s && s[j..] == [];
    }
  }

  /** `c` holds `s` with `e` put in at `j`, and then `rest`. */
  ghost predicate SunkTo<K>(c: seq<Entry<K>>, s: seq<Entry<K>>, e: Entry<K>, rest: seq<Entry<K>>, j: nat) {
    && |c| == |s| + 1 + |rest| && j <= |s|
    && c[j] == e
    && (forall h: nat :: h < j ==> c[h] == s[h])
    && (forall h: nat :: j < h <= |s| ==> c[h] == s[h - 1])
    && (forall h: nat :: |s| < h < |c| ==> c[h] == rest[h - |s| - 1])
  }

  lemma SunkIsInserted<K>(o: Order<K>, c: seq<Entry<K>>, s: seq<Entry<K>>, e: Entry<K>, rest: seq<Entry<K>>, j: nat)
    requires SunkTo(c, s, e, rest, j)
    requires forall h: nat :: j <= h < |s| ==> Compare(o, e.start, s[h].start) < 0
    requires 0 < j ==> Compare(o, e.start, s[j - 1].start) >= 0
    ensures c == Insert(o, s, e) + rest
  {
    InsertAt(o, s, e, j);
    assert c == s[..j] + [e] + s[j..] + rest;
  }

  /** One exchange of the inner loop. */
  method SwapBack<K>(a: array<Entry<K>>, j: nat, ghost s: seq<Entry<K>>, ghost e: Entry<K>, ghost rest: seq<Entry<K>>)
    requires 0 < j < a.Length && SunkTo(a[..], s, e, rest, j)
    modifies a
    ensures SunkTo(a[..], s, e, rest, j - 1)
  {
    a[j], a[j - 1] := a[j - 1], a[j];
  }

  /** The inner loop: sinks `a[i]` into the sorted part before it. */
  method InsertLast<K>(o: Order<K>, a: array<Entry<K>>, i: nat)
    requires i < a.Length
    modifies a
    ensures a[..] == Insert(o, old(a[..i]), old(a[i])) + old(a[i + 1..])
  {
    ghost var s, e, rest := a[..i], a[i], a[i + 1..];
    var j := i;
    assert SunkTo(a[..], s, e, rest, j);
    while 0 < j && Compare(o, a[j].start, a[j - 1].start) < 0
      invariant 0 <= j <= i
      invariant SunkTo(a[..], s, e, rest, j)
      invariant forall h: nat :: j <= h < i ==> Compare(o, e.start, s[h].start) < 0
    {
      assert a[..][j] == e && a[..][j - 1] == s[j - 1];
      SwapBack(a, j, s, e, rest);
      j := j - 1;
    }
    assert 0 < j ==> a[..][j] == e && a[..][j - 1] == s[j - 1];
    SunkIsInserted(o, a[..], s, e, rest, j);
  }

  /** What the adjacent-pair check leaves. */
  ghost predicate Chained<K>(o: Order<K>, s: seq<Entry<K>>) {
    && (forall e :: e in s ==> Proper(o, e))
    && (forall i: nat :: i + 1 < |s| ==> Le(o, s[i].end, s[i + 1].start))
  }

  /** Go's half-open membership test. */
  predicate Contains<K>(o: Order<K>, start: K, end: K, key: K) {
    Le(o, start, key) && o.lt(key, end)
  }

  /** Ends increase along a chain, and every later interval starts at or after an earlier one's end. */
  lemma {:induction false} ChainOrder<K(!new)>(o: Order<K>, s: seq<Entry<K>>, i: nat, j: nat)
    requires Lawful(o) && Chained(o, s) && i < j < |s|
    ensures Le(o, s[i].end, s[j].start) && o.lt(s[i].end, s[j].end)
    decreases j - i
  {
    assert s[j] in s && Proper(o, s[j]) && s[i] in s && Proper(o, s[i]);
    if i + 1 < j {
      ChainOrder(o, s, i, j - 1);
      assert s[j - 1] in s && Proper(o, s[j - 1]);
      assert Le(o, s[j - 1].end, s[j - 1 + 1].start);
    } else {
      assert Le(o, s[i].end, s[i + 1].start);
    }
  }

  /** No key lies in two entries of a chain. */
  lemma ChainDisjoint<K(!new)>(o: Order<K>, s: seq<Entry<K>>, i: nat, j: nat, key: K)
    requires Lawful(o) && Chained(o, s) && i < j < |s|
    ensures !(Contains(o, s[i].start, s[i].end, key) && Contains(o, s[j].start, s[j].end, key))
  {
    ChainOrder(o, s, i, j);
  }

  /** `sort.Search` for the first entry ending after `key`. */
  method FirstEndingAfter<K(!new)>(o: Order<K>, s: seq<Entry<K>>, key: K) returns (index: nat)
    requires Lawful(o) && Chained(o, s)
    ensures index <= |s|
    ensures forall h: nat :: h < index ==> !o.lt(key, s[h].end)
    ensures forall h: nat :: index <= h < |s| ==> o.lt(key, s[h].end)
  {
    var i, j := 0, |s|;
    while i < j
      invariant 0 <= i <= j <= |s|
      invariant forall h: nat :: h < i ==> !o.lt(key, s[h].end)
      invariant forall h: nat :: j <= h < |s| ==> o.lt(key, s[h].end)
    {
      var h := (i + j) / 2;
      if !o.lt(key, s[h].end) {
        forall g: nat | g < h ensures !o.lt(key, s[g].end) {
          ChainOrder(o, s, g, h);
        }
        i := h + 1;
      } else {
        forall g: nat | h < g < |s| ensures o.lt(key, s[g].end) {
          ChainOrder(o, s, h, g);
        }
        j := h;
      }
    }
    index := i;
  }
}
