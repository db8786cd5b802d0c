/** The byte order in which the hash table keeps its keys: cl_rmemcmp of CommonLib/src/cl_memory.c. */
module KeyOrder {
  import opened Basics
  import opened MachineWords
  import opened Products

  type Key = seq<Byte>

  /** The number a key stands for, least significant byte first. */
  function Value(key: Key): (v: nat) {
    if key == [] then 0 else key[0] + 256 * Value(key[1..])
  }

  /** The byte that differs highest up decides. */
  lemma {:induction false} HighestDifferenceDecides(a: Key, b: Key, i: nat)
    requires |a| == |b| && i < |a| && a[i] < b[i]
    requires forall j :: i < j < |a| ==> a[j] == b[j]
    ensures Value(a) < Value(b)
  {
    if i == 0 {
      assert a[1..] == b[1..];
    } else {
      HighestDifferenceDecides(a[1..], b[1..], i - 1);
    }
  }

  /** The index at which the downward scan starts: `size - 1` is DWORD arithmetic. */
  function StartIndex(size: nat): nat
    requires size < DWORD_VALUES
  {
    (size + DWORD_VALUES - 1) % DWORD_VALUES
  }

  /** The scan stays inside the two buffers for every key length but 0, where it starts 4 GiB above them. */
  lemma ScanStaysInside(size: nat)
    requires size < DWORD_VALUES
    ensures StartIndex(size) < size <==> size > 0
    ensures StartIndex(0) == DWORD_VALUES - 1
  {
  }

  /** An unsigned DWORD returned as an int. */
  function ToInt(size: nat): int {
    if size < DWORD_VALUES / 2 then size else size - DWORD_VALUES
  }

  /** It is the INT32 with the same bits. */
  lemma ToIntInNumbers(size: nat)
    requires size < DWORD_VALUES
    ensures -0x8000_0000 <= ToInt(size) < 0x8000_0000 && ToInt(size) % 0x1_0000_0000 == size
  {
  }

  /**
   cl_rmemcmp of two buffers of `size` bytes, or NULL pointers. The sign is that of the difference of the
   numbers. None: the scan reads outside the buffers, which it does exactly for two empty ones.
   */
  method ReverseCompare(ptr1: Option<Key>, ptr2: Option<Key>, size: nat) returns (r: Option<int>)
    requires size < DWORD_VALUES
    requires (ptr1.Some? ==> |ptr1.value| == size) && (ptr2.Some? ==> |ptr2.value| == size)
    ensures ptr1.None? || ptr2.None? ==> r == Some(ToInt(size))
    ensures ptr1.Some? && ptr2.Some? ==> (r.None? <==> size == 0)
    ensures ptr1.Some? && ptr2.Some? && size > 0 ==> SignOfDifference(ptr1.value, ptr2.value, r.value)
  {
    if ptr1.None? || ptr2.None? {
      return Some(ToInt(size));
    }
    var a, b := ptr1.value, ptr2.value;
    var i: int := StartIndex(size);
    if size == 0 {
      ScanStaysInside(0);
      return None;
    }
    assert i == size - 1;
    while i >= 0
      invariant -1 <= i < size
      invariant forall j :: i < j < size ==> a[j] == b[j]
    {
      if a[i] != b[i] {
        if a[i] < b[i] {
          HighestDifferenceDecides(a, b, i);
        } else {
          HighestDifferenceDecides(b, a, i);
        }
        var x: int, y: int := a[i], b[i];
        return Some(x - y);
      }
      i := i - 1;
    }
    assert a == b;
    return Some(0);
  }

  predicate SignOfDifference(a: Key, b: Key, r: int) {
    && (r < 0 <==> Value(a) < Value(b)) && (r > 0 <==> Value(a) > Value(b)) && (r == 0 <==> a == b)
    && -255 <= r <= 255
  }

  /** A key of n bytes stands for a number below 256^n; so keys of up to 8 bytes fit in a QWORD. */
  lemma {:induction false} ValueBelow(key: Key)
    ensures Value(key) < PowerOf256(|key|)
  {
    if key == [] {
    } else {
      ValueBelow(key[1..]);
    }
  }

  function PowerOf256(n: nat): (p: nat)
    ensures p >= 1
  {
    if n == 0 then 1 else 256 * PowerOf256(n - 1)
  }

  lemma {:induction false} PowersGrow(m: nat, n: nat)
    requires m <= n
    ensures PowerOf256(m) <= PowerOf256(n)
  {
    if m == n {
    } else {
      PowersGrow(m, n - 1);
    }
  }

  /** The byte of a number that counts multiples of p, a power of 256. */
  function ByteOf(n: nat, p: Positive): nat {
    n / p % 256
  }

  /** Byte i of the number is byte i of the key: the number is little-endian. */
  lemma {:induction false} BytesOfValue(key: Key, i: nat)
    requires i < |key|
    ensures ByteOf(Value(key), PowerOf256(i)) == key[i]
    decreases i
  {
    hide ByteOf;
    if i == 0 {
      LowestByte(key[0], Value(key[1..]));
    } else {
      BytesOfValue(key[1..], i - 1);
      HigherByte(key[0], Value(key[1..]), PowerOf256(i - 1));
    }
  }

  lemma LowestByte(low: Byte, rest: nat)
    ensures ByteOf(low + 256 * rest, 1) == low
  {
  }

  lemma HigherByte(low: Byte, rest: nat, p: Positive)
    ensures ByteOf(low + 256 * rest, 256 * p) == ByteOf(rest, p)
  {
    DivideTwice(low, rest, p);
  }

  lemma DivideTwice(low: Byte, rest: nat, p: nat)
    requires p > 0
    ensures (low + 256 * rest) / (256 * p) == rest / p
  {
    var q, r := Quotient(rest, p), Remainder(rest, p);
    Division(rest, p);
    TimesScaled(q, p);
    DivideExactly(q, low + 256 * r, 256 * p);
  }

  lemma TimesScaled(q: nat, p: nat)
    ensures Times(q, 256 * p) == 256 * Times(q, p)
  {
    assert q * (256 * p) == 256 * (q * p);
  }

  lemma ValueIsQword(key: Key)
    requires |key| <= 8
    ensures Value(key) < QWORD_VALUES
  {
    ValueBelow(key);
    PowersGrow(|key|, 8);
    assert PowerOf256(1) == 0x100 && PowerOf256(2) == 0x1_0000 && PowerOf256(3) == 0x100_0000;
    assert PowerOf256(4) == 0x1_0000_0000 && PowerOf256(5) == 0x100_0000_0000;
    assert PowerOf256(6) == 0x1_0000_0000_0000 && PowerOf256(7) == 0x100_0000_0000_0000;
  }

  /** Distinct keys of one length stand for distinct numbers. */
  lemma {:induction false} ValueIsInjective(a: Key, b: Key)
    requires |a| == |b| && Value(a) == Value(b)
    ensures a == b
  {
    if a == [] {
    } else {
      ValueIsInjective(a[1..], b[1..]);
    }
  }
}

/**
 The chained hash table of CommonLib/src/hash_table.c. Every bucket is a ring of module RingList
 whose entries are sorted by key; `table` is the map that the whole structure stands for.

 The five-argument ListSearchForElement that the table calls is not part of the repository. Its loop
 is modelled in SearchKeyInBucket by the contract its caller relies on: it compares entry after entry
 and stops at an equal one, or at the first greater one.
 */
module HashTable {
  import opened Basics
  import opened KeyOrder
  import opened MachineWords
  import opened Products
  import opened RingList

  const HASH_UNIVERSAL_A: nat := 1701
  const HASH_UNIVERSAL_B: nat := 59
  const HASH_UNIVERSAL_P: nat := 10007

  const MAX_KEY_BYTES: nat := 8

  /** HashFuncGenericIncremental; a key is copied into a QWORD. */
  function HashIncremental(key: Key, maxKeys: nat): (h: nat)
    requires |key| <= MAX_KEY_BYTES && maxKeys > 0
    ensures h < maxKeys
  {
    Value(key) % maxKeys
  }

  /** HashFuncUniversal. */
  function HashUniversal(key: Key, maxKeys: nat): (h: nat)
    requires |key| <= MAX_KEY_BYTES && maxKeys > 0
    ensures h < maxKeys
  {
    (HASH_UNIVERSAL_A * (Value(key) % HASH_UNIVERSAL_P) + HASH_UNIVERSAL_B) % HASH_UNIVERSAL_P % maxKeys
  }

  /** The key is a QWORD, the ASSERT of HashFuncUniversal holds, and its arithmetic on QWORDs does not wrap. */
  lemma HashDoesNotOverflow(key: Key)
    requires |key| <= MAX_KEY_BYTES
    ensures
      var result := Value(key) % HASH_UNIVERSAL_P;
      && Value(key) < QWORD_VALUES
      && result < (QWORD_VALUES - 1) / HASH_UNIVERSAL_A - HASH_UNIVERSAL_B
      && HASH_UNIVERSAL_A * result + HASH_UNIVERSAL_B < QWORD_VALUES
  {
    ValueIsQword(key);
  }

  /** Up to the number of buckets HashFuncUniversal is 1701 * key + 59 modulo 10007. */
  lemma UniversalInNumbers(key: Key, maxKeys: nat)
    requires |key| <= MAX_KEY_BYTES && maxKeys >= 10007
    ensures HashUniversal(key, maxKeys) < 10007
    ensures (1701 * Value(key) + 59) % 10007 == HashUniversal(key, maxKeys)
  {
    hide Value;
    var q, r := Value(key) / 10007, Value(key) % 10007;
    assert 1701 * Value(key) + 59 == 10007 * (1701 * q) + (1701 * r + 59);
    SmallRemainder((1701 * r + 59) % 10007, maxKeys);
    WholeMultiples(1701 * q, 1701 * r + 59);
  }

  lemma WholeMultiples(q: nat, x: nat)
    ensures (10007 * q + x) % 10007 == x % 10007
  {
    assert 10007 * q + x == 10007 * (q + x / 10007) + x % 10007;
  }

  /** Both functions send the keys of a table to its buckets, which is what a table asks of its function. */
  lemma HashesIntoBuckets(g: Geometry)
    requires g.keySize <= MAX_KEY_BYTES && g.maxKeys > 0
    requires || (forall key: Key :: |key| == g.keySize ==> g.hash(key) == HashIncremental(key, g.maxKeys))
             || (forall key: Key :: |key| == g.keySize ==> g.hash(key) == HashUniversal(key, g.maxKeys))
    ensures g.HashOk()
  {
  }

  /** 1701 has an inverse modulo 10007: the multiplication can be undone. */
  const INVERSE_OF_A: nat := 7895

  lemma MultiplicationUndone(x: nat)
    requires x < HASH_UNIVERSAL_P
    ensures
      var y := (HASH_UNIVERSAL_A * x + HASH_UNIVERSAL_B) % HASH_UNIVERSAL_P;
      INVERSE_OF_A * (y + HASH_UNIVERSAL_P - HASH_UNIVERSAL_B) % HASH_UNIVERSAL_P == x
  {
    var z := HASH_UNIVERSAL_A * x + HASH_UNIVERSAL_B;
    var q := z / HASH_UNIVERSAL_P;
    assert HASH_UNIVERSAL_A * INVERSE_OF_A == 1342 * HASH_UNIVERSAL_P + 1;
    var k: int := 1342 * x + INVERSE_OF_A * (1 - q);
    assert z % HASH_UNIVERSAL_P == z - HASH_UNIVERSAL_P * q;
    assert INVERSE_OF_A * (z - HASH_UNIVERSAL_P * q + HASH_UNIVERSAL_P - HASH_UNIVERSAL_B) == HASH_UNIVERSAL_P * k + x;
    RemainderIs(k, x);
  }

  lemma RemainderIs(k: int, x: nat)
    requires x < HASH_UNIVERSAL_P
    ensures (HASH_UNIVERSAL_P * k + x) % HASH_UNIVERSAL_P == x
  {
  }

  /**
   HashFuncUniversal puts two keys into one bucket if their numbers are equal modulo 10007; with at least
   10007 buckets, only then.
   */
  lemma CollidesExactly(a: Key, b: Key, maxKeys: nat)
    requires |a| <= MAX_KEY_BYTES && |b| <= MAX_KEY_BYTES && maxKeys > 0
    ensures Value(a) % HASH_UNIVERSAL_P == Value(b) % HASH_UNIVERSAL_P
            ==> HashUniversal(a, maxKeys) == HashUniversal(b, maxKeys)
    ensures maxKeys >= HASH_UNIVERSAL_P && HashUniversal(a, maxKeys) == HashUniversal(b, maxKeys)
            ==> Value(a) % HASH_UNIVERSAL_P == Value(b) % HASH_UNIVERSAL_P
  {
    var x, y := Value(a) % HASH_UNIVERSAL_P, Value(b) % HASH_UNIVERSAL_P;
    MultiplicationUndone(x);
    MultiplicationUndone(y);
    if maxKeys >= HASH_UNIVERSAL_P {
      SmallRemainder((HASH_UNIVERSAL_A * x + HASH_UNIVERSAL_B) % HASH_UNIVERSAL_P, maxKeys);
      SmallRemainder((HASH_UNIVERSAL_A * y + HASH_UNIVERSAL_B) % HASH_UNIVERSAL_P, maxKeys);
    }
  }

  /** HashFuncGenericIncremental puts two keys into one bucket exactly when the number of buckets divides the
      difference of their numbers. */
  lemma SharesBucketExactly(a: Key, b: Key, maxKeys: nat)
    requires |a| <= MAX_KEY_BYTES && |b| <= MAX_KEY_BYTES && maxKeys > 0
    ensures HashIncremental(a, maxKeys) == HashIncremental(b, maxKeys)
            <==> exists k: nat :: Value(a) == Value(b) + Times(k, maxKeys) || Value(b) == Value(a) + Times(k, maxKeys)
  {
    hide Value;
    hide Times;
    if HashIncremental(a, maxKeys) == HashIncremental(b, maxKeys) {
      if Value(a) >= Value(b) {
        SameRemainderExactly(Value(a), Value(b), maxKeys);
      } else {
        SameRemainderExactly(Value(b), Value(a), maxKeys);
      }
    }
    if k: nat :| Value(a) == Value(b) + Times(k, maxKeys) || Value(b) == Value(a) + Times(k, maxKeys) {
      SameRemainder(if Value(a) == Value(b) + Times(k, maxKeys) then Value(b) else Value(a), k, maxKeys);
    }
  }

  lemma SameRemainderExactly(x: nat, y: nat, n: nat)
    requires n > 0 && x >= y && x % n == y % n
    ensures Quotient(x, n) >= Quotient(y, n) && x == y + Times(Quotient(x, n) - Quotient(y, n), n)
  {
    Division(x, n);
    Division(y, n);
    assert Remainder(x, n) == Remainder(y, n);
    hide Times, Quotient, Remainder;
    if Quotient(x, n) < Quotient(y, n) {
      TimesLess(Quotient(x, n), Quotient(y, n), n);
    } else {
      TimesSum(Quotient(x, n) - Quotient(y, n), Quotient(y, n), n);
    }
  }

  lemma SmallRemainder(x: nat, d: nat)
    requires x < d
    ensures x % d == x
  {
  }

  type Entry = ListEntry<Key>

  /** The entries of a bucket after its head are in strictly increasing key order. */
  ghost predicate Increasing(ring: seq<Entry>) {
    forall i: nat, j: nat :: 1 <= i < j < |ring| ==> Value(ring[i].data) < Value(ring[j].data)
  }

  /** Position p is where `key` belongs: smaller keys up to p, greater ones after. */
  ghost predicate BelongsAfter(ring: seq<Entry>, p: nat, key: Key) {
    && p < |ring|
    && (forall i: nat :: 1 <= i <= p ==> Value(ring[i].data) < Value(key))
    && (forall i: nat :: p < i < |ring| ==> Value(ring[i].data) > Value(key))
  }

  ghost predicate HasKey(ring: seq<Entry>, key: Key) {
    exists i: nat :: 1 <= i < |ring| && ring[i].data == key
  }

  lemma BelongsNowhereElse(ring: seq<Entry>, p: nat, key: Key)
    requires BelongsAfter(ring, p, key)
    ensures !HasKey(ring, key)
  {
  }

  lemma IncreasingAfterInsert(ring: seq<Entry>, p: nat, e: Entry)
    requires Increasing(ring) && BelongsAfter(ring, p, e.data)
    ensures Increasing(InsertAt(ring, p + 1, e))
    ensures InsertAt(ring, p + 1, e)[0] == ring[0]
    ensures forall x :: x in InsertAt(ring, p + 1, e)[1..] <==> x in ring[1..] || x == e
  {
    var r := InsertAt(ring, p + 1, e);
    assert ring[1..] == ring[1..p + 1] + ring[p + 1..];
    assert r[1..] == ring[1..p + 1] + [e] + ring[p + 1..];
  }

  lemma IncreasingAfterReplace(ring: seq<Entry>, p: nat, e: Entry)
    requires Increasing(ring) && 1 <= p < |ring| && ring[p].data == e.data
    ensures RemoveAt(InsertAt(ring, p + 1, e), p) == ring[p := e]
    ensures Increasing(ring[p := e])
    ensures forall x :: x in ring[1..] ==> x in ring[p := e][1..] || x == ring[p]
    ensures e in ring[p := e][1..]
  {
    var r := ring[p := e];
    assert r[1..][p - 1] == e;
    forall x | x in ring[1..] ensures x in r[1..] || x == ring[p] {
      var i: nat :| i < |ring[1..]| && ring[1..][i] == x;
      if i + 1 != p {
        assert r[1..][i] == x;
      }
    }
  }

  lemma IncreasingAfterRemove(ring: seq<Entry>, p: nat)
    requires Increasing(ring) && 1 <= p < |ring|
    ensures Increasing(RemoveAt(ring, p))
    ensures forall x :: x in ring[1..] ==> x in RemoveAt(ring, p)[1..] || x == ring[p]
  {
    var r := RemoveAt(ring, p);
    assert forall i: nat :: i < |r| ==> r[i] == if i < p then ring[i] else ring[i + 1];
    forall x | x in ring[1..] ensures x in r[1..] || x == ring[p] {
      var i: nat :| i < |ring[1..]| && ring[1..][i] == x;
      if i + 1 < p {
        assert r[1..][i] == x;
      } else if i + 1 > p {
        assert r[1..][i - 1] == x;
      }
    }
  }

  /** What does not change after HashTableInit: the geometry, the hash function and the bucket heads. */
  datatype Geometry = Geometry(maxKeys: nat, keySize: nat, hash: Key -> nat, buckets: seq<Entry>) {
    /** The hash function sends keys to buckets. */
    ghost predicate HashOk() {
      forall key: Key :: |key| == keySize ==> hash(key) < maxKeys
    }

    ghost predicate Ok() {
      && 0 < keySize < DWORD_VALUES && |buckets| == maxKeys && HashOk()
      && (forall b: nat, c: nat :: b < c < maxKeys ==> buckets[b] != buckets[c])
    }
  }

  /** An entry that bucket b links. */
  ghost predicate Belongs(g: Geometry, table: map<Key, Entry>, b: nat, e: Entry) {
    && |e.data| == g.keySize && g.hash(e.data) == b && e !in g.buckets
    && e.data in table && table[e.data] == e
  }

  /** Bucket b holds its own entries, in key order. */
  ghost predicate BucketOk(g: Geometry, table: map<Key, Entry>, b: nat, ring: seq<Entry>)
    requires b < |g.buckets|
  {
    && |ring| >= 1 && ring[0] == g.buckets[b]
    && (forall i: nat :: 1 <= i < |ring| ==> Belongs(g, table, b, ring[i]))
    && Increasing(ring)
  }

  /** The key's entry is linked in the key's bucket. */
  ghost predicate Linked(g: Geometry, rings: seq<seq<Entry>>, table: map<Key, Entry>, key: Key)
    requires key in table
  {
    && |key| == g.keySize && table[key].data == key
    && g.hash(key) < |rings| && |rings[g.hash(key)]| >= 1 && table[key] in rings[g.hash(key)][1..]
  }

  /** The buckets stand for the map. */
  ghost predicate Represents(g: Geometry, rings: seq<seq<Entry>>, table: map<Key, Entry>) {
    && |rings| == g.maxKeys == |g.buckets|
    && (forall b: nat :: b < |rings| ==> BucketOk(g, table, b, rings[b]))
    && (forall key :: key in table ==> Linked(g, rings, table, key))
  }

  lemma RingsApart(g: Geometry, rings: seq<seq<Entry>>, table: map<Key, Entry>, b: nat, c: nat, i: nat, j: nat)
    requires g.Ok() && Represents(g, rings, table)
    requires b < |rings| && c < |rings| && b != c && i < |rings[b]| && j < |rings[c]|
    ensures rings[b][i] != rings[c][j]
  {
    assert BucketOk(g, table, b, rings[b]) && BucketOk(g, table, c, rings[c]);
    if i > 0 {
      assert Belongs(g, table, b, rings[b][i]);
    }
    if j > 0 {
      assert Belongs(g, table, c, rings[c][j]);
    }
  }

  /** A map that differs from another at one key only. */
  ghost predicate DiffersOnlyAt(table: map<Key, Entry>, table': map<Key, Entry>, key: Key) {
    forall k: Key :: k != key ==> (k in table <==> k in table') && (k in table ==> table'[k] == table[k])
  }

  /** Replacing one bucket's ring, and the map at one key of that bucket. */
  lemma OneBucketChanged(g: Geometry, rings: seq<seq<Entry>>, table: map<Key, Entry>, b: nat, ring': seq<Entry>,
                         key: Key, table': map<Key, Entry>)
    requires g.Ok() && Represents(g, rings, table) && b < |rings| && g.hash(key) == b
    requires DiffersOnlyAt(table, table', key)
    requires BucketOk(g, table', b, ring')
    requires forall k :: k in table' && g.hash(k) == b ==> Linked(g, rings[b := ring'], table', k)
    ensures Represents(g, rings[b := ring'], table')
  {
    var rings' := rings[b := ring'];
    forall c: nat | c < |rings'| ensures BucketOk(g, table', c, rings'[c]) {
      if c != b {
        assert BucketOk(g, table, c, rings[c]);
        forall i: nat | 1 <= i < |rings[c]| ensures Belongs(g, table', c, rings[c][i]) {
          assert Belongs(g, table, c, rings[c][i]);
        }
      }
    }
    forall k | k in table' ensures Linked(g, rings', table', k) {
      if g.hash(k) != b {
        assert Linked(g, rings, table, k);
      }
    }
  }

  /** Linking a new key's entry. */
  lemma Added(g: Geometry, rings: seq<seq<Entry>>, table: map<Key, Entry>, b: nat, p: nat, e: Entry)
    requires g.Ok() && Represents(g, rings, table) && b < |rings| && |e.data| == g.keySize && g.hash(e.data) == b
    requires e !in g.buckets && e.data !in table && BelongsAfter(rings[b], p, e.data)
    ensures Represents(g, rings[b := InsertAt(rings[b], p + 1, e)], table[e.data := e])
  {
    var ring, table' := rings[b], table[e.data := e];
    var ring' := InsertAt(ring, p + 1, e);
    assert BucketOk(g, table, b, ring);
    IncreasingAfterInsert(ring, p, e);
    forall i: nat | 1 <= i < |ring'| ensures Belongs(g, table', b, ring'[i]) {
      if i != p + 1 {
        assert ring'[i] == ring[if i <= p then i else i - 1];
        assert Belongs(g, table, b, ring'[i]);
      }
    }
    forall k | k in table' && g.hash(k) == b ensures Linked(g, rings[b := ring'], table', k) {
      if k != e.data {
        assert Linked(g, rings, table, k);
        assert table[k] in ring[1..];
      }
      assert table'[k] in ring[1..] || table'[k] == e;
      assert table'[k] in InsertAt(ring, p + 1, e)[1..];
    }
    OneBucketChanged(g, rings, table, b, ring', e.data, table');
  }

  /** Putting an entry in the place of the one that has its key. */
  lemma Replaced(g: Geometry, rings: seq<seq<Entry>>, table: map<Key, Entry>, b: nat, p: nat, e: Entry)
    requires g.Ok() && Represents(g, rings, table) && b < |rings| && g.hash(e.data) == b
    requires e !in g.buckets && 1 <= p < |rings[b]| && rings[b][p].data == e.data
    ensures Represents(g, rings[b := rings[b][p := e]], table[e.data := e])
  {
    var ring, table' := rings[b], table[e.data := e];
    var ring' := ring[p := e];
    assert BucketOk(g, table, b, ring) && Belongs(g, table, b, ring[p]);
    IncreasingAfterReplace(ring, p, e);
    forall i: nat | 1 <= i < |ring'| ensures Belongs(g, table', b, ring'[i]) {
      if i != p {
        assert Belongs(g, table, b, ring[i]);
        assert Value(ring[i].data) != Value(ring[p].data);
      }
    }
    forall k | k in table' && g.hash(k) == b ensures Linked(g, rings[b := ring'], table', k) {
      if k != e.data {
        assert Linked(g, rings, table, k);
      }
    }
    OneBucketChanged(g, rings, table, b, ring', e.data, table');
  }

  /** Unlinking an entry. */
  lemma Removed(g: Geometry, rings: seq<seq<Entry>>, table: map<Key, Entry>, b: nat, p: nat)
    requires g.Ok() && Represents(g, rings, table) && b < |rings| && 1 <= p < |rings[b]|
    ensures var key := rings[b][p].data;
            key in table && Represents(g, rings[b := RemoveAt(rings[b], p)], table - {key})
  {
    var ring := rings[b];
    var ring', key := RemoveAt(ring, p), ring[p].data;
    var table' := table - {key};
    assert BucketOk(g, table, b, ring) && Belongs(g, table, b, ring[p]);
    IncreasingAfterRemove(ring, p);
    forall i: nat | 1 <= i < |ring'| ensures Belongs(g, table', b, ring'[i]) {
      var j := if i < p then i else i + 1;
      assert ring'[i] == ring[j];
      assert Belongs(g, table, b, ring[j]);
      assert Value(ring[j].data) != Value(ring[p].data);
    }
    forall k | k in table' && g.hash(k) == b ensures Linked(g, rings[b := ring'], table', k) {
      assert Linked(g, rings, table, k);
    }
    OneBucketChanged(g, rings, table, b, ring', key, table');
  }

  /** A key that would go between two neighbours of its bucket is not in the map. */
  lemma Absent(g: Geometry, rings: seq<seq<Entry>>, table: map<Key, Entry>, key: Key, p: nat)
    requires g.Ok() && Represents(g, rings, table) && |key| == g.keySize
    requires BelongsAfter(rings[g.hash(key)], p, key)
    ensures key !in table
  {
  }

  /** What a DWORD shows of a number of elements. */
  function Counter(n: nat): nat {
    n % DWORD_VALUES
  }

  lemma CounterShows(n: nat)
    requires n < DWORD_VALUES
    ensures Counter(n) == n
  {
  }

  lemma CounterSteps(n: nat)
    ensures Counter(n + 1) == (Counter(n) + 1) % DWORD_VALUES
    ensures Counter(n) == (Counter(n + 1) + DWORD_VALUES - 1) % DWORD_VALUES
  {
  }

  class Table {
    const g: Geometry
    var NumberOfElements: nat
    ghost var rings: seq<seq<Entry>>
    ghost var table: map<Key, Entry>

    ghost function Nodes(): set<Entry>
      reads this
    {
      set b, i | 0 <= b < |rings| && 0 <= i < |rings[b]| :: rings[b][i]
    }

    ghost predicate Valid()
      reads this, Nodes()
    {
      && g.Ok()
      && Represents(g, rings, table)
      && AllRings(rings)
      && NumberOfElements == Counter(|table|)
    }

    /** HashTablePreinit and HashTableInit: one ring per bucket, each with its head only. */
    constructor (g: Geometry)
      requires g.Ok() && g.maxKeys > 0
      modifies g.buckets
      ensures Valid() && table == map[] && this.g == g
    {
      this.g := g;
      NumberOfElements := 0;
      rings := seq(g.maxKeys, b requires 0 <= b < |g.buckets| => [g.buckets[b]]);
      table := map[];
      new;
      for i := 0 to g.maxKeys
        invariant rings == seq(g.maxKeys, b requires 0 <= b < |g.buckets| => [g.buckets[b]])
        invariant table == map[] && NumberOfElements == 0
        invariant forall b: nat :: b < i ==> Ring([g.buckets[b]])
      {
        InitializeListHead(g.buckets[i]);
      }
    }

    /** HashTableSize: the number of keys, as long as it fits in a DWORD. */
    method Size() returns (count: nat)
      requires Valid()
      ensures |table| < DWORD_VALUES ==> count == |table|
    {
      hide Represents, AllRings, Counter;
      count := NumberOfElements;
      if |table| < DWORD_VALUES {
        CounterShows(|table|);
      }
    }

    lemma BucketFacts(b: nat)
      requires Valid() && b < g.maxKeys
      ensures |rings| == g.maxKeys == |g.buckets| && BucketOk(g, table, b, rings[b]) && Ring(rings[b])
    {
    }

    /** _HashTableSearchKeyInBucket: the entry with the key, or else the entry after which it belongs. */
    method SearchKeyInBucket(b: nat, key: Key) returns (found: bool, placeholder: Entry, ghost p: nat)
      requires Valid() && b < g.maxKeys && |key| == g.keySize
      ensures p < |rings[b]| && placeholder == rings[b][p]
      ensures found ==> p >= 1 && placeholder.data == key && key in table && table[key] == placeholder
      ensures !found ==> BelongsAfter(rings[b], p, key)
      ensures |rings| == g.maxKeys
      ensures found <==> HasKey(rings[b], key)
    {
      hide Represents, AllRings;
      BucketFacts(b);
      ghost var ring := rings[b];
      placeholder := g.buckets[b];
      var result := 0;
      var current := placeholder.Flink;
      p := 0;
      while current != g.buckets[b]
        invariant p < |ring| && placeholder == ring[p] && current == ring[if p + 1 == |ring| then 0 else p + 1]
        invariant result <= 0
        invariant forall i: nat :: 1 <= i <= p ==> Value(ring[i].data) < Value(key)
        decreases |ring| - p
      {
        placeholder, p := current, p + 1;
        assert Belongs(g, table, b, ring[p]);
        var compared := ReverseCompare(Some(current.data), Some(key), g.keySize);
        result := compared.value;
        if result >= 0 {
          break;
        }
        current := current.Flink;
      }
      found := current != g.buckets[b] && result == 0;
      if result > 0 {
        placeholder, p := placeholder.Blink, p - 1;
      }
      if !found {
        BelongsNowhereElse(ring, p, key);
      }
    }

    /** HashTableLookup: the map's entry, or NULL. */
    method Lookup(key: Key) returns (entry: ListEntry?<Key>)
      requires Valid() && |key| == g.keySize
      ensures entry == if key in table then table[key] else null
    {
      var b := g.hash(key);
      var found, placeholder, p := SearchKeyInBucket(b, key);
      assert BucketOk(g, table, b, rings[b]);
      if found {
        assert Belongs(g, table, b, rings[b][p]);
        return placeholder;
      }
      Absent(g, rings, table, key, p);
      return null;
    }

    lemma NodeOf(b: nat, i: nat)
      requires b < |rings| && i < |rings[b]|
      ensures rings[b][i] in Nodes()
    {
    }

    /** The nodes of bucket b's ring are in no other bucket's ring. */
    ghost predicate Apart(b: nat)
      requires b < |rings|
      reads this
    {
      forall c: nat, i: nat :: c < |rings| && c != b && i < |rings[b]| ==> rings[b][i] !in rings[c]
    }

    lemma RingsAreApart(b: nat)
      requires g.Ok() && Represents(g, rings, table) && b < |rings|
      ensures Apart(b)
    {
      forall c: nat, i: nat, j: nat | c < |rings| && c != b && i < |rings[b]| && j < |rings[c]|
        ensures rings[c][j] != rings[b][i]
      {
        RingsApart(g, rings, table, b, c, i, j);
      }
    }

    /** An element that is linked nowhere in the table. */
    ghost predicate Unlinked(e: Entry)
      reads this
    {
      e !in g.buckets && forall b: nat :: b < |rings| ==> e !in rings[b]
    }

    /** Every bucket is a ring. */
    ghost predicate AllRings(rings: seq<seq<Entry>>)
      reads set b, i | 0 <= b < |rings| && 0 <= i < |rings[b]| :: rings[b][i]
    {
      forall b: nat :: b < |rings| ==> Ring(rings[b])
    }

    /** Links an entry into one bucket's ring; the other rings do not notice. */
    method LinkAfter(ghost b: nat, place: Entry, ghost p: nat, element: Entry)
      requires AllRings(rings) && b < |rings| && p < |rings[b]| && place == rings[b][p]
      requires Unlinked(element) && Apart(b)
      modifies Nodes(), element
      ensures AllRings(rings[b := InsertAt(rings[b], p + 1, element)])
    {
      ghost var ring := rings[b];
      ghost var next := if p + 1 == |ring| then 0 else p + 1;
      assert place.Flink == ring[next];
      NodeOf(b, p);
      NodeOf(b, next);
      InsertHeadList(place, element, ring, p);
    }

    /** Unlinks an entry from one bucket's ring. */
    method Unlink(ghost b: nat, entry: Entry, ghost p: nat)
      requires AllRings(rings) && b < |rings| && 1 <= p < |rings[b]| && entry == rings[b][p] && Apart(b)
      modifies Nodes()
      ensures AllRings(rings[b := RemoveAt(rings[b], p)])
    {
      ghost var ring := rings[b];
      ghost var next := if p + 1 == |ring| then 0 else p + 1;
      assert entry.Flink == ring[next] && entry.Blink == ring[p - 1];
      NodeOf(b, next);
      NodeOf(b, p - 1);
      var _ := RemoveEntryList(entry, ring, p);
    }

    /** HashTableInsert's two list operations when the key is there: link the new entry after the old one,
        then unlink the old one. */
    method Exchange(ghost b: nat, place: Entry, ghost p: nat, element: Entry)
      requires AllRings(rings) && b < |rings| && 1 <= p < |rings[b]| && place == rings[b][p]
      requires Unlinked(element) && Apart(b)
      modifies this`rings, Nodes(), element
      ensures rings == old(rings)[b := old(rings[b])[p := element]] && AllRings(rings)
    {
      hide Represents, BelongsAfter, HasKey, BucketOk, Ring, AllRings;
      ghost var replaced: seq<Entry> := rings[b][p := element];
      ghost var grown := InsertAt(rings[b], p + 1, element);
      GrownStaysApart(b, p, element);
      LinkAfter(b, place, p, element);
      rings := rings[b := grown];
      assert grown[p] == place;
      Unlink(b, place, p);
      rings := rings[b := RemoveAt(grown, p)];
      assert RemoveAt(grown, p) == replaced;
    }

    lemma GrownStaysApart(b: nat, p: nat, element: Entry)
      requires b < |rings| && p < |rings[b]| && Unlinked(element) && Apart(b)
      ensures
        var grown := InsertAt(rings[b], p + 1, element);
        && (forall c: nat, i: nat :: c < |rings| && c != b && i < |grown| ==> grown[i] !in rings[c])
        && (forall i: nat :: i < |grown| ==> grown[i] in Nodes() || grown[i] == element)
    {
      var grown := InsertAt(rings[b], p + 1, element);
      forall i: nat | i < |grown|
        ensures grown[i] == element || grown[i] in rings[b]
      {
        if i != p + 1 {
          assert grown[i] == rings[b][if i < p + 1 then i else i - 1];
        }
      }
    }

    /** HashTableInsert: the element takes the place of the entry with its key, which is returned, or is
        added to the table. */
    method Insert(element: Entry) returns (replaced: ListEntry?<Key>)
      requires Valid() && |element.data| == g.keySize && Unlinked(element)
      modifies this, Nodes(), element
      ensures Valid()
      ensures replaced == if element.data in old(table) then old(table[element.data]) else null
      ensures table == old(table)[element.data := element]
    {
      hide Represents, Ring, AllRings, Apart, BelongsAfter, HasKey, Linked, BucketOk, Increasing, Counter;
      var key := element.data;
      var b := g.hash(key);
      var found, place, p := SearchKeyInBucket(b, key);
      RingsAreApart(b);
      if found {
        Replaced(g, rings, table, b, p, element);
        Exchange(b, place, p, element);
      } else {
        Absent(g, rings, table, key, p);
        Added(g, rings, table, b, p, element);
        LinkAfter(b, place, p, element);
        CounterSteps(|table|);
        NumberOfElements := (NumberOfElements + 1) % DWORD_VALUES;
        rings := rings[b := InsertAt(rings[b], p + 1, element)];
      }
      table := table[key := element];
      return if found then place else null;
    }

    /**
     HashTableInsert of an entry that is linked in the table already: it is found as its own placeholder,
     linked behind itself and unlinked. What is left is an entry that is its own successor, with the entry
     before it still pointing at it, so that no search of the bucket gets past it.
     */
    method InsertAgain(element: Entry, ghost b: nat, ghost p: nat) returns (replaced: ListEntry?<Key>)
      requires Valid() && element.data in table && table[element.data] == element
      requires b == g.hash(element.data) < |rings| && 1 <= p < |rings[b]| && rings[b][p] == element
      modifies Nodes()
      ensures replaced == element
      ensures element.Flink == element && element.Blink == element && rings[b][p - 1].Flink == element
      ensures !Ring(rings[b])
    {
      hide Represents, AllRings, Apart, BelongsAfter, HasKey, Linked, Increasing, Counter;
      var key := element.data;
      assert |key| == g.keySize && HasKey(rings[b], key) by {
        LinkedHasKey(b, p);
      }
      var found, place, q := SearchKeyInBucket(g.hash(key), key);
      BucketFacts(b);
      ghost var ring := rings[b];
      assert place == element && q == p;
      ghost var next := if p + 1 == |ring| then 0 else p + 1;
      assert place.Flink == ring[next];
      NodeOf(b, p);
      NodeOf(b, next);
      InsertHeadList(place, element, ring, p);
      assert Ring([place]);
      var _ := RemoveEntryList(place, [place], 0);
      return place;
    }

    lemma LinkedHasKey(b: nat, p: nat)
      requires Valid() && b < |rings| && 1 <= p < |rings[b]|
      ensures |rings[b][p].data| == g.keySize && HasKey(rings[b], rings[b][p].data)
    {
      BucketFacts(b);
      assert Belongs(g, table, b, rings[b][p]);
    }

    /** Where a key's entry is linked. */
    lemma Locate(key: Key) returns (p: nat)
      requires Valid() && key in table
      ensures g.hash(key) < |rings| && 1 <= p < |rings[g.hash(key)]| && rings[g.hash(key)][p] == table[key]
      ensures table[key].data == key
    {
      assert Linked(g, rings, table, key);
      var ring := rings[g.hash(key)];
      var q: nat :| q < |ring[1..]| && ring[1..][q] == table[key];
      p := q + 1;
    }

    /** HashTableRemoveEntry, of an entry that the table holds. */
    method RemoveEntry(element: Entry)
      requires Valid() && element.data in table && table[element.data] == element
      modifies this, Nodes()
      ensures Valid() && table == old(table) - {element.data}
    {
      hide Represents, Ring, AllRings, Apart, BelongsAfter, HasKey, Linked, BucketOk, Increasing, Counter;
      ghost var b := g.hash(element.data);
      ghost var p := Locate(element.data);
      RingsAreApart(b);
      Removed(g, rings, table, b, p);
      Unlink(b, element, p);
      CounterSteps(|table| - 1);
      NumberOfElements := (NumberOfElements + DWORD_VALUES - 1) % DWORD_VALUES;
      rings := rings[b := RemoveAt(rings[b], p)];
      table := table - {element.data};
    }

    /** HashTableRemove: unlinks and returns the key's entry, if there is one. */
    method Remove(key: Key) returns (entry: ListEntry?<Key>)
      requires Valid() && |key| == g.keySize
      modifies this, Nodes()
      ensures Valid()
      ensures entry == if key in old(table) then old(table[key]) else null
      ensures table == old(table) - {key}
    {
      hide Represents, Ring, AllRings, BucketOk, Linked, Counter;
      entry := Lookup(key);
      if entry != null {
        ghost var p := Locate(key);
        RemoveEntry(entry);
      }
    }
  }
}
