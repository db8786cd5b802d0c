/**
 The doubly linked ring of CommonLib/src/list.c. A list is its head and the entries reachable
 through Flink; `ring` is that cycle as a ghost sequence, with the head at position 0.
 */
module RingList {
  import opened Basics
  import opened MachineWords

  /** LIST_ENTRY inside the structure that embeds it. */
  class ListEntry<T> {
    const data: T
    var Flink: ListEntry?<T>
    var Blink: ListEntry?<T>

    constructor (data: T)
      ensures this.data == data
    {
      this.data := data;
      Flink, Blink := null, null;
    }
  }

  /** The entries form one cycle, and Flink and Blink are inverse to each other. */
  ghost predicate Ring<T>(ring: seq<ListEntry<T>>)
    reads ring
  {
    && |ring| >= 1
    && (forall i: nat, j: nat :: i < j < |ring| ==> ring[i] != ring[j])
    && (forall i: nat :: i < |ring| - 1 ==> ring[i].Flink == ring[i + 1])
    && (forall i: nat :: 0 < i < |ring| ==> ring[i].Blink == ring[i - 1])
    && ring[|ring| - 1].Flink == ring[0]
    && ring[0].Blink == ring[|ring| - 1]
  }

  function InsertAt<X>(s: seq<X>, i: nat, x: X): seq<X>
    requires i <= |s|
  {
    s[..i] + [x] + s[i..]
  }

  function RemoveAt<X>(s: seq<X>, i: nat): seq<X>
    requires i < |s|
  {
    s[..i] + s[i + 1..]
  }

  function Values<T>(entries: seq<ListEntry<T>>): (values: seq<T>)
    ensures |values| == |entries|
    ensures forall i :: 0 <= i < |values| ==> values[i] == entries[i].data
  {
    seq(|entries|, i requires 0 <= i < |entries| => entries[i].data)
  }

  /** _ValidateListEntry: holds of every entry of a ring. */
  ghost predicate ValidEntry<T>(e: ListEntry<T>)
    reads e, e.Flink, e.Blink
  {
    e.Flink != null && e.Blink != null && e.Flink.Blink == e && e.Blink.Flink == e
  }

  lemma RingEntriesAreValid<T>(ring: seq<ListEntry<T>>, k: nat)
    requires Ring(ring) && k < |ring|
    ensures ValidEntry(ring[k])
  {
    if k < |ring| - 1 {
      assert ring[k + 1].Blink == ring[k];
    }
    if k > 0 {
      assert ring[k - 1].Flink == ring[k];
    }
  }

  method InitializeListHead<T>(listHead: ListEntry<T>)
    modifies listHead
    ensures Ring([listHead])
  {
    listHead.Blink := listHead;
    listHead.Flink := listHead;
  }

  method IsListEmpty<T>(listHead: ListEntry<T>, ghost ring: seq<ListEntry<T>>) returns (empty: bool)
    requires Ring(ring) && ring[0] == listHead
    ensures empty <==> ring == [listHead]
  {
    RingEntriesAreValid(ring, 0);
    assert |ring| > 1 ==> listHead.Flink == ring[1];
    empty := listHead.Flink == listHead;
  }

  function NextIndex(i: nat, n: nat): nat {
    if i + 1 >= n then 0 else i + 1
  }

  /** Two neighbours point to each other. */
  ghost predicate Joined<T>(a: ListEntry<T>, b: ListEntry<T>)
    reads a, b
  {
    a.Flink == b && b.Blink == a
  }

  /** All neighbours but those at positions k and k + 1 point to each other. */
  ghost predicate JoinedExceptAt<T>(ring: seq<ListEntry<T>>, k: nat)
    reads ring
  {
    forall i: nat :: i < |ring| && i != k ==> Joined(ring[i], ring[NextIndex(i, |ring|)])
  }

  lemma RingIsJoined<T>(ring: seq<ListEntry<T>>)
    requires |ring| >= 1
    ensures Ring(ring) <==> Distinct(ring) && JoinedExceptAt(ring, |ring|)
  {
    if JoinedExceptAt(ring, |ring|) {
      forall i: nat | i < |ring| - 1
        ensures Joined(ring[i], ring[i + 1])
      {
        assert Joined(ring[i], ring[NextIndex(i, |ring|)]);
      }
      forall i: nat | 0 < i < |ring|
        ensures ring[i].Blink == ring[i - 1]
      {
        assert Joined(ring[i - 1], ring[NextIndex(i - 1, |ring|)]);
      }
      assert Joined(ring[|ring| - 1], ring[NextIndex(|ring| - 1, |ring|)]);
    }
  }

  lemma DistinctGrows<T>(ring: seq<ListEntry<T>>, at: nat, entry: ListEntry<T>)
    requires Distinct(ring) && entry !in ring && at <= |ring|
    ensures Distinct(InsertAt(ring, at, entry))
  {
    var r := InsertAt(ring, at, entry);
    forall i: nat, j: nat | i < j < |r|
      ensures r[i] != r[j]
    {
      assert i != at ==> r[i] == ring[if i < at then i else i - 1];
      assert j != at ==> r[j] == ring[if j < at then j else j - 1];
    }
  }

  /** Once the entry and its two neighbours are joined, the grown sequence is a ring. */
  lemma RingGrows<T>(ring: seq<ListEntry<T>>, at: nat, entry: ListEntry<T>)
    requires 1 <= at <= |ring| && Distinct(ring) && entry !in ring && JoinedExceptAt(ring, at - 1)
    requires Joined(ring[at - 1], entry) && Joined(entry, ring[NextIndex(at - 1, |ring|)])
    ensures Ring(InsertAt(ring, at, entry))
  {
    hide Joined;
    hide Ring;
    var r := InsertAt(ring, at, entry);
    DistinctGrows(ring, at, entry);
    forall i: nat | i < |r|
      ensures Joined(r[i], r[NextIndex(i, |r|)])
    {
      if i == at - 1 || i == at {
      } else {
        var k := if i < at then i else i - 1;
        assert Joined(ring[k], ring[NextIndex(k, |ring|)]);
      }
    }
    RingIsJoined(r);
  }

  /** Links an entry in before position k; before the head means at the end. */
  method InsertTailList<T>(listHead: ListEntry<T>, entry: ListEntry<T>, ghost ring: seq<ListEntry<T>>, ghost k: nat)
    requires Ring(ring) && k < |ring| && ring[k] == listHead && entry !in ring
    modifies listHead, listHead.Blink, entry
    ensures Ring(InsertAt(ring, if k == 0 then |ring| else k, entry))
  {
    hide InsertAt;
    RingIsJoined(ring);
    ghost var at := if k == 0 then |ring| else k;
    assert Joined(ring[at - 1], ring[NextIndex(at - 1, |ring|)]);
    hide Ring;
    var blink := listHead.Blink;
    entry.Flink := listHead;
    entry.Blink := blink;
    blink.Flink := entry;
    listHead.Blink := entry;
    RingGrows(ring, at, entry);
  }

  /** Links an entry in after position k. */
  method InsertHeadList<T>(listHead: ListEntry<T>, entry: ListEntry<T>, ghost ring: seq<ListEntry<T>>, ghost k: nat)
    requires Ring(ring) && k < |ring| && ring[k] == listHead && (entry !in ring || entry == listHead)
    modifies listHead, listHead.Flink, entry
    ensures entry != listHead ==> Ring(InsertAt(ring, k + 1, entry))
    ensures entry == listHead ==> entry.Flink == entry && entry.Blink == entry
    ensures entry == listHead && k > 0 ==> ring[k - 1].Flink == entry
  {
    hide InsertAt;
    RingIsJoined(ring);
    assert Joined(ring[k], ring[NextIndex(k, |ring|)]);
    hide Ring;
    var flink := listHead.Flink;
    entry.Flink := flink;
    entry.Blink := listHead;
    flink.Blink := entry;
    listHead.Flink := entry;
    if entry != listHead {
      RingGrows(ring, k + 1, entry);
    }
  }

  lemma RingShrinks<T>(ring: seq<ListEntry<T>>, k: nat)
    requires 2 <= |ring| && k < |ring| && Distinct(ring)
    requires forall i: nat :: i < |ring| && i != k && NextIndex(i, |ring|) != k
                              ==> Joined(ring[i], ring[NextIndex(i, |ring|)])
    requires Joined(ring[if k == 0 then |ring| - 1 else k - 1], ring[NextIndex(k, |ring|)])
    ensures Ring(RemoveAt(ring, k))
  {
    hide Joined;
    hide Ring;
    var r := RemoveAt(ring, k);
    forall i: nat | i < |r|
      ensures Joined(r[i], r[NextIndex(i, |r|)])
    {
      var j := if i < k then i else i + 1;
      assert r[i] == ring[j];
      if NextIndex(j, |ring|) == k {
        assert r[NextIndex(i, |r|)] == ring[NextIndex(k, |ring|)];
      } else {
        assert r[NextIndex(i, |r|)] == ring[NextIndex(j, |ring|)];
      }
    }
    RingIsJoined(r);
  }

  /** Unlinks an entry; TRUE says that at most one entry is left, as when only a list head is. */
  method RemoveEntryList<T>(entry: ListEntry<T>, ghost ring: seq<ListEntry<T>>, ghost k: nat) returns (empty: bool)
    requires Ring(ring) && k < |ring| && ring[k] == entry
    modifies entry.Flink, entry.Blink
    ensures |ring| >= 2 ==> Ring(RemoveAt(ring, k))
    ensures |ring| == 1 ==> Ring(ring)
    ensures empty <==> |ring| <= 2
    ensures k > 0 ==> (empty <==> RemoveAt(ring, k) == [ring[0]])
    ensures |ring| >= 2 ==> entry.Flink == old(entry.Flink) && entry.Blink == old(entry.Blink)
  {
    RingIsJoined(ring);
    ghost var before := if k == 0 then |ring| - 1 else k - 1;
    assert Joined(ring[k], ring[NextIndex(k, |ring|)]) && Joined(ring[before], ring[NextIndex(before, |ring|)]);
    var flink := entry.Flink;
    var blink := entry.Blink;
    empty := flink == blink;
    assert empty <==> |ring| <= 2;
    assert k > 0 ==> (RemoveAt(ring, k) == [ring[0]] <==> |ring| == 2);
    hide RemoveAt;
    blink.Flink := flink;
    flink.Blink := blink;
    if |ring| >= 2 {
      RingShrinks(ring, k);
    }
  }

  /** Unlinks the first entry, or nothing when there is none. */
  method RemoveHeadList<T>(listHead: ListEntry<T>, ghost ring: seq<ListEntry<T>>) returns (entry: ListEntry<T>)
    requires Ring(ring) && ring[0] == listHead
    modifies ring
    ensures entry == ring[if |ring| == 1 then 0 else 1]
    ensures Ring(if |ring| == 1 then ring else RemoveAt(ring, 1))
  {
    RingEntriesAreValid(ring, 0);
    entry := listHead.Flink;
    assert entry == ring[if |ring| == 1 then 0 else 1];
    RingEntriesAreValid(ring, if |ring| == 1 then 0 else 1);
    var flink := entry.Flink;
    assert flink == ring[if |ring| <= 2 then 0 else 2];
    listHead.Flink := flink;
    flink.Blink := listHead;
    ghost var r := if |ring| == 1 then ring else RemoveAt(ring, 1);
    assert forall i: nat :: i < |r| ==> r[i] == if i < 1 then ring[i] else ring[i + 1];
  }

  /** Unlinks the last entry, or nothing when there is none. */
  method RemoveTailList<T>(listHead: ListEntry<T>, ghost ring: seq<ListEntry<T>>) returns (entry: ListEntry<T>)
    requires Ring(ring) && ring[0] == listHead
    modifies ring
    ensures entry == ring[|ring| - 1]
    ensures Ring(if |ring| == 1 then ring else RemoveAt(ring, |ring| - 1))
  {
    entry := listHead.Blink;
    RingEntriesAreValid(ring, |ring| - 1);
    var blink := entry.Blink;
    assert blink == ring[if |ring| == 1 then 0 else |ring| - 2];
    listHead.Blink := blink;
    blink.Flink := listHead;
    ghost var r := if |ring| == 1 then ring else RemoveAt(ring, |ring| - 1);
    assert forall i: nat :: i < |r| ==> r[i] == ring[i];
  }

  /** The number of entries, as a DWORD. */
  method ListSize<T>(listHead: ListEntry<T>, ghost ring: seq<ListEntry<T>>) returns (count: nat)
    requires Ring(ring) && ring[0] == listHead
    ensures count == (|ring| - 1) % DWORD_VALUES
  {
    count := 0;
    var current := listHead.Flink;
    ghost var i := 1;
    while current != listHead
      invariant 1 <= i <= |ring| && current == ring[if i == |ring| then 0 else i]
      invariant count == (i - 1) % DWORD_VALUES
      decreases |ring| - i
    {
      count := (count + 1) % DWORD_VALUES;
      current := current.Flink;
      i := i + 1;
    }
  }

  method GetListElemByIndex<T>(listHead: ListEntry<T>, listIndex: nat, ghost ring: seq<ListEntry<T>>)
    returns (entry: ListEntry?<T>)
    requires Ring(ring) && ring[0] == listHead && listIndex < DWORD_VALUES
    ensures entry == if listIndex < |ring| - 1 then ring[listIndex + 1] else null
  {
    var current := listHead.Flink;
    var index := 0;
    while current != listHead
      invariant 0 <= index <= listIndex && index + 1 <= |ring|
      invariant current == ring[if index + 1 == |ring| then 0 else index + 1]
      decreases |ring| - index
    {
      if index == listIndex {
        return current;
      }
      index := (index + 1) % DWORD_VALUES;
      current := current.Flink;
    }
    return null;
  }

  /** The first entry that the comparison calls equal. */
  method ListSearchForElement<T>(listHead: ListEntry<T>, element: T, compare: (T, T) -> int,
                                 ghost ring: seq<ListEntry<T>>)
    returns (entry: ListEntry?<T>)
    requires Ring(ring) && ring[0] == listHead
    ensures entry == null ==> forall i :: 1 <= i < |ring| ==> compare(ring[i].data, element) != 0
    ensures entry != null ==> exists i :: 1 <= i < |ring| && entry == ring[i] && compare(ring[i].data, element) == 0
                                       && forall j :: 1 <= j < i ==> compare(ring[j].data, element) != 0
  {
    var current := listHead.Flink;
    ghost var i := 1;
    while current != listHead
      invariant 1 <= i <= |ring| && current == ring[if i == |ring| then 0 else i]
      invariant forall j :: 1 <= j < i ==> compare(ring[j].data, element) != 0
      decreases |ring| - i
    {
      if compare(current.data, element) == 0 {
        return current;
      }
      current := current.Flink;
      i := i + 1;
    }
    return null;
  }

  // ----- ordered insertion

  /** How many elements go before `x`: all up to the first that compares greater. */
  function OrderedPosition<T>(values: seq<T>, x: T, compare: (T, T) -> int): (p: nat)
    ensures p <= |values|
    ensures forall i :: 0 <= i < p ==> compare(x, values[i]) >= 0
    ensures p < |values| ==> compare(x, values[p]) < 0
  {
    if values == [] || compare(x, values[0]) < 0 then 0
    else 1 + OrderedPosition(values[1..], x, compare)
  }

  method InsertOrderedList<T>(listHead: ListEntry<T>, entry: ListEntry<T>, compare: (T, T) -> int,
                              ghost ring: seq<ListEntry<T>>)
    requires Ring(ring) && ring[0] == listHead && entry !in ring
    modifies ring, entry
    ensures Ring(InsertAt(ring, 1 + OrderedPosition(Values(ring[1..]), entry.data, compare), entry))
  {
    ghost var values := Values(ring[1..]);
    var current := listHead.Flink;
    ghost var i := 1;
    while current != listHead
      invariant 1 <= i <= |ring| && current == ring[if i == |ring| then 0 else i]
      invariant forall j :: 0 <= j < i - 1 ==> compare(entry.data, values[j]) >= 0
      decreases |ring| - i
    {
      if compare(entry.data, current.data) < 0 {
        break;
      }
      current := current.Flink;
      i := i + 1;
    }
    assert i < |ring| ==> values[i - 1] == ring[i].data;
    assert i - 1 == OrderedPosition(values, entry.data, compare);
    assert current.Blink == ring[i - 1];
    InsertTailList(current, entry, ring, if i == |ring| then 0 else i);
  }

  /** A comparison function as list.h describes it: negative, zero and positive mean less, equal and greater. */
  ghost predicate Comparison<T(!new)>(compare: (T, T) -> int) {
    && (forall x, y :: compare(x, y) < 0 <==> compare(y, x) > 0)
    && (forall x, y, z :: compare(x, y) <= 0 && compare(y, z) <= 0 ==> compare(x, z) <= 0)
  }

  /** The order of the numbers is one. */
  lemma NumbersCompare()
    ensures Comparison((x: int, y: int) => x - y)
  {
  }

  ghost predicate Sorted<T>(values: seq<T>, compare: (T, T) -> int) {
    forall i: nat, j: nat :: i < j < |values| ==> compare(values[i], values[j]) <= 0
  }

  function InsertOrdered<T>(values: seq<T>, x: T, compare: (T, T) -> int): seq<T> {
    InsertAt(values, OrderedPosition(values, x, compare), x)
  }

  lemma LessThanAllAfter<T(!new)>(values: seq<T>, x: T, compare: (T, T) -> int, i: nat)
    requires Comparison(compare) && Sorted(values, compare)
    requires OrderedPosition(values, x, compare) <= i < |values|
    ensures compare(x, values[i]) < 0
  {
    var y := values[OrderedPosition(values, x, compare)];
    var z := values[i];
    assert compare(x, y) < 0;
    assert compare(y, z) <= 0 || y == z;
    if compare(x, z) >= 0 {
      assert false;
    }
  }

  /** Everything before the insertion point is at most `x`, everything from it on is greater. */
  ghost predicate Splits<T>(values: seq<T>, x: T, compare: (T, T) -> int, p: nat) {
    && p <= |values|
    && (forall i: nat :: i < p ==> compare(values[i], x) <= 0)
    && (forall i: nat :: p <= i < |values| ==> compare(x, values[i]) < 0)
  }

  lemma PositionSplits<T(!new)>(values: seq<T>, x: T, compare: (T, T) -> int)
    requires Comparison(compare) && Sorted(values, compare)
    ensures Splits(values, x, compare, OrderedPosition(values, x, compare))
  {
    var p := OrderedPosition(values, x, compare);
    forall i: nat | i < p ensures compare(values[i], x) <= 0 {
      assert compare(x, values[i]) >= 0;
    }
    forall i: nat | p <= i < |values| ensures compare(x, values[i]) < 0 {
      LessThanAllAfter(values, x, compare, i);
    }
  }

  lemma SplitInsertionSorted<T>(values: seq<T>, x: T, compare: (T, T) -> int, p: nat)
    requires Sorted(values, compare) && Splits(values, x, compare, p)
    ensures Sorted(InsertAt(values, p, x), compare)
  {
  }

  /** The elements that compare equal to `key`, in order. */
  function SameKey<T>(values: seq<T>, key: T, compare: (T, T) -> int): seq<T> {
    if values == [] then []
    else
      var last := |values| - 1;
      SameKey(values[..last], key, compare) + (if compare(values[last], key) == 0 then [values[last]] else [])
  }

  lemma {:induction false} SameKeyConcat<T>(a: seq<T>, b: seq<T>, key: T, compare: (T, T) -> int)
    ensures SameKey(a + b, key, compare) == SameKey(a, key, compare) + SameKey(b, key, compare)
  {
    if b == [] {
      assert a + b == a;
    } else {
      var last := |b| - 1;
      assert (a + b)[..|a + b| - 1] == a + b[..last];
      SameKeyConcat(a, b[..last], key, compare);
    }
  }

  lemma SameKeyOfOne<T>(x: T, key: T, compare: (T, T) -> int)
    ensures SameKey([x], key, compare) == if compare(x, key) == 0 then [x] else []
    ensures SameKey([], key, compare) == []
  {
    assert [x][..0] == [];
  }

  /** The elements of one key are exactly those that compare equal to it. */
  lemma {:induction false} SameKeyExactly<T>(values: seq<T>, x: T, key: T, compare: (T, T) -> int)
    ensures x in SameKey(values, key, compare) <==> x in values && compare(x, key) == 0
    ensures multiset(SameKey(values, key, compare))[x]
         == if compare(x, key) == 0 then multiset(values)[x] else 0
  {
    if values == [] {
    } else {
      var last := |values| - 1;
      SameKeyExactly(values[..last], x, key, compare);
      assert values == values[..last] + [values[last]];
    }
  }

  lemma {:induction false} SameKeyNone<T>(values: seq<T>, key: T, compare: (T, T) -> int)
    requires forall i :: 0 <= i < |values| ==> compare(values[i], key) != 0
    ensures SameKey(values, key, compare) == []
  {
    if values == [] {
    } else {
      SameKeyNone(values[..|values| - 1], key, compare);
    }
  }

  /** What is greater than `x` does not share its key. */
  lemma AfterHasOtherKeys<T(!new)>(x: T, key: T, compare: (T, T) -> int, y: T)
    requires Comparison(compare) && compare(x, key) == 0 && compare(x, y) < 0
    ensures compare(y, key) != 0
  {
    if compare(y, key) == 0 {
      assert false;
    }
  }

  lemma ConcatThree<T>(a: seq<T>, b: seq<T>, c: seq<T>, key: T, compare: (T, T) -> int)
    ensures SameKey(a + b + c, key, compare)
         == SameKey(a, key, compare) + SameKey(b, key, compare) + SameKey(c, key, compare)
  {
    hide SameKey;
    SameKeyConcat(a + b, c, key, compare);
    SameKeyConcat(a, b, key, compare);
  }

  lemma EmptyCommutes<T>(a: seq<T>, b: seq<T>, c: seq<T>)
    requires b == [] || c == []
    ensures a + b + c == (a + c) + b
  {
  }

  lemma SplitInsertionStable<T>(values: seq<T>, x: T, key: T, compare: (T, T) -> int, p: nat)
    requires p <= |values|
    requires compare(x, key) == 0 ==> forall i: nat :: p <= i < |values| ==> compare(values[i], key) != 0
    ensures SameKey(InsertAt(values, p, x), key, compare) == SameKey(values, key, compare) + SameKey([x], key, compare)
  {
    hide SameKey;
    var before, after := values[..p], values[p..];
    var a, b, c := SameKey(before, key, compare), SameKey([x], key, compare), SameKey(after, key, compare);
    ConcatThree(before, [x], after, key, compare);
    SameKeyConcat(before, after, key, compare);
    assert values == before + after;
    if compare(x, key) == 0 {
      SameKeyNone(after, key, compare);
    } else {
      SameKeyNone([x], key, compare);
    }
    EmptyCommutes(a, b, c);
  }

  /** A new element goes after every element with its key. */
  lemma InsertOrderedStable<T(!new)>(values: seq<T>, x: T, key: T, compare: (T, T) -> int)
    requires Comparison(compare) && Sorted(values, compare)
    ensures SameKey(InsertOrdered(values, x, compare), key, compare)
         == SameKey(values, key, compare) + SameKey([x], key, compare)
  {
    var p := OrderedPosition(values, x, compare);
    if compare(x, key) == 0 {
      forall i: nat | p <= i < |values| ensures compare(values[i], key) != 0 {
        LessThanAllAfter(values, x, compare, i);
        AfterHasOtherKeys(x, key, compare, values[i]);
      }
    }
    SplitInsertionStable(values, x, key, compare, p);
  }

  lemma InsertOrderedSorted<T(!new)>(values: seq<T>, x: T, compare: (T, T) -> int)
    requires Comparison(compare) && Sorted(values, compare)
    ensures Sorted(InsertOrdered(values, x, compare), compare)
  {
    PositionSplits(values, x, compare);
    SplitInsertionSorted(values, x, compare, OrderedPosition(values, x, compare));
  }

  lemma InsertAtMultiset<T>(values: seq<T>, p: nat, x: T)
    requires p <= |values|
    ensures multiset(InsertAt(values, p, x)) == multiset(values) + multiset{x}
  {
    assert values == values[..p] + values[p..];
  }

  /** A list filled by InsertOrderedList alone, in order of arrival. */
  function InsertAll<T>(arrivals: seq<T>, compare: (T, T) -> int): seq<T> {
    if arrivals == [] then []
    else InsertOrdered(InsertAll(arrivals[..|arrivals| - 1], compare), arrivals[|arrivals| - 1], compare)
  }

  /** It is the stable sort of its arrivals: sorted, the same elements, and those with equal keys in order
      of arrival. */
  lemma {:induction false} InsertAllSortsStably<T(!new)>(arrivals: seq<T>, compare: (T, T) -> int, key: T)
    requires Comparison(compare)
    ensures Sorted(InsertAll(arrivals, compare), compare)
    ensures multiset(InsertAll(arrivals, compare)) == multiset(arrivals)
    ensures SameKey(InsertAll(arrivals, compare), key, compare) == SameKey(arrivals, key, compare)
  {
    hide InsertAt;
    if arrivals == [] {
    } else {
      var before, x := arrivals[..|arrivals| - 1], arrivals[|arrivals| - 1];
      assert arrivals == before + [x];
      InsertAllSortsStably(before, compare, key);
      var values := InsertAll(before, compare);
      InsertOrderedSorted(values, x, compare);
      InsertOrderedStable(values, x, key, compare);
      SameKeyConcat(before, [x], key, compare);
      InsertAtMultiset(values, OrderedPosition(values, x, compare), x);
    }
  }
}
