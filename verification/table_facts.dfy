/** What a `HashTableLinear` built only by its own operations looks like.

    Because both the hash and the probe are reduced modulo the item count,
    the live entries of such a table always occupy exactly the slots
    `[0, num_items)`, in insertion order (`Valid`). Consequently every `put`
    lands in slot `num_items - 1`, the probe loop always stops, and "first
    match" in `get` means "earliest inserted". */
module TableFacts {
  import opened Wrappers
  import opened Nodes
  import opened Hashing
  import opened LinearTable

  /** Live entries fill exactly the slots below `numItems`. */
  ghost predicate Packed<D>(slots: seq<Slot<D>>, k: nat) {
    k <= |slots| && forall i :: 0 <= i < |slots| ==> (slots[i].Some? <==> i < k)
  }

  /** The invariant of every reachable table. */
  ghost predicate Valid<D>(t: Table<D>) {
    Packed(t.slots, t.numItems) && Counted(t)
  }

  /** A valid table that has never had a slot popped out of it. */
  ghost predicate Healthy<D>(t: Table<D>) {
    Valid(t) && t.tableSize >= 1 && |t.slots| == t.tableSize
  }

  /** The entries of a packed slot list are its first `k` slots, in order. */
  lemma {:induction false} PackedEntries<D>(slots: seq<Slot<D>>, k: nat)
    requires Packed(slots, k)
    ensures |Entries(slots)| == k
    ensures forall i :: 0 <= i < k ==> Entries(slots)[i] == slots[i].value
    decreases |slots|
  {
    if k == 0 {
      EntriesOfNones(slots);
    } else {
      assert Packed(slots[1..], k - 1);
      PackedEntries(slots[1..], k - 1);
      assert Entries(slots) == [slots[0].value] + Entries(slots[1..]);
    }
  }

  /** Two packed slot lists whose first `k` slots agree have equal entries. */
  lemma PackedEntriesEqual<D>(a: seq<Slot<D>>, b: seq<Slot<D>>, k: nat)
    requires Packed(a, k) && Packed(b, k)
    requires forall i :: 0 <= i < k ==> a[i] == b[i]
    ensures Entries(a) == Entries(b)
  {
    PackedEntries(a, k);
    PackedEntries(b, k);
  }

  /** A fresh table of positive size is healthy. */
  lemma EmptyHealthy<D>(size: nat)
    requires size >= 1
    ensures Healthy(Empty<D>(size))
  {
  }

  lemma PositiveProduct(x: real, s: real)
    requires s > 0.0
    ensures x > 0.0 <==> x * s > 0.0
  {
  }

  /** `load_factor() > .75` compares `4 * items` with `3 * size`. */
  lemma LoadAboveIff(items: nat, size: nat)
    requires size > 0
    ensures LoadAbove(items, size) <==> 4 * items > 3 * size
  {
    var s := size as real;
    var lf := items as real / s;
    assert lf * s == items as real;
    assert (lf - 0.75) * s == items as real - 0.75 * s;
    PositiveProduct(lf - 0.75, s);
    assert lf > 0.75 <==> items as real - 0.75 * s > 0.0;
    assert (4 * items) as real == 4.0 * (items as real);
    assert (3 * size) as real == 3.0 * s;
  }

  /** Below the threshold `put` does not resize. */
  lemma PutWithoutResize<D>(t: Table<D>, key: string, data: D)
    requires t.tableSize > 0 && 4 * (t.numItems + 1) <= 3 * t.tableSize
    ensures Put(t, key, data) == Place(t.(numItems := t.numItems + 1), key, data)
  {
    LoadAboveIff(t.numItems + 1, t.tableSize);
  }

  /** The probe of `put` on a packed table ends at slot `n - 1`: slots below
      it are occupied and slot `n - 1` is empty or past the end of the list. */
  lemma {:induction false} ProbeEndsAtLast<D>(slots: seq<Slot<D>>, n: nat, h: nat, fuel: nat)
    requires 1 <= n && h < n && Packed(slots, n - 1)
    requires fuel >= n - 1 - h
    ensures ProbeFrom(slots, n, h, fuel) == (if n - 1 < |slots| then Free(n - 1) else OutOfRange)
    decreases n - 1 - h
  {
    if h < |slots| && slots[h].Some? {
      assert (h + 1) % n == h + 1;
      ProbeEndsAtLast(slots, n, h + 1, fuel - 1);
    }
  }

  /** The placing half of `put` on a packed table. */
  lemma PlaceSpec<D>(t: Table<D>, key: string, data: D)
    requires t.numItems >= 1 && Packed(t.slots, t.numItems - 1)
    ensures Place(t, key, data).Success? <==> t.numItems - 1 < |t.slots|
    ensures Place(t, key, data).Failure? ==> Place(t, key, data).error == IndexOutOfRange
    ensures Place(t, key, data).Success? ==>
              var r := Place(t, key, data).value;
              && r.slots == t.slots[t.numItems - 1 := Some(Node(key, data))]
              && r.numCollisions == t.numCollisions + (if HashString(key, t.numItems) == t.numItems - 1 then 0 else 1)
              && Packed(r.slots, t.numItems)
  {
    var n := t.numItems;
    ProbeEndsAtLast(t.slots, n, HashString(key, n), n - 1);
  }

  /** A successful placement on a packed table appends the new entry. */
  lemma PlaceAppends<D>(t: Table<D>, key: string, data: D)
    requires t.numItems >= 1 && Packed(t.slots, t.numItems - 1) && t.numItems - 1 < |t.slots|
    ensures Place(t, key, data).Success?
    ensures var r := Place(t, key, data).value;
            && Valid(r) && r.numItems == t.numItems
            && r.slots[t.numItems - 1] == Some(Node(key, data))
            && (forall i :: 0 <= i < t.numItems - 1 ==> r.slots[i] == t.slots[i])
            && Entries(r.slots) == Entries(t.slots) + [Node(key, data)]
            && r.tableSize == t.tableSize && |r.slots| == |t.slots|
            && r.numCollisions == t.numCollisions + (if HashString(key, t.numItems) == t.numItems - 1 then 0 else 1)
  {
    PlaceSpec(t, key, data);
    var r := Place(t, key, data).value;
    var n := t.numItems;
    PackedEntries(t.slots, n - 1);
    PackedEntries(r.slots, n);
    var a := Entries(t.slots) + [Node(key, data)];
    assert |Entries(r.slots)| == |a|;
    forall i | 0 <= i < n
      ensures Entries(r.slots)[i] == a[i]
    {
      if i < n - 1 {
        assert a[i] == Entries(t.slots)[i];
      }
    }
  }

  /** The loop of `resize` into a table that stays at or under the 0.75
      threshold: every `put` succeeds without growing and entries keep their
      order. */
  lemma {:induction false} ReinsertSpec<D>(dst: Table<D>, es: seq<Entry<D>>)
    requires Valid(dst) && |dst.slots| == dst.tableSize
    requires 4 * (dst.numItems + |es|) <= 3 * dst.tableSize
    ensures Reinsert(dst, es).Success?
    ensures var r := Reinsert(dst, es).value;
            && Valid(r) && r.numItems == dst.numItems + |es|
            && Entries(r.slots) == Entries(dst.slots) + es
            && |r.slots| == |dst.slots| && r.tableSize == dst.tableSize
    decreases |es|
  {
    if |es| == 0 {
      assert Entries(dst.slots) + es == Entries(dst.slots);
    } else {
      var bumped := dst.(numItems := dst.numItems + 1);
      PutWithoutResize(dst, es[0].key, es[0].data);
      PlaceAppends(bumped, es[0].key, es[0].data);
      var next := Put(dst, es[0].key, es[0].data).value;
      ReinsertSpec(next, es[1..]);
      assert Reinsert(dst, es) == Reinsert(next, es[1..]);
      assert Entries(dst.slots) + [es[0]] + es[1..] == Entries(dst.slots) + es;
    }
  }

  /** `resize` of a table holding `n - 1` entries: a table of size `2n + 1`
      holding the same entries in the same order, packed at the front. */
  lemma ResizeSpec<D>(slots: seq<Slot<D>>, n: nat)
    requires n >= 1 && Packed(slots, n - 1)
    ensures Resize(slots, n).Success?
    ensures var r := Resize(slots, n).value;
            && Valid(r) && r.numItems == n - 1
            && Entries(r.slots) == Entries(slots)
            && |r.slots| == 2 * n + 1 && r.tableSize == 2 * n + 1
  {
    PackedEntries(slots, n - 1);
    var e := Empty<D>(2 * n + 1);
    ReinsertSpec(e, Entries(slots));
  }

  /** `put` when the load factor would pass 0.75: the table is rebuilt at size
      `2n + 1` with the same entries, then the new entry goes to slot `n - 1`. */
  lemma PutGrowing<D>(t: Table<D>, key: string, data: D)
    requires Valid(t) && t.tableSize >= 1 && 4 * (t.numItems + 1) > 3 * t.tableSize
    ensures Put(t, key, data).Success?
    ensures var n := t.numItems + 1;
            var r := Put(t, key, data).value;
            && Valid(r) && r.numItems == n
            && r.slots[n - 1] == Some(Node(key, data))
            && (forall i :: 0 <= i < n - 1 ==> r.slots[i] == t.slots[i])
            && Entries(r.slots) == Entries(t.slots) + [Node(key, data)]
            && r.tableSize == 2 * n + 1 && |r.slots| == 2 * n + 1
            && r.numCollisions == t.numCollisions + (if HashString(key, n) == n - 1 then 0 else 1)
  {
    var n := t.numItems + 1;
    LoadAboveIff(n, t.tableSize);
    ResizeSpec(t.slots, n);
    var grown := Resize(t.slots, n).value;
    PackedEntries(t.slots, n - 1);
    PackedEntries(grown.slots, n - 1);
    var base := Table(grown.slots, n, t.numCollisions, grown.tableSize);
    assert Put(t, key, data) == Place(base, key, data);
    PlaceAppends(base, key, data);
    forall i | 0 <= i < n - 1
      ensures grown.slots[i] == t.slots[i]
    {
      assert Entries(grown.slots)[i] == Entries(t.slots)[i];
    }
  }

  /** `put` at or under the threshold: no resize, and it fails exactly when
      earlier removes have shortened the list below `n` slots. */
  lemma PutStaying<D>(t: Table<D>, key: string, data: D)
    requires Valid(t) && t.tableSize >= 1 && 4 * (t.numItems + 1) <= 3 * t.tableSize
    ensures var n := t.numItems + 1;
            && (Put(t, key, data).Success? <==> n <= |t.slots|)
            && (Put(t, key, data).Failure? ==> Put(t, key, data).error == IndexOutOfRange)
            && (Put(t, key, data).Success? ==>
                  var r := Put(t, key, data).value;
                  && Valid(r) && r.numItems == n
                  && r.slots[n - 1] == Some(Node(key, data))
                  && (forall i :: 0 <= i < n - 1 ==> r.slots[i] == t.slots[i])
                  && Entries(r.slots) == Entries(t.slots) + [Node(key, data)]
                  && r.tableSize == t.tableSize && |r.slots| == |t.slots|
                  && r.numCollisions == t.numCollisions + (if HashString(key, n) == n - 1 then 0 else 1))
  {
    var bumped := t.(numItems := t.numItems + 1);
    PutWithoutResize(t, key, data);
    PlaceSpec(bumped, key, data);
    if t.numItems + 1 <= |t.slots| {
      PlaceAppends(bumped, key, data);
    }
  }

  /** `put` on a valid table. It succeeds unless the list was shortened by
      earlier removes and no resize runs; it then appends `Node(key, data)` in
      slot `num_items - 1`, keeps every other entry where it was, counts a
      collision exactly when the hash misses that slot, and leaves the load
      factor at most 0.75. An existing key gets a duplicate, not an update. */
  lemma PutSpec<D>(t: Table<D>, key: string, data: D)
    requires Valid(t) && t.tableSize >= 1
    ensures var n := t.numItems + 1;
            var grow := 4 * n > 3 * t.tableSize;
            && (Put(t, key, data).Success? <==> grow || n <= |t.slots|)
            && (Put(t, key, data).Failure? ==> Put(t, key, data).error == IndexOutOfRange)
            && (Put(t, key, data).Success? ==>
                  var r := Put(t, key, data).value;
                  && Valid(r) && r.numItems == n
                  && r.slots[n - 1] == Some(Node(key, data))
                  && (forall i :: 0 <= i < n - 1 ==> r.slots[i] == t.slots[i])
                  && Entries(r.slots) == Entries(t.slots) + [Node(key, data)]
                  && r.tableSize == (if grow then 2 * n + 1 else t.tableSize)
                  && (grow ==> r.tableSize > t.tableSize)
                  && |r.slots| == (if grow then 2 * n + 1 else |t.slots|)
                  && r.numCollisions == t.numCollisions + (if HashString(key, n) == n - 1 then 0 else 1)
                  && 4 * n <= 3 * r.tableSize)
  {
    if 4 * (t.numItems + 1) > 3 * t.tableSize {
      PutGrowing(t, key, data);
    } else {
      PutStaying(t, key, data);
    }
  }

  /** A healthy table always accepts a `put` and stays healthy. */
  lemma PutHealthy<D>(t: Table<D>, key: string, data: D)
    requires Healthy(t)
    ensures Put(t, key, data).Success?
    ensures Healthy(Put(t, key, data).value)
    ensures Entries(Put(t, key, data).value.slots) == Entries(t.slots) + [Node(key, data)]
  {
    PutSpec(t, key, data);
    LoadAboveIff(t.numItems + 1, t.tableSize);
  }
}
