/** `HashTableLinear` of hashtables.py: open addressing with linear probing
    over a Python list of slots, each `None` or a `Node(key, data)`.

    The model keeps the source's quirks: the hash and the probe step are
    reduced modulo the item count (not the table size), `put` never looks for
    an existing key, and `remove` pops the slot out of the list so that the
    list gets shorter while `table_size` stays put. Every operation is a total
    function; where Python raises or never returns, the result is a
    `Failure`. */
module LinearTable {
  import opened Wrappers
  import opened Nodes
  import opened Hashing

  type Entry<D> = Node<string, D>
  type Slot<D> = Option<Entry<D>>

  /** `hash_table`, `num_items`, `num_collisions` and `table_size`. */
  datatype Table<D> = Table(slots: seq<Slot<D>>, numItems: nat, numCollisions: nat, tableSize: nat)

  datatype TableError =
    | ZeroDivision     // `load_factor` divides by a table size of 0
    | IndexOutOfRange  // a probe reads past the end of the slot list (IndexError)
    | ProbeNeverEnds   // every probed slot is occupied: the `while` loop spins forever
    | KeyNotFound      // `remove` of an absent key (LookupError)
    | IndexUnbound     // `__setitem__` of an absent key: `ind` is never assigned
    | NoNodeAtIndex    // `__setitem__` finds `None` at the chosen index (ValueError)

  /** The live entries of a slot list, in slot order. */
  function Entries<D>(slots: seq<Slot<D>>): (es: seq<Entry<D>>)
    ensures |es| <= |slots|
  {
    if |slots| == 0 then []
    else (if slots[0].Some? then [slots[0].value] else []) + Entries(slots[1..])
  }

  /** The live entries are exactly the nodes held by some slot. */
  lemma {:induction false} EntriesMembers<D>(slots: seq<Slot<D>>)
    ensures forall k :: 0 <= k < |Entries(slots)| ==> Some(Entries(slots)[k]) in slots
    ensures forall i :: 0 <= i < |slots| && slots[i].Some? ==> slots[i].value in Entries(slots)
    decreases |slots|
  {
    if |slots| > 0 {
      EntriesMembers(slots[1..]);
      var head := if slots[0].Some? then [slots[0].value] else [];
      var rest := Entries(slots[1..]);
      assert Entries(slots) == head + rest;
      forall k | 0 <= k < |head + rest|
        ensures Some((head + rest)[k]) in slots
      {
        if k >= |head| {
          assert (head + rest)[k] == rest[k - |head|];
          assert Some(rest[k - |head|]) in slots[1..];
        }
      }
      forall i | 0 <= i < |slots| && slots[i].Some?
        ensures slots[i].value in head + rest
      {
        if i > 0 {
          assert slots[1..][i - 1] == slots[i];
        }
      }
    }
  }

  /** `num_items` counts the live entries, as the class documents it. */
  ghost predicate Counted<D>(t: Table<D>) {
    t.numItems == |Entries(t.slots)|
  }

  lemma {:induction false} EntriesOfNones<D>(slots: seq<Slot<D>>)
    requires forall i :: 0 <= i < |slots| ==> slots[i].None?
    ensures Entries(slots) == []
    decreases |slots|
  {
    if |slots| > 0 {
      EntriesOfNones(slots[1..]);
    }
  }

  lemma {:induction false} EntriesAppend<D>(a: seq<Slot<D>>, b: seq<Slot<D>>)
    ensures Entries(a + b) == Entries(a) + Entries(b)
    decreases |a|
  {
    if |a| > 0 {
      assert (a + b)[0] == a[0];
      assert (a + b)[1..] == a[1..] + b;
      EntriesAppend(a[1..], b);
      assert Entries(a) == (if a[0].Some? then [a[0].value] else []) + Entries(a[1..]);
    } else {
      assert a + b == b;
    }
  }

  /** Writing an entry into an empty slot adds exactly one live entry. */
  lemma EntriesFill<D>(slots: seq<Slot<D>>, i: nat, e: Entry<D>)
    requires i < |slots| && slots[i].None?
    ensures |Entries(slots[i := Some(e)])| == |Entries(slots)| + 1
  {
    var filled := slots[i := Some(e)];
    assert slots == slots[..i] + [slots[i]] + slots[i + 1..];
    assert filled == slots[..i] + [Some(e)] + slots[i + 1..];
    EntriesAppend(slots[..i] + [slots[i]], slots[i + 1..]);
    EntriesAppend(slots[..i], [slots[i]]);
    EntriesAppend(slots[..i] + [Some(e)], slots[i + 1..]);
    EntriesAppend(slots[..i], [Some(e)]);
    assert Entries([slots[i]]) == [];
    assert Entries([Some(e)]) == [e];
  }

  /** `HashTableLinear(table_size)`. */
  function Empty<D>(size: nat): (t: Table<D>)
    ensures |t.slots| == size && Entries(t.slots) == []
    ensures forall i :: 0 <= i < size ==> t.slots[i].None?
    ensures t.numItems == 0 && t.numCollisions == 0 && t.tableSize == size
  {
    var slots: seq<Slot<D>> := seq(size, _ => None);
    EntriesOfNones(slots);
    Table(slots, 0, 0, size)
  }

  /** The outcome of the probe loop of `put`. */
  datatype Probe = Free(index: nat) | OutOfRange | Cycles

  /** Probing slots `index, index + 1, ...` modulo `n`. With `fuel = n - 1`
      every residue is visited once: if all of them are occupied (and in
      range), Python's loop never stops. */
  function ProbeFrom<D>(slots: seq<Slot<D>>, n: nat, index: nat, fuel: nat): (p: Probe)
    requires index < n
    ensures p.Free? ==> p.index < n && p.index < |slots| && slots[p.index].None?
    ensures p.Free? ==> index < |slots| && (p.index == index <==> slots[index].None?)
    decreases fuel
  {
    if index >= |slots| then OutOfRange
    else if slots[index].None? then Free(index)
    else if fuel == 0 then Cycles
    else ProbeFrom(slots, n, (index + 1) % n, fuel - 1)
  }

  /** `load_factor() > .75` with the incremented item count. */
  predicate LoadAbove(items: nat, size: nat)
    requires size > 0
  {
    items as real / size as real > 0.75
  }

  /** The second half of `put`: hash modulo the (already incremented) item
      count and write a new node into the first free slot of the probe. */
  function Place<D>(t: Table<D>, key: string, data: D): (r: Result<Table<D>, TableError>)
    requires t.numItems >= 1
    ensures r.Success? ==> |Entries(r.value.slots)| == |Entries(t.slots)| + 1
    ensures r.Success? ==> r.value.numItems == t.numItems && r.value.tableSize == t.tableSize
    ensures r.Success? ==> |r.value.slots| == |t.slots|
  {
    var n := t.numItems;
    var h := HashString(key, n);
    match ProbeFrom(t.slots, n, h, n - 1)
    case OutOfRange => Failure(IndexOutOfRange)
    case Cycles => Failure(ProbeNeverEnds)
    case Free(i) =>
      EntriesFill(t.slots, i, Node(key, data));
      var collisions := if t.slots[h].None? then t.numCollisions else t.numCollisions + 1;
      Success(Table(t.slots[i := Some(Node(key, data))], n, collisions, t.tableSize))
  }

  /** `put(key, data)`: count the item, grow the table if the load factor
      exceeds 0.75, then place the node. An existing key is not looked for. */
  function Put<D>(t: Table<D>, key: string, data: D): (r: Result<Table<D>, TableError>)
    ensures r.Success? ==> |Entries(r.value.slots)| == |Entries(t.slots)| + 1
    ensures r.Success? ==> r.value.numItems == t.numItems + 1
    decreases |Entries(t.slots)|, 2, 0
  {
    var n := t.numItems + 1;
    if t.tableSize == 0 then Failure(ZeroDivision)
    else if LoadAbove(n, t.tableSize) then
      match Resize(t.slots, n)
      case Failure(e) => Failure(e)
      case Success(grown) => Place(Table(grown.slots, n, t.numCollisions, grown.tableSize), key, data)
    else Place(t.(numItems := n), key, data)
  }

  /** `resize()`: a fresh table of size `2 * n + 1` receiving a `put` of every
      live entry, in slot order. Only its slots and size are kept by `put`. */
  function Resize<D>(slots: seq<Slot<D>>, n: nat): (r: Result<Table<D>, TableError>)
    ensures r.Success? ==> |Entries(r.value.slots)| == |Entries(slots)|
    decreases |Entries(slots)|, 1, 0
  {
    Reinsert(Empty(2 * n + 1), Entries(slots))
  }

  /** The loop of `resize`: `put` each entry of `es` into `dst` in turn. */
  function Reinsert<D>(dst: Table<D>, es: seq<Entry<D>>): (r: Result<Table<D>, TableError>)
    ensures r.Success? ==> |Entries(r.value.slots)| == |Entries(dst.slots)| + |es|
    decreases |Entries(dst.slots)| + |es|, 0, |es|
  {
    if |es| == 0 then Success(dst)
    else
      match Put(dst, es[0].key, es[0].data)
      case Failure(e) => Failure(e)
      case Success(next) => Reinsert(next, es[1..])
  }

  /** The test `i and i.key == key` of the lookup loops. */
  predicate Holds<D>(slot: Slot<D>, key: string) {
    slot.Some? && slot.value.key == key
  }

  /** The index of the first slot holding `key`. */
  function Find<D>(slots: seq<Slot<D>>, key: string): (r: Option<nat>)
    ensures r.Some? ==> r.value < |slots| && Holds(slots[r.value], key)
    ensures r.Some? ==> forall j :: 0 <= j < r.value ==> !Holds(slots[j], key)
    ensures r.None? ==> forall j :: 0 <= j < |slots| ==> !Holds(slots[j], key)
  {
    if |slots| == 0 then None
    else if Holds(slots[0], key) then Some(0)
    else
      match Find(slots[1..], key)
      case None => None
      case Some(i) => Some(i + 1)
  }

  /** `get(key)`: the data of the first slot holding `key`, or `None`. */
  function Get<D>(t: Table<D>, key: string): (r: Option<D>)
    ensures r.Some? <==> exists j :: 0 <= j < |t.slots| && Holds(t.slots[j], key)
    ensures r.Some? ==> exists j :: 0 <= j < |t.slots| && t.slots[j] == Some(Node(key, r.value))
  {
    match Find(t.slots, key)
    case None => None
    case Some(i) => Some(t.slots[i].value.data)
  }

  /** The `found` flag of `contains`, which scans every slot. */
  function AnyHolds<D>(slots: seq<Slot<D>>, key: string): (found: bool)
    ensures found <==> exists j :: 0 <= j < |slots| && Holds(slots[j], key)
  {
    if |slots| == 0 then false
    else
      var rest := AnyHolds(slots[1..], key);
      assert forall j :: 1 <= j < |slots| ==> slots[j] == slots[1..][j - 1];
      if Holds(slots[0], key) then true else rest
  }

  /** `contains(key)` (also `key in table`). */
  function Contains<D>(t: Table<D>, key: string): (found: bool)
    ensures found <==> Get(t, key).Some?
  {
    AnyHolds(t.slots, key)
  }

  /** `remove(key)`: raise if absent, else pop the first slot holding `key`
      (later slots move down one place) and return its node. */
  function Remove<D>(t: Table<D>, key: string): (r: Result<(Table<D>, Entry<D>), TableError>)
    requires Counted(t)
    ensures r.Failure? <==> !Contains(t, key)
    ensures r.Failure? ==> r.error == KeyNotFound
    ensures r.Success? ==> r.value.1.key == key && Counted(r.value.0)
    ensures r.Success? ==> r.value.0.tableSize == t.tableSize && |r.value.0.slots| == |t.slots| - 1
  {
    if !Contains(t, key) then Failure(KeyNotFound)
    else
      var i := Find(t.slots, key).value;
      var rest := t.slots[..i] + t.slots[i + 1..];
      assert t.slots == t.slots[..i] + [t.slots[i]] + t.slots[i + 1..];
      EntriesAppend(t.slots[..i] + [t.slots[i]], t.slots[i + 1..]);
      EntriesAppend(t.slots[..i], [t.slots[i]]);
      EntriesAppend(t.slots[..i], t.slots[i + 1..]);
      assert Entries([t.slots[i]]) == [t.slots[i].value];
      Success((Table(rest, t.numItems - 1, t.numCollisions, t.tableSize), t.slots[i].value))
  }

  /** An entry as Python's `Node.__eq__` sees it: key and data are never `None`. */
  function Lift<D>(e: Entry<D>): PyNode<string, D> {
    Node(Some(e.key), Some(e.data))
  }

  /** `slot == target` as `list.index` evaluates it. For a `None` slot,
      `NoneType.__eq__` declines and Python falls back to `target.__eq__(None)`. */
  predicate SlotEquals<D(==)>(slot: Slot<D>, target: Entry<D>) {
    match slot
    case None => Truthy(NodeEq(Lift(target), NoneOperand))
    case Some(n) => Truthy(NodeEq(Lift(n), NodeOperand(Lift(target))))
  }

  /** The index of the last slot holding `key`: the loop of `__setitem__`
      reassigns `ind` on every match. */
  function FindLast<D>(slots: seq<Slot<D>>, key: string): (r: Option<nat>)
    ensures r.Some? ==> r.value < |slots| && Holds(slots[r.value], key)
    ensures r.Some? ==> forall j :: r.value < j < |slots| ==> !Holds(slots[j], key)
    ensures r.None? ==> forall j :: 0 <= j < |slots| ==> !Holds(slots[j], key)
    decreases |slots|
  {
    if |slots| == 0 then None
    else if Holds(slots[|slots| - 1], key) then Some(|slots| - 1)
    else FindLast(slots[..|slots| - 1], key)
  }

  /** `list.index(x)` where `x` is the node at `pos`: the first slot that is
      `x` itself (the node at `pos`) or compares equal to it. */
  function IndexFrom<D(==)>(slots: seq<Slot<D>>, pos: nat, i: nat): (ind: nat)
    requires i <= pos < |slots| && slots[pos].Some?
    ensures i <= ind <= pos
    ensures ind == pos || SlotEquals(slots[ind], slots[pos].value)
    ensures forall j :: i <= j < ind ==> !SlotEquals(slots[j], slots[pos].value)
    decreases pos - i
  {
    if i == pos || SlotEquals(slots[i], slots[pos].value) then i
    else IndexFrom(slots, pos, i + 1)
  }

  /** `table[key] = data`: find the last slot holding `key`, look its node up
      again with `list.index`, and overwrite the data of the node there. */
  function SetItem<D(==)>(t: Table<D>, key: string, data: D): (r: Result<Table<D>, TableError>)
    ensures r.Failure? <==> !Contains(t, key)
    ensures r.Failure? ==> r.error == IndexUnbound
    ensures r.Success? ==> r.value.numItems == t.numItems && r.value.numCollisions == t.numCollisions
    ensures r.Success? ==> r.value.tableSize == t.tableSize && |r.value.slots| == |t.slots|
    ensures r.Success? ==> (exists p :: 0 <= p < |t.slots| && Holds(t.slots[p], key) &&
                                        r.value.slots == t.slots[p := Some(Node(key, data))])
  {
    match FindLast(t.slots, key)
    case None => Failure(IndexUnbound)
    case Some(last) =>
      var ind := IndexFrom(t.slots, last, 0);
      if t.slots[ind].Some? then
        Success(t.(slots := t.slots[ind := Some(SetData(t.slots[ind].value, data))]))
      else Failure(NoNodeAtIndex)
  }

  /** `load_factor()`. */
  function LoadFactor<D>(t: Table<D>): (r: Result<real, TableError>)
    ensures r.Failure? <==> t.tableSize == 0
    ensures r.Success? ==> r.value * t.tableSize as real == t.numItems as real
  {
    if t.tableSize == 0 then Failure(ZeroDivision)
    else Success(t.numItems as real / t.tableSize as real)
  }

  /** `collisions()`. */
  function Collisions<D>(t: Table<D>): nat {
    t.numCollisions
  }

  /** `size()` and `len(table)`. */
  function Size<D>(t: Table<D>): nat {
    t.numItems
  }
}
