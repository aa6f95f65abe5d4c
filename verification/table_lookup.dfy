/** Lookups, removal and `__setitem__` of `HashTableLinear`, related to a
    plain list of entries in insertion order. */
module TableLookup {
  import opened Wrappers
  import opened Nodes
  import opened Hashing
  import opened LinearTable
  import opened TableFacts

  /** First-match lookup in a list of entries. */
  function Lookup<D>(es: seq<Entry<D>>, key: string): Option<D> {
    if |es| == 0 then None
    else if es[0].key == key then Some(es[0].data)
    else Lookup(es[1..], key)
  }

  /** The list with its first entry for `key` taken out. */
  function RemoveFirst<D>(es: seq<Entry<D>>, key: string): seq<Entry<D>> {
    if |es| == 0 then []
    else if es[0].key == key then es[1..]
    else [es[0]] + RemoveFirst(es[1..], key)
  }

  /** `get` returns the data of the first live entry for `key`, in slot order,
      whatever the shape of the table. */
  lemma {:induction false} GetIsLookup<D>(t: Table<D>, key: string)
    ensures Get(t, key) == Lookup(Entries(t.slots), key)
    decreases |t.slots|
  {
    if |t.slots| > 0 {
      var tail := t.(slots := t.slots[1..]);
      GetIsLookup(tail, key);
      var es := Entries(t.slots);
      if t.slots[0].Some? {
        assert es[0] == t.slots[0].value && es[1..] == Entries(tail.slots);
      } else {
        assert es == Entries(tail.slots);
      }
      if !Holds(t.slots[0], key) {
        assert Lookup(es, key) == Lookup(Entries(tail.slots), key);
        match Find(t.slots, key)
        case None =>
          assert Find(tail.slots, key).None?;
        case Some(i) =>
          assert Find(tail.slots, key) == Some(i - 1);
      }
    }
  }

  lemma {:induction false} LookupAppend<D>(es: seq<Entry<D>>, e: Entry<D>, key: string)
    ensures Lookup(es + [e], key) ==
            (if Lookup(es, key).Some? then Lookup(es, key)
             else if e.key == key then Some(e.data) else None)
    decreases |es|
  {
    if |es| > 0 {
      assert (es + [e])[1..] == es[1..] + [e];
      LookupAppend(es[1..], e, key);
    }
  }

  /** `put` on a valid table never changes what `get` returns for a key
      already present: the earlier entry shadows the new duplicate. */
  lemma PutNeverOverwrites<D>(t: Table<D>, key: string, data: D, other: string)
    requires Valid(t) && t.tableSize >= 1 && Put(t, key, data).Success?
    ensures Get(Put(t, key, data).value, other) ==
            (if Get(t, other).Some? then Get(t, other)
             else if key == other then Some(data) else None)
  {
    PutSpec(t, key, data);
    GetIsLookup(t, other);
    GetIsLookup(Put(t, key, data).value, other);
    LookupAppend(Entries(t.slots), Node(key, data), other);
  }

  lemma {:induction false} EntriesWithoutKey<D>(slots: seq<Slot<D>>, key: string)
    requires forall j :: 0 <= j < |slots| ==> !Holds(slots[j], key)
    ensures forall j :: 0 <= j < |Entries(slots)| ==> Entries(slots)[j].key != key
    decreases |slots|
  {
    if |slots| > 0 {
      EntriesWithoutKey(slots[1..], key);
    }
  }

  lemma {:induction false} RemoveFirstSplit<D>(a: seq<Entry<D>>, x: Entry<D>, b: seq<Entry<D>>, key: string)
    requires forall j :: 0 <= j < |a| ==> a[j].key != key
    requires x.key == key
    ensures RemoveFirst(a + [x] + b, key) == a + b
    ensures Lookup(a + [x] + b, key) == Some(x.data)
    decreases |a|
  {
    if |a| > 0 {
      assert (a + [x] + b)[1..] == a[1..] + [x] + b;
      RemoveFirstSplit(a[1..], x, b, key);
      assert a + b == [a[0]] + (a[1..] + b);
    }
  }

  /** `remove` on a valid table: it fails exactly when the key is absent;
      otherwise it pops the first entry for the key, returns that node, and
      the table stays valid with one entry fewer and the same `table_size`. */
  lemma RemoveSpec<D>(t: Table<D>, key: string)
    requires Valid(t)
    ensures Remove(t, key).Failure? <==> Get(t, key).None?
    ensures Remove(t, key).Success? ==>
              var (r, node) := Remove(t, key).value;
              && Valid(r) && r.numItems == t.numItems - 1
              && node.key == key && Get(t, key) == Some(node.data)
              && Entries(r.slots) == RemoveFirst(Entries(t.slots), key)
              && r.tableSize == t.tableSize && r.numCollisions == t.numCollisions
  {
    if Contains(t, key) {
      var i := Find(t.slots, key).value;
      var (r, node) := Remove(t, key).value;
      assert r.slots == t.slots[..i] + t.slots[i + 1..];
      assert t.slots == t.slots[..i] + [t.slots[i]] + t.slots[i + 1..];
      EntriesAppend(t.slots[..i] + [t.slots[i]], t.slots[i + 1..]);
      EntriesAppend(t.slots[..i], [t.slots[i]]);
      EntriesAppend(t.slots[..i], t.slots[i + 1..]);
      assert Entries([t.slots[i]]) == [t.slots[i].value];
      EntriesWithoutKey(t.slots[..i], key);
      RemoveFirstSplit(Entries(t.slots[..i]), t.slots[i].value, Entries(t.slots[i + 1..]), key);
      GetIsLookup(t, key);
      assert Packed(r.slots, r.numItems) by {
        forall j | 0 <= j < |r.slots|
          ensures r.slots[j].Some? <==> j < r.numItems
        {
          if j >= i {
            assert r.slots[j] == t.slots[j + 1];
          }
        }
      }
    }
  }

  /** A sequence of `put` and `remove` calls. */
  datatype Op<D> = PutOp(key: string, data: D) | RemoveOp(key: string)

  /** Running the calls in order; the first exception stops the run. */
  function Run<D>(t: Table<D>, ops: seq<Op<D>>): Result<Table<D>, TableError>
    requires Counted(t)
    decreases |ops|
  {
    if |ops| == 0 then Success(t)
    else
      match ops[0]
      case PutOp(k, d) =>
        (match Put(t, k, d)
         case Failure(e) => Failure(e)
         case Success(next) => Run(next, ops[1..]))
      case RemoveOp(k) =>
        (match Remove(t, k)
         case Failure(e) => Failure(e)
         case Success(pair) => Run(pair.0, ops[1..]))
  }

  /** The same calls on a plain list: `put` appends, `remove` takes out the
      first entry for its key and fails when there is none. */
  function Replay<D>(es: seq<Entry<D>>, ops: seq<Op<D>>): Option<seq<Entry<D>>>
    decreases |ops|
  {
    if |ops| == 0 then Some(es)
    else
      match ops[0]
      case PutOp(k, d) => Replay(es + [Node(k, d)], ops[1..])
      case RemoveOp(k) =>
        if Lookup(es, k).None? then None else Replay(RemoveFirst(es, k), ops[1..])
  }

  /** The insertion-order invariant: after any run of `put` and `remove` on a
      valid table, the live entries occupy exactly slots `[0, num_items)` and
      are the list `Replay` computes, i.e. insertion order minus removals.
      A remove-free run on a healthy table never fails. */
  lemma {:induction false} RunKeepsInsertionOrder<D>(t: Table<D>, ops: seq<Op<D>>)
    requires Valid(t) && t.tableSize >= 1
    ensures Run(t, ops).Success? ==>
              && Replay(Entries(t.slots), ops).Some?
              && Valid(Run(t, ops).value)
              && Entries(Run(t, ops).value.slots) == Replay(Entries(t.slots), ops).value
    ensures Replay(Entries(t.slots), ops).None? ==> Run(t, ops).Failure?
    ensures Healthy(t) && (forall j :: 0 <= j < |ops| ==> ops[j].PutOp?) ==>
              Run(t, ops).Success? && Healthy(Run(t, ops).value)
    decreases |ops|
  {
    if |ops| > 0 {
      var es := Entries(t.slots);
      match ops[0]
      case PutOp(k, d) =>
        PutSpec(t, k, d);
        LoadAboveIff(t.numItems + 1, t.tableSize);
        if Put(t, k, d).Success? {
          var next := Put(t, k, d).value;
          RunKeepsInsertionOrder(next, ops[1..]);
          if Healthy(t) && (forall j :: 0 <= j < |ops| ==> ops[j].PutOp?) {
            assert forall j :: 0 <= j < |ops[1..]| ==> ops[1..][j] == ops[j + 1];
          }
        }
      case RemoveOp(k) =>
        RemoveSpec(t, k);
        GetIsLookup(t, k);
        if Remove(t, k).Success? {
          RunKeepsInsertionOrder(Remove(t, k).value.0, ops[1..]);
        }
    }
  }

  /** From a fresh table: entries are the replayed list, and `get` finds the
      earliest inserted entry that is still present. */
  lemma FreshRunOrder<D>(size: nat, ops: seq<Op<D>>, key: string)
    requires size >= 1
    ensures Run(Empty<D>(size), ops).Success? ==>
              && Replay([], ops).Some?
              && Valid(Run(Empty<D>(size), ops).value)
              && Entries(Run(Empty<D>(size), ops).value.slots) == Replay([], ops).value
              && Get(Run(Empty<D>(size), ops).value, key) == Lookup(Replay([], ops).value, key)
  {
    RunKeepsInsertionOrder(Empty<D>(size), ops);
    if Run(Empty<D>(size), ops).Success? {
      GetIsLookup(Run(Empty<D>(size), ops).value, key);
    }
  }

  /** Python's in-place change of the object `get(key)` returned: the data in
      the first slot holding `key` is replaced. */
  function UpdateFirst<D>(t: Table<D>, key: string, d: D): (r: Table<D>)
    ensures r.numItems == t.numItems && r.numCollisions == t.numCollisions
    ensures r.tableSize == t.tableSize && |r.slots| == |t.slots|
    ensures forall j :: 0 <= j < |t.slots| ==> (r.slots[j].Some? <==> t.slots[j].Some?)
  {
    match Find(t.slots, key)
    case None => t
    case Some(p) => t.(slots := t.slots[p := Some(Node(key, d))])
  }

  lemma EntriesUpdateAt<D>(slots: seq<Slot<D>>, p: nat, e: Entry<D>)
    requires p < |slots| && slots[p].Some?
    ensures |Entries(slots[p := Some(e)])| == |Entries(slots)|
  {
    assert slots == slots[..p] + [slots[p]] + slots[p + 1..];
    assert slots[p := Some(e)] == slots[..p] + [Some(e)] + slots[p + 1..];
    EntriesAppend(slots[..p] + [slots[p]], slots[p + 1..]);
    EntriesAppend(slots[..p], [slots[p]]);
    EntriesAppend(slots[..p] + [Some(e)], slots[p + 1..]);
    EntriesAppend(slots[..p], [Some(e)]);
    assert Entries([slots[p]]) == [slots[p].value];
    assert Entries([Some(e)]) == [e];
  }

  /** After `UpdateFirst`, `get(key)` sees the new data and every other key
      reads as before; a healthy table stays healthy. */
  lemma UpdateFirstSpec<D>(t: Table<D>, key: string, d: D, other: string)
    ensures Get(UpdateFirst(t, key, d), other) ==
            (if other == key && Get(t, key).Some? then Some(d) else Get(t, other))
    ensures Healthy(t) ==> Healthy(UpdateFirst(t, key, d))
  {
    var r := UpdateFirst(t, key, d);
    match Find(t.slots, key)
    case None =>
    case Some(p) =>
      assert forall j :: 0 <= j < |t.slots| ==> (Holds(r.slots[j], other) <==> Holds(t.slots[j], other));
      if Healthy(t) {
        EntriesUpdateAt(t.slots, p, Node(key, d));
      }
  }

  /** No key occurs in two live slots. */
  ghost predicate UniqueKeys<D>(t: Table<D>) {
    forall i, j :: 0 <= i < j < |t.slots| && t.slots[i].Some? && t.slots[j].Some? ==>
      t.slots[i].value.key != t.slots[j].value.key
  }

  /** `put` of a key that is absent keeps the keys unique. */
  lemma PutAbsentKeepsUnique<D>(t: Table<D>, key: string, data: D)
    requires Healthy(t) && UniqueKeys(t) && Get(t, key).None?
    ensures Put(t, key, data).Success? && UniqueKeys(Put(t, key, data).value)
  {
    PutSpec(t, key, data);
    LoadAboveIff(t.numItems + 1, t.tableSize);
  }

  lemma UpdateFirstKeepsUnique<D>(t: Table<D>, key: string, d: D)
    requires UniqueKeys(t)
    ensures UniqueKeys(UpdateFirst(t, key, d))
  {
  }

  /** With a single slot holding `key`, `table[key] = d` updates that slot,
      just as mutating the object `get(key)` returns would. */
  lemma SetItemUnique<D>(t: Table<D>, key: string, d: D)
    requires UniqueKeys(t) && Get(t, key).Some?
    ensures SetItem(t, key, d) == Success(UpdateFirst(t, key, d))
  {
    var p := Find(t.slots, key).value;
    var last := FindLast(t.slots, key).value;
    assert last == p;
  }

  /** With two entries for one key holding different data, `table[key] = d`
      updates the LAST of them while `get` keeps returning the FIRST, so the
      assignment is invisible to `get`. */
  lemma SetItemMissesFirstDuplicate<D>(t: Table<D>, key: string, a: D, b: D, d: D)
    requires |t.slots| >= 2 && a != b
    requires t.slots[0] == Some(Node(key, a)) && t.slots[1] == Some(Node(key, b))
    requires forall j :: 2 <= j < |t.slots| ==> t.slots[j].None?
    ensures SetItem(t, key, d).Success?
    ensures SetItem(t, key, d).value.slots == t.slots[1 := Some(Node(key, d))]
    ensures Get(SetItem(t, key, d).value, key) == Some(a)
  {
    assert FindLast(t.slots, key) == Some(1);
    assert !SlotEquals(t.slots[0], t.slots[1].value);
    assert IndexFrom(t.slots, 1, 0) == 1;
  }
}
