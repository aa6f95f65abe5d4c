/** The indexing half of `SearchEngine` (project4.py): `count_words` and the
    walk of `index_files`, building `term_freqs` (a table from each word to a
    table from file name to count) and `doc_freqs` (file name to word count). */
module Index {
  import opened Wrappers
  import opened Nodes
  import opened LinearTable
  import opened TableFacts
  import opened TableLookup
  import opened Text

  /** An inner table of `term_freqs`: file name to number of occurrences. */
  type Counts = Table<int>

  /** The engine's state. The `doc_length` table is never written and is not
      part of the model. */
  datatype Engine = Engine(termFreqs: Table<Counts>, docFreqs: Table<int>, directory: string, stop: set<string>)

  /** What can go wrong in the engine's own code, beyond a table failure:
      an operation on `None` (TypeError/AttributeError), a query word with no
      entry (the `ValueError` of `get_scores`), a division by a zero word
      count (ZeroDivisionError). */
  datatype EngineError = TableFailed(cause: TableError) | NoneValue | UnknownTerm | ZeroLength

  function FromTable<T>(r: Result<T, TableError>): (q: Result<T, EngineError>)
    ensures q.Success? <==> r.Success?
    ensures r.Success? ==> q.value == r.value
  {
    match r
    case Success(v) => Success(v)
    case Failure(e) => Failure(TableFailed(e))
  }

  /** A fresh `HashTableLinear()`. */
  function NewCounts(): Counts {
    Empty(2)
  }

  /** `term_freqs[w][f]` when `w` is a key: `get` on the outer table, then
      `get` on the inner table it returns. */
  function Freq(tf: Table<Counts>, w: string, f: string): Option<int> {
    match Get(tf, w)
    case None => None
    case Some(inner) => Get(inner, f)
  }

  /** Occurrences of `w` in `ws`. */
  function Count(ws: seq<string>, w: string): nat {
    multiset(ws)[w]
  }

  // ---------------------------------------------------------------------
  // count_words

  /** The first loop: a fresh inner table is put for every word occurrence,
      duplicates included. */
  function AddTerms(tf: Table<Counts>, words: seq<string>): Result<Table<Counts>, TableError>
    decreases |words|
  {
    if |words| == 0 then Success(tf)
    else
      var next :- Put(tf, words[0], NewCounts());
      AddTerms(next, words[1..])
  }

  /** One pass of the second loop. The inner table `term_freqs[w]` is changed
      in place, which the outer table sees at the first slot holding `w`. */
  function CountOne(tf: Table<Counts>, f: string, w: string): Result<Table<Counts>, EngineError> {
    if Contains(tf, w) && Contains(Get(tf, w).value, f) then
      var inner := Get(tf, w).value;
      var n := Get(inner, f).value;
      var updated :- FromTable(SetItem(inner, f, n + 1));
      Success(UpdateFirst(tf, w, updated))
    else if w != "" && Contains(tf, w) then
      var updated :- FromTable(Put(Get(tf, w).value, f, 1));
      Success(UpdateFirst(tf, w, updated))
    else if w != "" then
      var next :- FromTable(Put(tf, w, NewCounts()));
      match Get(next, w)
      case None => Failure(NoneValue)
      case Some(inner) =>
        var updated :- FromTable(Put(inner, f, 1));
        Success(UpdateFirst(next, w, updated))
    else Success(tf)
  }

  /** The second loop. */
  function CountAll(tf: Table<Counts>, f: string, words: seq<string>): Result<Table<Counts>, EngineError>
    decreases |words|
  {
    if |words| == 0 then Success(tf)
    else
      var next :- CountOne(tf, f, words[0]);
      CountAll(next, f, words[1..])
  }

  /** `count_words(filename, words)`. */
  function CountWords(e: Engine, f: string, words: seq<string>): Result<Engine, EngineError> {
    var tf :- FromTable(AddTerms(e.termFreqs, words));
    var df :- FromTable(Put(e.docFreqs, f, 0));
    var counted :- CountAll(tf, f, words);
    var lengths :- FromTable(SetItem(df, f, |words|));
    Success(e.(termFreqs := counted, docFreqs := lengths))
  }

  /** `".txt" in name`. */
  predicate IsTxt(name: string) {
    exists i :: 0 <= i && i + 4 <= |name| &&
      name[i] == '.' && name[i + 1] == 't' && name[i + 2] == 'x' && name[i + 3] == 't'
  }

  /** `index_files`, given the directory listing as (name, lines) pairs in
      listing order. */
  function IndexFiles(e: Engine, files: seq<(string, seq<string>)>): Result<Engine, EngineError>
    decreases |files|
  {
    if |files| == 0 then Success(e)
    else if IsTxt(files[0].0) then
      var next :- CountWords(e, files[0].0, ParseWords(files[0].1, e.stop));
      IndexFiles(next, files[1..])
    else IndexFiles(e, files[1..])
  }

  /** `SearchEngine(directory, stopwords)`: empty tables, then `index_files`. */
  function NewEngine(directory: string, stop: set<string>, files: seq<(string, seq<string>)>): Result<Engine, EngineError> {
    IndexFiles(Engine(Empty(2), Empty(2), directory, stop), files)
  }

  // ---------------------------------------------------------------------
  // The invariant of a reachable engine

  ghost predicate GoodCounts(c: Counts) {
    Healthy(c) && UniqueKeys(c)
  }

  /** `term_freqs` is remove-free and every inner table is remove-free with
      one slot per file. */
  ghost predicate Inv(tf: Table<Counts>) {
    && Healthy(tf)
    && forall j :: 0 <= j < |tf.slots| && tf.slots[j].Some? ==> GoodCounts(tf.slots[j].value.data)
  }

  /** The tables are well formed, each file has one `doc_freqs` slot, every
      file counted in `term_freqs` has a positive `doc_freqs` entry, and the
      empty word counts nowhere. */
  ghost predicate EngineInv(e: Engine) {
    && Inv(e.termFreqs)
    && Healthy(e.docFreqs) && UniqueKeys(e.docFreqs)
    && (forall w, f :: Freq(e.termFreqs, w, f).Some? ==> Get(e.docFreqs, f).Some? && Get(e.docFreqs, f).value > 0)
    && (forall f :: Freq(e.termFreqs, "", f).None?)
  }

  lemma GetEmpty<D>(size: nat, key: string)
    ensures Get(Empty<D>(size), key).None?
  {
    GetIsLookup(Empty<D>(size), key);
  }

  lemma GetGood(tf: Table<Counts>, w: string)
    requires Inv(tf) && Get(tf, w).Some?
    ensures GoodCounts(Get(tf, w).value)
  {
  }

  /** After a `put` on a healthy table, every live slot is an old slot at
      the same index or the new node. */
  lemma PutSlots<D>(t: Table<D>, key: string, data: D)
    requires Healthy(t)
    ensures Put(t, key, data).Success?
    ensures var r := Put(t, key, data).value;
            forall j :: 0 <= j < |r.slots| && r.slots[j].Some? ==>
              r.slots[j] == Some(Node(key, data)) || (j < |t.slots| && r.slots[j] == t.slots[j])
  {
    PutHealthy(t, key, data);
    var r := Put(t, key, data).value;
    PackedEntries(t.slots, t.numItems);
    PackedEntries(r.slots, r.numItems);
    forall j | 0 <= j < |r.slots| && r.slots[j].Some?
      ensures r.slots[j] == Some(Node(key, data)) || (j < |t.slots| && r.slots[j] == t.slots[j])
    {
      assert r.slots[j].value == (Entries(t.slots) + [Node(key, data)])[j];
    }
  }

  lemma UpdateFirstInv(tf: Table<Counts>, w: string, c: Counts)
    requires Inv(tf) && GoodCounts(c)
    ensures Inv(UpdateFirst(tf, w, c))
  {
    UpdateFirstSpec(tf, w, c, w);
  }

  /** Putting a fresh inner table keeps the invariant, adds the key and
      changes no count: an existing key shadows the duplicate, and a new key
      maps to an empty table. */
  lemma PutTermSpec(tf: Table<Counts>, w: string)
    requires Inv(tf)
    ensures Put(tf, w, NewCounts()).Success?
    ensures Inv(Put(tf, w, NewCounts()).value)
    ensures Contains(Put(tf, w, NewCounts()).value, w)
    ensures forall v :: Contains(tf, v) ==> Contains(Put(tf, w, NewCounts()).value, v)
    ensures forall v, g :: Freq(Put(tf, w, NewCounts()).value, v, g) == Freq(tf, v, g)
  {
    PutSlots(tf, w, NewCounts());
    PutHealthy(tf, w, NewCounts());
    EmptyHealthy<int>(2);
    var r := Put(tf, w, NewCounts()).value;
    forall v
      ensures Get(r, v) == (if Get(tf, v).Some? then Get(tf, v) else if w == v then Some(NewCounts()) else None)
    {
      PutNeverOverwrites(tf, w, NewCounts(), v);
    }
    forall v, g
      ensures Freq(r, v, g) == Freq(tf, v, g)
    {
      if Get(tf, v).None? && v == w {
        GetEmpty<int>(2, g);
      }
    }
  }

  /** The first loop keeps the invariant and every count, and leaves every
      word of the file a key of `term_freqs`. */
  lemma {:induction false} AddTermsSpec(tf: Table<Counts>, words: seq<string>)
    requires Inv(tf)
    ensures AddTerms(tf, words).Success?
    ensures Inv(AddTerms(tf, words).value)
    ensures forall v :: v in words || Contains(tf, v) ==> Contains(AddTerms(tf, words).value, v)
    ensures forall v, g :: Freq(AddTerms(tf, words).value, v, g) == Freq(tf, v, g)
    decreases |words|
  {
    if |words| > 0 {
      PutTermSpec(tf, words[0]);
      var next := Put(tf, words[0], NewCounts()).value;
      AddTermsSpec(next, words[1..]);
      assert forall v :: v in words ==> v == words[0] || v in words[1..];
    }
  }

  /** One more occurrence on top of a count that may be missing. */
  function Bump(o: Option<int>): int {
    if o.None? then 1 else o.value + 1
  }

  /** What `get` sees after the object stored under `w` is replaced. */
  lemma FreqAfterUpdate(tf: Table<Counts>, w: string, c: Counts, v: string, g: string)
    ensures Freq(UpdateFirst(tf, w, c), v, g) ==
            (if v == w && Get(tf, w).Some? then Get(c, g) else Freq(tf, v, g))
  {
    UpdateFirstSpec(tf, w, c, v);
  }

  lemma ContainsAfterUpdate(tf: Table<Counts>, w: string, c: Counts, v: string)
    ensures Contains(UpdateFirst(tf, w, c), v) == Contains(tf, v)
  {
    UpdateFirstSpec(tf, w, c, v);
  }

  /** The first branch: the file is already in the inner table. */
  lemma CountOneSeen(tf: Table<Counts>, f: string, w: string)
    requires Inv(tf) && Get(tf, w).Some? && Get(Get(tf, w).value, f).Some?
    ensures CountOne(tf, f, w) == Success(UpdateFirst(tf, w, UpdateFirst(Get(tf, w).value, f, Get(Get(tf, w).value, f).value + 1)))
  {
    var inner := Get(tf, w).value;
    var n := Get(inner, f).value;
    GetGood(tf, w);
    SetItemUnique(inner, f, n + 1);
  }

  /** The second branch: a known word seen for the first time in this file. */
  lemma CountOneNew(tf: Table<Counts>, f: string, w: string)
    requires Inv(tf) && w != "" && Get(tf, w).Some? && Get(Get(tf, w).value, f).None?
    ensures Put(Get(tf, w).value, f, 1).Success?
    ensures CountOne(tf, f, w) == Success(UpdateFirst(tf, w, Put(Get(tf, w).value, f, 1).value))
  {
    GetGood(tf, w);
    PutHealthy(Get(tf, w).value, f, 1);
  }

  /** Both live branches replace the inner table of `w` by a well-formed
      table `c` in which the file's count has gone up by one. */
  lemma CountOneShape(tf: Table<Counts>, f: string, w: string) returns (c: Counts)
    requires Inv(tf) && Get(tf, w).Some?
    requires w != "" || Get(Get(tf, w).value, f).Some?
    ensures CountOne(tf, f, w) == Success(UpdateFirst(tf, w, c))
    ensures GoodCounts(c)
    ensures forall g :: Get(c, g) ==
              (if g == f then Some(Bump(Get(Get(tf, w).value, f))) else Get(Get(tf, w).value, g))
  {
    if Get(Get(tf, w).value, f).Some? {
      c := SeenShape(tf, f, w);
    } else {
      c := NewShape(tf, f, w);
    }
  }

  lemma SeenShape(tf: Table<Counts>, f: string, w: string) returns (c: Counts)
    requires Inv(tf) && Get(tf, w).Some? && Get(Get(tf, w).value, f).Some?
    ensures CountOne(tf, f, w) == Success(UpdateFirst(tf, w, c))
    ensures GoodCounts(c)
    ensures forall g :: Get(c, g) ==
              (if g == f then Some(Get(Get(tf, w).value, f).value + 1) else Get(Get(tf, w).value, g))
  {
    var inner := Get(tf, w).value;
    GetGood(tf, w);
    var n := Get(inner, f).value;
    CountOneSeen(tf, f, w);
    c := UpdateFirst(inner, f, n + 1);
    UpdateFirstSpec(inner, f, n + 1, f);
    UpdateFirstKeepsUnique(inner, f, n + 1);
    forall g
      ensures Get(c, g) == (if g == f then Some(n + 1) else Get(inner, g))
    {
      UpdateFirstSpec(inner, f, n + 1, g);
    }
  }

  lemma NewShape(tf: Table<Counts>, f: string, w: string) returns (c: Counts)
    requires Inv(tf) && w != "" && Get(tf, w).Some? && Get(Get(tf, w).value, f).None?
    ensures CountOne(tf, f, w) == Success(UpdateFirst(tf, w, c))
    ensures GoodCounts(c)
    ensures forall g :: Get(c, g) == (if g == f then Some(1) else Get(Get(tf, w).value, g))
  {
    var inner := Get(tf, w).value;
    GetGood(tf, w);
    CountOneNew(tf, f, w);
    GetAfterPutAbsent(inner, f, 1);
    c := Put(inner, f, 1).value;
  }

  /** One pass of the second loop on a word that is a key: the count of
      (w, f) goes up by one unless `w` is empty, every other count and the
      key set stay as they were. */
  lemma CountOneSpec(tf: Table<Counts>, f: string, w: string)
    requires Inv(tf) && Contains(tf, w)
    ensures CountOne(tf, f, w).Success?
    ensures Inv(CountOne(tf, f, w).value)
    ensures forall v :: Contains(CountOne(tf, f, w).value, v) <==> Contains(tf, v)
    ensures forall v, g :: Freq(CountOne(tf, f, w).value, v, g) ==
              (if v == w && g == f && (w != "" || Freq(tf, w, f).Some?) then Some(Bump(Freq(tf, w, f)))
               else Freq(tf, v, g))
  {
    var inner := Get(tf, w).value;
    if w == "" && Get(inner, f).None? {
      assert CountOne(tf, f, w) == Success(tf);
    } else {
      var c := CountOneShape(tf, f, w);
      UpdateFirstInv(tf, w, c);
      forall v, g
        ensures Freq(UpdateFirst(tf, w, c), v, g) ==
                (if v == w && g == f && (w != "" || Freq(tf, w, f).Some?) then Some(Bump(Freq(tf, w, f)))
               else Freq(tf, v, g))
      {
        FreqAfterUpdate(tf, w, c, v, g);
      }
      forall v
        ensures Contains(UpdateFirst(tf, w, c), v) <==> Contains(tf, v)
      {
        ContainsAfterUpdate(tf, w, c, v);
      }
    }
  }

  /** `o` raised by `k` occurrences; no entry stays no entry when `k` is 0. */
  function Plus(o: Option<int>, k: nat): Option<int> {
    if k == 0 then o else Some((if o.None? then 0 else o.value) + k)
  }

  lemma CountCons(ws: seq<string>, w: string)
    requires |ws| > 0
    ensures Count(ws, w) == (if ws[0] == w then 1 else 0) + Count(ws[1..], w)
  {
    assert ws == [ws[0]] + ws[1..];
    assert multiset(ws) == multiset([ws[0]]) + multiset(ws[1..]);
  }

  /** The second loop adds, for every non-empty word, its number of
      occurrences to the file's count, and touches nothing else. */
  /** `CountOneSpec` packaged for the loop: the table after one pass, with
      the empty word still counting nowhere. */
  lemma CountOneStep(tf: Table<Counts>, f: string, w: string) returns (next: Table<Counts>)
    requires Inv(tf) && Contains(tf, w)
    requires forall g :: Freq(tf, "", g).None?
    ensures CountOne(tf, f, w) == Success(next)
    ensures Inv(next)
    ensures forall v :: Contains(tf, v) ==> Contains(next, v)
    ensures forall g :: Freq(next, "", g).None?
    ensures forall v, g :: Freq(next, v, g) ==
              (if v == w && g == f && w != "" then Some(Bump(Freq(tf, w, f))) else Freq(tf, v, g))
  {
    CountOneSpec(tf, f, w);
    next := CountOne(tf, f, w).value;
    forall v, g
      ensures Freq(next, v, g) ==
              (if v == w && g == f && w != "" then Some(Bump(Freq(tf, w, f))) else Freq(tf, v, g))
    {
      assert Freq(tf, "", f).None?;
    }
  }

  lemma {:induction false} CountAllSpec(tf: Table<Counts>, f: string, words: seq<string>)
    requires Inv(tf)
    requires forall v :: v in words ==> Contains(tf, v)
    requires forall g :: Freq(tf, "", g).None?
    ensures CountAll(tf, f, words).Success?
    ensures Inv(CountAll(tf, f, words).value)
    ensures forall v, g :: Freq(CountAll(tf, f, words).value, v, g) ==
              (if g == f && v != "" then Plus(Freq(tf, v, f), Count(words, v)) else Freq(tf, v, g))
    decreases |words|
  {
    if |words| > 0 {
      var w := words[0];
      var rest := words[1..];
      var next := CountOneStep(tf, f, w);
      assert forall v :: v in rest ==> v in words;
      CountAllSpec(next, f, rest);
      var r := CountAll(next, f, rest).value;
      assert CountAll(tf, f, words) == Success(r);
      CombineCounts(tf, next, r, f, words);
    }
  }

  /** The arithmetic of one loop step: a bump for the first word followed by
      the counts of the remaining words. */
  lemma CombineCounts(tf: Table<Counts>, next: Table<Counts>, r: Table<Counts>, f: string, words: seq<string>)
    requires |words| > 0
    requires forall v, g :: Freq(next, v, g) ==
               (if v == words[0] && g == f && words[0] != "" then Some(Bump(Freq(tf, words[0], f))) else Freq(tf, v, g))
    requires forall v, g :: Freq(r, v, g) ==
               (if g == f && v != "" then Plus(Freq(next, v, f), Count(words[1..], v)) else Freq(next, v, g))
    ensures forall v, g :: Freq(r, v, g) ==
              (if g == f && v != "" then Plus(Freq(tf, v, f), Count(words, v)) else Freq(tf, v, g))
  {
    forall v, g
      ensures Freq(r, v, g) ==
              (if g == f && v != "" then Plus(Freq(tf, v, f), Count(words, v)) else Freq(tf, v, g))
    {
      if g == f && v != "" {
        CountCons(words, v);
        StepPlus(Freq(tf, v, f), Freq(next, v, f), v == words[0], Count(words[1..], v));
      }
    }
  }

  lemma StepPlus(o: Option<int>, o': Option<int>, hit: bool, k: nat)
    requires o' == (if hit then Some(Bump(o)) else o)
    ensures Plus(o', k) == Plus(o, (if hit then 1 else 0) + k)
  {
  }

  lemma GetAfterPutAbsent(df: Table<int>, f: string, d: int)
    requires Healthy(df) && UniqueKeys(df) && Get(df, f).None?
    ensures Put(df, f, d).Success?
    ensures Healthy(Put(df, f, d).value) && UniqueKeys(Put(df, f, d).value)
    ensures forall g :: Get(Put(df, f, d).value, g) == (if g == f then Some(d) else Get(df, g))
  {
    PutHealthy(df, f, d);
    PutAbsentKeepsUnique(df, f, d);
    forall g
      ensures Get(Put(df, f, d).value, g) == (if g == f then Some(d) else Get(df, g))
    {
      PutNeverOverwrites(df, f, d, g);
    }
  }

  /** `doc_freqs.put(filename, 0)` then `doc_freqs[filename] = len(words)`. */
  lemma RecordLength(df: Table<int>, f: string, n: int)
    requires Healthy(df) && UniqueKeys(df) && Get(df, f).None?
    ensures Put(df, f, 0).Success?
    ensures var d := Put(df, f, 0).value;
            && SetItem(d, f, n).Success?
            && Healthy(SetItem(d, f, n).value) && UniqueKeys(SetItem(d, f, n).value)
            && forall g :: Get(SetItem(d, f, n).value, g) == (if g == f then Some(n) else Get(df, g))
  {
    GetAfterPutAbsent(df, f, 0);
    var d := Put(df, f, 0).value;
    SetItemUnique(d, f, n);
    UpdateFirstSpec(d, f, n, f);
    UpdateFirstKeepsUnique(d, f, n);
    forall g
      ensures Get(UpdateFirst(d, f, n), g) == (if g == f then Some(n) else Get(df, g))
    {
      UpdateFirstSpec(d, f, n, g);
    }
  }

  /** The count `count_words` leaves for a word in the file it indexes. */
  function FileFreq(words: seq<string>, w: string): Option<int> {
    if w != "" && Count(words, w) > 0 then Some(Count(words, w)) else None
  }

  /** `count_words` for a file that has not been indexed: afterwards
      `term_freqs[w][filename]` is the number of occurrences of `w` in the
      words (absent when there are none), `doc_freqs[filename]` is the
      number of words, and every other file reads as before. */
  lemma CountWordsSpec(e: Engine, f: string, words: seq<string>)
    requires EngineInv(e) && Get(e.docFreqs, f).None?
    ensures CountWords(e, f, words).Success?
    ensures EngineInv(CountWords(e, f, words).value)
    ensures var r := CountWords(e, f, words).value;
            && r.directory == e.directory && r.stop == e.stop
            && (forall w, g :: Freq(r.termFreqs, w, g) ==
                  (if g == f then FileFreq(words, w) else Freq(e.termFreqs, w, g)))
            && (forall g :: Get(r.docFreqs, g) == (if g == f then Some(|words|) else Get(e.docFreqs, g)))
  {
    AddTermsSpec(e.termFreqs, words);
    var tf := AddTerms(e.termFreqs, words).value;
    RecordLength(e.docFreqs, f, |words|);
    var lengths := SetItem(Put(e.docFreqs, f, 0).value, f, |words|).value;
    CountAllSpec(tf, f, words);
    var counted := CountAll(tf, f, words).value;
    assert CountWords(e, f, words) == Success(e.(termFreqs := counted, docFreqs := lengths));
    FileCounts(e, tf, counted, f, words);
  }

  /** The counts after both loops, read against the counts before. */
  lemma FileCounts(e: Engine, tf: Table<Counts>, counted: Table<Counts>, f: string, words: seq<string>)
    requires EngineInv(e) && Get(e.docFreqs, f).None?
    requires forall v, g :: Freq(tf, v, g) == Freq(e.termFreqs, v, g)
    requires forall v, g :: Freq(counted, v, g) ==
               (if g == f && v != "" then Plus(Freq(tf, v, f), Count(words, v)) else Freq(tf, v, g))
    ensures forall w, g :: Freq(counted, w, g) == (if g == f then FileFreq(words, w) else Freq(e.termFreqs, w, g))
  {
    forall w, g
      ensures Freq(counted, w, g) == (if g == f then FileFreq(words, w) else Freq(e.termFreqs, w, g))
    {
      if g == f {
        assert Freq(e.termFreqs, w, f).None?;
      }
    }
  }

  // ---------------------------------------------------------------------
  // index_files

  /** The (name, words) pairs `index_files` hands to `count_words`. */
  function TxtDocs(files: seq<(string, seq<string>)>, stop: set<string>): (docs: seq<(string, seq<string>)>)
    ensures |docs| <= |files|
    ensures forall i :: 0 <= i < |docs| ==> exists j :: 0 <= j < |files| && docs[i].0 == files[j].0
  {
    if |files| == 0 then []
    else
      var rest := TxtDocs(files[1..], stop);
      (if IsTxt(files[0].0) then [(files[0].0, ParseWords(files[0].1, stop))] else []) + rest
  }

  /** What `index_files` hands `count_words` for one listing entry. */
  function DocOf(f: (string, seq<string>), stop: set<string>): (d: (string, seq<string>))
    ensures d.0 == f.0
  {
    (f.0, ParseWords(f.1, stop))
  }

  /** `d` is the document of some `.txt` entry of the listing. */
  predicate Listed(d: (string, seq<string>), files: seq<(string, seq<string>)>, stop: set<string>) {
    exists j :: 0 <= j < |files| && IsTxt(files[j].0) && d == DocOf(files[j], stop)
  }

  /** Every document `index_files` hands over is a listed `.txt` entry,
      under its own name, with its parsed words. */
  lemma {:induction false} TxtDocsListed(files: seq<(string, seq<string>)>, stop: set<string>)
    ensures forall i :: 0 <= i < |TxtDocs(files, stop)| ==> Listed(TxtDocs(files, stop)[i], files, stop)
    decreases |files|
  {
    if |files| > 0 {
      TxtDocsListed(files[1..], stop);
      var docs := TxtDocs(files, stop);
      var rest := TxtDocs(files[1..], stop);
      var head := if IsTxt(files[0].0) then [DocOf(files[0], stop)] else [];
      assert docs == head + rest;
      forall i | 0 <= i < |docs|
        ensures Listed(docs[i], files, stop)
      {
        if i >= |head| {
          assert docs[i] == rest[i - |head|];
          assert Listed(rest[i - |head|], files[1..], stop);
          var j :| 0 <= j < |files[1..]| && IsTxt(files[1..][j].0) && rest[i - |head|] == DocOf(files[1..][j], stop);
          assert files[1..][j] == files[j + 1];
        } else {
          assert docs[i] == DocOf(files[0], stop);
        }
      }
    }
  }

  /** Every listed `.txt` entry is handed over, with its parsed words. */
  lemma {:induction false} TxtDocsComplete(files: seq<(string, seq<string>)>, stop: set<string>)
    ensures forall j :: 0 <= j < |files| && IsTxt(files[j].0) ==> DocOf(files[j], stop) in TxtDocs(files, stop)
    decreases |files|
  {
    if |files| > 0 {
      TxtDocsComplete(files[1..], stop);
      var docs := TxtDocs(files, stop);
      var rest := TxtDocs(files[1..], stop);
      var head := if IsTxt(files[0].0) then [DocOf(files[0], stop)] else [];
      assert docs == head + rest;
      forall j | 0 <= j < |files| && IsTxt(files[j].0)
        ensures DocOf(files[j], stop) in docs
      {
        if j > 0 {
          assert files[1..][j - 1] == files[j];
          assert DocOf(files[1..][j - 1], stop) in rest;
        }
      }
    }
  }

  /** The filter keeps the listing's order: the documents of two listings
      one after the other are those of each in turn. */
  lemma {:induction false} TxtDocsAppend(a: seq<(string, seq<string>)>, b: seq<(string, seq<string>)>, stop: set<string>)
    ensures TxtDocs(a + b, stop) == TxtDocs(a, stop) + TxtDocs(b, stop)
    decreases |a|
  {
    if |a| == 0 {
      assert a + b == b;
    } else {
      assert (a + b)[0] == a[0];
      assert (a + b)[1..] == a[1..] + b;
      TxtDocsAppend(a[1..], b, stop);
    }
  }

  /** The reference count: the words of the file named `f`, looked up in
      the list of indexed documents. */
  function RefFreq(docs: seq<(string, seq<string>)>, w: string, f: string): Option<int> {
    if |docs| == 0 then None
    else if docs[0].0 == f then FileFreq(docs[0].1, w)
    else RefFreq(docs[1..], w, f)
  }

  function RefLength(docs: seq<(string, seq<string>)>, f: string): Option<int> {
    if |docs| == 0 then None
    else if docs[0].0 == f then Some(|docs[0].1|)
    else RefLength(docs[1..], f)
  }

  predicate DistinctNames(files: seq<(string, seq<string>)>) {
    forall i, j :: 0 <= i < j < |files| ==> files[i].0 != files[j].0
  }

  predicate Named(files: seq<(string, seq<string>)>, f: string) {
    exists i :: 0 <= i < |files| && files[i].0 == f
  }

  /** `index_files` over a listing whose names are new to the engine:
      every indexed file reads back its own counts and word count, and
      everything else is left alone. */
  lemma {:induction false} IndexFilesSpec(e: Engine, files: seq<(string, seq<string>)>)
    requires EngineInv(e) && DistinctNames(files)
    requires forall i :: 0 <= i < |files| ==> Get(e.docFreqs, files[i].0).None?
    ensures IndexFiles(e, files).Success?
    ensures EngineInv(IndexFiles(e, files).value)
    ensures var r := IndexFiles(e, files).value;
            var docs := TxtDocs(files, e.stop);
            && r.directory == e.directory && r.stop == e.stop
            && (forall w, f :: Freq(r.termFreqs, w, f) ==
                  (if Named(docs, f) then RefFreq(docs, w, f) else Freq(e.termFreqs, w, f)))
            && (forall f :: Get(r.docFreqs, f) ==
                  (if Named(docs, f) then RefLength(docs, f) else Get(e.docFreqs, f)))
    decreases |files|
  {
    if |files| > 0 {
      var name := files[0].0;
      var tail := files[1..];
      var docs := TxtDocs(files, e.stop);
      var rest := TxtDocs(tail, e.stop);
      if IsTxt(name) {
        var words := ParseWords(files[0].1, e.stop);
        CountWordsSpec(e, name, words);
        var next := CountWords(e, name, words).value;
        forall i | 0 <= i < |tail|
          ensures Get(next.docFreqs, tail[i].0).None?
        {
          assert tail[i].0 == files[i + 1].0;
        }
        IndexFilesSpec(next, tail);
        var r := IndexFiles(next, tail).value;
        assert IndexFiles(e, files) == Success(r);
        assert docs == [(name, words)] + rest;
        NotNamedRest(files, rest, e.stop);
        IndexCombine(e, next, r, name, words, rest);
      } else {
        IndexFilesSpec(e, tail);
        assert docs == rest;
      }
    }
  }

  /** One indexed file followed by the rest of the listing. */
  lemma IndexCombine(e: Engine, next: Engine, r: Engine, name: string, words: seq<string>,
                     rest: seq<(string, seq<string>)>)
    requires !Named(rest, name)
    requires forall w, g :: Freq(next.termFreqs, w, g) ==
               (if g == name then FileFreq(words, w) else Freq(e.termFreqs, w, g))
    requires forall g :: Get(next.docFreqs, g) == (if g == name then Some(|words|) else Get(e.docFreqs, g))
    requires forall w, f :: Freq(r.termFreqs, w, f) ==
               (if Named(rest, f) then RefFreq(rest, w, f) else Freq(next.termFreqs, w, f))
    requires forall f :: Get(r.docFreqs, f) ==
               (if Named(rest, f) then RefLength(rest, f) else Get(next.docFreqs, f))
    ensures var docs := [(name, words)] + rest;
            && (forall w, f :: Freq(r.termFreqs, w, f) ==
                  (if Named(docs, f) then RefFreq(docs, w, f) else Freq(e.termFreqs, w, f)))
            && (forall f :: Get(r.docFreqs, f) ==
                  (if Named(docs, f) then RefLength(docs, f) else Get(e.docFreqs, f)))
  {
    var docs := [(name, words)] + rest;
    assert docs[1..] == rest;
    forall f
      ensures Named(docs, f) <==> f == name || Named(rest, f)
    {
      NamedCons((name, words), rest, f);
    }
  }

  lemma NamedCons(d: (string, seq<string>), rest: seq<(string, seq<string>)>, f: string)
    ensures Named([d] + rest, f) <==> d.0 == f || Named(rest, f)
  {
    if Named(rest, f) {
      var i :| 0 <= i < |rest| && rest[i].0 == f;
      assert ([d] + rest)[i + 1] == rest[i];
    }
    if d.0 == f {
      assert ([d] + rest)[0] == d;
    }
    if Named([d] + rest, f) && d.0 != f {
      var i :| 0 <= i < |[d] + rest| && ([d] + rest)[i].0 == f;
      assert rest[i - 1].0 == f;
    }
  }

  /** The first file's name does not occur among the later documents. */
  lemma NotNamedRest(files: seq<(string, seq<string>)>, rest: seq<(string, seq<string>)>, stop: set<string>)
    requires |files| > 0 && DistinctNames(files) && rest == TxtDocs(files[1..], stop)
    ensures !Named(rest, files[0].0)
  {
    forall i | 0 <= i < |rest|
      ensures rest[i].0 != files[0].0
    {
      var j :| 0 <= j < |files[1..]| && rest[i].0 == files[1..][j].0;
      assert files[1..][j] == files[j + 1];
    }
  }

  lemma EmptyEngineInv(directory: string, stop: set<string>)
    ensures EngineInv(Engine(Empty(2), Empty(2), directory, stop))
  {
    EmptyHealthy<Counts>(2);
    EmptyHealthy<int>(2);
    forall w, f
      ensures Freq(Empty<Counts>(2), w, f).None?
    {
      GetEmpty<Counts>(2, w);
    }
  }

  /** A new engine over a directory listing with distinct names: for every
      word `w` and file `f`, `term_freqs[w][f]` is the number of times `w`
      occurs among the parsed words of `f` if `f` is an indexed `.txt` file
      and `w` occurs there, and absent otherwise; `doc_freqs[f]` is the
      number of parsed words of `f`. */
  lemma NewEngineSpec(directory: string, stop: set<string>, files: seq<(string, seq<string>)>)
    requires DistinctNames(files)
    ensures NewEngine(directory, stop, files).Success?
    ensures EngineInv(NewEngine(directory, stop, files).value)
    ensures var r := NewEngine(directory, stop, files).value;
            var docs := TxtDocs(files, stop);
            && (forall w, f :: Freq(r.termFreqs, w, f) == RefFreq(docs, w, f))
            && (forall f :: Get(r.docFreqs, f) == RefLength(docs, f))
  {
    var e := Engine(Empty(2), Empty(2), directory, stop);
    EmptyEngineInv(directory, stop);
    forall i | 0 <= i < |files|
      ensures Get(e.docFreqs, files[i].0).None?
    {
      GetEmpty<int>(2, files[i].0);
    }
    IndexFilesSpec(e, files);
    var r := IndexFiles(e, files).value;
    assert NewEngine(directory, stop, files) == Success(r);
    FreshCombine(e, r, TxtDocs(files, stop));
  }

  /** Starting from empty tables, "as before" means "absent". */
  lemma FreshCombine(e: Engine, r: Engine, docs: seq<(string, seq<string>)>)
    requires e.termFreqs == Empty(2) && e.docFreqs == Empty(2)
    requires forall w, f :: Freq(r.termFreqs, w, f) ==
               (if Named(docs, f) then RefFreq(docs, w, f) else Freq(e.termFreqs, w, f))
    requires forall f :: Get(r.docFreqs, f) ==
               (if Named(docs, f) then RefLength(docs, f) else Get(e.docFreqs, f))
    ensures forall w, f :: Freq(r.termFreqs, w, f) == RefFreq(docs, w, f)
    ensures forall f :: Get(r.docFreqs, f) == RefLength(docs, f)
  {
    forall w, f
      ensures Freq(r.termFreqs, w, f) == RefFreq(docs, w, f)
    {
      if !Named(docs, f) {
        RefAbsent(docs, w, f);
        GetEmpty<Counts>(2, w);
      }
    }
    forall f
      ensures Get(r.docFreqs, f) == RefLength(docs, f)
    {
      if !Named(docs, f) {
        RefAbsent(docs, "", f);
        GetEmpty<int>(2, f);
      }
    }
  }

  lemma {:induction false} RefAbsent(docs: seq<(string, seq<string>)>, w: string, f: string)
    requires !Named(docs, f)
    ensures RefFreq(docs, w, f).None? && RefLength(docs, f).None?
    decreases |docs|
  {
    if |docs| > 0 {
      assert docs[0].0 != f;
      forall i | 0 <= i < |docs[1..]|
        ensures docs[1..][i].0 != f
      {
        assert docs[1..][i] == docs[i + 1];
      }
      RefAbsent(docs[1..], w, f);
    }
  }
}
