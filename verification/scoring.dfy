/** `get_scores` (project4.py): for every query word, walk the slots of its
    inner table and add each file's weighted count, divided by the file's
    word count, into two parallel lists of names and scores.

    The weighting `1 + log(count)` is a parameter `W`; `Weight` applies the
    source's guard that a count of zero or less weighs 0. */
module Scoring {
  import opened Wrappers
  import opened Nodes
  import opened LinearTable
  import opened TableFacts
  import opened TableLookup
  import opened Index

  /** The pair of parallel lists `(names, scores)`. */
  datatype Scores = Scores(names: seq<string>, values: seq<real>)

  /** `get_weighted_freq`, with `W(c)` standing for `1 + log(c)`. */
  function Weight(W: int -> real, c: int): (r: real)
    ensures c > 0 ==> r == W(c)
    ensures c <= 0 ==> r == 0.0
  {
    if c > 0 then W(c) else 0.0
  }

  predicate Distinct(names: seq<string>) {
    forall i, j :: 0 <= i < j < |names| ==> names[i] != names[j]
  }

  predicate WellFormed(sc: Scores) {
    |sc.names| == |sc.values| && Distinct(sc.names)
  }

  /** `names.index(k)`: the first position of `k`. */
  function IndexOf(names: seq<string>, k: string): (i: nat)
    requires k in names
    ensures i < |names| && names[i] == k
    ensures forall j :: 0 <= j < i ==> names[j] != k
  {
    if names[0] == k then 0 else 1 + IndexOf(names[1..], k)
  }

  /** The score held for `k`, 0 when `k` is not listed. */
  function ScoreOf(sc: Scores, k: string): real
    requires |sc.names| == |sc.values|
  {
    if k in sc.names then sc.values[IndexOf(sc.names, k)] else 0.0
  }

  /** `get_weighted_freq(i.data) / self.doc_freqs[i.key]`: dividing by `None`
      or by 0 raises. */
  function Contribution(W: int -> real, df: Table<int>, e: Entry<int>): (r: Result<real, EngineError>)
    ensures r.Failure? <==> Get(df, e.key).None? || Get(df, e.key).value == 0
    ensures r.Failure? ==> r.error == (if Get(df, e.key).None? then NoneValue else ZeroLength)
    ensures r.Success? ==> r.value * (Get(df, e.key).value as real) == Weight(W, e.data)
  {
    match Get(df, e.key)
    case None => Failure(NoneValue)
    case Some(n) => if n == 0 then Failure(ZeroLength) else Success(Weight(W, e.data) / n as real)
  }

  /** One pass of the inner loop over the slots of `term_freqs[term]`. */
  function AddSlot(W: int -> real, df: Table<int>, sc: Scores, slot: Slot<int>): (r: Result<Scores, EngineError>)
    requires |sc.names| == |sc.values|
    ensures r.Success? ==> |r.value.names| == |r.value.values|
  {
    if slot.None? then Success(sc)
    else
      var e := slot.value;
      if e.key !in sc.names then
        var c :- Contribution(W, df, e);
        Success(Scores(sc.names + [e.key], sc.values + [c]))
      else
        var c :- Contribution(W, df, e);
        var ind := IndexOf(sc.names, e.key);
        Success(Scores(sc.names, sc.values[ind := sc.values[ind] + c]))
  }

  /** The inner loop. */
  function AddSlots(W: int -> real, df: Table<int>, sc: Scores, slots: seq<Slot<int>>): (r: Result<Scores, EngineError>)
    requires |sc.names| == |sc.values|
    ensures r.Success? ==> |r.value.names| == |r.value.values|
    decreases |slots|
  {
    if |slots| == 0 then Success(sc)
    else
      var next :- AddSlot(W, df, sc, slots[0]);
      AddSlots(W, df, next, slots[1..])
  }

  /** The outer loop, from the lists built so far. */
  function ScoreTerms(W: int -> real, e: Engine, sc: Scores, terms: seq<string>): (r: Result<Scores, EngineError>)
    requires |sc.names| == |sc.values|
    ensures r.Success? ==> |r.value.names| == |r.value.values|
    decreases |terms|
  {
    if |terms| == 0 then Success(sc)
    else if !Contains(e.termFreqs, terms[0]) then Failure(UnknownTerm)
    else
      var next :- AddSlots(W, e.docFreqs, sc, Get(e.termFreqs, terms[0]).value.slots);
      ScoreTerms(W, e, next, terms[1..])
  }

  /** `get_scores(terms)`. */
  function GetScores(W: int -> real, e: Engine, terms: seq<string>): (r: Result<Scores, EngineError>)
    ensures r.Success? ==> |r.value.names| == |r.value.values|
  {
    ScoreTerms(W, e, Scores([], []), terms)
  }

  // ---------------------------------------------------------------------
  // The reference score

  /** What one term adds to the score of file `k`, given `term_freqs[term]`
      holds `o` for `k`: its weight over the file's word count, or nothing. */
  function Share(W: int -> real, df: Table<int>, o: Option<int>, k: string): real {
    match o
    case None => 0.0
    case Some(c) =>
      match Get(df, k)
      case None => 0.0
      case Some(n) => if n == 0 then 0.0 else Weight(W, c) / n as real
  }

  /** The score of file `k` for the query: the sum over the query's words,
      repeats included, of what each adds. */
  function RefScore(W: int -> real, e: Engine, terms: seq<string>, k: string): real
    decreases |terms|
  {
    if |terms| == 0 then 0.0
    else Share(W, e.docFreqs, Freq(e.termFreqs, terms[0], k), k) + RefScore(W, e, terms[1..], k)
  }

  /** What a run of slots adds to the score of file `k`. */
  function SlotSum(W: int -> real, df: Table<int>, slots: seq<Slot<int>>, k: string): real
    decreases |slots|
  {
    if |slots| == 0 then 0.0
    else
      (if Holds(slots[0], k) then Share(W, df, Some(slots[0].value.data), k) else 0.0)
      + SlotSum(W, df, slots[1..], k)
  }

  /** Every live slot names a file with a positive word count. */
  ghost predicate KnownFiles(df: Table<int>, slots: seq<Slot<int>>) {
    forall j :: 0 <= j < |slots| && slots[j].Some? ==>
      Get(df, slots[j].value.key).Some? && Get(df, slots[j].value.key).value > 0
  }

  // ---------------------------------------------------------------------
  // Proofs

  lemma ScoreOfAppend(sc: Scores, key: string, c: real, k: string)
    requires WellFormed(sc) && key !in sc.names
    ensures WellFormed(Scores(sc.names + [key], sc.values + [c]))
    ensures ScoreOf(Scores(sc.names + [key], sc.values + [c]), k) ==
            ScoreOf(sc, k) + (if k == key then c else 0.0)
  {
    var r := Scores(sc.names + [key], sc.values + [c]);
    if k in sc.names {
      var i := IndexOf(sc.names, k);
      assert r.names[i] == k;
      assert IndexOf(r.names, k) == i by {
        IndexOfUnique(r.names, k, i);
      }
    } else if k == key {
      IndexOfUnique(r.names, k, |sc.names|);
    }
  }

  lemma IndexOfUnique(names: seq<string>, k: string, i: nat)
    requires i < |names| && names[i] == k
    requires forall j :: 0 <= j < i ==> names[j] != k
    ensures IndexOf(names, k) == i
  {
    var p := IndexOf(names, k);
    assert !(p < i);
  }

  lemma ScoreOfBump(sc: Scores, key: string, c: real, k: string)
    requires WellFormed(sc) && key in sc.names
    ensures var ind := IndexOf(sc.names, key);
            && WellFormed(Scores(sc.names, sc.values[ind := sc.values[ind] + c]))
            && ScoreOf(Scores(sc.names, sc.values[ind := sc.values[ind] + c]), k) ==
               ScoreOf(sc, k) + (if k == key then c else 0.0)
  {
    var ind := IndexOf(sc.names, key);
    if k in sc.names {
      var i := IndexOf(sc.names, k);
      assert i == ind <==> k == key;
    }
  }

  /** One slot: a listed file gains its share, an unlisted one is appended
      with it, and every other score stays. */
  lemma AddSlotSpec(W: int -> real, df: Table<int>, sc: Scores, slot: Slot<int>)
    requires WellFormed(sc)
    requires slot.Some? ==> Get(df, slot.value.key).Some? && Get(df, slot.value.key).value > 0
    ensures AddSlot(W, df, sc, slot).Success?
    ensures WellFormed(AddSlot(W, df, sc, slot).value)
    ensures forall k :: k in AddSlot(W, df, sc, slot).value.names <==> k in sc.names || Holds(slot, k)
    ensures forall k :: ScoreOf(AddSlot(W, df, sc, slot).value, k) ==
              ScoreOf(sc, k) + (if Holds(slot, k) then Share(W, df, Some(slot.value.data), k) else 0.0)
  {
    if slot.Some? {
      var e := slot.value;
      var c := Contribution(W, df, e).value;
      assert c == Share(W, df, Some(e.data), e.key);
      if e.key !in sc.names {
        forall k
          ensures ScoreOf(AddSlot(W, df, sc, slot).value, k) ==
                  ScoreOf(sc, k) + (if Holds(slot, k) then Share(W, df, Some(slot.value.data), k) else 0.0)
        {
          ScoreOfAppend(sc, e.key, c, k);
        }
        ScoreOfAppend(sc, e.key, c, e.key);
      } else {
        forall k
          ensures ScoreOf(AddSlot(W, df, sc, slot).value, k) ==
                  ScoreOf(sc, k) + (if Holds(slot, k) then Share(W, df, Some(slot.value.data), k) else 0.0)
        {
          ScoreOfBump(sc, e.key, c, k);
        }
        ScoreOfBump(sc, e.key, c, e.key);
      }
    }
  }

  /** The inner loop adds each slot's share, and lists exactly the files
      it has met. */
  lemma {:induction false} AddSlotsSpec(W: int -> real, df: Table<int>, sc: Scores, slots: seq<Slot<int>>)
    requires WellFormed(sc) && KnownFiles(df, slots)
    ensures AddSlots(W, df, sc, slots).Success?
    ensures WellFormed(AddSlots(W, df, sc, slots).value)
    ensures forall k :: k in AddSlots(W, df, sc, slots).value.names <==>
              k in sc.names || exists j :: 0 <= j < |slots| && Holds(slots[j], k)
    ensures forall k :: ScoreOf(AddSlots(W, df, sc, slots).value, k) == ScoreOf(sc, k) + SlotSum(W, df, slots, k)
    decreases |slots|
  {
    if |slots| > 0 {
      AddSlotSpec(W, df, sc, slots[0]);
      var next := AddSlot(W, df, sc, slots[0]).value;
      assert KnownFiles(df, slots[1..]) by {
        forall j | 0 <= j < |slots[1..]| && slots[1..][j].Some?
          ensures Get(df, slots[1..][j].value.key).Some? && Get(df, slots[1..][j].value.key).value > 0
        {
          assert slots[1..][j] == slots[j + 1];
        }
      }
      AddSlotsSpec(W, df, next, slots[1..]);
      var r := AddSlots(W, df, next, slots[1..]).value;
      assert AddSlots(W, df, sc, slots) == Success(r);
      forall k
        ensures k in r.names <==> k in sc.names || exists j :: 0 <= j < |slots| && Holds(slots[j], k)
      {
        if exists j :: 0 <= j < |slots| && Holds(slots[j], k) {
          var j :| 0 <= j < |slots| && Holds(slots[j], k);
          if j > 0 {
            assert Holds(slots[1..][j - 1], k);
          }
        }
        if exists j :: 0 <= j < |slots[1..]| && Holds(slots[1..][j], k) {
          var j :| 0 <= j < |slots[1..]| && Holds(slots[1..][j], k);
          assert Holds(slots[j + 1], k);
        }
      }
    }
  }

  /** When no key occurs twice, the slots of a table add exactly the share
      of the count `get` returns. */
  lemma {:induction false} SlotSumUnique(W: int -> real, df: Table<int>, slots: seq<Slot<int>>, k: string)
    requires forall i, j :: 0 <= i < j < |slots| && slots[i].Some? && slots[j].Some? ==>
               slots[i].value.key != slots[j].value.key
    ensures SlotSum(W, df, slots, k) == Share(W, df, Get(Table(slots, 0, 0, 0), k), k)
    decreases |slots|
  {
    var t := Table(slots, 0, 0, 0);
    if |slots| > 0 {
      var rest := Table(slots[1..], 0, 0, 0);
      SlotSumUnique(W, df, slots[1..], k);
      GetIsLookup(t, k);
      GetIsLookup(rest, k);
      if Holds(slots[0], k) {
        forall j | 0 <= j < |slots[1..]|
          ensures !Holds(slots[1..][j], k)
        {
          assert slots[1..][j] == slots[j + 1];
        }
        assert Get(rest, k).None?;
        assert Get(t, k) == Some(slots[0].value.data);
      } else {
        assert Find(slots, k) == (match Find(slots[1..], k) case None => None case Some(i) => Some(i + 1));
        assert Get(t, k) == Get(rest, k);
      }
    }
  }

  /** Table form of `SlotSumUnique`. */
  lemma InnerShare(W: int -> real, df: Table<int>, inner: Counts, k: string)
    requires UniqueKeys(inner)
    ensures SlotSum(W, df, inner.slots, k) == Share(W, df, Get(inner, k), k)
  {
    SlotSumUnique(W, df, inner.slots, k);
    assert Get(inner, k) == Get(Table(inner.slots, 0, 0, 0), k);
  }

  /** Slot keys of an inner table are files it counts. */
  lemma InnerKnown(e: Engine, term: string)
    requires EngineInv(e) && Get(e.termFreqs, term).Some?
    ensures KnownFiles(e.docFreqs, Get(e.termFreqs, term).value.slots)
  {
    var inner := Get(e.termFreqs, term).value;
    forall j | 0 <= j < |inner.slots| && inner.slots[j].Some?
      ensures Get(e.docFreqs, inner.slots[j].value.key).Some? && Get(e.docFreqs, inner.slots[j].value.key).value > 0
    {
      assert Holds(inner.slots[j], inner.slots[j].value.key);
      assert Freq(e.termFreqs, term, inner.slots[j].value.key).Some?;
    }
  }

  /** One query word: its inner table's slots add, for every file, the
      share of that word's count, and list the files it counts. */
  lemma TermStep(W: int -> real, e: Engine, sc: Scores, term: string) returns (next: Scores)
    requires EngineInv(e) && WellFormed(sc) && Contains(e.termFreqs, term)
    ensures AddSlots(W, e.docFreqs, sc, Get(e.termFreqs, term).value.slots) == Success(next)
    ensures WellFormed(next)
    ensures forall k :: k in next.names <==> k in sc.names || Freq(e.termFreqs, term, k).Some?
    ensures forall k :: ScoreOf(next, k) == ScoreOf(sc, k) + Share(W, e.docFreqs, Freq(e.termFreqs, term, k), k)
  {
    var inner := Get(e.termFreqs, term).value;
    GetGood(e.termFreqs, term);
    InnerKnown(e, term);
    AddSlotsSpec(W, e.docFreqs, sc, inner.slots);
    next := AddSlots(W, e.docFreqs, sc, inner.slots).value;
    forall k
      ensures ScoreOf(next, k) == ScoreOf(sc, k) + Share(W, e.docFreqs, Freq(e.termFreqs, term, k), k)
      ensures k in next.names <==> k in sc.names || Freq(e.termFreqs, term, k).Some?
    {
      InnerShare(W, e.docFreqs, inner, k);
      InnerMembers(inner, k);
    }
  }

  lemma TermSucceeds(W: int -> real, e: Engine, sc: Scores, term: string) returns (next: Scores)
    requires EngineInv(e) && WellFormed(sc) && Contains(e.termFreqs, term)
    ensures AddSlots(W, e.docFreqs, sc, Get(e.termFreqs, term).value.slots) == Success(next)
    ensures WellFormed(next)
  {
    InnerKnown(e, term);
    AddSlotsSpec(W, e.docFreqs, sc, Get(e.termFreqs, term).value.slots);
    next := AddSlots(W, e.docFreqs, sc, Get(e.termFreqs, term).value.slots).value;
  }

  /** Membership over a query with a first word split off. */
  lemma MembersCons(tf: Table<Counts>, terms: seq<string>, names: set<string>, mid: set<string>, out: set<string>)
    requires |terms| > 0
    requires forall k :: k in mid <==> k in names || Freq(tf, terms[0], k).Some?
    requires forall k :: k in out <==> k in mid || exists i :: 0 <= i < |terms[1..]| && Freq(tf, terms[1..][i], k).Some?
    ensures forall k :: k in out <==> k in names || exists i :: 0 <= i < |terms| && Freq(tf, terms[i], k).Some?
  {
    forall k
      ensures k in out <==> k in names || exists i :: 0 <= i < |terms| && Freq(tf, terms[i], k).Some?
    {
      if exists i :: 0 <= i < |terms| && Freq(tf, terms[i], k).Some? {
        var i :| 0 <= i < |terms| && Freq(tf, terms[i], k).Some?;
        if i > 0 {
          assert Freq(tf, terms[1..][i - 1], k).Some?;
        }
      }
      if exists i :: 0 <= i < |terms[1..]| && Freq(tf, terms[1..][i], k).Some? {
        var i :| 0 <= i < |terms[1..]| && Freq(tf, terms[1..][i], k).Some?;
        assert Freq(tf, terms[i + 1], k).Some?;
      }
    }
  }

  /** Scores over a query with a first word split off. */
  lemma ScoresCons(W: int -> real, e: Engine, terms: seq<string>, sc: Scores, mid: Scores, out: Scores)
    requires |terms| > 0 && WellFormed(sc) && WellFormed(mid) && WellFormed(out)
    requires forall k :: ScoreOf(mid, k) == ScoreOf(sc, k) + Share(W, e.docFreqs, Freq(e.termFreqs, terms[0], k), k)
    requires forall k :: ScoreOf(out, k) == ScoreOf(mid, k) + RefScore(W, e, terms[1..], k)
    ensures forall k :: ScoreOf(out, k) == ScoreOf(sc, k) + RefScore(W, e, terms, k)
  {
  }

  function NameSet(sc: Scores): (ns: set<string>)
    ensures forall k :: k in ns <==> k in sc.names
  {
    set i | 0 <= i < |sc.names| :: sc.names[i]
  }

  lemma AllKnownCons(tf: Table<Counts>, terms: seq<string>)
    requires |terms| > 0 && Contains(tf, terms[0])
    ensures (forall i :: 0 <= i < |terms| ==> Contains(tf, terms[i])) <==>
            (forall i :: 0 <= i < |terms[1..]| ==> Contains(tf, terms[1..][i]))
  {
    assert forall i :: 1 <= i < |terms| ==> terms[i] == terms[1..][i - 1];
  }

  /** The outer loop fails with `ValueError` as soon as a query word is not
      a key, and succeeds when all are. */
  lemma {:induction false} ScoreTermsOutcome(W: int -> real, e: Engine, sc: Scores, terms: seq<string>)
    requires EngineInv(e) && WellFormed(sc)
    ensures ScoreTerms(W, e, sc, terms).Success? <==> forall i :: 0 <= i < |terms| ==> Contains(e.termFreqs, terms[i])
    ensures ScoreTerms(W, e, sc, terms).Failure? ==> ScoreTerms(W, e, sc, terms).error == UnknownTerm
    decreases |terms|
  {
    if |terms| > 0 {
      if Contains(e.termFreqs, terms[0]) {
        var next := TermSucceeds(W, e, sc, terms[0]);
        ScoreTermsOutcome(W, e, next, terms[1..]);
        assert ScoreTerms(W, e, sc, terms) == ScoreTerms(W, e, next, terms[1..]);
        AllKnownCons(e.termFreqs, terms);
      } else {
        assert ScoreTerms(W, e, sc, terms) == Failure(UnknownTerm);
      }
    }
  }

  /** When it succeeds, every listed file appears once, the listed files
      are those some query word counts, and each score is the sum of the
      shares of all query words. */
  lemma {:induction false} ScoreTermsValue(W: int -> real, e: Engine, sc: Scores, terms: seq<string>)
    requires EngineInv(e) && WellFormed(sc)
    requires ScoreTerms(W, e, sc, terms).Success?
    ensures var r := ScoreTerms(W, e, sc, terms).value;
            && WellFormed(r)
            && (forall k :: k in r.names <==>
                  k in sc.names || exists i :: 0 <= i < |terms| && Freq(e.termFreqs, terms[i], k).Some?)
            && (forall k :: ScoreOf(r, k) == ScoreOf(sc, k) + RefScore(W, e, terms, k))
    decreases |terms|
  {
    if |terms| > 0 {
      var next := TermStep(W, e, sc, terms[0]);
      assert ScoreTerms(W, e, sc, terms) == ScoreTerms(W, e, next, terms[1..]);
      ScoreTermsValue(W, e, next, terms[1..]);
      var r := ScoreTerms(W, e, next, terms[1..]).value;
      MembersCons(e.termFreqs, terms, NameSet(sc), NameSet(next), NameSet(r));
      ScoresCons(W, e, terms, sc, next, r);
    }
  }

  lemma InnerMembers(inner: Counts, k: string)
    ensures (exists j :: 0 <= j < |inner.slots| && Holds(inner.slots[j], k)) <==> Get(inner, k).Some?
  {
  }

  /** `get_scores` on an indexed engine: it raises `ValueError` exactly when
      some query word was never indexed; otherwise each file appears once,
      beside the sum over the query words of its weighted count divided by
      its word count, and exactly the files some query word occurs in are
      listed. */
  lemma GetScoresSpec(W: int -> real, e: Engine, terms: seq<string>)
    requires EngineInv(e)
    ensures GetScores(W, e, terms).Success? <==> forall i :: 0 <= i < |terms| ==> Contains(e.termFreqs, terms[i])
    ensures GetScores(W, e, terms).Failure? ==> GetScores(W, e, terms).error == UnknownTerm
    ensures GetScores(W, e, terms).Success? ==>
              var r := GetScores(W, e, terms).value;
              && WellFormed(r)
              && (forall k :: k in r.names <==> exists i :: 0 <= i < |terms| && Freq(e.termFreqs, terms[i], k).Some?)
              && (forall k :: ScoreOf(r, k) == RefScore(W, e, terms, k))
  {
    ScoreTermsOutcome(W, e, Scores([], []), terms);
    if GetScores(W, e, terms).Success? {
      ScoreTermsValue(W, e, Scores([], []), terms);
    }
  }
}
