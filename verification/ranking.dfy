/** `rank` (project4.py): a bubble sort of the parallel `(names, scores)`
    lists into descending score order. Both lists are swapped together, so
    the model sorts one list of `(name, score)` pairs. */
module Ranking {
  import opened Scoring

  type Pair = (string, real)

  /** The two lists read as one list of pairs. */
  function Zip(sc: Scores): (ps: seq<Pair>)
    requires |sc.names| == |sc.values|
    ensures |ps| == |sc.names|
    ensures forall i :: 0 <= i < |ps| ==> ps[i] == (sc.names[i], sc.values[i])
  {
    seq(|sc.names|, i requires 0 <= i < |sc.names| => (sc.names[i], sc.values[i]))
  }

  /** The list of pairs read back as two lists. */
  function Unzip(ps: seq<Pair>): (sc: Scores)
    ensures |sc.names| == |sc.values| == |ps|
    ensures forall i :: 0 <= i < |ps| ==> sc.names[i] == ps[i].0 && sc.values[i] == ps[i].1
  {
    Scores(seq(|ps|, i requires 0 <= i < |ps| => ps[i].0), seq(|ps|, i requires 0 <= i < |ps| => ps[i].1))
  }

  lemma UnzipZip(sc: Scores)
    requires |sc.names| == |sc.values|
    ensures Unzip(Zip(sc)) == sc
  {
    var r := Unzip(Zip(sc));
    assert r.names == sc.names;
    assert r.values == sc.values;
  }

  lemma ZipUnzip(ps: seq<Pair>)
    ensures Zip(Unzip(ps)) == ps
  {
  }

  /** Sortedness and distinct names read the same on either form. */
  lemma ZipFacts(sc: Scores)
    requires |sc.names| == |sc.values|
    ensures SortedDesc(sc.values) <==> SortedFrom(Zip(sc), 0)
    ensures Distinct(sc.names) <==> PairNamesDistinct(Zip(sc))
  {
  }

  predicate SortedDesc(vs: seq<real>) {
    forall a, b :: 0 <= a < b < |vs| ==> vs[a] >= vs[b]
  }

  /** Pairs from `lo` on are in descending score order. */
  predicate SortedFrom(ps: seq<Pair>, lo: nat) {
    forall a, b :: lo <= a < b < |ps| ==> ps[a].1 >= ps[b].1
  }

  /** No score before `m` is below a score from `m` on. */
  predicate Parted(ps: seq<Pair>, m: nat) {
    forall a, b :: 0 <= a < m <= b < |ps| ==> ps[a].1 >= ps[b].1
  }

  /** The score at `j` is the least of those up to `j`. */
  predicate LeastAt(ps: seq<Pair>, j: nat)
    requires j < |ps|
  {
    forall k :: 0 <= k < j ==> ps[k].1 >= ps[j].1
  }

  predicate PairNamesDistinct(ps: seq<Pair>) {
    forall a, b :: 0 <= a < b < |ps| ==> ps[a].0 != ps[b].0
  }

  /** The body of the `if`: exchange entries `j` and `j + 1`. */
  function Swap<T>(ps: seq<T>, j: nat): (r: seq<T>)
    requires j + 1 < |ps|
    ensures |r| == |ps| && r[j] == ps[j + 1] && r[j + 1] == ps[j]
    ensures forall k :: 0 <= k < |ps| && k != j && k != j + 1 ==> r[k] == ps[k]
  {
    ps[j := ps[j + 1]][j + 1 := ps[j]]
  }

  lemma SwapPerm(ps: seq<Pair>, j: nat)
    requires j + 1 < |ps|
    ensures multiset(Swap(ps, j)) == multiset(ps)
    ensures PairNamesDistinct(ps) ==> PairNamesDistinct(Swap(ps, j))
  {
    var r := Swap(ps, j);
    assert ps == ps[..j] + [ps[j], ps[j + 1]] + ps[j + 2..];
    assert r == ps[..j] + [ps[j + 1], ps[j]] + ps[j + 2..];
    if PairNamesDistinct(ps) {
      forall a, b | 0 <= a < b < |r|
        ensures r[a].0 != r[b].0
      {
        var a' := if a == j then j + 1 else if a == j + 1 then j else a;
        var b' := if b == j then j + 1 else if b == j + 1 then j else b;
        assert r[a] == ps[a'] && r[b] == ps[b'];
      }
    }
  }

  /** `order` says where each pair came from: entry `k` of `ps` is entry
      `order[k]` of `orig`, and no source entry is used twice. */
  predicate Tracks(ps: seq<Pair>, orig: seq<Pair>, order: seq<nat>) {
    && |order| == |ps|
    && (forall k :: 0 <= k < |ps| ==> order[k] < |orig| && ps[k] == orig[order[k]])
    && (forall a, b :: 0 <= a < b < |order| ==> order[a] != order[b])
  }

  /** Pairs with equal scores are still in their original order. */
  predicate Stable(ps: seq<Pair>, order: seq<nat>)
    requires |order| == |ps|
  {
    forall a, b :: 0 <= a < b < |ps| && ps[a].1 == ps[b].1 ==> order[a] < order[b]
  }

  function Identity(n: nat): (order: seq<nat>)
    ensures |order| == n && forall k :: 0 <= k < n ==> order[k] == k
  {
    seq(n, k requires 0 <= k < n => k)
  }

  /** One comparison of the inner loop, with the origin of each entry. */
  function StepOrder(ps: seq<Pair>, order: seq<nat>, j: nat): (r: seq<nat>)
    requires j + 1 < |ps| == |order|
    ensures |r| == |order|
  {
    if ps[j].1 < ps[j + 1].1 then Swap(order, j) else order
  }

  /** A comparison swaps only pairs with different scores, so it keeps
      equal scores in their original order. */
  lemma StepStable(ps: seq<Pair>, orig: seq<Pair>, order: seq<nat>, j: nat)
    requires j + 1 < |ps| && Tracks(ps, orig, order) && Stable(ps, order)
    ensures Tracks(Step(ps, j), orig, StepOrder(ps, order, j))
    ensures Stable(Step(ps, j), StepOrder(ps, order, j))
  {
    if ps[j].1 < ps[j + 1].1 {
      var r := Swap(ps, j);
      var o := Swap(order, j);
      forall a, b | 0 <= a < b < |o|
        ensures o[a] != o[b]
        ensures r[a].1 == r[b].1 ==> o[a] < o[b]
      {
        var a' := if a == j then j + 1 else if a == j + 1 then j else a;
        var b' := if b == j then j + 1 else if b == j + 1 then j else b;
        assert r[a] == ps[a'] && r[b] == ps[b'] && o[a] == order[a'] && o[b] == order[b'];
        if r[a].1 == r[b].1 {
          assert !(a == j && b == j + 1);
          assert a' < b';
        }
      }
    }
  }

  /** One comparison of the inner loop. */
  function Step(ps: seq<Pair>, j: nat): (r: seq<Pair>)
    requires j + 1 < |ps|
    ensures |r| == |ps|
  {
    if ps[j].1 < ps[j + 1].1 then Swap(ps, j) else ps
  }

  /** A comparison moves the least score seen so far one place right, and
      leaves the sorted tail from `i + 1` alone. */
  lemma StepSpec(ps: seq<Pair>, i: nat, j: nat)
    requires 1 <= i < |ps| && j + 1 < |ps|
    requires SortedFrom(ps, i + 1) && Parted(ps, i + 1)
    requires LeastAt(ps, j) && (j >= i ==> LeastAt(ps, i))
    ensures multiset(Step(ps, j)) == multiset(ps)
    ensures PairNamesDistinct(ps) ==> PairNamesDistinct(Step(ps, j))
    ensures SortedFrom(Step(ps, j), i + 1) && Parted(Step(ps, j), i + 1)
    ensures LeastAt(Step(ps, j), j + 1)
    ensures j + 1 >= i ==> LeastAt(Step(ps, j), i)
    ensures SortedFrom(ps, 0) ==> Step(ps, j) == ps
  {
    SwapPerm(ps, j);
    if ps[j].1 < ps[j + 1].1 {
      assert j < i;
      var r := Swap(ps, j);
      assert forall k :: i + 1 <= k < |ps| ==> r[k] == ps[k];
      forall a, b | 0 <= a < i + 1 <= b < |r|
        ensures r[a].1 >= r[b].1
      {
        assert r[b] == ps[b];
        var a' := if a == j then j + 1 else if a == j + 1 then j else a;
        assert r[a] == ps[a'];
      }
      forall k | 0 <= k < j + 1
        ensures r[k].1 >= r[j + 1].1
      {
        if k < j {
          assert r[k] == ps[k];
        }
      }
    }
  }

  /** One pass of the inner loop: after it the scores from `i` on are
      sorted and none before `i` is below them. */
  method Pass(ps: seq<Pair>, ghost i: nat, ghost orig: seq<Pair>, ghost order: seq<nat>)
    returns (qs: seq<Pair>, ghost order': seq<nat>)
    requires 1 <= i < |ps|
    requires SortedFrom(ps, i + 1) && Parted(ps, i + 1)
    requires Tracks(ps, orig, order) && Stable(ps, order)
    ensures Tracks(qs, orig, order') && Stable(qs, order')
    ensures |qs| == |ps| && multiset(qs) == multiset(ps)
    ensures PairNamesDistinct(ps) ==> PairNamesDistinct(qs)
    ensures SortedFrom(qs, i) && Parted(qs, i)
    ensures SortedFrom(ps, 0) ==> qs == ps
  {
    qs := ps;
    order' := order;
    var j := 0;
    while j < |ps| - 1
      invariant 0 <= j <= |ps| - 1 && |qs| == |ps|
      invariant multiset(qs) == multiset(ps)
      invariant PairNamesDistinct(ps) ==> PairNamesDistinct(qs)
      invariant SortedFrom(qs, i + 1) && Parted(qs, i + 1)
      invariant LeastAt(qs, j)
      invariant j >= i ==> LeastAt(qs, i)
      invariant SortedFrom(ps, 0) ==> qs == ps
      invariant Tracks(qs, orig, order') && Stable(qs, order')
    {
      StepSpec(qs, i, j);
      StepStable(qs, orig, order', j);
      order' := StepOrder(qs, order', j);
      if qs[j].1 < qs[j + 1].1 {
        qs := Swap(qs, j);
      }
      j := j + 1;
    }
  }

  /** The outer loop, on the list of pairs. */
  method Sort(ps: seq<Pair>) returns (qs: seq<Pair>, ghost order: seq<nat>)
    ensures |qs| == |ps| && multiset(qs) == multiset(ps)
    ensures SortedFrom(qs, 0)
    ensures PairNamesDistinct(ps) ==> PairNamesDistinct(qs)
    ensures SortedFrom(ps, 0) ==> qs == ps
    ensures Tracks(qs, ps, order) && Stable(qs, order)
  {
    qs := ps;
    var n := |ps|;
    var i := n - 1;
    order := Identity(n);
    while i > 0
      invariant -1 <= i < n && |qs| == n
      invariant multiset(qs) == multiset(ps)
      invariant PairNamesDistinct(ps) ==> PairNamesDistinct(qs)
      invariant SortedFrom(qs, i + 1) && Parted(qs, i + 1)
      invariant SortedFrom(ps, 0) ==> qs == ps
      invariant Tracks(qs, ps, order) && Stable(qs, order)
    {
      qs, order := Pass(qs, i, ps, order);
      i := i - 1;
    }
  }

  /** `rank(scores)`: the same `(name, score)` pairs, by descending score,
      pairs with equal scores in their original order. */
  method Rank(sc: Scores) returns (r: Scores, ghost order: seq<nat>)
    requires |sc.names| == |sc.values|
    ensures |r.names| == |r.values| == |sc.names|
    ensures Tracks(Zip(r), Zip(sc), order) && Stable(Zip(r), order)
    ensures multiset(Zip(r)) == multiset(Zip(sc))
    ensures SortedDesc(r.values)
    ensures Distinct(sc.names) ==> Distinct(r.names)
    ensures SortedDesc(sc.values) ==> r == sc
  {
    var ps;
    ZipFacts(sc);
    ps, order := Sort(Zip(sc));
    r := Unzip(ps);
    ZipUnzip(ps);
    ZipFacts(r);
    if SortedDesc(sc.values) {
      UnzipZip(sc);
    }
  }

  /** A listed name's score is the value beside it. */
  lemma ScoreAt(sc: Scores, m: nat)
    requires WellFormed(sc) && m < |sc.names|
    ensures ScoreOf(sc, sc.names[m]) == sc.values[m]
  {
    IndexOfUnique(sc.names, sc.names[m], m);
  }

  lemma PairIn(sc: Scores, other: Scores, k: string)
    requires WellFormed(sc) && WellFormed(other) && multiset(Zip(other)) == multiset(Zip(sc))
    requires k in sc.names
    ensures k in other.names && ScoreOf(other, k) == ScoreOf(sc, k)
  {
    var i := IndexOf(sc.names, k);
    var p := Zip(sc)[i];
    assert p in multiset(Zip(other));
    var m :| 0 <= m < |Zip(other)| && Zip(other)[m] == p;
    assert other.names[m] == k;
    ScoreAt(other, m);
  }

  /** Two well-formed score lists holding the same pairs list the same
      files with the same scores: ranking loses or changes nothing. */
  lemma SameScores(sc: Scores, r: Scores)
    requires WellFormed(sc) && WellFormed(r) && multiset(Zip(r)) == multiset(Zip(sc))
    ensures forall k :: k in r.names <==> k in sc.names
    ensures forall k :: ScoreOf(r, k) == ScoreOf(sc, k)
  {
    forall k
      ensures k in r.names <==> k in sc.names
      ensures ScoreOf(r, k) == ScoreOf(sc, k)
    {
      if k in sc.names {
        PairIn(sc, r, k);
      } else if k in r.names {
        PairIn(r, sc, k);
      }
    }
  }
}
