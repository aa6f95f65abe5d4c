/** `search(query)` (project4.py): lower-case and split the query, drop
    stopwords, score, rank, and print one `"<directory>/<file> \n"` line per
    ranked file. */
module Search {
  import opened Wrappers
  import opened Text
  import opened LinearTable
  import opened Index
  import opened Scoring
  import opened Ranking

  /** `"%s/%s \n" % (self.directory, i)`. */
  function Line(dir: string, name: string): string {
    dir + "/" + name + " \n"
  }

  /** The output loop: one line per non-empty name, in order. */
  function Output(dir: string, names: seq<string>): (out: string)
    decreases |names|
  {
    if |names| == 0 then ""
    else (if names[0] != "" then Line(dir, names[0]) else "") + Output(dir, names[1..])
  }

  predicate NoNewline(s: string) {
    forall i :: 0 <= i < |s| ==> s[i] != '\n'
  }

  /** Position of the first `'\n'` in `s`, or `|s|`. */
  function LineEnd(s: string): (k: nat)
    ensures k <= |s| && NoNewline(s[..k])
    ensures k < |s| ==> s[k] == '\n'
    decreases |s|
  {
    if |s| == 0 || s[0] == '\n' then 0
    else
      var k := LineEnd(s[1..]);
      assert s[..k + 1] == [s[0]] + s[1..][..k];
      1 + k
  }

  /** The newline-terminated lines of `s`, without their `'\n'`; a last
      line with no `'\n'` is dropped. */
  function Lines(s: string): seq<string>
    decreases |s|
  {
    var k := LineEnd(s);
    if k == |s| then [] else [s[..k]] + Lines(s[k + 1..])
  }

  /** What the reader of the output sees for each listed file. */
  function Shown(dir: string, names: seq<string>): (ls: seq<string>)
    decreases |names|
  {
    if |names| == 0 then []
    else (if names[0] != "" then [dir + "/" + names[0] + " "] else []) + Shown(dir, names[1..])
  }

  lemma {:induction false} LineEndOf(x: string, rest: string)
    requires NoNewline(x)
    ensures LineEnd(x + "\n" + rest) == |x|
    decreases |x|
  {
    if |x| > 0 {
      assert (x + "\n" + rest)[1..] == x[1..] + "\n" + rest;
      LineEndOf(x[1..], rest);
    }
  }

  lemma NoNewlineAppend(a: string, b: string)
    requires NoNewline(a) && NoNewline(b)
    ensures NoNewline(a + b)
  {
    forall i | 0 <= i < |a + b|
      ensures (a + b)[i] != '\n'
    {
      if i >= |a| {
        assert (a + b)[i] == b[i - |a|];
      }
    }
  }

  lemma LineTerminated(dir: string, name: string, rest: string)
    ensures Line(dir, name) + rest == (dir + "/" + name + " ") + "\n" + rest
  {
  }

  lemma LinesCons(x: string, rest: string)
    requires NoNewline(x)
    ensures Lines(x + "\n" + rest) == [x] + Lines(rest)
  {
    var s := x + "\n" + rest;
    LineEndOf(x, rest);
    assert s[..|x|] == x;
    assert s[|x| + 1..] == rest;
  }

  /** Reading the output back line by line gives one line per non-empty
      name, in ranked order, when neither the directory nor a name holds a
      newline. */
  lemma {:induction false} OutputLines(dir: string, names: seq<string>)
    requires NoNewline(dir)
    requires forall i :: 0 <= i < |names| ==> NoNewline(names[i])
    ensures Lines(Output(dir, names)) == Shown(dir, names)
    decreases |names|
  {
    if |names| == 0 {
      assert LineEnd("") == 0;
    } else {
      assert forall i :: 0 <= i < |names[1..]| ==> names[1..][i] == names[i + 1];
      OutputLines(dir, names[1..]);
      var rest := Output(dir, names[1..]);
      if names[0] != "" {
        var x := dir + "/" + names[0] + " ";
        NoNewlineAppend(dir, "/");
        NoNewlineAppend(dir + "/", names[0]);
        NoNewlineAppend(dir + "/" + names[0], " ");
        assert Shown(dir, names) == [x] + Shown(dir, names[1..]);
        assert Output(dir, names) == Line(dir, names[0]) + rest;
        LineTerminated(dir, names[0], rest);
        LinesCons(x, rest);
      } else {
        assert Output(dir, names) == rest;
      }
    }
  }

  /** The output of a list is the outputs of its parts, one after the other. */
  lemma {:induction false} OutputAppend(dir: string, a: seq<string>, b: seq<string>)
    ensures Output(dir, a + b) == Output(dir, a) + Output(dir, b)
    decreases |a|
  {
    if |a| > 0 {
      assert (a + b)[1..] == a[1..] + b;
      OutputAppend(dir, a[1..], b);
      ConcatAssoc3((if a[0] != "" then Line(dir, a[0]) else ""), Output(dir, a[1..]), Output(dir, b));
    } else {
      assert a + b == b;
    }
  }

  lemma ConcatAssoc3(x: string, y: string, z: string)
    ensures x + (y + z) == (x + y) + z
  {
  }

  /** The query words `search` scores. */
  function QueryTerms(e: Engine, query: string): seq<string> {
    ParseWords(Split(Lower(query)), e.stop)
  }

  /** Ranking the scores of a query lists the same files in order of
      non-increasing reference score. */
  lemma RankedByScore(W: int -> real, e: Engine, terms: seq<string>, sc: Scores, sorted: Scores)
    requires WellFormed(sc) && (forall k :: ScoreOf(sc, k) == RefScore(W, e, terms, k))
    requires |sorted.names| == |sorted.values| && Distinct(sorted.names)
    requires multiset(Zip(sorted)) == multiset(Zip(sc)) && SortedDesc(sorted.values)
    requires forall k :: k in sc.names <==> exists i :: 0 <= i < |terms| && Freq(e.termFreqs, terms[i], k).Some?
    ensures forall k :: k in sorted.names <==> exists i :: 0 <= i < |terms| && Freq(e.termFreqs, terms[i], k).Some?
    ensures forall a, b :: 0 <= a < b < |sorted.names| ==>
              RefScore(W, e, terms, sorted.names[a]) >= RefScore(W, e, terms, sorted.names[b])
  {
    SameScores(sc, sorted);
    forall a, b | 0 <= a < b < |sorted.names|
      ensures RefScore(W, e, terms, sorted.names[a]) >= RefScore(W, e, terms, sorted.names[b])
    {
      ScoreAt(sorted, a);
      ScoreAt(sorted, b);
    }
  }

  /** `search(query)` with the weighting `W`: it raises `ValueError` exactly
      when a query word that is not a stopword was never indexed. Otherwise
      `ranked` lists, once each, exactly the files some query word occurs
      in, by non-increasing score, where a file's score sums over the query
      words their weighted count over the file's word count; the result is
      one line per ranked file. */
  method SearchQuery(W: int -> real, e: Engine, query: string) returns (r: Result<string, EngineError>, ranked: seq<string>)
    requires EngineInv(e)
    ensures var terms := KeepWords(Split(Lower(query)), e.stop);
            && (r.Success? <==> forall i :: 0 <= i < |terms| ==> Contains(e.termFreqs, terms[i]))
            && (r.Failure? ==> r.error == UnknownTerm)
            && (r.Success? ==>
                  && r.value == Output(e.directory, ranked)
                  && Distinct(ranked)
                  && (forall k :: k in ranked <==> exists i :: 0 <= i < |terms| && Freq(e.termFreqs, terms[i], k).Some?)
                  && (forall a, b :: 0 <= a < b < |ranked| ==>
                        RefScore(W, e, terms, ranked[a]) >= RefScore(W, e, terms, ranked[b])))
  {
    QueryTokens(query, e.stop);
    var terms := QueryTerms(e, query);
    assert terms == KeepWords(Split(Lower(query)), e.stop);
    GetScoresSpec(W, e, terms);
    var scores := GetScores(W, e, terms);
    if scores.Failure? {
      return Failure(scores.error), [];
    }
    var sorted, order := Rank(scores.value);
    RankedByScore(W, e, terms, scores.value, sorted);
    ranked := sorted.names;
    r := Success(Output(e.directory, ranked));
  }
}
