/** The splitting loop of `import_stopwords` (project4.py): the file's text is
    read character by character, and every `' '` puts the text gathered since
    the previous `' '` into the table, with the word as both key and data. */
module Stopwords {
  import opened Wrappers
  import opened Nodes
  import opened LinearTable
  import opened TableFacts
  import opened TableLookup

  predicate NoBlank(s: string) {
    forall i :: 0 <= i < |s| ==> s[i] != ' '
  }

  /** Number of `' '` characters in `s`. */
  function Blanks(s: string): nat {
    multiset(s)[' ']
  }

  /** The loop itself: `pending` is `temp_string`, `content` the characters
      not read yet. */
  function ImportLoop(t: Table<string>, pending: string, content: string): Result<Table<string>, TableError>
    decreases |content|
  {
    if |content| == 0 then Success(t)
    else if content[0] == ' ' then
      var next :- Put(t, pending, pending);
      ImportLoop(next, "", content[1..])
    else ImportLoop(t, pending + [content[0]], content[1..])
  }

  /** `import_stopwords(filename, hashtable)` once the file's text is read. */
  function ImportStopwords(t: Table<string>, content: string): Result<Table<string>, TableError> {
    ImportLoop(t, "", content)
  }

  /** The words the loop puts, in order. */
  function Chunks(pending: string, content: string): seq<string>
    decreases |content|
  {
    if |content| == 0 then []
    else if content[0] == ' ' then [pending] + Chunks("", content[1..])
    else Chunks(pending + [content[0]], content[1..])
  }

  /** What is left in `temp_string` at the end and never put. */
  function Trailing(pending: string, content: string): string
    decreases |content|
  {
    if |content| == 0 then pending
    else if content[0] == ' ' then Trailing("", content[1..])
    else Trailing(pending + [content[0]], content[1..])
  }

  /** Each word followed by one blank. */
  function Terminated(ws: seq<string>): string {
    if |ws| == 0 then [] else ws[0] + " " + Terminated(ws[1..])
  }

  /** The node each put leaves behind. */
  function Pairs(ws: seq<string>): (es: seq<Entry<string>>)
    ensures |es| == |ws|
    ensures forall i :: 0 <= i < |ws| ==> es[i] == Node(ws[i], ws[i])
  {
    if |ws| == 0 then [] else [Node(ws[0], ws[0])] + Pairs(ws[1..])
  }

  lemma BlanksCons(c: char, s: string)
    ensures Blanks([c] + s) == (if c == ' ' then 1 else 0) + Blanks(s)
  {
    assert multiset([c] + s) == multiset([c]) + multiset(s);
  }

  /** One word is put per blank of the content. */
  lemma {:induction false} ChunksPerBlank(pending: string, content: string)
    ensures |Chunks(pending, content)| == Blanks(content)
    decreases |content|
  {
    if |content| > 0 {
      assert content == [content[0]] + content[1..];
      BlanksCons(content[0], content[1..]);
      if content[0] == ' ' {
        ChunksPerBlank("", content[1..]);
      } else {
        ChunksPerBlank(pending + [content[0]], content[1..]);
      }
    }
  }

  /** The words and the dropped tail rebuild the text exactly, and none of
      them holds a blank: the words are the blank-separated fields and the
      text after the last blank is lost. */
  lemma {:induction false} ChunksRebuild(pending: string, content: string)
    requires NoBlank(pending)
    ensures pending + content == Terminated(Chunks(pending, content)) + Trailing(pending, content)
    ensures forall i :: 0 <= i < |Chunks(pending, content)| ==> NoBlank(Chunks(pending, content)[i])
    ensures NoBlank(Trailing(pending, content))
    decreases |content|
  {
    if |content| > 0 {
      var c := content[0];
      var rest := content[1..];
      assert content == [c] + rest;
      if c == ' ' {
        ChunksRebuild("", rest);
        var ws := Chunks("", rest);
        assert Chunks(pending, content) == [pending] + ws;
        assert Terminated([pending] + ws) == pending + " " + Terminated(ws) by {
          assert ([pending] + ws)[1..] == ws;
        }
        assert pending + content == pending + " " + ("" + rest);
      } else {
        ChunksRebuild(pending + [c], rest);
        assert pending + content == (pending + [c]) + rest;
      }
    }
  }

  lemma NoBlankAppend(pending: string, c: char)
    requires NoBlank(pending) && c != ' '
    ensures NoBlank(pending + [c])
  {
  }

  /** Conversely, text made of blank-free words each followed by a blank,
      then a blank-free tail, splits back into exactly those words. */
  lemma {:induction false} ChunksOfTerminated(pending: string, ws: seq<string>, tail: string)
    requires NoBlank(pending) && NoBlank(tail)
    requires forall i :: 0 <= i < |ws| ==> NoBlank(ws[i])
    requires |ws| > 0
    ensures Chunks(pending, Terminated(ws) + tail) == [pending + ws[0]] + ws[1..]
    ensures Trailing(pending, Terminated(ws) + tail) == tail
    decreases |ws|, |ws[0]|
  {
    var w := ws[0];
    if |w| == 0 {
      var rest := Terminated(ws[1..]) + tail;
      assert Terminated(ws) + tail == [' '] + rest;
      assert pending + w == pending;
      if |ws| == 1 {
        assert rest == tail by { assert Terminated(ws[1..]) == []; }
        TailChunks("", tail);
      } else {
        ChunksOfTerminated("", ws[1..], tail);
        assert "" + ws[1] == ws[1];
        assert [ws[1]] + ws[1..][1..] == ws[1..];
      }
    } else {
      var c := w[0];
      var ws' := [w[1..]] + ws[1..];
      assert Terminated(ws) + tail == [c] + (Terminated(ws') + tail) by {
        assert ws'[1..] == ws[1..];
        assert w == [c] + w[1..];
      }
      NoBlankAppend(pending, c);
      ChunksOfTerminated(pending + [c], ws', tail);
      assert (pending + [c]) + w[1..] == pending + w by {
        assert w == [c] + w[1..];
      }
      assert ws'[1..] == ws[1..];
    }
  }

  /** A blank-free text puts nothing and is all left over. */
  lemma {:induction false} TailChunks(pending: string, tail: string)
    requires NoBlank(tail)
    ensures Chunks(pending, tail) == [] && Trailing(pending, tail) == pending + tail
    decreases |tail|
  {
    if |tail| > 0 {
      TailChunks(pending + [tail[0]], tail[1..]);
      assert (pending + [tail[0]]) + tail[1..] == pending + tail by {
        assert tail == [tail[0]] + tail[1..];
      }
    } else {
      assert pending + tail == pending;
    }
  }

  lemma PairsCons(w: string, ws: seq<string>)
    ensures Pairs([w] + ws) == [Node(w, w)] + Pairs(ws)
  {
    assert ([w] + ws)[1..] == ws;
  }

  lemma ConcatAssoc<T>(a: seq<T>, b: seq<T>, c: seq<T>)
    ensures (a + b) + c == a + (b + c)
  {
  }

  /** One step of the loop on a blank. */
  lemma BlankStep(t: Table<string>, pending: string, content: string)
    requires Healthy(t) && |content| > 0 && content[0] == ' '
    ensures Put(t, pending, pending).Success?
    ensures ImportLoop(t, pending, content) == ImportLoop(Put(t, pending, pending).value, "", content[1..])
    ensures Chunks(pending, content) == [pending] + Chunks("", content[1..])
    ensures Healthy(Put(t, pending, pending).value)
    ensures Entries(Put(t, pending, pending).value.slots) == Entries(t.slots) + [Node(pending, pending)]
  {
    PutHealthy(t, pending, pending);
  }

  /** On a healthy table the loop always succeeds; the table then holds its
      old entries followed by one `Node(w, w)` per word, in order. */
  lemma {:induction false} ImportLoopSpec(t: Table<string>, pending: string, content: string)
    requires Healthy(t)
    ensures ImportLoop(t, pending, content).Success?
    ensures Healthy(ImportLoop(t, pending, content).value)
    ensures Entries(ImportLoop(t, pending, content).value.slots) ==
              Entries(t.slots) + Pairs(Chunks(pending, content))
    ensures ImportLoop(t, pending, content).value.numItems == t.numItems + |Chunks(pending, content)|
    decreases |content|
  {
    if |content| == 0 {
      assert Entries(t.slots) + Pairs([]) == Entries(t.slots);
    } else if content[0] == ' ' {
      var rest := content[1..];
      BlankStep(t, pending, content);
      var next := Put(t, pending, pending).value;
      var ws := Chunks("", rest);
      ImportLoopSpec(next, "", rest);
      var r := ImportLoop(next, "", rest).value;
      assert ImportLoop(t, pending, content) == Success(r);
      PairsCons(pending, ws);
      var old_es := Entries(t.slots);
      var e := Node(pending, pending);
      assert Entries(r.slots) == (old_es + [e]) + Pairs(ws);
      ConcatAssoc(old_es, [e], Pairs(ws));
      assert Healthy(r);
      assert r.numItems == t.numItems + 1 + |ws|;
    } else {
      ImportLoopSpec(t, pending + [content[0]], content[1..]);
    }
  }

  lemma {:induction false} LookupPairs(ws: seq<string>, w: string)
    ensures Lookup(Pairs(ws), w) == (if w in ws then Some(w) else None)
    decreases |ws|
  {
    if |ws| > 0 {
      LookupPairs(ws[1..], w);
      assert Pairs(ws)[1..] == Pairs(ws[1..]);
      assert w in ws <==> w == ws[0] || w in ws[1..];
    }
  }

  /** Reading a stopword file into a new `HashTableLinear()`: one item per
      blank, and a word is in the table exactly when it is one of the
      blank-terminated fields, stored as its own data. */
  lemma ImportIntoNewTable(content: string, w: string)
    ensures ImportStopwords(Empty(2), content).Success?
    ensures ImportStopwords(Empty(2), content).value.numItems == Blanks(content)
    ensures Contains(ImportStopwords(Empty(2), content).value, w) <==> w in Chunks("", content)
    ensures Contains(ImportStopwords(Empty(2), content).value, w) ==>
              Get(ImportStopwords(Empty(2), content).value, w) == Some(w)
  {
    EmptyHealthy<string>(2);
    ImportLoopSpec(Empty(2), "", content);
    ChunksPerBlank("", content);
    var r := ImportStopwords(Empty(2), content).value;
    GetIsLookup(r, w);
    LookupPairs(Chunks("", content), w);
    assert Entries(r.slots) == Pairs(Chunks("", content)) by {
      assert Entries(Empty<string>(2).slots) == [];
    }
  }

  /** The set of keys of a table: what `j not in self.stopwords` tests. */
  function KeySet<D>(t: Table<D>): set<string> {
    Keys(Entries(t.slots))
  }

  function Keys<D>(es: seq<Entry<D>>): (ks: set<string>)
    ensures forall k :: k in ks <==> exists i :: 0 <= i < |es| && es[i].key == k
  {
    set i | 0 <= i < |es| :: es[i].key
  }

  lemma {:induction false} LookupSomeIff<D>(es: seq<Entry<D>>, k: string)
    ensures Lookup(es, k).Some? <==> exists i :: 0 <= i < |es| && es[i].key == k
    decreases |es|
  {
    if |es| > 0 {
      LookupSomeIff(es[1..], k);
      if Lookup(es[1..], k).Some? {
        var i :| 0 <= i < |es[1..]| && es[1..][i].key == k;
        assert es[i + 1].key == k;
      }
    }
  }

  /** `in` on a table is membership in its key set. */
  lemma ContainsIsKeySet<D>(t: Table<D>, k: string)
    ensures Contains(t, k) <==> k in KeySet(t)
  {
    GetIsLookup(t, k);
    LookupSomeIff(Entries(t.slots), k);
  }
}
