/** Tokenisation of project4.py (`parse_words`): ASCII lower-casing,
    `str.split()` on whitespace, removal of newlines, and stopword filtering. */
module Text {

  predicate IsUpper(c: char) {
    'A' <= c <= 'Z'
  }

  function LowerChar(c: char): (r: char)
    ensures !IsUpper(r)
    ensures IsUpper(c) ==> r as int == c as int + 32
    ensures !IsUpper(c) ==> r == c
  {
    if IsUpper(c) then (c as int + 32) as char else c
  }

  /** `str.lower()`, restricted to ASCII letters. */
  function Lower(s: string): (r: string)
    ensures |r| == |s|
    ensures forall i :: 0 <= i < |s| ==> r[i] == LowerChar(s[i])
  {
    seq(|s|, i requires 0 <= i < |s| => LowerChar(s[i]))
  }

  /** No upper-case ASCII letter occurs in `s`. */
  predicate IsLowerCase(s: string) {
    forall i :: 0 <= i < |s| ==> !IsUpper(s[i])
  }

  /** The characters `str.split()` separates on: those for which Python's
      `str.isspace()` holds. */
  predicate IsSpace(c: char) {
    var n := c as int;
    || 0x09 <= n <= 0x0D || 0x1C <= n <= 0x20 || n == 0x85 || n == 0xA0
    || n == 0x1680 || 0x2000 <= n <= 0x200A || n == 0x2028 || n == 0x2029
    || n == 0x202F || n == 0x205F || n == 0x3000
  }

  predicate SpaceFree(s: string) {
    forall i :: 0 <= i < |s| ==> !IsSpace(s[i])
  }

  /** Length of the run of non-whitespace characters that starts `s`. */
  function TokenLength(s: string): (k: nat)
    ensures k <= |s|
    ensures SpaceFree(s[..k])
    ensures k < |s| ==> IsSpace(s[k])
  {
    if |s| == 0 || IsSpace(s[0]) then 0
    else
      var k := 1 + TokenLength(s[1..]);
      assert s[..k] == [s[0]] + s[1..][..k - 1];
      k
  }

  /** `str.split()` with no argument: the maximal runs of non-whitespace. */
  function Split(s: string): (ws: seq<string>)
    ensures forall i :: 0 <= i < |ws| ==> |ws[i]| > 0 && SpaceFree(ws[i])
    decreases |s|
  {
    if |s| == 0 then []
    else if IsSpace(s[0]) then Split(s[1..])
    else
      var k := TokenLength(s);
      [s[..k]] + Split(s[k..])
  }

  /** All characters of the tokens, in order. */
  function Concat(ws: seq<string>): string {
    if |ws| == 0 then [] else ws[0] + Concat(ws[1..])
  }

  /** The non-whitespace characters of `s`, in order. */
  function NonSpace(s: string): string {
    if |s| == 0 then []
    else (if IsSpace(s[0]) then [] else [s[0]]) + NonSpace(s[1..])
  }

  lemma {:induction false} NonSpaceAppend(a: string, b: string)
    ensures NonSpace(a + b) == NonSpace(a) + NonSpace(b)
    decreases |a|
  {
    if |a| == 0 {
      assert a + b == b;
    } else {
      assert (a + b)[0] == a[0];
      assert (a + b)[1..] == a[1..] + b;
      NonSpaceAppend(a[1..], b);
    }
  }

  lemma {:induction false} NonSpaceOfSpaceFree(s: string)
    requires SpaceFree(s)
    ensures NonSpace(s) == s
    decreases |s|
  {
    if |s| > 0 {
      NonSpaceOfSpaceFree(s[1..]);
      assert s == [s[0]] + s[1..];
    }
  }

  /** Splitting loses exactly the whitespace: gluing the tokens back together
      gives the non-whitespace characters of the input, in order. */
  lemma {:induction false} SplitKeepsEveryLetter(s: string)
    ensures Concat(Split(s)) == NonSpace(s)
    decreases |s|
  {
    if |s| > 0 {
      if IsSpace(s[0]) {
        SplitKeepsEveryLetter(s[1..]);
      } else {
        var k := TokenLength(s);
        SplitKeepsEveryLetter(s[k..]);
        assert s == s[..k] + s[k..];
        NonSpaceAppend(s[..k], s[k..]);
        NonSpaceOfSpaceFree(s[..k]);
        assert Split(s)[1..] == Split(s[k..]);
      }
    }
  }

  /** Tokens joined by single spaces. */
  function JoinSpaces(ws: seq<string>): string {
    if |ws| == 0 then []
    else if |ws| == 1 then ws[0]
    else ws[0] + " " + JoinSpaces(ws[1..])
  }

  lemma {:induction false} TokenLengthOfWord(w: string, rest: string)
    requires SpaceFree(w) && (|rest| == 0 || IsSpace(rest[0]))
    ensures TokenLength(w + rest) == |w|
    decreases |w|
  {
    if |w| > 0 {
      assert (w + rest)[1..] == w[1..] + rest;
      TokenLengthOfWord(w[1..], rest);
    } else {
      assert w + rest == rest;
    }
  }

  /** Splitting undoes joining with spaces, for non-empty tokens without
      whitespace. */
  lemma {:induction false} SplitJoinSpaces(ws: seq<string>)
    requires forall i :: 0 <= i < |ws| ==> |ws[i]| > 0 && SpaceFree(ws[i])
    ensures Split(JoinSpaces(ws)) == ws
    decreases |ws|
  {
    if |ws| == 1 {
      TokenLengthOfWord(ws[0], []);
      assert ws[0] + [] == ws[0];
      assert ws[0][|ws[0]|..] == [];
    } else if |ws| > 1 {
      var w := ws[0];
      var tail := JoinSpaces(ws[1..]);
      var s := w + " " + tail;
      assert s == w + (" " + tail);
      TokenLengthOfWord(w, " " + tail);
      assert s[..|w|] == w;
      assert s[|w|..] == " " + tail;
      assert Split(" " + tail) == Split(tail) by {
        assert (" " + tail)[1..] == tail;
      }
      SplitJoinSpaces(ws[1..]);
    }
  }

  /** A token followed by whitespace or nothing splits off as the first
      token. */
  lemma SplitTokenFirst(w: string, rest: string)
    requires |w| > 0 && SpaceFree(w) && (|rest| == 0 || IsSpace(rest[0]))
    ensures Split(w + rest) == [w] + Split(rest)
  {
    TokenLengthOfWord(w, rest);
    var s := w + rest;
    assert s[0] == w[0];
    assert s[..|w|] == w && s[|w|..] == rest;
  }

  /** Leading whitespace yields no token. */
  lemma SplitSpaceFirst(c: char, b: string)
    requires IsSpace(c)
    ensures Split([c] + b) == Split(b)
  {
    assert ([c] + b)[1..] == b;
  }

  /** A single whitespace character separates: the tokens of `a`, a blank
      and `b` are the tokens of `a` followed by those of `b`, whatever
      whitespace `a` or `b` start or end with. */
  lemma {:induction false} SplitAtSpace(a: string, c: char, b: string)
    requires IsSpace(c)
    ensures Split(a + [c] + b) == Split(a) + Split(b)
    decreases |a|, 1
  {
    if |a| == 0 {
      assert a + [c] + b == [c] + b;
      SplitSpaceFirst(c, b);
    } else if IsSpace(a[0]) {
      SplitAtSpaceLead(a, c, b);
    } else {
      SplitAtSpaceToken(a, c, b);
    }
  }

  lemma {:induction false} SplitAtSpaceLead(a: string, c: char, b: string)
    requires IsSpace(c) && |a| > 0 && IsSpace(a[0])
    ensures Split(a + [c] + b) == Split(a) + Split(b)
    decreases |a|, 0
  {
    assert a + [c] + b == [a[0]] + (a[1..] + [c] + b);
    assert a == [a[0]] + a[1..];
    SplitSpaceFirst(a[0], a[1..] + [c] + b);
    SplitSpaceFirst(a[0], a[1..]);
    SplitAtSpace(a[1..], c, b);
  }

  lemma {:induction false} SplitAtSpaceToken(a: string, c: char, b: string)
    requires IsSpace(c) && |a| > 0 && !IsSpace(a[0])
    ensures Split(a + [c] + b) == Split(a) + Split(b)
    decreases |a|, 0
  {
    var k := TokenLength(a);
    if k < |a| {
      var w := a[..k];
      var tail := a[k..];
      assert a == w + tail;
      assert tail[0] == a[k];
      var rest := tail + [c] + b;
      assert rest[0] == tail[0];
      calc {
        Split(a + [c] + b);
        { assert a + [c] + b == w + rest; }
        Split(w + rest);
        { SplitTokenFirst(w, rest); }
        [w] + Split(rest);
        { SplitAtSpace(tail, c, b); }
        [w] + (Split(tail) + Split(b));
        ([w] + Split(tail)) + Split(b);
        { SplitTokenFirst(w, tail); }
        Split(a) + Split(b);
      }
    } else {
      SplitAtSpaceWord(a, c, b);
    }
  }

  /** The case where all of `a` is one token. */
  lemma SplitAtSpaceWord(a: string, c: char, b: string)
    requires IsSpace(c) && |a| > 0 && SpaceFree(a)
    ensures Split(a + [c] + b) == Split(a) + Split(b)
  {
    calc {
      Split(a + [c] + b);
      { assert a + [c] + b == a + ([c] + b); }
      Split(a + ([c] + b));
      { SplitTokenFirst(a, [c] + b); }
      [a] + Split([c] + b);
      { SplitSpaceFirst(c, b); SplitOfToken(a); }
      Split(a) + Split(b);
    }
  }

  /** A non-empty run without whitespace is one token. */
  lemma SplitOfToken(w: string)
    requires |w| > 0 && SpaceFree(w)
    ensures Split(w) == [w]
  {
    SplitTokenFirst(w, []);
    assert w + [] == w;
  }

  /** `j.replace('\n', '')`. */
  function DropNewlines(w: string): (r: string)
    ensures forall i :: 0 <= i < |r| ==> r[i] != '\n'
  {
    if |w| == 0 then []
    else (if w[0] == '\n' then [] else [w[0]]) + DropNewlines(w[1..])
  }

  /** The replace works character by character: on a text made of two
      parts it is the replace of each part, one after the other. */
  lemma {:induction false} DropNewlinesAppend(a: string, b: string)
    ensures DropNewlines(a + b) == DropNewlines(a) + DropNewlines(b)
    decreases |a|
  {
    if |a| == 0 {
      assert a + b == b;
    } else {
      var head: string := if a[0] == '\n' then [] else [a[0]];
      assert (a + b)[0] == a[0];
      assert (a + b)[1..] == a[1..] + b;
      assert DropNewlines(a + b) == head + DropNewlines(a[1..] + b);
      assert DropNewlines(a) == head + DropNewlines(a[1..]);
      DropNewlinesAppend(a[1..], b);
    }
  }

  /** On one character the replace removes a newline and keeps anything
      else. */
  lemma DropNewlinesChar(c: char)
    ensures DropNewlines([c]) == (if c == '\n' then [] else [c])
  {
    assert [c][1..] == [];
  }

  /** A token of `split()` holds no newline, so the replace changes nothing. */
  lemma {:induction false} DropNewlinesOfToken(w: string)
    requires SpaceFree(w)
    ensures DropNewlines(w) == w
    decreases |w|
  {
    if |w| > 0 {
      assert IsSpace('\n');
      DropNewlinesOfToken(w[1..]);
      assert w == [w[0]] + w[1..];
    }
  }

  /** The kept tokens of one token list: newlines dropped, stopwords skipped. */
  function KeepWords(ws: seq<string>, stop: set<string>): seq<string> {
    if |ws| == 0 then []
    else
      var j := DropNewlines(ws[0]);
      (if j !in stop then [j] else []) + KeepWords(ws[1..], stop)
  }

  /** `parse_words(lines)`: every line is lower-cased and split, and the
      tokens that are not stopwords are collected in order. */
  function ParseWords(lines: seq<string>, stop: set<string>): seq<string> {
    if |lines| == 0 then []
    else KeepWords(Split(Lower(lines[0])), stop) + ParseWords(lines[1..], stop)
  }

  /** A well-formed word: non-empty, lower-case, without whitespace. */
  predicate IsWord(w: string) {
    |w| > 0 && SpaceFree(w) && IsLowerCase(w)
  }

  lemma {:induction false} LowerIsLowerCase(s: string)
    ensures IsLowerCase(Lower(s))
  {
  }

  lemma {:induction false} KeepWordsSpec(ws: seq<string>, stop: set<string>)
    requires forall i :: 0 <= i < |ws| ==> |ws[i]| > 0 && SpaceFree(ws[i])
    ensures forall w :: w in KeepWords(ws, stop) <==> w in ws && w !in stop
    decreases |ws|
  {
    if |ws| > 0 {
      DropNewlinesOfToken(ws[0]);
      KeepWordsSpec(ws[1..], stop);
      assert forall w :: w in ws <==> w == ws[0] || w in ws[1..];
    }
  }

  /** `parse_words` yields words (non-empty, lower-case, without whitespace)
      that are not stopwords, each a token of some lower-cased line, and a
      token of a lower-cased line survives exactly when it is not a
      stopword. */
  lemma {:induction false} ParseWordsSpec(lines: seq<string>, stop: set<string>)
    ensures forall w :: w in ParseWords(lines, stop) ==> IsWord(w) && w !in stop
    ensures forall i, w :: 0 <= i < |lines| && w in Split(Lower(lines[i])) ==>
              (w in ParseWords(lines, stop) <==> w !in stop)
    ensures forall w :: w in ParseWords(lines, stop) ==>
              exists i :: 0 <= i < |lines| && w in Split(Lower(lines[i]))
    decreases |lines|
  {
    if |lines| > 0 {
      var toks := Split(Lower(lines[0]));
      KeepWordsSpec(toks, stop);
      SplitTokensLowerCase(Lower(lines[0]));
      ParseWordsSpec(lines[1..], stop);
      forall w | w in ParseWords(lines, stop)
        ensures exists i :: 0 <= i < |lines| && w in Split(Lower(lines[i]))
      {
        if w in KeepWords(toks, stop) {
          assert w in Split(Lower(lines[0]));
        } else {
          var i :| 0 <= i < |lines[1..]| && w in Split(Lower(lines[1..][i]));
          assert lines[1..][i] == lines[i + 1];
        }
      }
      forall i, w | 0 <= i < |lines| && w in Split(Lower(lines[i]))
        ensures w in ParseWords(lines, stop) <==> w !in stop
      {
        if i > 0 {
          assert lines[1..][i - 1] == lines[i];
        }
      }
    }
  }

  /** Tokens of a lower-case string are lower-case. */
  lemma {:induction false} SplitTokensLowerCase(s: string)
    requires IsLowerCase(s)
    ensures forall w :: w in Split(s) ==> IsLowerCase(w)
    decreases |s|
  {
    if |s| > 0 {
      if IsSpace(s[0]) {
        SplitTokensLowerCase(s[1..]);
      } else {
        var k := TokenLength(s);
        SplitTokensLowerCase(s[k..]);
      }
    }
  }

  /** `parse_words` of several lines is the words of each line in turn. */
  lemma {:induction false} ParseWordsAppend(a: seq<string>, b: seq<string>, stop: set<string>)
    ensures ParseWords(a + b, stop) == ParseWords(a, stop) + ParseWords(b, stop)
    decreases |a|
  {
    if |a| == 0 {
      assert a + b == b;
    } else {
      assert (a + b)[0] == a[0];
      assert (a + b)[1..] == a[1..] + b;
      ParseWordsAppend(a[1..], b, stop);
    }
  }

  lemma {:induction false} KeepWordsNoStop(ws: seq<string>, stop: set<string>)
    requires forall i :: 0 <= i < |ws| ==> SpaceFree(ws[i]) && ws[i] !in stop
    ensures KeepWords(ws, stop) == ws
    decreases |ws|
  {
    if |ws| > 0 {
      DropNewlinesOfToken(ws[0]);
      KeepWordsNoStop(ws[1..], stop);
    }
  }

  lemma {:induction false} LowerOfLowerCase(s: string)
    requires IsLowerCase(s)
    ensures Lower(s) == s
  {
  }

  /** Order is kept: a line of lower-case non-stopwords separated by spaces
      parses back to exactly those words. */
  lemma ParseWordsRoundTrip(ws: seq<string>, stop: set<string>)
    requires forall i :: 0 <= i < |ws| ==> IsWord(ws[i]) && ws[i] !in stop
    ensures ParseWords([JoinSpaces(ws)], stop) == ws
  {
    var line := JoinSpaces(ws);
    JoinSpacesLowerCase(ws);
    LowerOfLowerCase(line);
    SplitJoinSpaces(ws);
    KeepWordsNoStop(ws, stop);
    assert ParseWords([line], stop) == KeepWords(Split(Lower(line)), stop) + ParseWords([], stop);
  }

  lemma {:induction false} JoinSpacesLowerCase(ws: seq<string>)
    requires forall i :: 0 <= i < |ws| ==> IsLowerCase(ws[i])
    ensures IsLowerCase(JoinSpaces(ws))
    decreases |ws|
  {
    if |ws| > 1 {
      JoinSpacesLowerCase(ws[1..]);
      var a := ws[0] + " ";
      var j := JoinSpaces(ws[1..]);
      assert ws[0] + " " + j == a + j;
      forall i | 0 <= i < |a + j|
        ensures !IsUpper((a + j)[i])
      {
        if i >= |a| {
          assert (a + j)[i] == j[i - |a|];
        }
      }
    }
  }

  /** `search` lower-cases and splits the query before `parse_words` lower-
      cases and splits each piece again; the second pass changes nothing. */
  lemma QueryTokens(query: string, stop: set<string>)
    ensures ParseWords(Split(Lower(query)), stop) == KeepWords(Split(Lower(query)), stop)
  {
    var toks := Split(Lower(query));
    LowerIsLowerCase(query);
    SplitTokensLowerCase(Lower(query));
    ReparseTokens(toks, stop);
  }

  lemma SplitOfWord(w: string)
    requires IsWord(w)
    ensures Split(Lower(w)) == [w]
  {
    LowerOfLowerCase(w);
    SplitJoinSpaces([w]);
  }

  lemma KeepWordsCons(ws: seq<string>, stop: set<string>)
    requires |ws| > 0
    ensures KeepWords(ws, stop) == KeepWords([ws[0]], stop) + KeepWords(ws[1..], stop)
  {
    assert [ws[0]][1..] == [];
  }

  /** The filter works token by token: the kept tokens of two lists are
      those of each list in turn, so order and repeats are kept. */
  lemma {:induction false} KeepWordsAppend(a: seq<string>, b: seq<string>, stop: set<string>)
    ensures KeepWords(a + b, stop) == KeepWords(a, stop) + KeepWords(b, stop)
    decreases |a|
  {
    if |a| == 0 {
      assert a + b == b;
    } else {
      assert (a + b)[0] == a[0];
      assert (a + b)[1..] == a[1..] + b;
      KeepWordsAppend(a[1..], b, stop);
    }
  }

  /** A token without whitespace is kept, unchanged, exactly when it is not
      a stopword. */
  lemma KeepWordsOne(w: string, stop: set<string>)
    requires SpaceFree(w)
    ensures KeepWords([w], stop) == if w in stop then [] else [w]
  {
    DropNewlinesOfToken(w);
    assert [w][1..] == [];
  }

  /** A word that is not a stopword is kept as often as it occurs among the
      tokens; a stopword never is. */
  lemma {:induction false} KeepWordsCount(ws: seq<string>, stop: set<string>, w: string)
    requires forall i :: 0 <= i < |ws| ==> SpaceFree(ws[i])
    ensures multiset(KeepWords(ws, stop))[w] == if w in stop then 0 else multiset(ws)[w]
    decreases |ws|
  {
    if |ws| > 0 {
      KeepWordsCons(ws, stop);
      KeepWordsOne(ws[0], stop);
      KeepWordsCount(ws[1..], stop, w);
      assert ws == [ws[0]] + ws[1..];
    }
  }

  /** The tokens of every line, lower-cased and split, one line after the
      other. */
  function AllTokens(lines: seq<string>): (ts: seq<string>)
    ensures forall i :: 0 <= i < |ts| ==> |ts[i]| > 0 && SpaceFree(ts[i])
    decreases |lines|
  {
    if |lines| == 0 then []
    else
      var rest := AllTokens(lines[1..]);
      var first := Split(Lower(lines[0]));
      assert forall i :: 0 <= i < |rest| ==> (first + rest)[|first| + i] == rest[i];
      first + rest
  }

  /** `parse_words` is the stopword filter over all the lines' tokens, in
      order and with repeats. */
  lemma {:induction false} ParseWordsFilter(lines: seq<string>, stop: set<string>)
    ensures ParseWords(lines, stop) == KeepWords(AllTokens(lines), stop)
    decreases |lines|
  {
    if |lines| > 0 {
      ParseWordsFilter(lines[1..], stop);
      KeepWordsAppend(Split(Lower(lines[0])), AllTokens(lines[1..]), stop);
    }
  }

  /** A word that is not a stopword occurs in the result of `parse_words`
      as often as it occurs among the tokens of the lines; a stopword does
      not occur. */
  lemma ParseWordsCount(lines: seq<string>, stop: set<string>, w: string)
    ensures multiset(ParseWords(lines, stop))[w] == if w in stop then 0 else multiset(AllTokens(lines))[w]
  {
    ParseWordsFilter(lines, stop);
    KeepWordsCount(AllTokens(lines), stop, w);
  }

  lemma {:induction false} ReparseTokens(toks: seq<string>, stop: set<string>)
    requires forall i :: 0 <= i < |toks| ==> IsWord(toks[i])
    ensures ParseWords(toks, stop) == KeepWords(toks, stop)
    decreases |toks|
  {
    if |toks| > 0 {
      SplitOfWord(toks[0]);
      KeepWordsCons(toks, stop);
      ReparseTokens(toks[1..], stop);
    }
  }
}
