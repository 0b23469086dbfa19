// Growing the local dictionary after a phrase: each group of the phrase kept
// is inserted, then each of its words that is not the whole group
// (encode/encode.cc:786-817). The dictionary is known by the texts inserted
// into it, in order.

module Dictionary {
  import opened Types

  /** The characters operator>> skips between words (isspace). */
  predicate IsWhite(c: char)
  {
    c == ' ' || c == '\t' || c == '\n' || c == '\r' || c == 11 as char || c == 12 as char
  }

  /** The length of the run of non-white characters s starts with. */
  function Run(s: string): (n: nat)
    ensures n <= |s|
    ensures forall i :: 0 <= i < n ==> !IsWhite(s[i])
    ensures n < |s| ==> IsWhite(s[n])
  {
    if s == [] || IsWhite(s[0]) then 0 else 1 + Run(s[1..])
  }

  /** The words an istringstream over s yields, in order. */
  function Tokens(s: string): seq<string>
    decreases |s|
  {
    if s == [] then []
    else if IsWhite(s[0]) then Tokens(s[1..])
    else
      var n := Run(s);
      [s[..n]] + Tokens(s[n..])
  }

  function Concat(ss: seq<string>): string
  {
    if ss == [] then "" else ss[0] + Concat(ss[1..])
  }

  /** s without its white characters. */
  function NonWhite(s: string): string
  {
    if s == [] then "" else (if IsWhite(s[0]) then "" else [s[0]]) + NonWhite(s[1..])
  }

  lemma {:induction false} NonWhiteAppend(a: string, b: string)
    ensures NonWhite(a + b) == NonWhite(a) + NonWhite(b)
  {
    if a != [] {
      assert (a + b)[1..] == a[1..] + b;
      NonWhiteAppend(a[1..], b);
    } else {
      assert a + b == b;
    }
  }

  lemma {:induction false} NonWhiteOfWord(s: string)
    requires forall i :: 0 <= i < |s| ==> !IsWhite(s[i])
    ensures NonWhite(s) == s
  {
    if s != [] {
      NonWhiteOfWord(s[1..]);
      assert s == [s[0]] + s[1..];
    }
  }

  /** The words are non-empty and hold no white character. */
  lemma {:induction false} TokensAreWords(s: string)
    ensures forall t :: t in Tokens(s) ==> |t| > 0 && forall i :: 0 <= i < |t| ==> !IsWhite(t[i])
    decreases |s|
  {
    if s == [] {
    } else if IsWhite(s[0]) {
      TokensAreWords(s[1..]);
    } else {
      var n := Run(s);
      TokensAreWords(s[n..]);
    }
  }

  /** Together the words are exactly the non-white characters of s, in
      order. */
  lemma {:induction false} TokensCover(s: string)
    ensures Concat(Tokens(s)) == NonWhite(s)
    decreases |s|
  {
    if s == [] {
    } else if IsWhite(s[0]) {
      TokensCover(s[1..]);
      assert NonWhite(s) == NonWhite(s[1..]);
    } else {
      var n := Run(s);
      var rest := Tokens(s[n..]);
      TokensCover(s[n..]);
      ConcatCons(s[..n], rest);
      NonWhiteOfWord(s[..n]);
      NonWhiteAppend(s[..n], s[n..]);
      assert s[..n] + s[n..] == s;
    }
  }

  lemma ConcatCons(t: string, rest: seq<string>)
    ensures Concat([t] + rest) == t + Concat(rest)
  {
    assert ([t] + rest)[1..] == rest;
  }

  /** The words of a group other than the group itself, in order. */
  function Others(toks: seq<string>, whole: string): (r: seq<string>)
    ensures forall x :: x in r <==> x in toks && x != whole
  {
    if toks == [] then []
    else
      var last := toks[|toks| - 1];
      Others(toks[..|toks| - 1], whole) + (if last != whole then [last] else [])
  }

  /** The insertions made for the groups ws, in order: each group, then each
      of its words that differs from it. */
  function Inserted(ws: seq<CompressedWord>): seq<string>
  {
    if ws == [] then []
    else
      var w := ws[|ws| - 1];
      Inserted(ws[..|ws| - 1]) + [w.words] + Others(Tokens(w.words), w.words)
  }

  /** The dictionary afterwards holds exactly the groups of the phrase and
      their words, besides what it held before. */
  lemma {:induction false} InsertedContents(ws: seq<CompressedWord>, x: string)
    ensures x in Inserted(ws) <==> exists k :: 0 <= k < |ws| && (x == ws[k].words || x in Tokens(ws[k].words))
  {
    if ws != [] {
      var init, w := ws[..|ws| - 1], ws[|ws| - 1];
      InsertedContents(init, x);
      assert Inserted(ws) == Inserted(init) + [w.words] + Others(Tokens(w.words), w.words);
      if x in Inserted(ws) {
        if x in Inserted(init) {
          var k :| 0 <= k < |init| && (x == init[k].words || x in Tokens(init[k].words));
          assert ws[k] == init[k];
        } else {
          assert x == ws[|ws| - 1].words || x in Tokens(ws[|ws| - 1].words);
        }
      }
      if exists k :: 0 <= k < |ws| && (x == ws[k].words || x in Tokens(ws[k].words)) {
        var k :| 0 <= k < |ws| && (x == ws[k].words || x in Tokens(ws[k].words));
        if k < |ws| - 1 {
          assert ws[k] == init[k];
        }
      }
    }
  }

  lemma OthersSnoc(toks: seq<string>, j: nat, whole: string)
    requires j < |toks|
    ensures Others(toks[..j + 1], whole) == Others(toks[..j], whole) + (if toks[j] != whole then [toks[j]] else [])
  {
    assert toks[..j + 1][..j] == toks[..j];
  }

  lemma InsertedSnoc(ws: seq<CompressedWord>, k: nat)
    requires k < |ws|
    ensures Inserted(ws[..k + 1]) == Inserted(ws[..k]) + [ws[k].words] + Others(Tokens(ws[k].words), ws[k].words)
  {
    assert ws[..k + 1][..k] == ws[..k];
  }

  /** The dictionary update loop over the groups of the phrase kept. */
  method UpdateLocalDictionary(log: seq<string>, wordsSet: seq<CompressedWord>) returns (log': seq<string>)
    ensures log' == log + Inserted(wordsSet)
  {
    log' := log;
    var k := 0;
    while k < |wordsSet|
      invariant 0 <= k <= |wordsSet|
      invariant log' == log + Inserted(wordsSet[..k])
    {
      var tmp := wordsSet[k].words;
      InsertedSnoc(wordsSet, k);
      ghost var others := Others(Tokens(tmp), tmp);
      assert log + Inserted(wordsSet[..k + 1]) == (log' + [tmp]) + others;
      log' := log' + [tmp];
      log' := InsertWords(log', tmp);
      k := k + 1;
    }
    assert wordsSet[..k] == wordsSet;
  }

  /** The inner loop: each word of the group read back, inserted unless it is
      the whole group. */
  method InsertWords(log: seq<string>, tmp: string) returns (log': seq<string>)
    ensures log' == log + Others(Tokens(tmp), tmp)
  {
    log' := log;
    var toks := Tokens(tmp);
    var j := 0;
    while j < |toks|
      invariant 0 <= j <= |toks|
      invariant log' == log + Others(toks[..j], tmp)
    {
      if tmp != toks[j] {
        log' := log' + [toks[j]];
      }
      OthersSnoc(toks, j, tmp);
      j := j + 1;
    }
    assert toks[..j] == toks;
  }
}
