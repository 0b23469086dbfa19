// bestCompression as a whole: normalise the text, encode it phrase by phrase
// while the local dictionary and the memo cache grow, and frame the result
// with the period flag, the end marker and the bit vector
// (encode/encode.cc:472-858).

module Driver {
  import opened Types
  import opened Combinations
  import opened Candidates
  import opened Normalise
  import opened Phrases
  import opened Selection
  import opened Segmentation
  import opened Dictionary

  // ------------------------------------------------------------ the output

  /** The compressed strings of the groups, one after the other. */
  function GroupStrings(ws: seq<CompressedWord>): string
  {
    if ws == [] then "" else GroupStrings(ws[..|ws| - 1]) + ws[|ws| - 1].compressedString
  }

  /** What one phrase adds to the result: the number of groups, then each
      group's compressed string (encode/encode.cc:819-833). */
  function PhraseOutput(codec: Codec, best: CompressedPhrase): string
  {
    codec.binary(best.numberSplits + 1, codec.binaryDefault) + GroupStrings(best.wordsSet)
  }

  /** Group k's compressed string sits right after those of the groups
      before it, so a reader that knows their lengths finds each one. */
  lemma {:induction false} GroupStringsAt(ws: seq<CompressedWord>, k: nat)
    requires k < |ws|
    ensures var off := |GroupStrings(ws[..k])|;
      off + |ws[k].compressedString| <= |GroupStrings(ws)|
      && GroupStrings(ws)[off..off + |ws[k].compressedString|] == ws[k].compressedString
    decreases |ws|
  {
    var init := ws[..|ws| - 1];
    assert GroupStrings(ws) == GroupStrings(init) + ws[|ws| - 1].compressedString;
    if k < |ws| - 1 {
      GroupStringsAt(init, k);
      assert init[..k] == ws[..k] && init[k] == ws[k];
    } else {
      assert ws[..k] == init;
    }
  }

  lemma GroupStringsSnoc(ws: seq<CompressedWord>, k: nat)
    requires k < |ws|
    ensures GroupStrings(ws[..k + 1]) == GroupStrings(ws[..k]) + ws[k].compressedString
  {
    assert ws[..k + 1][..k] == ws[..k];
  }

  /** The result with one more phrase appended (encode/encode.cc:819-833). */
  method AppendPhrase(codec: Codec, finalRes: string, best: CompressedPhrase) returns (res: string)
    ensures res == finalRes + PhraseOutput(codec, best)
  {
    var count := codec.binary(best.numberSplits + 1, codec.binaryDefault);
    res := finalRes + count;
    var groups := best.wordsSet;
    var k := 0;
    while k < |groups|
      invariant 0 <= k <= |groups|
      invariant res == (finalRes + count) + GroupStrings(groups[..k])
    {
      GroupStringsSnoc(groups, k);
      assert (finalRes + count) + GroupStrings(groups[..k + 1]) == res + groups[k].compressedString;
      res := res + groups[k].compressedString;
      k := k + 1;
    }
    assert groups[..k] == groups;
    assert (finalRes + count) + GroupStrings(groups) == finalRes + (count + GroupStrings(groups));
  }

  // ------------------------------------------------------------ the phrases

  /** The phrases encoded in order, each with the dictionary the phrases
      before it grew and the cache they left. */
  function EncodePhrases(env: Env, ps: seq<string>, localLog: seq<string>, cache: CacheLog): string
    requires forall p :: p in ps ==> InnerSpaces(p)
  {
    if ps == [] then ""
    else
      var r := BestSplit(env, ps[0], localLog, cache);
      PhraseOutput(env.codec, r.0) + EncodePhrases(env, ps[1..], localLog + Inserted(r.0.wordsSet), r.1)
  }

  /** After a phrase the dictionary has gained exactly the groups of the
      phrase kept and the words of those groups. */
  lemma PhraseDictionary(env: Env, P: string, localLog: seq<string>, cache: CacheLog, x: string)
    requires InnerSpaces(P) && FindsLogged(env.oracles) && CacheKeyed(cache)
    ensures var best := BestSplit(env, P, localLog, cache).0;
      && Cuttable(P, best.splits)
      && var gs := Groups(P, best.splits);
         x in Inserted(best.wordsSet) <==> exists k :: 0 <= k < |gs| && (x == gs[k] || x in Tokens(gs[k]))
  {
    BestSplitWords(env, P, localLog, cache);
    var best := BestSplit(env, P, localLog, cache).0;
    InsertedContents(best.wordsSet, x);
  }

  /** Where a phrase may start: at the beginning or right after a period. */
  predicate PhraseStart(T: string, s: nat)
  {
    s == 0 || (s <= |T| && T[s - 1] == '.')
  }

  /** Every phrase of a tidied text has only inner single spaces. */
  lemma {:induction false} PhrasesInner(T: string, s: nat)
    requires |T| > 0 && SpacesOk(T)
    requires s < LoopBound(T) ==> PhraseStart(T, s)
    ensures forall p :: p in PhrasesFrom(T, s, LoopBound(T)) ==> InnerSpaces(p)
    decreases |T| - s
  {
    var bound := LoopBound(T);
    if s < bound {
      var e := PhraseEnd(T, s, bound);
      PhraseEndFirstDot(T, s, bound);
      assert e == |T| || T[e] == '.';
      PhraseSpaces(T, s, e);
      PhrasesInner(T, e + 1);
    }
  }

  /** The normalised text and the bit vector that lets it be restored:
      simplifyText, its bits run-length encoded, then removeSpaces, whose
      bits go first (encode/encode.cc:483-496). */
  function Normalised(codec: Codec, text: string): (r: (string, string))
    ensures SpacesOk(r.0)
  {
    var simp := SimplifyFrom(text, true);
    var bits := codec.rle(simp.bits);
    var spaced := RemovedSpaces(codec, simp.text);
    RemoveSpacesTidy(codec, simp.text);
    (spaced.0, spaced.1 + bits)
  }

  /** "1" when the normalised text ends with a period, "0" otherwise. */
  function DotFlag(T: string): string
    requires |T| > 0
  {
    if T[|T| - 1] == '.' then "1" else "0"
  }

  /** Where the text stands before the phrase starting at s is read. */
  predicate Tidied(T: string, s: nat)
  {
    |T| > 0 && SpacesOk(T) && (s < LoopBound(T) ==> PhraseStart(T, s))
  }

  /** The output of the phrases from s on. */
  function Rest(env: Env, T: string, s: nat, localLog: seq<string>, cache: CacheLog): string
    requires Tidied(T, s)
  {
    PhrasesInner(T, s);
    EncodePhrases(env, PhrasesFrom(T, s, LoopBound(T)), localLog, cache)
  }

  /** The string bestCompression returns. The source reads the last
      character of the normalised text, so it must not be empty. */
  function Compress(env: Env, text: string): string
    requires |Normalised(env.codec, text).0| > 0
  {
    var n := Normalised(env.codec, text);
    DotFlag(n.0) + Rest(env, n.0, 0, [], []) + "10" + n.1
  }

  /** The result opens with the period flag and closes with the end marker
      and the bit vector. */
  lemma CompressFrame(env: Env, text: string)
    requires |Normalised(env.codec, text).0| > 0
    ensures var T, bitVector := Normalised(env.codec, text).0, Normalised(env.codec, text).1;
      var r := Compress(env, text);
      && (r[0] == '1' <==> T[|T| - 1] == '.')
      && |r| >= |bitVector| + 2
      && r[|r| - |bitVector| - 2..] == "10" + bitVector
  {
    var n := Normalised(env.codec, text);
    var T, bitVector := n.0, n.1;
    var body := Rest(env, T, 0, [], []);
    CompressOf(env, text, T, bitVector, body);
    var flag := DotFlag(T);
    assert flag[0] == '1' <==> T[|T| - 1] == '.';
    Framed(flag, body, bitVector);
  }

  lemma Framed(flag: string, body: string, bitVector: string)
    requires |flag| == 1
    ensures var r := flag + body + "10" + bitVector;
      r[0] == flag[0] && |r| >= |bitVector| + 2 && r[|r| - |bitVector| - 2..] == "10" + bitVector
  {
    var r := flag + body + "10" + bitVector;
    assert r == (flag + body) + ("10" + bitVector);
  }

  /** The phrases encoded are those of the normalised text: with periods
      between them, then the period left before the bound if there is one
      and the final period if there is one, they give back the whole text. */
  lemma TextCover(T: string)
    requires |T| > 0
    ensures T == JoinDots(PhrasesFrom(T, 0, LoopBound(T))) + Trailer(T, 0, LoopBound(T))
                 + (if T[|T| - 1] == '.' then "." else "")
  {
    var bound := LoopBound(T);
    PhrasesCover(T, 0, bound);
    LastDot(T);
  }

  lemma LastDot(T: string)
    requires |T| > 0
    ensures T == T[0..LoopBound(T)] + (if T[|T| - 1] == '.' then "." else "")
  {
    if T[|T| - 1] == '.' {
      assert T == T[..|T| - 1] + [T[|T| - 1]];
    }
  }

  /** No phrase of a tidied text holds a period, and each has only inner
      single spaces. */
  lemma TextPhrasesClean(T: string)
    requires |T| > 0 && SpacesOk(T)
    ensures forall p :: p in PhrasesFrom(T, 0, LoopBound(T)) ==> '.' !in p && InnerSpaces(p)
  {
    PhrasesInner(T, 0);
    PhrasesNoDots(T, 0, LoopBound(T));
  }

  // ------------------------------------------------------------ the driver

  /** Encoding the phrase at s, then the phrases after its period. */
  lemma PhrasesStep(env: Env, T: string, s: nat, next: nat, best: CompressedPhrase, c: CacheLog,
                    localLog: seq<string>, cache: CacheLog)
    requires Tidied(T, s) && s < LoopBound(T) && next == PhraseEnd(T, s, LoopBound(T)) + 1
    requires InnerSpaces(T[s..next - 1]) && (best, c) == BestSplit(env, T[s..next - 1], localLog, cache)
    ensures Tidied(T, next)
    ensures Rest(env, T, s, localLog, cache)
      == PhraseOutput(env.codec, best) + Rest(env, T, next, localLog + Inserted(best.wordsSet), c)
  {
    var bound := LoopBound(T);
    var e := next - 1;
    PhraseEndFirstDot(T, s, bound);
    PhrasesInner(T, s);
    var ps := PhrasesFrom(T, s, bound);
    assert ps == [T[s..e]] + PhrasesFrom(T, next, bound);
    assert ps[0] == T[s..e] && ps[1..] == PhrasesFrom(T, next, bound);
  }

  /** One pass of the phrase loop: read the phrase, find its best encoding,
      grow the dictionary, append the output and clear both buffers
      (encode/encode.cc:523-855). */
  method EncodeNext(env: Env, T: string, s: nat, localLog: seq<string>, cache: CacheLog, finalRes: string, buffers: Buffers)
    returns (s': nat, localLog': seq<string>, cache': CacheLog, finalRes': string)
    requires Tidied(T, s) && s < LoopBound(T)
    requires buffers.combinationList == [] && buffers.combinationLetters == []
    modifies buffers
    ensures s < s' && Tidied(T, s')
    ensures finalRes' + Rest(env, T, s', localLog', cache') == finalRes + Rest(env, T, s, localLog, cache)
    ensures buffers.combinationList == [] && buffers.combinationLetters == []
  {
    var bound := LoopBound(T);
    var P, w, m;
    P, w, m, s' := ReadPhrase(T, s, bound);
    PhraseEndFirstDot(T, s, bound);
    PhraseSpaces(T, s, s' - 1);
    var best;
    best, cache' := EncodePhrase(env, P, w, m, localLog, cache, buffers);
    PhrasesStep(env, T, s, s', best, cache', localLog, cache);
    localLog' := UpdateLocalDictionary(localLog, best.wordsSet);
    finalRes' := AppendPhrase(env.codec, finalRes, best);
    ghost var out, rest := PhraseOutput(env.codec, best), Rest(env, T, s', localLog', cache');
    assert Rest(env, T, s, localLog, cache) == out + rest;
    assert finalRes' == finalRes + out;
    Regroup(finalRes, out, rest);
    buffers.ClearList();
    buffers.ClearLetters();
  }

  lemma Regroup(a: string, b: string, c: string)
    ensures (a + b) + c == a + (b + c)
  {
  }

  /** Past the bound no phrase is left. */
  lemma RestDone(env: Env, T: string, s: nat, localLog: seq<string>, cache: CacheLog)
    requires Tidied(T, s) && s >= LoopBound(T)
    ensures Rest(env, T, s, localLog, cache) == ""
  {
    assert PhrasesFrom(T, s, LoopBound(T)) == [];
  }

  lemma CompressOf(env: Env, text: string, T: string, bitVector: string, body: string)
    requires T == Normalised(env.codec, text).0 && bitVector == Normalised(env.codec, text).1 && |T| > 0
    requires body == Rest(env, T, 0, [], [])
    ensures Compress(env, text) == DotFlag(T) + body + "10" + bitVector
  {
  }

  /** bestCompression: the phrase loop over the normalised text
      (encode/encode.cc:472-858). */
  method BestCompression(env: Env, text: string, buffers: Buffers) returns (endResult: string)
    requires |Normalised(env.codec, text).0| > 0
    requires buffers.combinationList == [] && buffers.combinationLetters == []
    modifies buffers
    ensures endResult == Compress(env, text)
    ensures buffers.combinationList == [] && buffers.combinationLetters == []
  {
    var simplified, simpBits := SimplifyText(text);
    var bits := env.codec.rle(simpBits);
    var T, spaceBits := RemoveSpaces(env.codec, simplified);
    var bitVector := spaceBits + bits;
    assert T == Normalised(env.codec, text).0 && bitVector == Normalised(env.codec, text).1;
    var n := |T|;
    var bound: nat, dot: string;
    if T[n - 1] == '.' {
      bound, dot := n - 1, "1";
    } else {
      bound, dot := n, "0";
    }
    assert bound == LoopBound(T) && dot == DotFlag(T);
    ghost var whole := Rest(env, T, 0, [], []);
    var finalRes := "";
    var localLog: seq<string> := [];
    var cache: CacheLog := [];
    var s: nat := 0;
    while s < bound
      invariant Tidied(T, s)
      invariant finalRes + Rest(env, T, s, localLog, cache) == whole
      invariant buffers.combinationList == [] && buffers.combinationLetters == []
      decreases bound - s
    {
      s, localLog, cache, finalRes := EncodeNext(env, T, s, localLog, cache, finalRes, buffers);
    }
    RestDone(env, T, s, localLog, cache);
    assert finalRes == whole;
    endResult := dot + finalRes + "10" + bitVector;
    CompressOf(env, text, T, bitVector, whole);
  }
}
