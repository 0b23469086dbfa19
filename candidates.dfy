// The per-group candidate encoders of encode/encode.cc: the baseline
// (normalCompression), the adaptive-dictionary candidate (tryLocalDict), the
// global-dictionary search (tryAllLetters) and the three-way scheme choice.

module Candidates {
  import opened Types
  import opened Combinations

  // ---------------------------------------------------------------- baseline

  /** The code normalCompression gives one character. */
  function NormalCode(codec: Codec, c: char): int
  {
    if codec.encodingChars then codec.charToInt(c)
    else if c == ' ' then 27
    else if c == '.' then 28
    else c as int - 'a' as int + 1
  }

  /** One fixed-width character code per character, in text order. */
  function NormalCodes(codec: Codec, text: string): string
  {
    if text == [] then ""
    else NormalCodes(codec, text[..|text| - 1]) + codec.binary(NormalCode(codec, text[|text| - 1]), false)
  }

  /** The baseline encoding: tag "110", the length, then the character codes. */
  function NormalString(codec: Codec, text: string): (r: string)
    ensures |r| >= 3 && r[..3] == "110"
  {
    "110" + codec.binary(|text|, false) + NormalCodes(codec, text)
  }

  method NormalCompression(codec: Codec, text: string) returns (compressed: string)
    ensures compressed == NormalString(codec, text)
  {
    var len := |text|;
    compressed := "110" + codec.binary(len, false);
    var i := 0;
    while i < len
      invariant 0 <= i <= len
      invariant compressed == "110" + codec.binary(len, false) + NormalCodes(codec, text[..i])
    {
      var c: int;
      if codec.encodingChars {
        c := codec.charToInt(text[i]);
      } else {
        c := text[i] as int - 'a' as int + 1;
        if text[i] == ' ' {
          c := 27;
        } else if text[i] == '.' {
          c := 28;
        }
      }
      var t := codec.binary(c, false);
      assert text[..i + 1][..i] == text[..i];
      compressed := compressed + t;
      i := i + 1;
    }
    assert text[..len] == text;
  }

  /** The codes of a concatenation are the concatenation of the codes: the
      baseline emits one code per character, in order. */
  lemma {:induction false} NormalCodesAppend(codec: Codec, a: string, b: string)
    ensures NormalCodes(codec, a + b) == NormalCodes(codec, a) + NormalCodes(codec, b)
    decreases |b|
  {
    if b != [] {
      var b' := b[..|b| - 1];
      assert (a + b)[..|a + b| - 1] == a + b';
      assert (a + b)[|a + b| - 1] == b[|b| - 1];
      NormalCodesAppend(codec, a, b');
    } else {
      assert a + b == a;
    }
  }

  /** The character whose built-in code (ENCODINGCHARS off) is k. */
  function AlphabetChar(k: int): char
    requires 1 <= k <= 28
  {
    if k == 27 then ' ' else if k == 28 then '.' else (k - 1 + 'a' as int) as char
  }

  predicate InAlphabet(c: char)
  {
    ('a' <= c <= 'z') || c == ' ' || c == '.'
  }

  /** With ENCODINGCHARS off, a-z, space and '.' get the codes 1-26, 27, 28,
      one to one. */
  lemma NormalCodeBijective(codec: Codec, c: char, k: int)
    requires !codec.encodingChars
    ensures InAlphabet(c) ==> 1 <= NormalCode(codec, c) <= 28 && AlphabetChar(NormalCode(codec, c)) == c
    ensures 1 <= k <= 28 ==> InAlphabet(AlphabetChar(k)) && NormalCode(codec, AlphabetChar(k)) == k
  {
  }

  // ------------------------------------------------------- adaptive dictionary

  /** tryLocalDict: the adaptive-dictionary candidate for text. */
  function TryLocalDict(env: Env, text: string, normalLen: nat, localLog: seq<string>): (r: CompressedWord)
    requires normalLen > 0
    ensures r.words == text && r.scheme == Unassigned
    ensures env.oracles.localIndex(localLog, text) == NotFound ==>
      r.compressedString == "" && r.ratio == Unavailable && !r.usesLocalDict
    ensures env.oracles.localIndex(localLog, text) != NotFound ==>
      r.compressedString == "1" + env.codec.binaryLong(env.oracles.localIndex(localLog, text) + 1, env.codec.binaryLongDefault)
      && r.ratio == Ratio(|r.compressedString|, normalLen) && r.usesLocalDict
    ensures r.usesLocalDict <==> r.ratio != Unavailable
  {
    var localRes := env.oracles.localIndex(localLog, text);
    if localRes != NotFound then
      var localCompressed := "1" + env.codec.binaryLong(localRes + 1, env.codec.binaryLongDefault);
      Blank(text).(compressedString := localCompressed, ratio := Ratio(|localCompressed|, normalLen), usesLocalDict := true)
    else
      Blank(text).(compressedString := "", ratio := Unavailable, usesLocalDict := false)
  }

  // ------------------------------------------------------ revealed positions

  /** The 0-based revealed positions of a combination over 1..len. */
  function Revealed(comb: seq<int>): seq<int>
  {
    seq(|comb|, j requires 0 <= j < |comb| => comb[j] - 1)
  }

  /** The hidden positions below m, ascending: those whose 1-based index is
      not in the combination. */
  function HiddenBelow(comb: seq<int>, m: nat): seq<int>
  {
    if m == 0 then [] else HiddenBelow(comb, m - 1) + (if m in comb then [] else [m - 1])
  }

  lemma {:induction false} HiddenBelowFacts(comb: seq<int>, m: nat)
    ensures forall h :: h in HiddenBelow(comb, m) <==> 0 <= h < m && h + 1 !in comb
    ensures Increasing(HiddenBelow(comb, m))
  {
    if m > 0 {
      HiddenBelowFacts(comb, m - 1);
      var prev := HiddenBelow(comb, m - 1);
      assert forall j :: 0 <= j < |prev| ==> prev[j] in prev;
    }
  }

  /** The revealed and hidden positions are each ascending, lie in [0, len),
      never overlap and together cover [0, len). */
  lemma RevealPartition(comb: seq<int>, len: nat)
    requires IsCombination(comb, 1, len, |comb|)
    ensures Increasing(Revealed(comb)) && Increasing(HiddenBelow(comb, len))
    ensures forall p :: p in Revealed(comb) ==> 0 <= p < len
    ensures forall p :: p in HiddenBelow(comb, len) ==> 0 <= p < len
    ensures forall p :: 0 <= p < len ==> (p in Revealed(comb) <==> p !in HiddenBelow(comb, len))
  {
    HiddenBelowFacts(comb, len);
    var r := Revealed(comb);
    forall p | 0 <= p < len ensures p in r <==> p + 1 in comb {
      if p + 1 in comb {
        var j :| 0 <= j < |comb| && comb[j] == p + 1;
        assert r[j] == p;
      }
    }
  }

  /** The loops of tryAllLetters (encode/encode.cc:214-227) that turn a
      combination into the revealed positions and the queue of hidden ones. */
  method SplitPositions(comb: seq<int>, len: nat) returns (revealed: seq<int>, hidden: seq<int>)
    requires IsCombination(comb, 1, len, |comb|)
    ensures revealed == Revealed(comb) && hidden == HiddenBelow(comb, len)
  {
    revealed, hidden := [], [];
    var ind := 0;
    var x := 0;
    while x < |comb|
      invariant 0 <= x <= |comb|
      invariant ind == (if x == 0 then 0 else comb[x - 1])
      invariant revealed == Revealed(comb)[..x]
      invariant hidden == HiddenBelow(comb, ind)
    {
      var j := ind;
      while j < comb[x] - 1
        invariant ind <= j <= comb[x] - 1
        invariant hidden == HiddenBelow(comb, j)
      {
        assert j + 1 !in comb by {
          forall y | 0 <= y < |comb| ensures comb[y] != j + 1 {
            if y < x - 1 {
              assert comb[y] < comb[x - 1];
            } else if y > x {
              assert comb[x] < comb[y];
            }
          }
        }
        hidden := hidden + [j];
        j := j + 1;
      }
      ind := comb[x];
      revealed := revealed + [comb[x] - 1];
      x := x + 1;
    }
    var j := ind;
    while j < len
      invariant ind <= j <= len
      invariant hidden == HiddenBelow(comb, j)
    {
      assert j + 1 !in comb by {
        forall y | 0 <= y < |comb| ensures comb[y] != j + 1 {
          if y < |comb| - 1 {
            assert comb[y] < comb[|comb| - 1];
          }
        }
      }
      hidden := hidden + [j];
      j := j + 1;
    }
  }

  // -------------------------------------------------- global candidate layout

  /** The code a revealed character gets (encode/encode.cc:267-271). */
  function RevealCode(codec: Codec, c: char): int
  {
    if codec.encodingChars then codec.charToInt(c)
    else if c == ' ' then 27
    else c as int - 'a' as int + 1
  }

  /** The position after revealed character j - 1, or 0 for j = 0: prev in
      the source. */
  function Prev(revealed: seq<int>, j: nat): int
    requires j <= |revealed|
  {
    if j == 0 then 0 else revealed[j - 1] + 1
  }

  /** The position difference written for revealed character j. */
  function Gap(revealed: seq<int>, j: nat): int
    requires j < |revealed|
  {
    revealed[j] - Prev(revealed, j) + 1
  }

  function Gaps(revealed: seq<int>): (g: seq<int>)
    ensures |g| == |revealed|
  {
    seq(|revealed|, j requires 0 <= j < |revealed| => Gap(revealed, j))
  }

  /** Reads the revealed positions back from the position differences. */
  function Positions(gaps: seq<int>): (p: seq<int>)
    ensures |p| == |gaps|
  {
    if gaps == [] then []
    else
      var init := Positions(gaps[..|gaps| - 1]);
      init + [Prev(init, |init|) + gaps[|gaps| - 1] - 1]
  }

  /** The position differences determine the revealed positions. */
  lemma {:induction false} GapsRoundTrip(revealed: seq<int>)
    ensures Positions(Gaps(revealed)) == revealed
  {
    if revealed != [] {
      var n := |revealed|;
      var init := revealed[..n - 1];
      GapsRoundTrip(init);
      assert Gaps(revealed)[..n - 1] == Gaps(init);
    }
  }

  /** For ascending positions in [0, len) every difference, including the
      one to the end, is at least 1. */
  lemma GapsPositive(revealed: seq<int>, len: nat)
    requires Increasing(revealed) && forall j :: 0 <= j < |revealed| ==> 0 <= revealed[j] < len
    ensures forall j :: 0 <= j < |revealed| ==> Gaps(revealed)[j] >= 1
    ensures len - Prev(revealed, |revealed|) + 1 >= 1
  {
  }

  predicate InText(text: string, revealed: seq<int>)
  {
    forall j :: 0 <= j < |revealed| ==> 0 <= revealed[j] < |text|
  }

  /** Difference and character code for each of the first j revealed
      characters, in order. */
  function RevealBits(codec: Codec, text: string, revealed: seq<int>, j: nat): string
    requires InText(text, revealed) && j <= |revealed|
  {
    if j == 0 then ""
    else
      RevealBits(codec, text, revealed, j - 1)
        + codec.binary(Gap(revealed, j - 1), false)
        + codec.binary(RevealCode(codec, text[revealed[j - 1]]), false)
  }

  /** A global-scheme candidate: tag "0", the number of reveals, the reveals,
      the distance to the end, and the rank + 1. */
  function GlobalString(codec: Codec, text: string, revealed: seq<int>, rank: int): (r: string)
    requires InText(text, revealed)
    ensures |r| > 0 && r[0] == '0'
  {
    "0" + codec.binary(|revealed|, codec.binaryDefault) + RevealBits(codec, text, revealed, |revealed|)
      + codec.binary(|text| - Prev(revealed, |revealed|) + 1, false) + codec.binaryLong(rank + 1, false)
  }

  /** The body of tryAllLetters that builds one global candidate (encode/encode.cc:254-289). */
  method EncodeGlobal(codec: Codec, text: string, revealed: seq<int>, rank: int, q: nat) returns (globalCompressed: string)
    requires InText(text, revealed) && q == |revealed|
    ensures globalCompressed == GlobalString(codec, text, revealed, rank)
  {
    var rev := codec.binary(q, codec.binaryDefault);
    globalCompressed := rev;
    var prev := 0;
    var j := 0;
    while j < |revealed|
      invariant 0 <= j <= |revealed|
      invariant prev == Prev(revealed, j)
      invariant globalCompressed == rev + RevealBits(codec, text, revealed, j)
    {
      var revealChar := text[revealed[j]];
      var revealInt: int;
      if codec.encodingChars {
        revealInt := codec.charToInt(revealChar);
      } else if revealChar == ' ' {
        revealInt := 27;
      } else {
        revealInt := revealChar as int - 'a' as int + 1;
      }
      var t1 := codec.binary(revealed[j] - prev + 1, false);
      var t2 := codec.binary(revealInt, false);
      globalCompressed := globalCompressed + t1 + t2;
      prev := revealed[j] + 1;
      j := j + 1;
    }
    var t1 := codec.binary(|text| - prev + 1, false);
    var t2 := codec.binaryLong(rank + 1, false);
    globalCompressed := "0" + globalCompressed + t1 + t2;
  }

  // ------------------------------------------------------------ global search

  /** The trie query for one hidden-position queue (encode/encode.cc:233-240). */
  function Query(env: Env, text: string, lastLetter: char, hidden: seq<int>): int
  {
    if lastLetter != '!' then env.oracles.rankPrefixed([lastLetter, ' '] + text, hidden)
    else env.oracles.rankPlain(text, hidden)
  }

  /** Every element names a 1-based position of a text of length len. */
  predicate InRange(comb: seq<int>, len: nat)
  {
    forall j :: 0 <= j < |comb| ==> 1 <= comb[j] <= len
  }

  predicate RevealSets(cs: seq<seq<int>>, len: nat)
  {
    forall c :: c in cs ==> InRange(c, len)
  }

  lemma CombinationInText(comb: seq<int>, text: string)
    requires InRange(comb, |text|)
    ensures InText(text, Revealed(comb))
  {
  }

  /** The candidate string for a combination with the rank the trie gave. */
  function CandidateString(env: Env, text: string, comb: seq<int>, rank: int): string
    requires InRange(comb, |text|)
  {
    CombinationInText(comb, text);
    GlobalString(env.codec, text, Revealed(comb), rank)
  }

  function RankOf(env: Env, text: string, lastLetter: char, comb: seq<int>): int
  {
    Query(env, text, lastLetter, HiddenBelow(comb, |text|))
  }

  /** The ratio of the candidate for a combination the trie found. */
  function CandidateRatio(env: Env, text: string, normalLen: nat, lastLetter: char, comb: seq<int>): real
    requires normalLen > 0 && InRange(comb, |text|)
  {
    Ratio(|CandidateString(env, text, comb, RankOf(env, text, lastLetter, comb))|, normalLen)
  }

  /** One subset of the search, when no miss has been seen: query the trie;
      on a miss report it, otherwise keep the candidate if the best so far is
      unset or worse (encode/encode.cc:244-309). */
  function Step(env: Env, text: string, normalLen: nat, lastLetter: char, best: CompressedWord, comb: seq<int>): (CompressedWord, bool)
    requires normalLen > 0 && InRange(comb, |text|)
  {
    var rank := RankOf(env, text, lastLetter, comb);
    if rank == -1 then (best, true)
    else
      var ratio := CandidateRatio(env, text, normalLen, lastLetter, comb);
      if best.ratio > ratio || best.ratio == Unavailable then
        (best.(compressedString := CandidateString(env, text, comb, rank), ratio := ratio,
               usesLocalDict := false, revealedChars := Revealed(comb)), false)
      else (best, false)
  }

  /** The search over a list of subsets in order: the best word so far and
      whether a miss has stopped it. After a miss nothing more is committed. */
  function Fold(env: Env, text: string, normalLen: nat, lastLetter: char, cs: seq<seq<int>>): (CompressedWord, bool)
    requires normalLen > 0 && RevealSets(cs, |text|)
  {
    if cs == [] then (Blank(text), false)
    else
      var init := cs[..|cs| - 1];
      assert forall c :: c in init ==> c in cs;
      var r := Fold(env, text, normalLen, lastLetter, init);
      if r.1 then (r.0, true) else Step(env, text, normalLen, lastLetter, r.0, cs[|cs| - 1])
  }

  lemma FoldSnoc(env: Env, text: string, normalLen: nat, lastLetter: char, cs: seq<seq<int>>, c: seq<int>)
    requires normalLen > 0 && RevealSets(cs, |text|) && InRange(c, |text|)
    ensures RevealSets(cs + [c], |text|)
    ensures Fold(env, text, normalLen, lastLetter, cs + [c])
      == (var r := Fold(env, text, normalLen, lastLetter, cs);
          if r.1 then (r.0, true) else Step(env, text, normalLen, lastLetter, r.0, c))
  {
    assert (cs + [c])[..|cs|] == cs;
  }

  /** The search only fills in the encoding of its word: the word stays the
      text searched for (encode/encode.cc:174, 265-306). */
  lemma {:induction false} FoldWords(env: Env, text: string, normalLen: nat, lastLetter: char, cs: seq<seq<int>>)
    requires normalLen > 0 && RevealSets(cs, |text|)
    ensures Fold(env, text, normalLen, lastLetter, cs).0.words == text
    decreases |cs|
  {
    if cs != [] {
      var init := cs[..|cs| - 1];
      assert forall c :: c in init ==> c in cs;
      FoldWords(env, text, normalLen, lastLetter, init);
    }
  }

  /** Once a miss has been seen, further subsets change nothing. */
  lemma {:induction false} FoldAfterMiss(env: Env, text: string, normalLen: nat, lastLetter: char, cs: seq<seq<int>>, rest: seq<seq<int>>)
    requires normalLen > 0 && RevealSets(cs + rest, |text|)
    requires Fold(env, text, normalLen, lastLetter, cs).1
    ensures Fold(env, text, normalLen, lastLetter, cs + rest) == Fold(env, text, normalLen, lastLetter, cs)
    decreases |rest|
  {
    if rest == [] {
      assert cs + rest == cs;
    } else {
      var init := rest[..|rest| - 1];
      assert (cs + rest)[..|cs + rest| - 1] == cs + init;
      assert forall c :: c in cs + init ==> c in cs + rest;
      FoldAfterMiss(env, text, normalLen, lastLetter, cs, init);
    }
  }

  predicate AllHit(env: Env, text: string, lastLetter: char, cs: seq<seq<int>>)
  {
    forall j :: 0 <= j < |cs| ==> RankOf(env, text, lastLetter, cs[j]) != -1
  }

  /** With no miss, the result is the first candidate of least ratio: the
      best word is replaced only by a strictly lower ratio, or while unset. */
  lemma {:induction false} FoldWinner(env: Env, text: string, normalLen: nat, lastLetter: char, cs: seq<seq<int>>) returns (w: nat)
    requires normalLen > 0 && RevealSets(cs, |text|) && cs != []
    requires AllHit(env, text, lastLetter, cs)
    ensures w < |cs| && !Fold(env, text, normalLen, lastLetter, cs).1
    ensures Winner(env, text, normalLen, lastLetter, cs, Fold(env, text, normalLen, lastLetter, cs).0, w)
    decreases |cs|
  {
    var init := cs[..|cs| - 1];
    var c := cs[|cs| - 1];
    assert init + [c] == cs;
    assert forall x :: x in init ==> x in cs;
    assert AllHit(env, text, lastLetter, init) by {
      assert forall j :: 0 <= j < |init| ==> init[j] == cs[j];
    }
    FoldSnoc(env, text, normalLen, lastLetter, init, c);
    if init == [] {
      w := WinnerFirst(env, text, normalLen, lastLetter, c);
    } else {
      var w' := FoldWinner(env, text, normalLen, lastLetter, init);
      var b' := Fold(env, text, normalLen, lastLetter, init).0;
      w := WinnerStep(env, text, normalLen, lastLetter, init, c, b', w');
    }
  }

  lemma WinnerFirst(env: Env, text: string, normalLen: nat, lastLetter: char, c: seq<int>) returns (w: nat)
    requires normalLen > 0 && InRange(c, |text|) && RankOf(env, text, lastLetter, c) != -1
    ensures RevealSets([c], |text|) && w == 0
    ensures var r := Step(env, text, normalLen, lastLetter, Blank(text), c);
      !r.1 && Winner(env, text, normalLen, lastLetter, [c], r.0, w)
  {
    w := 0;
  }

  lemma WinnerStep(env: Env, text: string, normalLen: nat, lastLetter: char, cs: seq<seq<int>>, c: seq<int>, b: CompressedWord, w: nat)
    returns (w2: nat)
    requires normalLen > 0 && RevealSets(cs, |text|) && InRange(c, |text|)
    requires Winner(env, text, normalLen, lastLetter, cs, b, w) && RankOf(env, text, lastLetter, c) != -1
    ensures RevealSets(cs + [c], |text|)
    ensures var r := Step(env, text, normalLen, lastLetter, b, c);
      !r.1 && Winner(env, text, normalLen, lastLetter, cs + [c], r.0, w2)
  {
    var cs2 := cs + [c];
    assert forall j :: 0 <= j < |cs| ==> cs2[j] == cs[j];
    assert cs2[|cs|] == c;
    var r := CandidateRatio(env, text, normalLen, lastLetter, c);
    var b2 := Step(env, text, normalLen, lastLetter, b, c).0;
    if b.ratio > r {
      w2 := |cs|;
      assert b2.ratio == r;
      forall j | 0 <= j < |cs2|
        ensures b2.ratio <= CandidateRatio(env, text, normalLen, lastLetter, cs2[j])
      {
        if j < |cs| {
          assert cs2[j] == cs[j] && cs[j] in cs;
          assert b.ratio <= CandidateRatio(env, text, normalLen, lastLetter, cs[j]);
        }
      }
    } else {
      w2 := w;
      assert b2 == b;
      forall j | 0 <= j < |cs2|
        ensures b2.ratio <= CandidateRatio(env, text, normalLen, lastLetter, cs2[j])
      {
        if j < |cs| {
          assert cs2[j] == cs[j] && cs[j] in cs;
        }
      }
    }
  }

  /** b is the candidate of cs[w], whose ratio is the least of all and
      strictly less than that of every earlier subset. */
  predicate Winner(env: Env, text: string, normalLen: nat, lastLetter: char, cs: seq<seq<int>>, b: CompressedWord, w: nat)
    requires normalLen > 0 && RevealSets(cs, |text|)
  {
    && w < |cs|
    && b.compressedString == CandidateString(env, text, cs[w], RankOf(env, text, lastLetter, cs[w]))
    && b.revealedChars == Revealed(cs[w])
    && b.ratio == CandidateRatio(env, text, normalLen, lastLetter, cs[w])
    && !b.usesLocalDict && b.words == text && b.prevLetter == None
    && (forall j :: 0 <= j < |cs| ==> b.ratio <= CandidateRatio(env, text, normalLen, lastLetter, cs[j]))
    && (forall j :: 0 <= j < w ==> b.ratio < CandidateRatio(env, text, normalLen, lastLetter, cs[j]))
  }

  /** The bound on the number of revealed characters (encode/encode.cc:194). */
  function Bound(len: nat): int
  {
    if len <= MaxNumRevealedChars then len - 1 else MaxNumRevealedChars
  }

  /** All subsets the search visits for q = 1..hi, in visiting order. */
  function Reveals(len: nat, hi: int): seq<seq<int>>
    decreases hi
  {
    if hi < 1 then [] else Reveals(len, hi - 1) + Choose(1, len, hi)
  }

  /** Every subset visited is an increasing choice from 1..len. */
  lemma {:induction false} RevealsCombinations(len: nat, hi: int)
    ensures forall c :: c in Reveals(len, hi) ==> IsCombination(c, 1, len, |c|)
    decreases hi
  {
    if hi >= 1 {
      RevealsCombinations(len, hi - 1);
      ChooseSound(1, len, hi);
    }
  }

  /** The search space: exactly the subsets of 1..len of sizes 1..hi. */
  lemma RevealsSpace(len: nat, hi: int)
    ensures forall c :: c in Reveals(len, hi) <==> 1 <= |c| <= hi && IsCombination(c, 1, len, |c|)
  {
    forall c ensures c in Reveals(len, hi) <==> 1 <= |c| <= hi && IsCombination(c, 1, len, |c|) {
      RevealsMember(len, hi, c);
    }
  }

  lemma {:induction false} RevealsMember(len: nat, hi: int, c: seq<int>)
    ensures c in Reveals(len, hi) <==> 1 <= |c| <= hi && IsCombination(c, 1, len, |c|)
    decreases hi
  {
    if hi >= 1 {
      RevealsMember(len, hi - 1, c);
      assert Reveals(len, hi) == Reveals(len, hi - 1) + Choose(1, len, hi);
      if c in Choose(1, len, hi) {
        ChooseSound(1, len, hi);
      }
      if |c| == hi && IsCombination(c, 1, len, hi) {
        ChooseComplete(1, len, hi, c);
      }
    }
  }

  lemma {:induction false} RevealsInRange(len: nat, hi: int)
    ensures RevealSets(Reveals(len, hi), len)
    decreases hi
  {
    if hi >= 1 {
      RevealsInRange(len, hi - 1);
      ChooseSound(1, len, hi);
    }
  }

  /** The sizes up to lo are visited before the sizes up to hi. */
  lemma {:induction false} RevealsExtend(len: nat, lo: int, hi: int) returns (rest: seq<seq<int>>)
    requires lo <= hi
    ensures Reveals(len, hi) == Reveals(len, lo) + rest
    decreases hi - lo
  {
    if lo == hi || hi < 1 {
      rest := [];
    } else {
      var r := RevealsExtend(len, lo, hi - 1);
      var top := Choose(1, len, hi);
      assert Reveals(len, hi) == Reveals(len, hi - 1) + top;
      rest := r + top;
      assert Reveals(len, hi) == Reveals(len, lo) + (r + top);
    }
  }

  /** A search whose every query hits never stops early. */
  lemma {:induction false} FoldNoMiss(env: Env, text: string, normalLen: nat, lastLetter: char, cs: seq<seq<int>>)
    requires normalLen > 0 && RevealSets(cs, |text|) && AllHit(env, text, lastLetter, cs)
    ensures !Fold(env, text, normalLen, lastLetter, cs).1
    decreases |cs|
  {
    if cs != [] {
      var init := cs[..|cs| - 1];
      assert forall x :: x in init ==> x in cs;
      assert forall j :: 0 <= j < |init| ==> init[j] == cs[j];
      FoldNoMiss(env, text, normalLen, lastLetter, init);
    }
  }

  function SpaceCount(text: string): nat
  {
    if text == [] then 0 else SpaceCount(text[..|text| - 1]) + (if text[|text| - 1] == ' ' then 1 else 0)
  }

  /** What tryAllLetters returns. */
  function GlobalSearch(env: Env, text: string, normalLen: nat, lastLetter: char): (r: CompressedWord)
    requires normalLen > 0
    ensures r.words == text
  {
    if SpaceCount(text) + 1 > MaxNumWords then Blank(text).(ratio := Unavailable)
    else
      var cs := Reveals(|text|, Bound(|text|));
      RevealsInRange(|text|, Bound(|text|));
      FoldWords(env, text, normalLen, lastLetter, cs);
      var r := Fold(env, text, normalLen, lastLetter, cs);
      if r.1 then r.0 else r.0.(prevLetter := Some(lastLetter))
  }

  /** A text of more than MaxNumWords words gets the unavailable ratio
      whatever the trie holds: the trie is never consulted. */
  lemma TooManyWordsUnavailable(env: Env, env': Env, text: string, normalLen: nat, lastLetter: char)
    requires normalLen > 0 && SpaceCount(text) + 1 > MaxNumWords && env'.codec == env.codec
    ensures GlobalSearch(env, text, normalLen, lastLetter) == GlobalSearch(env', text, normalLen, lastLetter)
    ensures GlobalSearch(env, text, normalLen, lastLetter).ratio == Unavailable
  {
  }

  /** The first miss ends the search: the result is the best of the subsets
      before it, and no later subset (of this q or any larger one) counts. */
  lemma EarlyExit(env: Env, text: string, normalLen: nat, lastLetter: char, k: nat)
    requires normalLen > 0 && SpaceCount(text) + 1 <= MaxNumWords
    requires k < |Reveals(|text|, Bound(|text|))|
    requires var cs := Reveals(|text|, Bound(|text|));
      AllHit(env, text, lastLetter, cs[..k]) && RankOf(env, text, lastLetter, cs[k]) == -1
    ensures var cs := Reveals(|text|, Bound(|text|));
      RevealSets(cs[..k], |text|) &&
      GlobalSearch(env, text, normalLen, lastLetter) == Fold(env, text, normalLen, lastLetter, cs[..k]).0
  {
    var cs := Reveals(|text|, Bound(|text|));
    RevealsInRange(|text|, Bound(|text|));
    FoldFirstMiss(env, text, normalLen, lastLetter, cs, k);
  }

  /** A fold whose first miss is at k ends with the best of the subsets
      before k. */
  lemma FoldFirstMiss(env: Env, text: string, normalLen: nat, lastLetter: char, cs: seq<seq<int>>, k: nat)
    requires normalLen > 0 && RevealSets(cs, |text|) && k < |cs|
    requires AllHit(env, text, lastLetter, cs[..k]) && RankOf(env, text, lastLetter, cs[k]) == -1
    ensures RevealSets(cs[..k], |text|)
    ensures Fold(env, text, normalLen, lastLetter, cs) == (Fold(env, text, normalLen, lastLetter, cs[..k]).0, true)
  {
    var before, miss, after := cs[..k], cs[k], cs[k + 1..];
    assert before + [miss] + after == cs;
    assert forall c :: c in before ==> c in cs;
    FoldNoMiss(env, text, normalLen, lastLetter, before);
    FoldSnoc(env, text, normalLen, lastLetter, before, miss);
    var b := Fold(env, text, normalLen, lastLetter, before).0;
    assert Fold(env, text, normalLen, lastLetter, before + [miss]) == (b, true);
    FoldAfterMiss(env, text, normalLen, lastLetter, before + [miss], after);
  }

  /** The body of the inner loop of tryAllLetters for one subset
      (encode/encode.cc:210-311). */
  method TrySubset(env: Env, text: string, normalLen: nat, lastLetter: char, comb: seq<int>, q: nat,
                   best: CompressedWord, exit0: bool)
    returns (bestWord: CompressedWord, exitEarly: bool)
    requires normalLen > 0 && IsCombination(comb, 1, |text|, q)
    ensures (bestWord, exitEarly) == if exit0 then (best, true) else Step(env, text, normalLen, lastLetter, best, comb)
  {
    bestWord, exitEarly := best, exit0;
    var currentRevealed, currentRevealedQueue := SplitPositions(comb, |text|);
    var globalRes: int;
    if lastLetter != '!' {
      globalRes := env.oracles.rankPrefixed([lastLetter, ' '] + text, currentRevealedQueue);
    } else {
      globalRes := env.oracles.rankPlain(text, currentRevealedQueue);
    }
    if globalRes == -1 {
      exitEarly := true;
    }
    if !exitEarly {
      CombinationInText(comb, text);
      var globalCompressed := EncodeGlobal(env.codec, text, currentRevealed, globalRes, q);
      var globalRatio := Ratio(|globalCompressed|, normalLen);
      if bestWord.ratio > globalRatio || bestWord.ratio == Unavailable {
        bestWord := bestWord.(compressedString := globalCompressed, ratio := globalRatio,
                              usesLocalDict := false, revealedChars := currentRevealed);
      }
    }
  }

  /** One more subset tried, continuing the search state of the subsets
      before it. */
  method ScanOne(env: Env, text: string, normalLen: nat, lastLetter: char, ghost pre: seq<seq<int>>, comb: seq<int>, q: nat,
                 best0: CompressedWord, exit0: bool)
    returns (bestWord: CompressedWord, exitEarly: bool)
    requires normalLen > 0 && RevealSets(pre, |text|) && IsCombination(comb, 1, |text|, q)
    requires (best0, exit0) == Fold(env, text, normalLen, lastLetter, pre)
    ensures RevealSets(pre + [comb], |text|)
    ensures (bestWord, exitEarly) == Fold(env, text, normalLen, lastLetter, pre + [comb])
  {
    FoldSnoc(env, text, normalLen, lastLetter, pre, comb);
    bestWord, exitEarly := TrySubset(env, text, normalLen, lastLetter, comb, q, best0, exit0);
  }

  /** The inner loop of tryAllLetters over the subsets of one size q, in
      index order, continuing the search state left by the earlier sizes. */
  method ScanSubsets(env: Env, text: string, normalLen: nat, lastLetter: char, combs: seq<seq<int>>, q: nat,
                     ghost done: seq<seq<int>>, best0: CompressedWord, exit0: bool)
    returns (bestWord: CompressedWord, exitEarly: bool)
    requires normalLen > 0 && RevealSets(done, |text|)
    requires forall c :: c in combs ==> IsCombination(c, 1, |text|, q)
    requires (best0, exit0) == Fold(env, text, normalLen, lastLetter, done)
    ensures RevealSets(done + combs, |text|)
    ensures (bestWord, exitEarly) == Fold(env, text, normalLen, lastLetter, done + combs)
  {
    bestWord, exitEarly := best0, exit0;
    var i := 0;
    ghost var tried := done;
    assert done + combs[..0] == done;
    while i < |combs|
      invariant 0 <= i <= |combs| && tried == done + combs[..i]
      invariant RevealSets(tried, |text|)
      invariant (bestWord, exitEarly) == Fold(env, text, normalLen, lastLetter, tried)
    {
      var comb := combs[i];
      assert comb in combs;
      bestWord, exitEarly := ScanOne(env, text, normalLen, lastLetter, tried, comb, q, bestWord, exitEarly);
      SliceSnoc(done, combs, i);
      tried := tried + [comb];
      i := i + 1;
    }
    assert combs[..i] == combs;
  }

  /** The word count check of tryAllLetters: spaces in the text. */
  method CountSpaces(text: string) returns (spaces: nat)
    ensures spaces == SpaceCount(text)
  {
    spaces := 0;
    var t := |text|;
    var q := 0;
    while q < t
      invariant 0 <= q <= t && spaces == SpaceCount(text[..q])
    {
      assert text[..q + 1][..q] == text[..q];
      if text[q] == ' ' {
        spaces := spaces + 1;
      }
      q := q + 1;
    }
    assert text[..t] == text;
  }

  lemma SearchSizesEnd(env: Env, text: string, normalLen: nat, lastLetter: char, q: int, bound: int,
                       exitEarly: bool, bestWord: CompressedWord)
    requires normalLen > 0 && 1 <= q && (q - 1 <= bound || q == 1) && (exitEarly || q > bound)
    requires RevealSets(Reveals(|text|, q - 1), |text|) && RevealSets(Reveals(|text|, bound), |text|)
    requires (bestWord, exitEarly) == Fold(env, text, normalLen, lastLetter, Reveals(|text|, q - 1))
    ensures (bestWord, exitEarly) == Fold(env, text, normalLen, lastLetter, Reveals(|text|, bound))
  {
    var done := Reveals(|text|, q - 1);
    if exitEarly {
      var rest := RevealsExtend(|text|, q - 1, bound);
      assert done + rest == Reveals(|text|, bound);
      FoldAfterMiss(env, text, normalLen, lastLetter, done, rest);
    } else if q - 1 != bound {
      assert Reveals(|text|, bound) == [] == done;
    }
  }

  /** One pass of the outer loop of tryAllLetters: enumerate the q-subsets
      into combinationLetters, scan them, clear the buffer. */
  method SearchSize(env: Env, text: string, normalLen: nat, lastLetter: char, q: nat, buffers: Buffers,
                    ghost done: seq<seq<int>>, best0: CompressedWord, exit0: bool)
    returns (bestWord: CompressedWord, exitEarly: bool)
    requires normalLen > 0 && q <= |text| && buffers.combinationLetters == []
    requires RevealSets(done, |text|) && (best0, exit0) == Fold(env, text, normalLen, lastLetter, done)
    modifies buffers
    ensures RevealSets(done + Choose(1, |text|, q), |text|)
    ensures (bestWord, exitEarly) == Fold(env, text, normalLen, lastLetter, done + Choose(1, |text|, q))
    ensures buffers.combinationList == old(buffers.combinationList) && buffers.combinationLetters == []
  {
    buffers.FindAllCombinations(|text|, q, false);
    assert buffers.combinationLetters == Choose(1, |text|, q);
    ChooseSound(1, |text|, q);
    bestWord, exitEarly := ScanSubsets(env, text, normalLen, lastLetter, buffers.combinationLetters, q,
                                       done, best0, exit0);
    buffers.ClearLetters();
  }

  /** The outer loop of tryAllLetters: sizes q = 1..bound in order, each
      enumerated into combinationLetters, scanned and cleared, until a miss. */
  method SearchSizes(env: Env, text: string, normalLen: nat, lastLetter: char, bound: int, buffers: Buffers)
    returns (bestWord: CompressedWord, exitEarly: bool)
    requires normalLen > 0 && bound < |text| && buffers.combinationLetters == []
    modifies buffers
    ensures RevealSets(Reveals(|text|, bound), |text|)
    ensures (bestWord, exitEarly) == Fold(env, text, normalLen, lastLetter, Reveals(|text|, bound))
    ensures buffers.combinationList == old(buffers.combinationList) && buffers.combinationLetters == []
  {
    var len := |text|;
    RevealsInRange(len, bound);
    bestWord, exitEarly := Blank(text), false;
    ghost var list := buffers.combinationList;
    var q := 1;
    ghost var done: seq<seq<int>> := [];
    while !exitEarly && q <= bound
      invariant 1 <= q && (q - 1 <= bound || q == 1)
      invariant done == Reveals(len, q - 1)
      invariant RevealSets(done, len)
      invariant (bestWord, exitEarly) == Fold(env, text, normalLen, lastLetter, done)
      invariant buffers.combinationList == list && buffers.combinationLetters == []
      decreases bound - q + 1
    {
      bestWord, exitEarly := SearchSize(env, text, normalLen, lastLetter, q, buffers, done, bestWord, exitEarly);
      done := done + Choose(1, len, q);
      q := q + 1;
    }
    SearchSizesEnd(env, text, normalLen, lastLetter, q, bound, exitEarly, bestWord);
  }

  /** tryAllLetters: the bounded search over revealed-character subsets,
      run sequentially in index order. position and combination are left as
      scratch (see Combinations.Buffers). */
  method TryAllLetters(env: Env, text: string, normalLen: nat, lastLetter: char, buffers: Buffers)
    returns (bestWord: CompressedWord)
    requires normalLen > 0 && buffers.combinationLetters == []
    modifies buffers
    ensures bestWord == GlobalSearch(env, text, normalLen, lastLetter)
    ensures buffers.combinationList == old(buffers.combinationList) && buffers.combinationLetters == []
  {
    bestWord := Blank(text);
    var spaces := CountSpaces(text);
    if spaces + 1 > MaxNumWords {
      bestWord := bestWord.(ratio := Unavailable);
      return;
    }
    var len := |text|;
    var exitEarly := false;
    var bound := if len <= MaxNumRevealedChars then len - 1 else MaxNumRevealedChars;
    bestWord, exitEarly := SearchSizes(env, text, normalLen, lastLetter, bound, buffers);
    if !exitEarly {
      bestWord := bestWord.(prevLetter := Some(lastLetter));
    }
  }

  // ------------------------------------------------------------ scheme choice

  /** The three-way choice between the global candidate, the local candidate
      and the baseline (encode/encode.cc:610-630 and 732-752). The winner has
      the least ratio among the available schemes and the baseline's 100;
      global must be strictly below local, local wins ties with global. */
  function ChooseScheme(global: CompressedWord, local: CompressedWord, normalComp: string): (r: CompressedWord)
    ensures r.ratio != Unavailable && r.ratio <= 100.0
    ensures global.ratio != Unavailable ==> r.ratio <= global.ratio
    ensures local.ratio != Unavailable ==> r.ratio <= local.ratio
    ensures r.scheme == Global ==>
      (r == global.(scheme := Global)
       && global.ratio != Unavailable && global.ratio < 100.0
       && (local.ratio == Unavailable || global.ratio < local.ratio))
    ensures r.scheme == Local ==>
      (r == local.(scheme := Local)
       && local.ratio != Unavailable && local.ratio < 100.0
       && (global.ratio == Unavailable || local.ratio <= global.ratio))
    ensures r.scheme == Normal ==>
      (r == local.(ratio := 100.0, compressedString := normalComp, scheme := Normal)
       && (global.ratio == Unavailable || global.ratio >= 100.0)
       && (local.ratio == Unavailable || local.ratio >= 100.0))
    ensures r.scheme != Unassigned
  {
    if global.ratio != Unavailable && global.ratio < 100.0 && (global.ratio < local.ratio || local.ratio == Unavailable) then
      global.(scheme := Global)
    else if local.ratio != Unavailable && local.ratio < 100.0 && (global.ratio >= local.ratio || global.ratio == Unavailable) then
      local.(scheme := Local)
    else
      local.(ratio := 100.0, compressedString := normalComp, scheme := Normal)
  }
}
