// Encoding one word group under the best of the three schemes, and one
// phrase under one choice of splits (encode/encode.cc:568-630, 665-764).

module Selection {
  import opened Types
  import opened Combinations
  import opened Candidates
  import opened Phrases

  /** A word group under the best scheme, and the memo cache after it: the
      global search runs only when the cache has no answer for the group and
      the letter before it, and its result is then added to the cache under
      the group alone (encode/encode.cc:583-630, 706-752). */
  function GroupSpec(env: Env, text: string, lastLetter: char, localLog: seq<string>, cache: CacheLog)
    : (r: (CompressedWord, CacheLog))
    ensures r.0.ratio != Unavailable && r.0.ratio <= 100.0
    ensures r.0.scheme != Unassigned
    ensures r.0.scheme == Normal ==> r.0.compressedString == NormalString(env.codec, text) && r.0.ratio == 100.0
    ensures r.0.scheme == Local ==> r.0.words == text && r.0.usesLocalDict
    ensures (var hit := env.oracles.findBest(cache, text, lastLetter);
             hit.None? || hit.value.words == text) ==> r.0.words == text
    ensures cache <= r.1
    ensures CacheKeyed(cache) ==> CacheKeyed(r.1)
    ensures env.oracles.findBest(cache, text, lastLetter).Some? ==> r.1 == cache
    ensures env.oracles.findBest(cache, text, lastLetter).None? ==>
      r.1 == cache + [(text, GlobalSearch(env, text, |NormalString(env.codec, text)|, lastLetter))]
  {
    var normalComp := NormalString(env.codec, text);
    var local := TryLocalDict(env, text, |normalComp|, localLog);
    match env.oracles.findBest(cache, text, lastLetter)
    case Some(cached) => (ChooseScheme(cached, local, normalComp), cache)
    case None =>
      var searched := GlobalSearch(env, text, |normalComp|, lastLetter);
      (ChooseScheme(searched, local, normalComp), cache + [(text, searched)])
  }

  /** With a cache that keeps each word under its own text, the word chosen
      for a group is the group itself, and the cache stays so. */
  lemma GroupSpecWords(env: Env, text: string, lastLetter: char, localLog: seq<string>, cache: CacheLog)
    requires FindsLogged(env.oracles) && CacheKeyed(cache)
    ensures GroupSpec(env, text, lastLetter, localLog, cache).0.words == text
    ensures CacheKeyed(GroupSpec(env, text, lastLetter, localLog, cache).1)
  {
    var hit := env.oracles.findBest(cache, text, lastLetter);
    if hit.Some? {
      var i :| 0 <= i < |cache| && cache[i].0 == text && cache[i].1 == hit.value;
      assert cache[i].1.words == cache[i].0;
    }
  }

  /** The selection as bestCompression writes it out for each group. */
  method EncodeGroup(env: Env, text: string, lastLetter: char, localLog: seq<string>, cache: CacheLog, buffers: Buffers)
    returns (bestWord: CompressedWord, cache': CacheLog)
    requires buffers.combinationLetters == []
    modifies buffers
    ensures (bestWord, cache') == GroupSpec(env, text, lastLetter, localLog, cache)
    ensures buffers.combinationList == old(buffers.combinationList) && buffers.combinationLetters == []
  {
    var normalComp := NormalCompression(env.codec, text);
    var normalLen := |normalComp|;
    var local := TryLocalDict(env, text, normalLen, localLog);
    var bestGl := env.oracles.findBest(cache, text, lastLetter);
    var bestGlobal: CompressedWord;
    cache' := cache;
    if bestGl == None {
      bestGlobal := TryAllLetters(env, text, normalLen, lastLetter, buffers);
      cache' := cache + [(text, bestGlobal)];
    } else {
      bestGlobal := bestGl.value;
    }
    bestWord := ChooseScheme(bestGlobal, local, normalComp);
  }

  function SumRatios(ws: seq<CompressedWord>): real
  {
    if ws == [] then 0.0 else SumRatios(ws[..|ws| - 1]) + ws[|ws| - 1].ratio
  }

  /** Where the encoding of a phrase's groups stands after some of them. */
  datatype GroupsState = GroupsState(
    wordsSet: seq<CompressedWord>,
    totalRatio: real,
    cache: CacheLog,
    lastLetter: char)

  /** Groups that can hand their last letter on: with more than one group,
      every group is non-empty. */
  predicate Lettered(groups: seq<string>)
  {
    |groups| > 1 ==> forall k :: 0 <= k < |groups| ==> |groups[k]| > 0
  }

  /** The first k groups encoded in order: each sees the cache the groups
      before it left, and the last letter of the group before it ('!' for
      the first; a single group passes nothing on). */
  function EncodePrefix(env: Env, groups: seq<string>, k: nat, localLog: seq<string>, cache: CacheLog)
    : (st: GroupsState)
    requires k <= |groups| && Lettered(groups)
    ensures |st.wordsSet| == k
    decreases k
  {
    if k == 0 then GroupsState([], 0.0, cache, '!')
    else
      var st := EncodePrefix(env, groups, k - 1, localLog, cache);
      var r := GroupSpec(env, groups[k - 1], st.lastLetter, localLog, st.cache);
      var next := if |groups| > 1 then groups[k - 1][|groups[k - 1]| - 1] else st.lastLetter;
      GroupsState(st.wordsSet + [r.0], st.totalRatio + r.0.ratio, r.1, next)
  }

  /** The total is the sum of the group ratios. */
  lemma {:induction false} EncodePrefixSum(env: Env, groups: seq<string>, k: nat, localLog: seq<string>, cache: CacheLog)
    requires k <= |groups| && Lettered(groups)
    ensures var st := EncodePrefix(env, groups, k, localLog, cache);
      st.totalRatio == SumRatios(st.wordsSet)
    decreases k
  {
    if k > 0 {
      EncodePrefixSum(env, groups, k - 1, localLog, cache);
      var prev := EncodePrefix(env, groups, k - 1, localLog, cache);
      var w := GroupSpec(env, groups[k - 1], prev.lastLetter, localLog, prev.cache).0;
      var st := EncodePrefix(env, groups, k, localLog, cache);
      assert st.wordsSet == prev.wordsSet + [w] && st.totalRatio == prev.totalRatio + w.ratio;
      assert st.wordsSet[..k - 1] == prev.wordsSet;
    }
  }

  /** No group costs more than the baseline, so neither does the total. */
  lemma {:induction false} EncodePrefixTotal(env: Env, groups: seq<string>, k: nat, localLog: seq<string>, cache: CacheLog)
    requires k <= |groups| && Lettered(groups)
    ensures EncodePrefix(env, groups, k, localLog, cache).totalRatio <= 100.0 * k as real
    decreases k
  {
    if k > 0 {
      EncodePrefixTotal(env, groups, k - 1, localLog, cache);
      var prev := EncodePrefix(env, groups, k - 1, localLog, cache);
      var w := GroupSpec(env, groups[k - 1], prev.lastLetter, localLog, prev.cache).0;
      assert EncodePrefix(env, groups, k, localLog, cache).totalRatio == prev.totalRatio + w.ratio;
    }
  }

  /** Every group is encoded under an available scheme at no more than the
      baseline. */
  lemma EncodePrefixRatios(env: Env, groups: seq<string>, k: nat, localLog: seq<string>, cache: CacheLog)
    requires k <= |groups| && Lettered(groups)
    ensures var st := EncodePrefix(env, groups, k, localLog, cache);
      forall j :: 0 <= j < k ==> st.wordsSet[j].ratio != Unavailable && st.wordsSet[j].ratio <= 100.0
  {
    forall j | 0 <= j < k
      ensures EncodePrefix(env, groups, k, localLog, cache).wordsSet[j].ratio != Unavailable
      ensures EncodePrefix(env, groups, k, localLog, cache).wordsSet[j].ratio <= 100.0
    {
      EncodePrefixAt(env, groups, k, j, localLog, cache);
    }
  }

  /** The memo cache only grows as the groups are encoded. */
  lemma {:induction false} EncodePrefixGrows(env: Env, groups: seq<string>, k: nat, localLog: seq<string>, cache: CacheLog)
    requires k <= |groups| && Lettered(groups)
    ensures cache <= EncodePrefix(env, groups, k, localLog, cache).cache
    decreases k
  {
    if k > 0 {
      EncodePrefixGrows(env, groups, k - 1, localLog, cache);
      var prev := EncodePrefix(env, groups, k - 1, localLog, cache);
      var c := GroupSpec(env, groups[k - 1], prev.lastLetter, localLog, prev.cache).1;
      assert EncodePrefix(env, groups, k, localLog, cache).cache == c;
      PrefixTrans(cache, prev.cache, c);
    }
  }

  lemma PrefixTrans<T>(a: seq<T>, b: seq<T>, c: seq<T>)
    requires a <= b && b <= c
    ensures a <= c
  {
    assert c[..|b|][..|a|] == c[..|a|];
  }

  /** Each group is encoded by the selection from the state the groups
      before it left. */
  lemma {:induction false} EncodePrefixAt(env: Env, groups: seq<string>, k: nat, j: nat, localLog: seq<string>, cache: CacheLog)
    requires j < k <= |groups| && Lettered(groups)
    ensures var before := EncodePrefix(env, groups, j, localLog, cache);
      EncodePrefix(env, groups, k, localLog, cache).wordsSet[j]
      == GroupSpec(env, groups[j], before.lastLetter, localLog, before.cache).0
    decreases k
  {
    var prev := EncodePrefix(env, groups, k - 1, localLog, cache);
    var w := GroupSpec(env, groups[k - 1], prev.lastLetter, localLog, prev.cache).0;
    var ws := EncodePrefix(env, groups, k, localLog, cache).wordsSet;
    assert ws == prev.wordsSet + [w];
    if j < k - 1 {
      EncodePrefixAt(env, groups, k - 1, j, localLog, cache);
      assert ws[j] == prev.wordsSet[j];
    } else {
      assert ws[j] == w;
    }
  }

  /** The cache keeps every word under its own text while the groups are
      encoded, when it did so at the start, whatever the cache lookup
      answers. */
  lemma {:induction false} EncodePrefixKeyed(env: Env, groups: seq<string>, k: nat, localLog: seq<string>, cache: CacheLog)
    requires k <= |groups| && Lettered(groups) && CacheKeyed(cache)
    ensures CacheKeyed(EncodePrefix(env, groups, k, localLog, cache).cache)
    decreases k
  {
    if k > 0 {
      EncodePrefixKeyed(env, groups, k - 1, localLog, cache);
      var prev := EncodePrefix(env, groups, k - 1, localLog, cache);
      assert EncodePrefix(env, groups, k, localLog, cache).cache
        == GroupSpec(env, groups[k - 1], prev.lastLetter, localLog, prev.cache).1;
    }
  }

  /** Word j of the encoding is group j. */
  lemma EncodePrefixWords(env: Env, groups: seq<string>, k: nat, localLog: seq<string>, cache: CacheLog)
    requires k <= |groups| && Lettered(groups)
    requires FindsLogged(env.oracles) && CacheKeyed(cache)
    ensures var st := EncodePrefix(env, groups, k, localLog, cache);
      forall j :: 0 <= j < k ==> st.wordsSet[j].words == groups[j]
  {
    forall j | 0 <= j < k
      ensures EncodePrefix(env, groups, k, localLog, cache).wordsSet[j].words == groups[j]
    {
      EncodePrefixAt(env, groups, k, j, localLog, cache);
      EncodePrefixKeyed(env, groups, j, localLog, cache);
      var before := EncodePrefix(env, groups, j, localLog, cache);
      GroupSpecWords(env, groups[j], before.lastLetter, localLog, before.cache);
    }
  }

  /** The letter handed to group j: '!' for the first group and for a phrase
      kept whole, otherwise the last character of the group before it. */
  lemma {:induction false} EncodePrefixLetter(env: Env, groups: seq<string>, j: nat, localLog: seq<string>, cache: CacheLog)
    requires j <= |groups| && Lettered(groups)
    ensures EncodePrefix(env, groups, j, localLog, cache).lastLetter
      == if j == 0 || |groups| == 1 then '!' else groups[j - 1][|groups[j - 1]| - 1]
    decreases j
  {
    if j > 0 && |groups| == 1 {
      EncodePrefixLetter(env, groups, j - 1, localLog, cache);
    }
  }

  /** Splits that cut P into groups that each have a last letter. */
  predicate Cuttable(P: string, splits: seq<int>)
  {
    ValidSplits(P, splits) && (|splits| > 0 ==> InnerSpaces(P))
  }

  /** Every group but the last has a last letter to pass on. */
  lemma CuttableGroups(P: string, splits: seq<int>)
    requires Cuttable(P, splits)
    ensures Lettered(Groups(P, splits))
  {
    if |splits| > 0 {
      GroupsNonEmpty(P, splits);
    }
  }

  /** The phrase under one choice of splits (no splits: the whole phrase as
      one group, which is case 1 of bestCompression), and the cache after it. */
  function SplitSpec(env: Env, P: string, splits: seq<int>, localLog: seq<string>, cache: CacheLog)
    : (r: (CompressedPhrase, CacheLog))
    requires Cuttable(P, splits)
    ensures r.0.numberSplits == |splits| && r.0.splits == splits && |r.0.wordsSet| == |splits| + 1
    ensures Average(r.0) <= 100.0
    ensures cache <= r.1
  {
    CuttableGroups(P, splits);
    var groups := Groups(P, splits);
    EncodePrefixTotal(env, groups, |groups|, localLog, cache);
    EncodePrefixGrows(env, groups, |groups|, localLog, cache);
    var st := EncodePrefix(env, groups, |groups|, localLog, cache);
    var phrase := CompressedPhrase(|splits|, splits, st.wordsSet, st.totalRatio);
    AverageBound(phrase);
    (phrase, st.cache)
  }

  lemma SplitSpecUnfold(env: Env, P: string, splits: seq<int>, localLog: seq<string>, cache: CacheLog)
    requires Cuttable(P, splits) && Lettered(Groups(P, splits))
    ensures var st := EncodePrefix(env, Groups(P, splits), |splits| + 1, localLog, cache);
      SplitSpec(env, P, splits, localLog, cache) == (CompressedPhrase(|splits|, splits, st.wordsSet, st.totalRatio), st.cache)
  {
  }

  /** A phrase encoded from P: its splits cut P, and its words are the
      groups they cut, in order. */
  predicate CutFrom(P: string, phrase: CompressedPhrase)
  {
    && Cuttable(P, phrase.splits)
    && |phrase.wordsSet| == |phrase.splits| + 1
    && forall k :: 0 <= k < |phrase.wordsSet| ==> phrase.wordsSet[k].words == Groups(P, phrase.splits)[k]
  }

  /** The cache after one choice of splits still keeps each word under its
      own text. */
  lemma SplitSpecKeyed(env: Env, P: string, splits: seq<int>, localLog: seq<string>, cache: CacheLog)
    requires Cuttable(P, splits) && CacheKeyed(cache)
    ensures CacheKeyed(SplitSpec(env, P, splits, localLog, cache).1)
  {
    CuttableGroups(P, splits);
    SplitSpecUnfold(env, P, splits, localLog, cache);
    EncodePrefixKeyed(env, Groups(P, splits), |splits| + 1, localLog, cache);
  }

  /** The words of the phrase under one choice of splits are its groups. */
  lemma SplitSpecWords(env: Env, P: string, splits: seq<int>, localLog: seq<string>, cache: CacheLog)
    requires Cuttable(P, splits) && FindsLogged(env.oracles) && CacheKeyed(cache)
    ensures var r := SplitSpec(env, P, splits, localLog, cache);
      CutFrom(P, r.0) && CacheKeyed(r.1)
  {
    CuttableGroups(P, splits);
    SplitSpecUnfold(env, P, splits, localLog, cache);
    EncodePrefixWords(env, Groups(P, splits), |splits| + 1, localLog, cache);
    EncodePrefixKeyed(env, Groups(P, splits), |splits| + 1, localLog, cache);
  }

  /** A phrase whose groups each cost at most the baseline averages at most
      the baseline. */
  lemma AverageBound(p: CompressedPhrase)
    requires p.totalRatio <= 100.0 * (1 + p.numberSplits) as real
    ensures Average(p) <= 100.0
  {
    var n := (1 + p.numberSplits) as real;
    assert Average(p) * n == p.totalRatio;
  }

  /** The inner loop of bestCompression for one choice of splits, or case 1
      for none (encode/encode.cc:568-634, 665-764). */
  method EncodeSplit(env: Env, P: string, splits: seq<int>, localLog: seq<string>, cache: CacheLog, buffers: Buffers)
    returns (current: CompressedPhrase, cache': CacheLog)
    requires Cuttable(P, splits) && buffers.combinationLetters == []
    modifies buffers
    ensures (current, cache') == SplitSpec(env, P, splits, localLog, cache)
    ensures buffers.combinationList == old(buffers.combinationList) && buffers.combinationLetters == []
  {
    CuttableGroups(P, splits);
    var groups := Groups(P, splits);
    var st := EncodeGroupList(env, groups, localLog, cache, buffers);
    current := CompressedPhrase(|splits|, splits, st.wordsSet, st.totalRatio);
    cache' := st.cache;
    SplitSpecUnfold(env, P, splits, localLog, cache);
  }

  /** The groups of one choice of splits encoded one after the other, each
      cut from the phrase at its splits (encode/encode.cc:680-762). */
  method EncodeGroupList(env: Env, groups: seq<string>, localLog: seq<string>, cache: CacheLog, buffers: Buffers)
    returns (st: GroupsState)
    requires Lettered(groups) && buffers.combinationLetters == []
    modifies buffers
    ensures st == EncodePrefix(env, groups, |groups|, localLog, cache)
    ensures buffers.combinationList == old(buffers.combinationList) && buffers.combinationLetters == []
  {
    var wordsSet, totalRatio, cache', lastLetter := [], 0.0, cache, '!';
    var k := 0;
    while k < |groups|
      invariant 0 <= k <= |groups|
      invariant buffers.combinationList == old(buffers.combinationList) && buffers.combinationLetters == []
      invariant GroupsState(wordsSet, totalRatio, cache', lastLetter) == EncodePrefix(env, groups, k, localLog, cache)
    {
      var words := groups[k];
      var bestWord;
      bestWord, cache' := EncodeGroup(env, words, lastLetter, localLog, cache', buffers);
      wordsSet := wordsSet + [bestWord];
      totalRatio := totalRatio + bestWord.ratio;
      if |groups| > 1 {
        lastLetter := words[|words| - 1];
      }
      k := k + 1;
    }
    st := GroupsState(wordsSet, totalRatio, cache', lastLetter);
  }
}
