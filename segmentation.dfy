// The search for the best split of a phrase, the local-dictionary update and
// the assembly of the output in bestCompression (encode/encode.cc:471-858).

module Segmentation {
  import opened Types
  import opened Combinations
  import opened Candidates
  import opened Normalise
  import opened Phrases
  import opened Selection

  // ------------------------------------------------- keeping the best split

  /** The replacement rule: a phrase replaces the best so far only with a
      strictly smaller average ratio (encode/encode.cc:770). */
  function Better(best: CompressedPhrase, current: CompressedPhrase): CompressedPhrase
  {
    if Average(current) < Average(best) then current else best
  }

  /** The best after trying ps in order, starting from best. */
  function Pick(best: CompressedPhrase, ps: seq<CompressedPhrase>): CompressedPhrase
  {
    if ps == [] then best else Better(Pick(best, ps[..|ps| - 1]), ps[|ps| - 1])
  }

  /** The phrase kept is the first of the minimal averages: it is the start
      (w = -1) or ps[w], no phrase tried has a smaller average, and all tried
      before it have a larger one. */
  lemma {:induction false} PickFirstMinimum(best: CompressedPhrase, ps: seq<CompressedPhrase>) returns (w: int)
    ensures -1 <= w < |ps|
    ensures Pick(best, ps) == if w < 0 then best else ps[w]
    ensures Average(Pick(best, ps)) <= Average(best)
    ensures forall j :: 0 <= j < |ps| ==> Average(Pick(best, ps)) <= Average(ps[j])
    ensures w >= 0 ==> Average(Pick(best, ps)) < Average(best)
    ensures forall j :: 0 <= j < w ==> Average(Pick(best, ps)) < Average(ps[j])
  {
    if ps == [] {
      w := -1;
    } else {
      var n := |ps| - 1;
      var init := ps[..n];
      var w0 := PickFirstMinimum(best, init);
      var prev := Pick(best, init);
      assert forall j :: 0 <= j < n ==> ps[j] == init[j];
      if Average(ps[n]) < Average(prev) {
        w := n;
      } else {
        w := w0;
      }
    }
  }

  /** When the phrases are tried in order of their number of splits, starting
      from the one without splits, a tie goes to the fewest splits. */
  lemma FewestSplitsOnTies(best: CompressedPhrase, ps: seq<CompressedPhrase>)
    requires best.numberSplits == 0
    requires forall i, j :: 0 <= i < j < |ps| ==> ps[i].numberSplits <= ps[j].numberSplits
    ensures forall j :: 0 <= j < |ps| && Average(ps[j]) == Average(Pick(best, ps)) ==>
      Pick(best, ps).numberSplits <= ps[j].numberSplits
  {
    var w := PickFirstMinimum(best, ps);
    forall j | 0 <= j < |ps| && Average(ps[j]) == Average(Pick(best, ps))
      ensures Pick(best, ps).numberSplits <= ps[j].numberSplits
    {
      if w >= 0 {
        assert w <= j;
      }
    }
  }

  // ------------------------------------------------------ the split search

  /** A choice of word boundaries of P: some of 1..m-1, increasing. */
  predicate Boundaries(P: string, comb: seq<int>)
  {
    IsCombination(comb, 1, |WordStarts(P)| - 1, |comb|)
  }

  /** The phrases computed for the choices in combs, in order, each from the
      cache the ones before it left; and the cache afterwards. */
  function SplitTrace(env: Env, P: string, localLog: seq<string>, cache: CacheLog, combs: seq<seq<int>>)
    : (r: (seq<CompressedPhrase>, CacheLog))
    requires InnerSpaces(P) && forall c :: c in combs ==> Boundaries(P, c)
    ensures |r.0| == |combs|
  {
    if combs == [] then ([], cache)
    else
      var n := |combs| - 1;
      LastBoundaries(P, combs);
      var before := SplitTrace(env, P, localLog, cache, combs[..n]);
      var current := SplitSpec(env, P, SplitsOf(WordStarts(P), combs[n]), localLog, before.1);
      (before.0 + [current.0], current.1)
  }

  /** The choices but the last are choices too, and the last one cuts P at
      spaces. */
  lemma LastBoundaries(P: string, combs: seq<seq<int>>)
    requires InnerSpaces(P) && |combs| > 0 && forall c :: c in combs ==> Boundaries(P, c)
    ensures forall c :: c in combs[..|combs| - 1] ==> Boundaries(P, c)
    ensures Boundaries(P, combs[|combs| - 1])
    ensures Cuttable(P, SplitsOf(WordStarts(P), combs[|combs| - 1]))
  {
    var n := |combs| - 1;
    assert forall c :: c in combs[..n] ==> c in combs;
    assert combs[n] in combs;
    SplitsValid(P, combs[n]);
  }

  /** Entry j of the trace is the phrase cut at the spaces of choice j. */
  lemma {:induction false} SplitTraceAt(env: Env, P: string, localLog: seq<string>, cache: CacheLog, combs: seq<seq<int>>, j: nat)
    requires InnerSpaces(P) && forall c :: c in combs ==> Boundaries(P, c)
    requires j < |combs| && Boundaries(P, combs[j])
    ensures var t := SplitTrace(env, P, localLog, cache, combs).0[j];
      t.splits == SplitsOf(WordStarts(P), combs[j]) && t.numberSplits == |combs[j]|
    decreases |combs|
  {
    var n := |combs| - 1;
    LastBoundaries(P, combs);
    var before := SplitTrace(env, P, localLog, cache, combs[..n]);
    var cur := SplitSpec(env, P, SplitsOf(WordStarts(P), combs[n]), localLog, before.1).0;
    var t := SplitTrace(env, P, localLog, cache, combs).0;
    assert t == before.0 + [cur];
    if j < n {
      assert combs[..n][j] == combs[j];
      SplitTraceAt(env, P, localLog, cache, combs[..n], j);
      assert t[j] == before.0[j];
    } else {
      assert t[j] == cur;
      assert cur.splits == SplitsOf(WordStarts(P), combs[j]);
    }
  }

  /** The cache after the trace still keeps each word under its own text. */
  lemma {:induction false} SplitTraceKeyed(env: Env, P: string, localLog: seq<string>, cache: CacheLog, combs: seq<seq<int>>)
    requires InnerSpaces(P) && forall c :: c in combs ==> Boundaries(P, c)
    requires CacheKeyed(cache)
    ensures CacheKeyed(SplitTrace(env, P, localLog, cache, combs).1)
    decreases |combs|
  {
    if combs != [] {
      var n := |combs| - 1;
      LastBoundaries(P, combs);
      SplitTraceKeyed(env, P, localLog, cache, combs[..n]);
      var before := SplitTrace(env, P, localLog, cache, combs[..n]);
      var splits := SplitsOf(WordStarts(P), combs[n]);
      SplitSpecKeyed(env, P, splits, localLog, before.1);
      assert SplitTrace(env, P, localLog, cache, combs).1 == SplitSpec(env, P, splits, localLog, before.1).1;
    }
  }

  /** Entry j of the trace is cut from P: its words are the groups of
      choice j. */
  lemma {:induction false} SplitTraceWords(env: Env, P: string, localLog: seq<string>, cache: CacheLog, combs: seq<seq<int>>, j: nat)
    requires InnerSpaces(P) && forall c :: c in combs ==> Boundaries(P, c)
    requires FindsLogged(env.oracles) && CacheKeyed(cache) && j < |combs|
    ensures CutFrom(P, SplitTrace(env, P, localLog, cache, combs).0[j])
    decreases |combs|
  {
    var n := |combs| - 1;
    LastBoundaries(P, combs);
    var before := SplitTrace(env, P, localLog, cache, combs[..n]);
    var t := SplitTrace(env, P, localLog, cache, combs).0;
    if j < n {
      SplitTraceWords(env, P, localLog, cache, combs[..n], j);
      assert t[j] == before.0[j];
    } else {
      SplitTraceKeyed(env, P, localLog, cache, combs[..n]);
      SplitSpecWords(env, P, SplitsOf(WordStarts(P), combs[n]), localLog, before.1);
      assert t[j] == SplitSpec(env, P, SplitsOf(WordStarts(P), combs[n]), localLog, before.1).0;
    }
  }

  /** Every subset of 1..len of sizes 1..hi, in order of size. */
  lemma {:induction false} RevealsBySize(len: nat, hi: int)
    ensures forall i, j :: 0 <= i < j < |Reveals(len, hi)| ==> |Reveals(len, hi)[i]| <= |Reveals(len, hi)[j]|
    decreases hi
  {
    if hi >= 1 {
      RevealsBySize(len, hi - 1);
      RevealsSpace(len, hi - 1);
      ChooseSound(1, len, hi);
      var a := Reveals(len, hi - 1);
      var b := Choose(1, len, hi);
      var all := Reveals(len, hi);
      assert all == a + b;
      forall i, j | 0 <= i < j < |all| ensures |all[i]| <= |all[j]| {
        if j < |a| {
          assert all[i] == a[i] && all[j] == a[j];
        } else if i < |a| {
          assert all[i] == a[i] && a[i] in a;
          assert all[j] == b[j - |a|] && b[j - |a|] in b;
        } else {
          assert all[i] == b[i - |a|] && b[i - |a|] in b;
          assert all[j] == b[j - |a|] && b[j - |a|] in b;
        }
      }
    }
  }

  /** Every choice of boundaries of P, with sizes 1..m-1. */
  function AllBoundaries(P: string): (combs: seq<seq<int>>)
    ensures forall c :: c in combs ==> Boundaries(P, c)
  {
    var m := |WordStarts(P)|;
    RevealsSpace(m - 1, m - 1);
    Reveals(m - 1, m - 1)
  }

  /** The whole phrase as one group, and the cache after it. */
  function WholePhrase(env: Env, P: string, localLog: seq<string>, cache: CacheLog): (r: (CompressedPhrase, CacheLog))
    ensures r.0.numberSplits == 0
  {
    SplitSpec(env, P, [], localLog, cache)
  }

  /** Every choice of boundaries tried after the whole phrase, in order. */
  function Trace(env: Env, P: string, localLog: seq<string>, cache: CacheLog): (CacheLog, seq<CompressedPhrase>)
    requires InnerSpaces(P)
  {
    var c1 := WholePhrase(env, P, localLog, cache).1;
    (c1, SplitTrace(env, P, localLog, c1, AllBoundaries(P)).0)
  }

  /** The best encoding of a phrase: the whole phrase as one group, then
      every choice of boundaries by increasing number of splits, keeping the
      first with the smallest average ratio (encode/encode.cc:562-783). The
      memo cache afterwards comes with it. */
  function BestSplit(env: Env, P: string, localLog: seq<string>, cache: CacheLog): (CompressedPhrase, CacheLog)
    requires InnerSpaces(P)
  {
    var whole := WholePhrase(env, P, localLog, cache);
    var r := SplitTrace(env, P, localLog, whole.1, AllBoundaries(P));
    (Pick(whole.0, r.0), r.1)
  }

  /** The phrase kept averages no worse than the whole phrase as one group
      and than every choice of splits tried, and among equal averages it has
      the fewest splits. */
  lemma BestSplitMinimal(env: Env, P: string, localLog: seq<string>, cache: CacheLog)
    requires InnerSpaces(P)
    ensures var whole := WholePhrase(env, P, localLog, cache).0;
      var trace := Trace(env, P, localLog, cache).1;
      var best := BestSplit(env, P, localLog, cache).0;
      && Average(best) <= Average(whole)
      && (forall j :: 0 <= j < |trace| ==> Average(best) <= Average(trace[j]))
      && (forall j :: 0 <= j < |trace| && Average(trace[j]) == Average(best) ==> best.numberSplits <= trace[j].numberSplits)
  {
    var whole := WholePhrase(env, P, localLog, cache).0;
    var trace := Trace(env, P, localLog, cache).1;
    assert BestSplit(env, P, localLog, cache).0 == Pick(whole, trace);
    TraceBySize(env, P, localLog, cache);
    PickMinimal(whole, trace);
  }

  /** The phrase kept is cut from P (its words are the groups its splits
      cut), and the cache still keeps each word under its own text. */
  lemma BestSplitWords(env: Env, P: string, localLog: seq<string>, cache: CacheLog)
    requires InnerSpaces(P) && FindsLogged(env.oracles) && CacheKeyed(cache)
    ensures var r := BestSplit(env, P, localLog, cache);
      CutFrom(P, r.0) && CacheKeyed(r.1)
  {
    var whole := WholePhrase(env, P, localLog, cache);
    SplitSpecWords(env, P, [], localLog, cache);
    SplitTraceKeyed(env, P, localLog, whole.1, AllBoundaries(P));
    var trace := SplitTrace(env, P, localLog, whole.1, AllBoundaries(P)).0;
    var w := PickFirstMinimum(whole.0, trace);
    if w >= 0 {
      SplitTraceWords(env, P, localLog, whole.1, AllBoundaries(P), w);
    }
  }

  lemma PickMinimal(whole: CompressedPhrase, trace: seq<CompressedPhrase>)
    requires whole.numberSplits == 0
    requires forall i, j :: 0 <= i < j < |trace| ==> trace[i].numberSplits <= trace[j].numberSplits
    ensures var best := Pick(whole, trace);
      && Average(best) <= Average(whole)
      && (forall j :: 0 <= j < |trace| ==> Average(best) <= Average(trace[j]))
      && (forall j :: 0 <= j < |trace| && Average(trace[j]) == Average(best) ==> best.numberSplits <= trace[j].numberSplits)
  {
    var _ := PickFirstMinimum(whole, trace);
    FewestSplitsOnTies(whole, trace);
  }

  /** The choices are tried in order of their number of splits. */
  lemma TraceBySize(env: Env, P: string, localLog: seq<string>, cache: CacheLog)
    requires InnerSpaces(P)
    ensures var trace := Trace(env, P, localLog, cache).1;
      forall i, j :: 0 <= i < j < |trace| ==> trace[i].numberSplits <= trace[j].numberSplits
  {
    var c1 := Trace(env, P, localLog, cache).0;
    var combs := AllBoundaries(P);
    var trace := Trace(env, P, localLog, cache).1;
    assert trace == SplitTrace(env, P, localLog, c1, combs).0;
    var m := |WordStarts(P)|;
    RevealsBySize(m - 1, m - 1);
    forall i, j | 0 <= i < j < |trace| ensures trace[i].numberSplits <= trace[j].numberSplits {
      assert combs[i] in combs && combs[j] in combs;
      SplitTraceAt(env, P, localLog, c1, combs, i);
      SplitTraceAt(env, P, localLog, c1, combs, j);
    }
  }

  /** Every choice of one or more word boundaries is tried. */
  lemma EveryChoiceTried(env: Env, P: string, localLog: seq<string>, cache: CacheLog, comb: seq<int>)
    requires InnerSpaces(P) && 1 <= |comb| && Boundaries(P, comb)
    ensures var trace := Trace(env, P, localLog, cache).1;
      exists j :: 0 <= j < |trace| && trace[j].splits == SplitsOf(WordStarts(P), comb)
  {
    var c1 := Trace(env, P, localLog, cache).0;
    EveryCombinationListed(|WordStarts(P)| - 1, comb);
    TraceCovers(env, P, localLog, c1, AllBoundaries(P), comb);
  }

  /** Each listed choice has its phrase in the trace. */
  lemma TraceCovers(env: Env, P: string, localLog: seq<string>, cache: CacheLog, combs: seq<seq<int>>, comb: seq<int>)
    requires InnerSpaces(P) && (forall c :: c in combs ==> Boundaries(P, c)) && comb in combs
    ensures var trace := SplitTrace(env, P, localLog, cache, combs).0;
      exists j :: 0 <= j < |trace| && trace[j].splits == SplitsOf(WordStarts(P), comb)
  {
    var j :| 0 <= j < |combs| && combs[j] == comb;
    SplitTraceAt(env, P, localLog, cache, combs, j);
  }

  /** A non-empty increasing choice from 1..len is among the choices of
      every size up to len. */
  lemma EveryCombinationListed(len: nat, comb: seq<int>)
    requires 1 <= |comb| && IsCombination(comb, 1, len, |comb|)
    ensures comb in Reveals(len, len)
  {
    RevealsSpace(len, len);
    IncreasingGrows(comb, |comb| - 1);
  }

  // ------------------------------------------------ the search as written

  /** Every entry is a choice of boundaries of P. */
  predicate Choices(P: string, combs: seq<seq<int>>)
  {
    forall c :: c in combs ==> Boundaries(P, c)
  }

  /** The best so far and the cache after trying combs in order. */
  function SearchState(env: Env, P: string, localLog: seq<string>, cache: CacheLog, whole: CompressedPhrase, combs: seq<seq<int>>)
    : (CompressedPhrase, CacheLog)
    requires InnerSpaces(P) && Choices(P, combs)
  {
    var r := SplitTrace(env, P, localLog, cache, combs);
    (Pick(whole, r.0), r.1)
  }

  /** Trying one more choice: encode the phrase cut there and keep it if its
      average is strictly smaller. */
  lemma SearchSnoc(env: Env, P: string, localLog: seq<string>, cache: CacheLog, whole: CompressedPhrase,
                   pre: seq<seq<int>>, comb: seq<int>)
    requires InnerSpaces(P) && Choices(P, pre) && Boundaries(P, comb)
    ensures Choices(P, pre + [comb]) && Cuttable(P, SplitsOf(WordStarts(P), comb))
    ensures var before := SearchState(env, P, localLog, cache, whole, pre);
      var current := SplitSpec(env, P, SplitsOf(WordStarts(P), comb), localLog, before.1);
      SearchState(env, P, localLog, cache, whole, pre + [comb]) == (Better(before.0, current.0), current.1)
  {
    var all := pre + [comb];
    assert all[..|pre|] == pre && all[|pre|] == comb;
    LastBoundaries(P, all);
    var before := SplitTrace(env, P, localLog, cache, pre);
    var current := SplitSpec(env, P, SplitsOf(WordStarts(P), comb), localLog, before.1);
    assert SplitTrace(env, P, localLog, cache, all) == (before.0 + [current.0], current.1);
    assert (before.0 + [current.0])[..|before.0|] == before.0;
  }

  /** splits[j] = w[comb[j] + 1] - 1 for each chosen boundary
      (encode/encode.cc:655-663). */
  method SplitsFor(w: seq<int>, comb: seq<int>) returns (splits: seq<int>)
    requires forall j :: 0 <= j < |comb| ==> 1 <= comb[j] < |w|
    ensures splits == SplitsOf(w, comb)
  {
    splits := [];
    var j := 0;
    while j < |comb|
      invariant 0 <= j <= |comb| && |splits| == j
      invariant forall l :: 0 <= l < j ==> splits[l] == w[comb[l]] - 1
    {
      splits := splits + [w[comb[j]] - 1];
      j := j + 1;
    }
  }

  /** One choice of boundaries tried: the phrase encoded with its splits and
      kept when its average is strictly smaller (encode/encode.cc:655-779). */
  method TryChoice(env: Env, P: string, w: seq<int>, localLog: seq<string>, cache: CacheLog, whole: CompressedPhrase,
                   ghost pre: seq<seq<int>>, comb: seq<int>, best0: CompressedPhrase, cache0: CacheLog, buffers: Buffers)
    returns (best: CompressedPhrase, cache': CacheLog)
    requires InnerSpaces(P) && w == WordStarts(P) && Choices(P, pre) && Boundaries(P, comb)
    requires (best0, cache0) == SearchState(env, P, localLog, cache, whole, pre)
    requires buffers.combinationLetters == []
    modifies buffers
    ensures Choices(P, pre + [comb])
    ensures (best, cache') == SearchState(env, P, localLog, cache, whole, pre + [comb])
    ensures buffers.combinationList == old(buffers.combinationList) && buffers.combinationLetters == []
  {
    SearchSnoc(env, P, localLog, cache, whole, pre, comb);
    var splits := SplitsFor(w, comb);
    var current;
    current, cache' := EncodeSplit(env, P, splits, localLog, cache0, buffers);
    best := best0;
    if Average(current) < Average(best) {
      best := current;
    }
  }

  /** The loop over combinationList for one number of splits
      (encode/encode.cc:652-780). */
  method ScanSplits(env: Env, P: string, w: seq<int>, localLog: seq<string>, cache: CacheLog, whole: CompressedPhrase,
                    ghost done: seq<seq<int>>, ghost list: seq<seq<int>>, best0: CompressedPhrase, cache0: CacheLog,
                    buffers: Buffers)
    returns (best: CompressedPhrase, cache': CacheLog)
    requires InnerSpaces(P) && w == WordStarts(P)
    requires Choices(P, done) && Choices(P, list) && buffers.combinationList == list
    requires (best0, cache0) == SearchState(env, P, localLog, cache, whole, done)
    requires buffers.combinationLetters == []
    modifies buffers
    ensures Choices(P, done + list)
    ensures (best, cache') == SearchState(env, P, localLog, cache, whole, done + list)
    ensures buffers.combinationList == list && buffers.combinationLetters == []
  {
    best, cache' := best0, cache0;
    var i := 0;
    ghost var tried := done;
    assert done + list[..0] == done;
    while i < |buffers.combinationList|
      invariant 0 <= i <= |list| && tried == done + list[..i]
      invariant buffers.combinationList == list && buffers.combinationLetters == []
      invariant Choices(P, tried)
      invariant (best, cache') == SearchState(env, P, localLog, cache, whole, tried)
    {
      var comb := buffers.combinationList[i];
      assert comb in list;
      best, cache' := TryChoice(env, P, w, localLog, cache, whole, tried, comb, best, cache', buffers);
      SliceSnoc(done, list, i);
      tried := tried + [comb];
      i := i + 1;
    }
    assert list[..i] == list;
  }

  /** The choices with at most q splits are choices of boundaries, and the
      ones with exactly q come after those with fewer. */
  lemma RevealsChoices(P: string, len: nat, q: nat)
    requires len == |WordStarts(P)| - 1 && 1 <= q <= len
    ensures Reveals(len, q) == Reveals(len, q - 1) + Choose(1, len, q)
    ensures Choices(P, Reveals(len, q - 1))
    ensures Choices(P, Choose(1, len, q))
  {
    RevealsCombinations(len, q - 1);
    ChooseSound(1, len, q);
  }

  /** Every choice of exactly q boundaries, listed into combinationList,
      tried in order, and the list cleared (encode/encode.cc:647-781).
      position and combination are left as scratch. */
  method SearchSize(env: Env, P: string, w: seq<int>, m: nat, localLog: seq<string>, cache: CacheLog,
                    whole: CompressedPhrase, q: nat, ghost done: seq<seq<int>>, best0: CompressedPhrase, cache0: CacheLog,
                    buffers: Buffers)
    returns (best: CompressedPhrase, cache': CacheLog)
    requires InnerSpaces(P) && w == WordStarts(P) && m == |w| && 1 <= q <= m - 1
    requires Choices(P, done) && Choices(P, Choose(1, m - 1, q))
    requires (best0, cache0) == SearchState(env, P, localLog, cache, whole, done)
    requires buffers.combinationList == [] && buffers.combinationLetters == []
    modifies buffers
    ensures Choices(P, done + Choose(1, m - 1, q))
    ensures (best, cache') == SearchState(env, P, localLog, cache, whole, done + Choose(1, m - 1, q))
    ensures buffers.combinationList == [] && buffers.combinationLetters == []
  {
    buffers.FindAllCombinations(m - 1, q, true);
    assert buffers.combinationList == Choose(1, m - 1, q);
    best, cache' := ScanSplits(env, P, w, localLog, cache, whole, done, Choose(1, m - 1, q), best0, cache0, buffers);
    buffers.ClearList();
  }

  /** Case 2 of bestCompression: for each number of splits from 1 to m-1,
      every choice of that many boundaries in lexicographic order
      (encode/encode.cc:643-783). */
  method SearchSplits(env: Env, P: string, w: seq<int>, m: nat, localLog: seq<string>, cache: CacheLog,
                      whole: CompressedPhrase, buffers: Buffers)
    returns (best: CompressedPhrase, cache': CacheLog)
    requires InnerSpaces(P) && w == WordStarts(P) && m == |w|
    requires buffers.combinationList == [] && buffers.combinationLetters == []
    modifies buffers
    ensures (best, cache') == SearchState(env, P, localLog, cache, whole, AllBoundaries(P))
    ensures buffers.combinationList == [] && buffers.combinationLetters == []
  {
    best, cache' := whole, cache;
    var numSplits := 1;
    ghost var done: seq<seq<int>> := [];
    while numSplits <= m - 1
      invariant 1 <= numSplits <= m
      invariant buffers.combinationList == [] && buffers.combinationLetters == []
      invariant done == Reveals(m - 1, numSplits - 1)
      invariant Choices(P, done)
      invariant (best, cache') == SearchState(env, P, localLog, cache, whole, done)
    {
      RevealsChoices(P, m - 1, numSplits);
      assert 1 <= numSplits <= m - 1;
      assert Choices(P, Choose(1, m - 1, numSplits));
      assert (best, cache') == SearchState(env, P, localLog, cache, whole, done);
      assert buffers.combinationList == [] && buffers.combinationLetters == [];
      best, cache' := SearchSize(env, P, w, m, localLog, cache, whole, numSplits, done, best, cache', buffers);
      done := done + Choose(1, m - 1, numSplits);
      numSplits := numSplits + 1;
    }
  }

  /** One phrase: the whole phrase as one group (case 1), then the search
      over splits (case 2); the phrase kept and the cache after it
      (encode/encode.cc:562-783). */
  method EncodePhrase(env: Env, P: string, w: seq<int>, m: nat, localLog: seq<string>, cache: CacheLog, buffers: Buffers)
    returns (best: CompressedPhrase, cache': CacheLog)
    requires InnerSpaces(P) && w == WordStarts(P) && m == |w|
    requires buffers.combinationList == [] && buffers.combinationLetters == []
    modifies buffers
    ensures (best, cache') == BestSplit(env, P, localLog, cache)
    ensures buffers.combinationList == [] && buffers.combinationLetters == []
  {
    var whole, c1 := EncodeSplit(env, P, [], localLog, cache, buffers);
    best, cache' := SearchSplits(env, P, w, m, localLog, c1, whole, buffers);
  }
}
