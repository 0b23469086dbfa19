// Cutting the normalised text into phrases (encode/encode.cc:511-558) and a
// phrase into word groups at chosen spaces (encode/encode.cc:651-707).

module Phrases {
  import opened Combinations
  import opened Normalise

  // ----------------------------------------------------------------- phrases

  /** Where the phrase starting at s ends: the first period at or after s,
      or bound if there is none before it. */
  function PhraseEnd(T: string, s: nat, bound: nat): (e: nat)
    requires s <= bound <= |T|
    ensures s <= e <= bound
    decreases bound - s
  {
    if s == bound || T[s] == '.' then s else PhraseEnd(T, s + 1, bound)
  }

  /** The phrase ends at the first period, or at bound if none comes first. */
  lemma {:induction false} PhraseEndFirstDot(T: string, s: nat, bound: nat)
    requires s <= bound <= |T|
    ensures var e := PhraseEnd(T, s, bound);
      && (forall i :: s <= i < e ==> T[i] != '.')
      && (e == bound || T[e] == '.')
    decreases bound - s
  {
    if s < bound && T[s] != '.' {
      PhraseEndFirstDot(T, s + 1, bound);
    }
  }

  /** Where the phrase loop stops: the text ends in a period (which the dot
      flag records) or not. */
  function LoopBound(T: string): nat
    requires |T| > 0
  {
    if T[|T| - 1] == '.' then |T| - 1 else |T|
  }

  /** The phrases from position s on, in order. */
  function PhrasesFrom(T: string, s: nat, bound: nat): seq<string>
    requires bound <= |T|
    decreases bound - s
  {
    if s >= bound then []
    else
      var e := PhraseEnd(T, s, bound);
      [T[s..e]] + PhrasesFrom(T, e + 1, bound)
  }

  /** The phrases joined back with periods. */
  function JoinDots(ps: seq<string>): string
  {
    if ps == [] then "" else if |ps| == 1 then ps[0] else ps[0] + "." + JoinDots(ps[1..])
  }

  /** No phrase holds a period. */
  lemma {:induction false} PhrasesNoDots(T: string, s: nat, bound: nat)
    requires bound <= |T|
    ensures forall p :: p in PhrasesFrom(T, s, bound) ==> '.' !in p
    decreases bound - s
  {
    if s < bound {
      var e := PhraseEnd(T, s, bound);
      var p := T[s..e];
      PhraseEndFirstDot(T, s, bound);
      assert '.' !in p by {
        forall i | 0 <= i < |p| ensures p[i] != '.' {
          assert p[i] == T[s + i];
        }
      }
      PhrasesNoDots(T, e + 1, bound);
    }
  }

  /** Cutting loses nothing: the phrases joined with periods give back the
      text up to bound, but for a period just before bound, after which no
      (empty) phrase is read. */
  lemma {:induction false} PhrasesCover(T: string, s: nat, bound: nat)
    requires s <= bound <= |T|
    ensures T[s..bound] == JoinDots(PhrasesFrom(T, s, bound)) + Trailer(T, s, bound)
    decreases bound - s
  {
    if s < bound {
      var e := PhraseEnd(T, s, bound);
      PhraseEndFirstDot(T, s, bound);
      if e + 1 < bound {
        PhrasesCover(T, e + 1, bound);
      }
      assert PhrasesFrom(T, s, bound) == [T[s..e]] + PhrasesFrom(T, e + 1, bound);
      CoverStep(T, s, e, bound);
    }
  }

  /** The period just before bound that no phrase follows, if any. */
  function Trailer(T: string, s: nat, bound: nat): string
    requires bound <= |T|
  {
    if s < bound && T[bound - 1] == '.' then "." else ""
  }

  lemma CoverStep(T: string, s: nat, e: nat, bound: nat)
    requires s <= e <= bound <= |T| && s < bound
    requires PhrasesFrom(T, s, bound) == [T[s..e]] + PhrasesFrom(T, e + 1, bound)
    requires e == bound || T[e] == '.'
    requires e == bound ==> T[bound - 1] != '.'
    requires e + 1 < bound ==> T[e + 1..bound] == JoinDots(PhrasesFrom(T, e + 1, bound)) + Trailer(T, e + 1, bound)
    ensures T[s..bound] == JoinDots(PhrasesFrom(T, s, bound)) + Trailer(T, s, bound)
  {
    var p := T[s..e];
    var rest := PhrasesFrom(T, e + 1, bound);
    JoinDotsCons(p, rest);
    if e == bound {
      assert T[s..bound] == p;
    } else if e + 1 == bound {
      assert T[s..bound] == p + ".";
    } else {
      assert |rest| > 0;
      CoverMiddle(T, s, e, bound, p, JoinDots(rest));
    }
  }

  /** CoverStep when more phrases follow. */
  lemma CoverMiddle(T: string, s: nat, e: nat, bound: nat, p: string, joined: string)
    requires s <= e && e + 1 < bound <= |T| && T[e] == '.' && p == T[s..e]
    requires T[e + 1..bound] == joined + Trailer(T, e + 1, bound)
    ensures T[s..bound] == (p + "." + joined) + Trailer(T, s, bound)
  {
    assert T[s..bound] == p + "." + T[e + 1..bound];
    Glue(T[s..bound], p, T[e + 1..bound], joined, Trailer(T, s, bound));
  }

  lemma Glue(whole: string, p: string, restText: string, joined: string, tail: string)
    requires whole == p + "." + restText && restText == joined + tail
    ensures whole == (p + "." + joined) + tail
  {
  }

  lemma JoinDotsCons(p: string, rest: seq<string>)
    ensures JoinDots([p] + rest) == if rest == [] then p else p + "." + JoinDots(rest)
  {
    assert ([p] + rest)[1..] == rest;
  }

  // -------------------------------------------------------- words of a phrase

  /** w of the source, shifted to 0-based: wordStarts[i] is where word i + 1
      of the phrase starts (0, then one past each space). */
  function WordStarts(P: string): (ws: seq<int>)
    ensures |ws| >= 1 && ws[0] == 0
  {
    if P == [] then [0]
    else WordStarts(P[..|P| - 1]) + (if P[|P| - 1] == ' ' then [|P|] else [])
  }

  /** After the first, each word start is one past a space, in increasing
      order. */
  lemma {:induction false} WordStartsSound(P: string)
    ensures var ws := WordStarts(P);
      && (forall i :: 1 <= i < |ws| ==> 1 <= ws[i] <= |P| && P[ws[i] - 1] == ' ')
      && Increasing(ws)
  {
    if P != [] {
      var init := P[..|P| - 1];
      WordStartsSound(init);
      var ws0 := WordStarts(init);
      var ws := WordStarts(P);
      forall i | 1 <= i < |ws| ensures 1 <= ws[i] <= |P| && P[ws[i] - 1] == ' ' {
        if i < |ws0| {
          assert ws[i] == ws0[i] && init[ws[i] - 1] == ' ';
        }
      }
      forall i, j | 0 <= i < j < |ws| ensures ws[i] < ws[j] {
        if j < |ws0| {
          assert ws[i] == ws0[i] && ws[j] == ws0[j];
        } else {
          assert ws[i] == ws0[i] && ws0[i] <= |init|;
        }
      }
    }
  }

  /** Every space is followed by a word start. */
  lemma {:induction false} WordStartsComplete(P: string)
    ensures forall x :: 0 <= x < |P| && P[x] == ' ' ==> x + 1 in WordStarts(P)
  {
    if P != [] {
      var init := P[..|P| - 1];
      WordStartsComplete(init);
      var ws0 := WordStarts(init);
      var ws := WordStarts(P);
      forall x | 0 <= x < |P| && P[x] == ' ' ensures x + 1 in ws {
        if x < |init| {
          assert init[x] == ' ';
          var i :| 0 <= i < |ws0| && ws0[i] == x + 1;
          assert ws[i] == ws0[i];
        } else {
          assert ws[|ws| - 1] == |P|;
        }
      }
    }
  }

  /** Every space of the phrase lies strictly inside it, between two
      characters that are not spaces. */
  predicate InnerSpaces(P: string)
  {
    forall i :: 0 <= i < |P| && P[i] == ' ' ==> 0 < i < |P| - 1 && P[i - 1] != ' ' && P[i + 1] != ' '
  }

  /** A phrase cut from a text that removeSpaces has tidied has only inner
      single spaces. */
  lemma PhraseSpaces(T: string, s: nat, e: nat)
    requires SpacesOk(T) && s <= e <= |T|
    requires s == 0 || T[s - 1] == '.'
    requires e == |T| || T[e] == '.'
    requires forall i :: s <= i < e ==> T[i] != '.'
    ensures InnerSpaces(T[s..e])
  {
    var P := T[s..e];
    forall i | 0 <= i < |P| && P[i] == ' '
      ensures 0 < i < |P| - 1 && P[i - 1] != ' ' && P[i + 1] != ' '
    {
      assert T[s + i] == ' ';
      assert 0 < s + i < |T| - 1 && T[s + i - 1] != '.' && T[s + i + 1] != '.';
      assert P[i - 1] == T[s + i - 1] && P[i + 1] == T[s + i + 1];
    }
  }

  // ------------------------------------------------------------ word groups

  /** The split positions for a choice of word boundaries: boundary c (1..m-1)
      is the space before word c + 1 (encode/encode.cc:661). */
  function SplitsOf(ws: seq<int>, comb: seq<int>): (splits: seq<int>)
    requires forall j :: 0 <= j < |comb| ==> 1 <= comb[j] < |ws|
    ensures |splits| == |comb|
  {
    seq(|comb|, j requires 0 <= j < |comb| => ws[comb[j]] - 1)
  }

  /** Increasing positions of spaces in P. */
  predicate ValidSplits(P: string, splits: seq<int>)
  {
    Increasing(splits) && forall j :: 0 <= j < |splits| ==> 0 <= splits[j] < |P| && P[splits[j]] == ' '
  }

  /** A choice of boundaries gives increasing space positions. */
  lemma SplitsValid(P: string, comb: seq<int>)
    requires IsCombination(comb, 1, |WordStarts(P)| - 1, |comb|)
    ensures ValidSplits(P, SplitsOf(WordStarts(P), comb))
  {
    WordStartsSound(P);
  }

  function GroupStart(splits: seq<int>, k: nat): int
    requires k <= |splits|
  {
    if k == 0 then 0 else splits[k - 1] + 1
  }

  function GroupEnd(P: string, splits: seq<int>, k: nat): int
    requires k <= |splits|
  {
    if k == |splits| then |P| else splits[k]
  }

  /** Word group k of P cut at the splits (encode/encode.cc:689-703). */
  function Group(P: string, splits: seq<int>, k: nat): string
    requires ValidSplits(P, splits) && k <= |splits|
  {
    assert k > 0 && k < |splits| ==> splits[k - 1] < splits[k];
    P[GroupStart(splits, k)..GroupEnd(P, splits, k)]
  }

  function Groups(P: string, splits: seq<int>): (gs: seq<string>)
    requires ValidSplits(P, splits)
    ensures |gs| == |splits| + 1
  {
    seq(|splits| + 1, k requires 0 <= k <= |splits| => Group(P, splits, k))
  }

  lemma GroupAt(P: string, splits: seq<int>, k: nat)
    requires ValidSplits(P, splits) && k <= |splits|
    ensures 0 <= GroupStart(splits, k) <= GroupEnd(P, splits, k) <= |P|
    ensures Groups(P, splits)[k] == P[GroupStart(splits, k)..GroupEnd(P, splits, k)]
  {
    assert k > 0 && k < |splits| ==> splits[k - 1] < splits[k];
  }

  /** The groups joined back with single spaces. */
  function JoinSpaces(gs: seq<string>): string
    requires |gs| > 0
  {
    if |gs| == 1 then gs[0] else JoinSpaces(gs[..|gs| - 1]) + " " + gs[|gs| - 1]
  }

  /** Rejoining the groups at the chosen spaces gives back the phrase. */
  lemma {:induction false} GroupsJoin(P: string, splits: seq<int>)
    requires ValidSplits(P, splits)
    ensures JoinSpaces(Groups(P, splits)) == P
    decreases |splits|
  {
    var gs := Groups(P, splits);
    if splits == [] {
      assert gs[0] == P[0..|P|];
    } else {
      var n := |splits|;
      var cut := splits[n - 1];
      GroupsPrefix(P, splits);
      GroupsJoin(P[..cut], splits[..n - 1]);
      assert gs[n] == Group(P, splits, n) == P[cut + 1..|P|];
      assert JoinSpaces(gs) == JoinSpaces(gs[..n]) + " " + gs[n];
      assert P == P[..cut] + " " + P[cut + 1..];
    }
  }

  /** The groups before the last split are those of the phrase cut there. */
  lemma GroupsPrefix(P: string, splits: seq<int>)
    requires ValidSplits(P, splits) && |splits| > 0
    ensures var n := |splits|;
      && ValidSplits(P[..splits[n - 1]], splits[..n - 1])
      && Groups(P, splits)[..n] == Groups(P[..splits[n - 1]], splits[..n - 1])
  {
    var n := |splits|;
    var cut := splits[n - 1];
    var P' := P[..cut];
    var splits' := splits[..n - 1];
    assert ValidSplits(P', splits') by {
      forall j | 0 <= j < n - 1 ensures splits'[j] < |P'| && P'[splits'[j]] == ' ' {
        assert splits[j] < splits[n - 1];
      }
    }
    var gs := Groups(P, splits);
    var gs' := Groups(P', splits');
    forall k | 0 <= k < n ensures gs[k] == gs'[k] {
      GroupBeforeCut(P, splits, k);
    }
  }

  /** A group before the last split is the same group of the phrase cut
      there. */
  lemma GroupBeforeCut(P: string, splits: seq<int>, k: nat)
    requires ValidSplits(P, splits) && k < |splits|
    requires ValidSplits(P[..splits[|splits| - 1]], splits[..|splits| - 1])
    ensures Groups(P, splits)[k] == Groups(P[..splits[|splits| - 1]], splits[..|splits| - 1])[k]
  {
    var n := |splits|;
    var cut := splits[n - 1];
    var P', splits' := P[..cut], splits[..n - 1];
    GroupAt(P, splits, k);
    GroupAt(P', splits', k);
    var a, b := GroupStart(splits, k), GroupEnd(P, splits, k);
    assert GroupStart(splits', k) == a;
    if k < n - 1 {
      assert splits[k] < cut;
      assert GroupEnd(P', splits', k) == b;
    } else {
      assert GroupEnd(P', splits', k) == cut == b;
    }
    assert P'[a..b] == P[a..b];
  }

  /** With only inner single spaces, every group is non-empty, so each has a
      last letter to hand to the next. */
  lemma GroupsNonEmpty(P: string, splits: seq<int>)
    requires ValidSplits(P, splits) && InnerSpaces(P) && |splits| > 0
    ensures forall k :: 0 <= k <= |splits| ==> |Group(P, splits, k)| > 0
  {
    forall k | 0 <= k <= |splits| ensures GroupStart(splits, k) < GroupEnd(P, splits, k) {
      if k < |splits| {
        assert P[splits[k]] == ' ';
      }
      if k > 0 {
        assert P[splits[k - 1]] == ' ';
      }
      if 0 < k < |splits| {
        assert splits[k - 1] < splits[k];
      }
    }
  }

  /** The phrase loop of bestCompression reads the phrase from s up to its
      end, and where each word starts (encode/encode.cc:522-558). */
  method ReadPhrase(T: string, s0: nat, bound: nat) returns (P: string, w: seq<int>, m: nat, s: nat)
    requires s0 < bound <= |T|
    ensures P == T[s0..PhraseEnd(T, s0, bound)] && s == PhraseEnd(T, s0, bound) + 1
    ensures w == WordStarts(P) && m == |w|
  {
    var t := 0;
    m := 1;
    w := [0];
    var temp := s0;
    while temp < bound && T[temp] != '.'
      invariant s0 <= temp <= bound
      invariant PhraseEnd(T, temp, bound) == PhraseEnd(T, s0, bound)
    {
      temp := temp + 1;
    }
    P := "";
    s := s0;
    while s < temp
      invariant s0 <= s <= temp && t == s - s0
      invariant P == T[s0..s] && w == WordStarts(P) && m == |w|
    {
      assert (P + [T[s]])[..|P|] == P;
      P := P + [T[s]];
      if P[t] == ' ' {
        m := m + 1;
        w := w + [t + 1];
      }
      t := t + 1;
      s := s + 1;
    }
    s := s + 1;
  }
}
