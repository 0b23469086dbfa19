// The combination enumerator of encode/encode.cc: every strictly increasing
// k-subset of 1..n, written into one of two global result buffers.

module Combinations {

  /** Binomial coefficient by Pascal's rule. */
  function Binom(n: nat, k: nat): nat
  {
    if k == 0 then 1 else if n == 0 then 0 else Binom(n - 1, k - 1) + Binom(n - 1, k)
  }

  /** Every sequence of xs with p put in front of it. */
  function Prefixed(p: seq<int>, xs: seq<seq<int>>): seq<seq<int>>
  {
    seq(|xs|, j requires 0 <= j < |xs| => p + xs[j])
  }

  /** The strictly increasing length-k sequences over lo..n, in lexicographic
      order: first those that start with lo, then those that do not. */
  function Choose(lo: int, n: int, k: nat): seq<seq<int>>
    decreases n - lo + 1
  {
    if k == 0 then [[]]
    else if n - lo + 1 < k then []
    else Prefixed([lo], Choose(lo + 1, n, k - 1)) + Choose(lo + 1, n, k)
  }

  predicate Increasing(s: seq<int>)
  {
    forall i, j :: 0 <= i < j < |s| ==> s[i] < s[j]
  }

  /** s is a k-subset of lo..n, listed in increasing order. */
  predicate IsCombination(s: seq<int>, lo: int, n: int, k: nat)
  {
    |s| == k && Increasing(s) && forall i :: 0 <= i < |s| ==> lo <= s[i] <= n
  }

  /** Strict lexicographic order on sequences of positions. */
  predicate LexLess(a: seq<int>, b: seq<int>)
  {
    |a| > 0 && |b| > 0 && (a[0] < b[0] || (a[0] == b[0] && LexLess(a[1..], b[1..])))
  }

  /** Taking one more element of list after pre. */
  lemma SliceSnoc<T>(pre: seq<T>, list: seq<T>, i: nat)
    requires i < |list|
    ensures pre + list[..i + 1] == (pre + list[..i]) + [list[i]]
  {
    assert list[..i + 1] == list[..i] + [list[i]];
  }

  lemma PrefixedAppend(p: seq<int>, a: seq<seq<int>>, b: seq<seq<int>>)
    ensures Prefixed(p, a + b) == Prefixed(p, a) + Prefixed(p, b)
  {
    assert forall j :: 0 <= j < |a + b| ==> Prefixed(p, a + b)[j] == (Prefixed(p, a) + Prefixed(p, b))[j];
  }

  lemma PrefixedTwice(p: seq<int>, v: int, xs: seq<seq<int>>)
    ensures Prefixed(p, Prefixed([v], xs)) == Prefixed(p + [v], xs)
  {
    forall j | 0 <= j < |xs|
      ensures Prefixed(p, Prefixed([v], xs))[j] == Prefixed(p + [v], xs)[j]
    {
      assert p + ([v] + xs[j]) == (p + [v]) + xs[j];
    }
  }

  lemma PrefixedEmpty(xs: seq<seq<int>>)
    ensures Prefixed([], xs) == xs
  {
    forall j | 0 <= j < |xs| ensures Prefixed([], xs)[j] == xs[j] {
      assert [] + xs[j] == xs[j];
    }
  }

  /** Every listed sequence is a k-subset of lo..n. */
  lemma {:induction false} ChooseSound(lo: int, n: int, k: nat)
    ensures forall c :: c in Choose(lo, n, k) ==> IsCombination(c, lo, n, k)
    decreases n - lo + 1
  {
    if k > 0 && n - lo + 1 >= k {
      ChooseSound(lo + 1, n, k - 1);
      ChooseSound(lo + 1, n, k);
      var first := Choose(lo + 1, n, k - 1);
      forall c | c in Prefixed([lo], first) ensures IsCombination(c, lo, n, k) {
        var j :| 0 <= j < |first| && c == Prefixed([lo], first)[j];
        assert first[j] in first;
        assert c == [lo] + first[j];
      }
    }
  }

  lemma {:induction false} IncreasingGrows(s: seq<int>, j: nat)
    requires Increasing(s) && j < |s|
    ensures s[j] >= s[0] + j
  {
    if j > 0 {
      IncreasingGrows(s, j - 1);
    }
  }

  lemma ShiftLower(s: seq<int>, lo: int, n: int, k: nat)
    requires IsCombination(s, lo, n, k) && k > 0 && s[0] != lo
    ensures IsCombination(s, lo + 1, n, k)
  {
    forall i | 0 <= i < |s| ensures lo + 1 <= s[i] {
      if i > 0 { assert s[0] < s[i]; }
    }
  }

  lemma DropFirst(s: seq<int>, lo: int, n: int, k: nat)
    requires IsCombination(s, lo, n, k) && k > 0 && s[0] == lo
    ensures IsCombination(s[1..], lo + 1, n, k - 1)
  {
    var rest := s[1..];
    forall i | 0 <= i < |rest| ensures lo + 1 <= rest[i] <= n {
      assert rest[i] == s[i + 1];
      assert s[0] < s[i + 1];
    }
    forall i, j | 0 <= i < j < |rest| ensures rest[i] < rest[j] {
      assert rest[i] == s[i + 1] && rest[j] == s[j + 1];
    }
  }

  /** Every k-subset of lo..n is listed. */
  lemma {:induction false} ChooseComplete(lo: int, n: int, k: nat, s: seq<int>)
    requires IsCombination(s, lo, n, k)
    ensures s in Choose(lo, n, k)
    decreases n - lo + 1, 1
  {
    if k == 0 {
      assert s == [];
    } else {
      IncreasingGrows(s, k - 1);
      assert lo <= s[0] && s[k - 1] <= n;
      if s[0] == lo {
        CompleteWithHead(lo, n, k, s);
      } else {
        ShiftLower(s, lo, n, k);
        ChooseComplete(lo + 1, n, k, s);
        ListedWithoutHead(lo, n, k, s);
      }
    }
  }

  lemma CompleteWithHead(lo: int, n: int, k: nat, s: seq<int>)
    requires IsCombination(s, lo, n, k) && k > 0 && n - lo + 1 >= k && s[0] == lo
    ensures s in Choose(lo, n, k)
    decreases n - lo + 1, 0
  {
    DropFirst(s, lo, n, k);
    ChooseComplete(lo + 1, n, k - 1, s[1..]);
    ListedWithHead(lo, n, k, s);
  }

  lemma ListedWithHead(lo: int, n: int, k: nat, s: seq<int>)
    requires k > 0 && n - lo + 1 >= k && |s| == k && s[0] == lo && s[1..] in Choose(lo + 1, n, k - 1)
    ensures s in Choose(lo, n, k)
  {
    ChooseUnroll(lo, n, k);
    var first := Choose(lo + 1, n, k - 1);
    var j :| 0 <= j < |first| && first[j] == s[1..];
    assert s == [lo] + s[1..];
    assert Prefixed([lo], first)[j] == s;
  }

  lemma ListedWithoutHead(lo: int, n: int, k: nat, s: seq<int>)
    requires k > 0 && n - lo + 1 >= k && s in Choose(lo + 1, n, k)
    ensures s in Choose(lo, n, k)
  {
    ChooseUnroll(lo, n, k);
  }

  lemma ChooseUnroll(lo: int, n: int, k: nat)
    requires k > 0 && n - lo + 1 >= k
    ensures Choose(lo, n, k) == Prefixed([lo], Choose(lo + 1, n, k - 1)) + Choose(lo + 1, n, k)
  {
  }

  lemma {:induction false} BinomBeyond(m: nat, k: nat)
    requires m < k
    ensures Binom(m, k) == 0
  {
    if m > 0 {
      BinomBeyond(m - 1, k - 1);
      BinomBeyond(m - 1, k);
    }
  }

  /** There are C(n - lo + 1, k) of them; in particular a single empty one when k = 0. */
  lemma {:induction false} ChooseCount(lo: int, n: int, k: nat)
    requires lo <= n + 1
    ensures |Choose(lo, n, k)| == Binom(n - lo + 1, k)
    decreases n - lo + 1
  {
    if k == 0 {
    } else if n - lo + 1 < k {
      BinomBeyond(n - lo + 1, k);
    } else {
      ChooseCount(lo + 1, n, k - 1);
      ChooseCount(lo + 1, n, k);
    }
  }

  /** They come in strictly increasing lexicographic order (so none repeats). */
  lemma {:induction false} ChooseSorted(lo: int, n: int, k: nat)
    ensures forall i, j :: 0 <= i < j < |Choose(lo, n, k)| ==> LexLess(Choose(lo, n, k)[i], Choose(lo, n, k)[j])
    decreases n - lo + 1
  {
    if k > 0 && n - lo + 1 >= k {
      var first := Choose(lo + 1, n, k - 1);
      var second := Choose(lo + 1, n, k);
      var all := Choose(lo, n, k);
      ChooseSorted(lo + 1, n, k - 1);
      ChooseSorted(lo + 1, n, k);
      ChooseSound(lo + 1, n, k);
      assert all == Prefixed([lo], first) + second;
      forall i, j | 0 <= i < j < |all| ensures LexLess(all[i], all[j]) {
        if j < |first| {
          assert all[i] == [lo] + first[i] && all[j] == [lo] + first[j];
          assert all[i][1..] == first[i] && all[j][1..] == first[j];
        } else if i < |first| {
          assert all[i] == [lo] + first[i];
          assert all[j] == second[j - |first|];
          assert second[j - |first|] in second;
        } else {
          assert all[i] == second[i - |first|] && all[j] == second[j - |first|];
        }
      }
    }
  }

  lemma PrefixedLiteral(p: seq<int>, xs: seq<seq<int>>, ys: seq<seq<int>>)
    requires |xs| == |ys| && forall j :: 0 <= j < |xs| ==> p + xs[j] == ys[j]
    ensures Prefixed(p, xs) == ys
  {
  }

  /** Choosing 2 of 4 positions lists every pair in lexicographic order. */
  lemma ChooseFourTwo()
    ensures Choose(1, 4, 2) == [[1, 2], [1, 3], [1, 4], [2, 3], [2, 4], [3, 4]]
  {
    assert Choose(5, 4, 0) == [[]] && Choose(5, 4, 1) == [];
    PrefixedLiteral([4], [[]], [[4]]);
    assert Choose(4, 4, 1) == [[4]];
    PrefixedLiteral([3], [[]], [[3]]);
    assert Choose(3, 4, 1) == [[3], [4]];
    PrefixedLiteral([2], [[]], [[2]]);
    assert Choose(2, 4, 1) == [[2], [3], [4]];
    assert Choose(4, 4, 2) == [];
    PrefixedLiteral([3], [[4]], [[3, 4]]);
    assert Choose(3, 4, 2) == [[3, 4]];
    PrefixedLiteral([2], [[3], [4]], [[2, 3], [2, 4]]);
    assert Choose(2, 4, 2) == [[2, 3], [2, 4], [3, 4]];
    PrefixedLiteral([1], [[2], [3], [4]], [[1, 2], [1, 3], [1, 4]]);
  }

  /** The choices listed so far, then those starting with i + 1, then the
      rest, are still all the choices from offset + 1. */
  lemma EnumerationStep(done: seq<seq<int>>, i: int, n: int, k: nat, offset: int)
    requires k > 0 && i <= n - k
    requires done + Choose(i + 1, n, k) == Choose(offset + 1, n, k)
    ensures (done + Prefixed([i + 1], Choose(i + 2, n, k - 1))) + Choose(i + 2, n, k) == Choose(offset + 1, n, k)
  {
    ChooseUnroll(i + 1, n, k);
  }

  /** The buffer after the recursive call, seen through the prefix. */
  lemma EnumerationPrefix(start: seq<seq<int>>, prefix: seq<int>, done: seq<seq<int>>, i: int, n: int, k: nat)
    requires k > 0
    ensures (start + Prefixed(prefix, done)) + Prefixed(prefix + [i + 1], Choose(i + 2, n, k - 1))
      == start + Prefixed(prefix, done + Prefixed([i + 1], Choose(i + 2, n, k - 1)))
  {
    var more := Choose(i + 2, n, k - 1);
    PrefixedTwice(prefix, i + 1, more);
    PrefixedAppend(prefix, done, Prefixed([i + 1], more));
    assert (start + Prefixed(prefix, done)) + Prefixed(prefix + [i + 1], more)
      == start + (Prefixed(prefix, done) + Prefixed(prefix + [i + 1], more));
  }

  /** The global vectors position, combination, combinationList and
      combinationLetters of encode/encode.cc. position and combination are
      scratch: FindAllCombinations resets both before it enumerates
      (encode/encode.cc:96-97), so the methods that use the buffers state
      only the two lists, the only fields read across calls. */
  class Buffers {
    var position: seq<int>
    var combination: seq<int>
    var combinationList: seq<seq<int>>
    var combinationLetters: seq<seq<int>>

    constructor ()
      ensures position == [] && combination == []
      ensures combinationList == [] && combinationLetters == []
    {
      position, combination := [], [];
      combinationList, combinationLetters := [], [];
    }

    /** The buffer that the flag splits selects. */
    function Selected(splits: bool): seq<seq<int>>
      reads this
    {
      if splits then combinationList else combinationLetters
    }

    /** Pushes the current combination onto the buffer selected by splits. */
    method PushCombination(splits: bool)
      modifies this
      ensures position == old(position) && combination == old(combination)
      ensures Selected(splits) == old(Selected(splits)) + [combination]
      ensures Selected(!splits) == old(Selected(!splits))
    {
      if splits {
        combinationList := combinationList + [combination];
      } else {
        combinationLetters := combinationLetters + [combination];
      }
    }

    /** Appends, after the current partial combination, every k-subset of the
        positions from index offset on, to the buffer selected by splits. */
    method RecursiveCombinations(offset: nat, k: nat, splits: bool)
      requires forall i :: 0 <= i < |position| ==> position[i] == i + 1
      requires offset + k <= |position|
      modifies this
      ensures position == old(position) && combination == old(combination)
      ensures Selected(splits) == old(Selected(splits)) + Prefixed(combination, Choose(offset + 1, |position|, k))
      ensures Selected(!splits) == old(Selected(!splits))
      decreases k, 1
    {
      if k == 0 {
        assert Choose(offset + 1, |position|, 0) == [[]];
        PrefixedLiteral(combination, [[]], [combination]);
        PushCombination(splits);
        return;
      }
      var n := |position|;
      var end := n - k;
      var i := offset;
      ghost var done: seq<seq<int>> := [];
      ghost var start, other, whole := Selected(splits), Selected(!splits), Choose(offset + 1, n, k);
      PrefixedEmpty([]);
      while i <= end
        invariant offset <= i <= end + 1
        invariant position == old(position) && combination == old(combination)
        invariant done + Choose(i + 1, n, k) == whole
        invariant Selected(splits) == start + Prefixed(combination, done)
        invariant Selected(!splits) == other
      {
        EnumerationStep(done, i, n, k, offset);
        EnumerationPrefix(start, combination, done, i, n, k);
        Branch(i, k, splits);
        done := done + Prefixed([i + 1], Choose(i + 2, n, k - 1));
        i := i + 1;
      }
      assert Choose(i + 1, n, k) == [];
      assert done == whole;
    }

    /** One pass of the loop in recursiveCombinations: push position[i],
        enumerate the remaining k - 1 after it, pop. */
    method Branch(i: nat, k: nat, splits: bool)
      requires forall j :: 0 <= j < |position| ==> position[j] == j + 1
      requires k > 0 && i + k <= |position|
      modifies this
      ensures position == old(position) && combination == old(combination)
      ensures Selected(splits) == old(Selected(splits)) + Prefixed(combination + [i + 1], Choose(i + 2, |position|, k - 1))
      ensures Selected(!splits) == old(Selected(!splits))
      decreases k, 0
    {
      combination := combination + [position[i]];
      RecursiveCombinations(i + 1, k - 1, splits);
      combination := combination[..|combination| - 1];
    }

    /** findAllCombinations(n, k, splits): positions 1..n, then every k-subset. */
    method FindAllCombinations(n: nat, k: nat, splits: bool)
      requires k <= n
      modifies this
      ensures forall i :: 0 <= i < |position| ==> position[i] == i + 1
      ensures |position| == n && combination == []
      ensures Selected(splits) == old(Selected(splits)) + Choose(1, n, k)
      ensures Selected(!splits) == old(Selected(!splits))
    {
      position := [];
      combination := [];
      var i := 0;
      while i < n
        invariant 0 <= i <= n && |position| == i
        invariant forall j :: 0 <= j < i ==> position[j] == j + 1
        invariant combination == []
        invariant combinationList == old(combinationList) && combinationLetters == old(combinationLetters)
      {
        position := position + [i + 1];
        i := i + 1;
      }
      RecursiveCombinations(0, k, splits);
      PrefixedEmpty(Choose(1, n, k));
      assert Selected(splits) == old(Selected(splits)) + Choose(1, n, k);
    }

    /** combinationList.clear() */
    method ClearList()
      modifies this
      ensures combinationList == []
      ensures position == old(position) && combination == old(combination)
      ensures combinationLetters == old(combinationLetters)
    {
      combinationList := [];
    }

    /** combinationLetters.clear() */
    method ClearLetters()
      modifies this
      ensures combinationLetters == []
      ensures position == old(position) && combination == old(combination)
      ensures combinationList == old(combinationList)
    {
      combinationLetters := [];
    }
  }
}
