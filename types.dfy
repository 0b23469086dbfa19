// Records and collaborators shared by the encoder: the CompressedWords and
// CompressedPhrase records, the bit helpers of encode.h and the two
// dictionaries (mtf) and the global trie, which live outside encode/encode.cc.

module Types {

  datatype Option<T> = None | Some(value: T)

  /** Bounds on the global-dictionary search (encode/encode.cc:21-22). */
  const MaxNumRevealedChars: int := 4
  const MaxNumWords: int := 5

  /** What mtf::index returns for a text it does not hold. */
  const NotFound: nat := 0xffffffff

  /** The sentinel ratio of a scheme that produced no candidate. */
  const Unavailable: real := -1.0

  /** The bit helpers of encode.h, which is not part of this model. Each is
      taken as given; nothing is assumed about its bit layout. */
  datatype Codec = Codec(
    binary: (int, bool) -> string,      // convertToBinary(value, flag)
    binaryDefault: bool,                 // the flag convertToBinary takes when it is left out
    binaryLong: (int, bool) -> string,  // convertToBinaryLong(value, flag)
    binaryLongDefault: bool,             // the flag convertToBinaryLong takes when it is left out
    charToInt: char -> int,              // charToInt
    encodingChars: bool,                 // ENCODINGCHARS == 1
    rle: string -> string)               // rleEncode over the bit vector

  datatype Scheme = Unassigned | Normal | Local | Global

  /** CompressedWords: one word group under one scheme. */
  datatype CompressedWord = CompressedWord(
    words: string,
    compressedString: string,
    ratio: real,
    usesLocalDict: bool,
    revealedChars: seq<int>,
    prevLetter: Option<char>,
    scheme: Scheme)

  /** A freshly allocated CompressedWords for text: no string and the
      unavailable ratio, which the first-candidate test in tryAllLetters relies on. */
  function Blank(text: string): CompressedWord
  {
    CompressedWord(text, "", Unavailable, false, [], None, Unassigned)
  }

  /** CompressedPhrase: one phrase under one choice of splits. */
  datatype CompressedPhrase = CompressedPhrase(
    numberSplits: nat,
    splits: seq<int>,
    wordsSet: seq<CompressedWord>,
    totalRatio: real)

  /** The ratio the phrase search compares: average ratio per word group. */
  function Average(p: CompressedPhrase): real
  {
    p.totalRatio / (1 + p.numberSplits) as real
  }

  /** The insertions made so far into the memo cache (CPlocalDictionary). */
  type CacheLog = seq<(string, CompressedWord)>

  /** The mtf dictionaries and the global trie, defined outside this file.
      Each dictionary is known only through the texts inserted into it, in
      order; its answers are taken as given functions of that history. */
  datatype Oracles = Oracles(
    localIndex: (seq<string>, string) -> nat,                     // localDictionary->index(text)
    findBest: (CacheLog, string, char) -> Option<CompressedWord>,  // CPlocalDictionary->findBest(text, letter)
    rankPrefixed: (string, seq<int>) -> int,                       // get_rank(text, hidden, true)
    rankPlain: (string, seq<int>) -> int)                          // get_rank(text, hidden)

  datatype Env = Env(codec: Codec, oracles: Oracles)

  /** What the memo cache is taken to honour: a hit is a word that was
      inserted under the text asked for (encode/encode.cc:594-601, 715-722). */
  ghost predicate FindsLogged(o: Oracles)
  {
    forall c: CacheLog, t: string, l: char :: o.findBest(c, t, l).Some? ==>
      exists i :: 0 <= i < |c| && c[i].0 == t && c[i].1 == o.findBest(c, t, l).value
  }

  /** Every cached word is the word of the text it is cached under. */
  predicate CacheKeyed(cache: CacheLog)
  {
    forall i :: 0 <= i < |cache| ==> cache[i].1.words == cache[i].0
  }

  /** 100 * encoded / baseline, exactly (the source computes it in float). */
  function Ratio(encodedLen: nat, normalLen: nat): (r: real)
    requires normalLen > 0
    ensures encodedLen > 0 ==> r > 0.0
    ensures r < 100.0 <==> encodedLen < normalLen
  {
    var e, n := encodedLen as real, normalLen as real;
    var r := 100.0 * e / n;
    assert r * n == 100.0 * e;
    assert r < 100.0 ==> r * n < 100.0 * n;
    assert r >= 100.0 ==> r * n >= 100.0 * n;
    r
  }
}
