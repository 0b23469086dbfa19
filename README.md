# A verified model of the phrase compressor's encoder

This project models the encoder in `encode/encode.cc`. The encoder compresses English text phrase by phrase, in five parts:

- **Normalisation.** It lower-cases the text, folds commas and repeated periods into spaces (`simplifyText`) and squeezes runs of spaces (`removeSpaces`). It keeps a bit vector from which the original text can be restored.
- **Phrases and groups.** It cuts the normalised text into phrases at periods. For every phrase it tries every way of cutting the phrase into word groups at its spaces. The combinations are enumerated by `findAllCombinations` into global buffers.
- **Schemes.** It encodes every word group under the best of three schemes:
  - NORMAL: the per-character baseline (`normalCompression`);
  - LOCAL: an index into the adaptive local dictionary (`tryLocalDict`);
  - GLOBAL: a rank in the global suffix trie with a few revealed characters (`tryAllLetters`).
- **Choosing a split.** It keeps the split with the smallest average ratio per group.
- **Output.** It grows the local dictionary with the groups kept and their words. The result is `dot + phrases + "10" + bitVector`.

The model is written in the source's own form:

- The global vectors `position`, `combination`, `combinationList` and `combinationLetters` are the fields of a class, `Combinations.Buffers`. The methods that fill and clear them carry `modifies` clauses. `position` and `combination` are scratch that every enumeration resets first (encode/encode.cc:96-97). The methods that use the buffers therefore state only the two lists, which are the fields read across calls.
- Every loop of the source that computes something is a `method` with a `while` loop and its invariants. The three loops that only copy characters or split positions (encode/encode.cc:576-579, 674-676, 695-700) are sequence slices instead (see "## Left out"). Each loop method is proved equal to a specification function over the inputs. The properties the source promises are proved about those functions as lemmas.
- The scheme choice is the one expression-like part of the source, and is a pure function (`Candidates.ChooseScheme`).

Modules follow the structure of the program:

| file | module | what it holds |
|---|---|---|
| `types.dfy` | `Types` | the CompressedWords and CompressedPhrase records, the ratio, and the collaborators (bit helpers, dictionaries, trie) as parameters |
| `combinations.dfy` | `Combinations` | `recursiveCombinations` and `findAllCombinations` over the global buffers |
| `candidates.dfy` | `Candidates` | `normalCompression`, `tryLocalDict`, `tryAllLetters` and the scheme choice |
| `normalise.dfy` | `Normalise` | `simplifyText` and `removeSpaces` |
| `phrases.dfy` | `Phrases` | reading a phrase and its word starts, and cutting it into groups |
| `selection.dfy` | `Selection` | one group under the best scheme with the memo cache; one choice of splits |
| `segmentation.dfy` | `Segmentation` | case 1 and case 2 of `bestCompression`: the search for the best split |
| `dictionary.dfy` | `Dictionary` | the local-dictionary update after each phrase |
| `driver.dfy` | `Driver` | the phrase loop and the assembled result of `bestCompression` |

Collaborators defined outside `encode/encode.cc` are passed in as parameters:

- The helpers of `encode.h` (`convertToBinary`, `convertToBinaryLong`, `charToInt`, `ENCODINGCHARS`, `rleEncode`) are function-typed fields of `Types.Codec`. Nothing is assumed about their bit layouts. The default second argument of each is a field of its own.
- The two `mtf` dictionaries and the global `trie` are function-typed fields of `Types.Oracles`. A dictionary is known only through the texts inserted into it, in order: the local dictionary as a `seq<string>`, the memo cache (`CPlocalDictionary`) as a log of (text, word) pairs. Their answers are taken as given functions of that history.

Ratios are exact reals, `100 * encoded / baseline`. The sentinel -1 stands for "no candidate" (`Types.Unavailable`).

## Model

| member | source | states |
|---|---|---|
| Types.Ratio | encode/encode.cc:292-294 | a ratio is below 100 exactly when the encoding is shorter than the baseline, and positive for a non-empty encoding |
| Combinations.Buffers.constructor | encode/encode.cc:72-75 | the four global vectors start empty |
| Combinations.Buffers.PushCombination | encode/encode.cc:80-81 | the current combination is pushed onto the buffer the flag selects; the other buffer and the partial combination are unchanged |
| Combinations.Buffers.RecursiveCombinations | encode/encode.cc:78-90 | appends to the selected buffer, after the current prefix, exactly Choose(offset+1, n, k) in order; `position`, `combination` and the other buffer are unchanged |
| Combinations.Buffers.Branch | encode/encode.cc:86-88 | push position[i], recurse, pop: appends the k-1 subsets after i+1, each prefixed by combination + [i+1]; the combination is restored |
| Combinations.Buffers.FindAllCombinations | encode/encode.cc:94-102 | `position` becomes 1..n, and the selected buffer gains exactly Choose(1, n, k); the other buffer is unchanged |
| Combinations.Buffers.ClearList | encode/encode.cc:782 | `combinationList` is emptied and nothing else changes |
| Combinations.Buffers.ClearLetters | encode/encode.cc:313 | `combinationLetters` is emptied and nothing else changes |
| Combinations.ChooseSound | encode/encode.cc:78-90 | every listed sequence is strictly increasing, of length k, with elements in lo..n |
| Combinations.ChooseComplete | encode/encode.cc:78-90 | every strictly increasing length-k sequence over lo..n is listed |
| Combinations.ChooseCount | encode/encode.cc:94-102 | the enumeration has Binom(n, k) entries (a single empty one for k = 0) |
| Combinations.ChooseSorted | encode/encode.cc:85-89 | the entries come in strictly increasing lexicographic order |
| Combinations.ChooseFourTwo | encode/encode.cc:94-102 | choosing 2 of 4 lists [1,2],[1,3],[1,4],[2,3],[2,4],[3,4] |
| Candidates.NormalString | encode/encode.cc:112 | the baseline encoding starts with the tag "110" |
| Candidates.NormalCompression | encode/encode.cc:107-128 | the loop builds "110", the length, then one code per character in order |
| Candidates.NormalCodesAppend | encode/encode.cc:115-125 | the codes of a concatenation are the concatenation of the codes |
| Candidates.NormalCodeBijective | encode/encode.cc:117-122 | with ENCODINGCHARS off, a-z, space and '.' map one-to-one onto codes 1..28 |
| Candidates.TryLocalDict | encode/encode.cc:134-162 | on the not-found sentinel: empty string, ratio -1, local flag off; otherwise "1" + binaryLong(index+1), the exact ratio, local flag on; the flag holds exactly when a ratio is available |
| Candidates.HiddenBelowFacts | encode/encode.cc:214-227 | the hidden queue holds exactly the positions below m not chosen, in increasing order |
| Candidates.RevealPartition | encode/encode.cc:214-227 | the revealed positions and the hidden queue are each ascending, lie in [0, len), are disjoint and cover [0, len) |
| Candidates.SplitPositions | encode/encode.cc:214-227 | the two loops produce exactly those revealed positions and that hidden queue |
| Candidates.GapsRoundTrip | encode/encode.cc:263-280 | the position differences written for the revealed characters determine the revealed positions |
| Candidates.GapsPositive | encode/encode.cc:273-285 | for ascending positions inside the text, every difference written, including the one to the end, is at least 1 |
| Candidates.GlobalString | encode/encode.cc:289 | a global candidate starts with the tag "0" |
| Candidates.EncodeGlobal | encode/encode.cc:254-289 | the loop builds "0", binary(q), each (difference, character code) pair in order, the distance to the end and binaryLong(rank+1) |
| Candidates.CombinationInText | encode/encode.cc:221 | every revealed position of a combination over 1..len indexes the text |
| Candidates.FoldSnoc | encode/encode.cc:204-311 | one more subset: after a miss nothing changes, otherwise the subset is queried and perhaps kept |
| Candidates.FoldAfterMiss | encode/encode.cc:251 | once a miss has been seen, no later subset changes the result |
| Candidates.FoldWords | encode/encode.cc:170-311 | the search fills in only the encoding of its word: the word it returns is still the text searched for |
| Candidates.FoldWinner | encode/encode.cc:302-309 | with no miss, the result is the candidate of one subset w: its ratio is the least of all, and strictly less than that of every subset before w |
| Candidates.WinnerFirst | encode/encode.cc:302 | the first hit is always kept, because the fresh word's ratio is -1 |
| Candidates.WinnerStep | encode/encode.cc:302-309 | a hit replaces the best only with a strictly lower ratio, which keeps the first-least-ratio property |
| Candidates.FoldNoMiss | encode/encode.cc:244-249 | a search in which every query hits never stops early |
| Candidates.RevealsCombinations | encode/encode.cc:196-200 | every subset visited is an increasing choice from 1..len |
| Candidates.RevealsSpace | encode/encode.cc:194-200 | the search space is exactly the subsets of 1..len of sizes 1..Bound |
| Candidates.RevealsExtend | encode/encode.cc:196 | the smaller sizes are all visited before the larger ones |
| Candidates.TooManyWordsUnavailable | encode/encode.cc:176-185 | a text of more than five words gets ratio -1 whatever the trie holds |
| Candidates.EarlyExit | encode/encode.cc:244-251 | with a first miss at subset k, the result is the best of the subsets before k; no later subset, of this size or larger, counts |
| Candidates.FoldFirstMiss | encode/encode.cc:244-251 | a search whose first miss is at k ends with the best of the first k subsets and the stop flag set |
| Candidates.TrySubset | encode/encode.cc:210-310 | one subset is queried, its candidate built and kept when better, or the miss is recorded |
| Candidates.ScanOne | encode/encode.cc:204-311 | one more subset continues the search state of the subsets before it |
| Candidates.ScanSubsets | encode/encode.cc:204-311 | the inner loop equals the search fold over the subsets of one size, after those already scanned |
| Candidates.CountSpaces | encode/encode.cc:176-180 | the loop counts the spaces of the text |
| Candidates.SearchSize | encode/encode.cc:200-313 | one size q: enumerate into combinationLetters, scan, clear; the state is the fold over the subsets so far plus Choose(1, len, q) |
| Candidates.SearchSizes | encode/encode.cc:196-314 | the outer loop, stopping at the first miss, equals the fold over all subsets of sizes 1..Bound |
| Candidates.TryAllLetters | encode/encode.cc:170-329 | tryAllLetters returns exactly the specified search result, and the split buffer is untouched |
| Candidates.GlobalSearch | encode/encode.cc:170-329 | the word tryAllLetters returns is the text it was given, whatever the trie answers |
| Candidates.ChooseScheme | encode/encode.cc:610-630 | GLOBAL only when available, below 100 and strictly below an available local ratio; LOCAL only when available, below 100 and at most the global ratio; otherwise NORMAL with ratio 100 and the baseline string; the result is never -1, never above 100, and never above an available candidate's ratio |
| Normalise.SimplifyFrom | encode/encode.cc:346-374 | one output character per input character, none of them upper case or a comma |
| Normalise.SimplifyText | encode/encode.cc:334-385 | the loop's output and bit vector equal the character-by-character specification, starting with no letter seen since a period |
| Normalise.SimplifyOne | encode/encode.cc:347-373 | one character: comma gives space and "10", upper case gives lower case and "1", a kept period gives "0", a repeated period gives space and "11", anything else "0" |
| Normalise.SimplifyRoundTrip | encode/encode.cc:346-374 | the simplified text and its bits restore the original text exactly |
| Normalise.RemoveSpaces | encode/encode.cc:390-468 | the loop and the closing count equal the character-by-character specification |
| Normalise.StepTidy | encode/encode.cc:409-449 | each character keeps the output free of double spaces and of spaces next to periods or at the start, with the period flag accurate |
| Normalise.RunTidy | encode/encode.cc:409-449 | the same over any run of characters |
| Normalise.RemoveSpacesTidy | encode/encode.cc:390-468 | the output has only single spaces, each between two characters that are neither spaces nor periods |
| Normalise.StepKeeps | encode/encode.cc:410-448 | a character that is not a skipped newline adds only spaces and itself to the output |
| Normalise.RunKeeps | encode/encode.cc:409-449 | over a run, the non-space output is the non-space input minus the skipped newlines |
| Normalise.RemoveSpacesKeeps | encode/encode.cc:390-468 | removeSpaces changes only spaces and the first newline of each run of newlines; every other character comes out in order |
| Phrases.PhraseEnd | encode/encode.cc:537-539 | the phrase end lies between its start and the bound |
| Phrases.PhraseEndFirstDot | encode/encode.cc:537-539 | the phrase ends at the first period after its start, or at the bound |
| Phrases.PhrasesNoDots | encode/encode.cc:522-560 | no phrase holds a period |
| Phrases.PhrasesCover | encode/encode.cc:522-560 | the phrases joined with periods give back the text up to the bound, apart from a period just before the bound |
| Phrases.WordStarts | encode/encode.cc:545-557 | the first word starts at 0 |
| Phrases.WordStartsSound | encode/encode.cc:545-557 | every later word start is one past a space, and the starts increase |
| Phrases.WordStartsComplete | encode/encode.cc:551-554 | every space is followed by a word start |
| Phrases.PhraseSpaces | encode/encode.cc:522-560 | a phrase cut from a tidied text has only inner single spaces |
| Phrases.SplitsOf | encode/encode.cc:659-663 | one split position per chosen boundary |
| Phrases.SplitsValid | encode/encode.cc:659-663 | a choice of boundaries gives increasing positions of spaces in the phrase |
| Phrases.Groups | encode/encode.cc:681-704 | a phrase with s splits has s + 1 groups |
| Phrases.GroupAt | encode/encode.cc:683-704 | group k is the slice of the phrase between split k-1 and split k |
| Phrases.GroupsJoin | encode/encode.cc:681-704 | the groups rejoined with single spaces give back the phrase |
| Phrases.GroupsPrefix | encode/encode.cc:681-704 | the groups before the last split are those of the phrase cut at that split |
| Phrases.GroupsNonEmpty | encode/encode.cc:762 | in a phrase with only inner single spaces every group is non-empty, so it has a last letter to pass on |
| Phrases.ReadPhrase | encode/encode.cc:522-560 | the loop reads the phrase up to its end and records where each word starts; the next phrase starts past the period |
| Selection.GroupSpec | encode/encode.cc:583-630 | the group's word has an assigned scheme and a ratio at most 100; NORMAL means the baseline string at ratio 100; LOCAL means the dictionary was used; the global search runs, and its result is cached under the text, only on a cache miss; on a miss, or on a hit that is a word of the same text, the word is the group itself; a cache that holds each word under its own text keeps doing so |
| Selection.GroupSpecWords | encode/encode.cc:594-628 | when every cache hit is a word inserted under the queried text, the word chosen for a group is the group, and the cache still holds each word under its own text |
| Selection.EncodeGroup | encode/encode.cc:704-752 | one group is encoded as the selection specifies, leaving the split buffer unchanged |
| Selection.EncodePrefix | encode/encode.cc:681-764 | after k groups, k words have been produced |
| Selection.EncodePrefixSum | encode/encode.cc:755 | the total ratio is the sum of the group ratios |
| Selection.EncodePrefixTotal | encode/encode.cc:755 | the total ratio is at most 100 per group |
| Selection.EncodePrefixRatios | encode/encode.cc:732-752 | every group gets an available ratio of at most 100 |
| Selection.EncodePrefixGrows | encode/encode.cc:718-723 | the memo cache only grows |
| Selection.EncodePrefixAt | encode/encode.cc:678-762 | group j is selected with the last letter and the cache the groups before it left ('!' for the first) |
| Selection.EncodePrefixLetter | encode/encode.cc:678-762 | the first group gets '!'; with more than one group, each later group gets the last character of the group before it |
| Selection.EncodePrefixKeyed | encode/encode.cc:678-762 | whatever the cache lookup answers, a cache that holds each word under its own text still does so after the groups are encoded |
| Selection.EncodePrefixWords | encode/encode.cc:678-762 | under the same cache assumption, word j of the phrase is group j |
| Selection.CuttableGroups | encode/encode.cc:762 | splits at inner spaces give groups that each have a last letter |
| Selection.SplitSpec | encode/encode.cc:666-764 | the phrase records its splits and one word per group; its average ratio is at most 100; the cache only grows |
| Selection.SplitSpecUnfold | encode/encode.cc:666-764 | the phrase is the groups encoded in order, with their summed ratio |
| Selection.SplitSpecWords | encode/encode.cc:666-764 | under the same cache assumption, the phrase for one choice of splits holds one word per group, and each word is the group its splits cut from the phrase |
| Selection.SplitSpecKeyed | encode/encode.cc:666-764 | whatever the cache lookup answers, the cache left by one choice of splits still holds each word under its own text |
| Selection.AverageBound | encode/encode.cc:770 | a total of at most 100 per group averages at most 100 |
| Selection.EncodeSplit | encode/encode.cc:666-764 | encoding one choice of splits, or the whole phrase for none, equals the specification |
| Selection.EncodeGroupList | encode/encode.cc:680-764 | the group loop equals the in-order encoding of all groups |
| Segmentation.PickFirstMinimum | encode/encode.cc:769-778 | the phrase kept is the start or some tried phrase w; none tried has a smaller average; every phrase before w has a strictly larger one |
| Segmentation.FewestSplitsOnTies | encode/encode.cc:643-778 | when phrases are tried by increasing number of splits, a tie keeps the fewest splits |
| Segmentation.SplitTrace | encode/encode.cc:652-780 | one phrase per choice tried |
| Segmentation.SplitTraceAt | encode/encode.cc:655-676 | entry j is the phrase cut at the spaces of choice j, with that many splits |
| Segmentation.RevealsBySize | encode/encode.cc:643-647 | the choices are listed by non-decreasing size |
| Segmentation.AllBoundaries | encode/encode.cc:643-647 | every choice listed is an increasing choice of word boundaries |
| Segmentation.WholePhrase | encode/encode.cc:567-633 | case 1 has no splits |
| Segmentation.BestSplitMinimal | encode/encode.cc:562-783 | the phrase kept averages no worse than the whole phrase and every split tried, and among equal averages has the fewest splits |
| Segmentation.SplitTraceKeyed | encode/encode.cc:647-782 | whatever the cache lookup answers, the cache left by the choices tried still holds each word under its own text |
| Segmentation.SplitTraceWords | encode/encode.cc:647-782 | under the same cache assumption, each phrase tried holds, in order, the groups its splits cut from the phrase |
| Segmentation.BestSplitWords | encode/encode.cc:562-783 | under the same cache assumption, the phrase kept holds, in order, the groups its splits cut from the phrase, and the cache it leaves still holds each word under its own text |
| Segmentation.TraceBySize | encode/encode.cc:643-653 | the split choices are tried by non-decreasing number of splits |
| Segmentation.EveryChoiceTried | encode/encode.cc:643-663 | every choice of one or more word boundaries is tried |
| Segmentation.EveryCombinationListed | encode/encode.cc:643-647 | every non-empty increasing choice from 1..m-1 is among the choices listed |
| Segmentation.SearchSnoc | encode/encode.cc:769-778 | trying one more choice replaces the best only with a strictly smaller average, and the cache passes on |
| Segmentation.SplitsFor | encode/encode.cc:657-663 | the loop computes the split positions of the choice |
| Segmentation.TryChoice | encode/encode.cc:655-779 | one choice of boundaries advances the search state by one |
| Segmentation.ScanSplits | encode/encode.cc:652-780 | the loop over combinationList advances the search by every listed choice in order |
| Segmentation.SearchSize | encode/encode.cc:647-782 | one number of splits: enumerate, try all in order, clear the list |
| Segmentation.SearchSplits | encode/encode.cc:643-783 | case 2 equals the search over all choices, by size then lexicographic order, and leaves both buffers empty |
| Segmentation.EncodePhrase | encode/encode.cc:562-783 | case 1 then case 2 give exactly the best split of the phrase and the cache after it |
| Dictionary.Run | encode/encode.cc:809 | a word read by operator>> is a maximal run of non-white characters |
| Dictionary.TokensAreWords | encode/encode.cc:806-815 | every word read is non-empty and holds no white character |
| Dictionary.TokensCover | encode/encode.cc:806-815 | the words read, together, are exactly the non-white characters of the group in order |
| Dictionary.Others | encode/encode.cc:811 | a word is inserted exactly when it differs from the whole group |
| Dictionary.InsertedContents | encode/encode.cc:786-817 | the update inserts exactly the `words` text of each kept word and the words of that text, besides what the dictionary held |
| Dictionary.UpdateLocalDictionary | encode/encode.cc:788-817 | the loop appends each group, then each of its words that differs from it, in order |
| Dictionary.InsertWords | encode/encode.cc:806-815 | the inner loop appends the group's words that differ from the group, in order |
| Driver.GroupStringsAt | encode/encode.cc:831-834 | each group's string sits in the output right after those of the groups before it |
| Driver.AppendPhrase | encode/encode.cc:819-834 | the result gains the number of groups, then each group's string in order |
| Driver.PhrasesInner | encode/encode.cc:522-560 | every phrase of a tidied text has only inner single spaces |
| Driver.Normalised | encode/encode.cc:483-495 | the normalised text is tidy: single spaces, none at the ends or next to a period |
| Driver.CompressFrame | encode/encode.cc:509-518 | the result starts with '1' exactly when the normalised text ends with a period, and ends with "10" + bitVector |
| Driver.TextCover | encode/encode.cc:507-560 | the phrases, rejoined with periods, with any period before the bound and the final period, give back the normalised text |
| Driver.TextPhrasesClean | encode/encode.cc:522-560 | no phrase of the normalised text holds a period, and each has only inner single spaces |
| Driver.PhrasesStep | encode/encode.cc:522-843 | the output from a phrase on is its best encoding, then the output of the phrases after it with the grown dictionary and cache |
| Driver.PhraseDictionary | encode/encode.cc:784-817 | under the same cache assumption, after a phrase the dictionary has gained exactly the groups its kept splits cut from the phrase and the words of those groups |
| Driver.EncodeNext | encode/encode.cc:523-841 | one pass of the phrase loop advances, and keeps the result so far plus the rest equal to the whole |
| Driver.RestDone | encode/encode.cc:522 | past the bound no phrase is left |
| Driver.BestCompression | encode/encode.cc:473-857 | bestCompression returns exactly the specified compression and leaves both buffers empty |

## Left out

- Logging and statistics. All `cout` output, the `REPORT`/`SUMMARY`/`END`/`STATS` flags, `initializeStats`, `printStats` and the counters `numWordGroups`, `numWordsInGroup`, `numberLetters` and `schemes` (encode/encode.cc:24-66, 787-816) only report. Also left out: the loop under `SUMMARY` that empties `revealedChars` while printing it (encode/encode.cc:317-326). The model keeps `revealedChars` as the search set it.
- Parallelism. The subset loop carries `#pragma omp parallel for` (encode/encode.cc:203) and writes `bestWord` and `exitEarly` without synchronisation. The model runs it sequentially in index order.
- The bit helpers of `encode.h` and the internals of `mtf` and `trie`. These are not part of this model; they are given functions (see above). Only their visible contracts are modelled: the not-found sentinel 0xffffffff and the -1 rank. There is no move-to-front recency.
- Selection.GroupSpec: the memo cache lookup `findBest` is a parameter, and its internals are not part of this model. The model assumes it answers only with a word that was inserted under the queried text (`Types.FindsLogged`). Every word the source inserts is a copy of the result of `tryAllLetters` for that text, whose `words` field is that text (encode/encode.cc:174, 598-601, 719-722). The cache starts empty, so it holds each word under its own text (`Types.CacheKeyed`). `Selection.GroupSpecWords`, `Selection.EncodePrefixWords`, `Selection.SplitSpecWords`, `Segmentation.SplitTraceWords`, `Segmentation.BestSplitWords` and `Driver.PhraseDictionary` rest on this assumption. The lemmas ending in `Keyed` do not. Without it, a hit could carry another text, and the dictionary would then gain that text instead of the group.
- Selection.GroupSpec: the memo cache is keyed as the source writes it. The lookup passes the last letter, but the insertion records the text alone (encode/encode.cc:594-601, 715-722). How `findBest` matches a letter against `prevLetter` is up to the oracle.
- Floating point. Ratios are exact reals; float rounding in `100.0 * len / normalLen` and in the average comparison is not modelled.
- Memory. `new`/`delete`, the copies of `CompressedWords` and the variable-length arrays (`w`, `P`, `words`, `splits`) become values and sequences. The element-wise copy loops into them become slices: the phrase copied into `words` for case 1 (encode/encode.cc:576-579) and the per-group copy of `P` (encode/encode.cc:695-700) are `Phrases.Group`, and the copy of `splits` into `current->splits` (encode/encode.cc:674-676) is the `splits` field that `Selection.SplitSpec` stores. `w` is shifted to 0-based (`Phrases.WordStarts`), so `w[c + 1] - 1` becomes `WordStarts(P)[c] - 1`.
- The fields `CompressedWords::numLetters` (set at encode/encode.cc:308, read only by the statistics at :790) and `encodingScheme` as a string are dropped. The scheme is the datatype `Types.Scheme`.
- Types.Blank: a freshly allocated `CompressedWords` is assumed to start with ratio -1, an empty `compressedString`, no revealed characters, no `prevLetter`, no local-dictionary use and no scheme. Its constructor lives in wordclass.h, which is not part of this model. The basis is the first-candidate test `bestWord->ratio == -1` and its comment at encode/encode.cc:299-302, which only make sense if a fresh word has ratio -1. `Candidates.WinnerFirst`, `Candidates.FoldWinner` and the fields other than the ratio in `Candidates.TooManyWordsUnavailable` rest on this.
- Characters. C++ `char` bytes are modelled as Dafny characters, and the input is assumed to be ASCII. For other bytes, the signed-char arithmetic `word[i] - 'a' + 1` (encode/encode.cc:119, 270) can give different codes, and that is not captured.
- The unused baseline for the whole text (`normalEncod`, encode/encode.cc:498). It is computed and never read.
- Driver.BestCompression: requires a non-empty normalised text, because the source reads `T[n-1]` (encode/encode.cc:512). Driver.Compress and Driver.CompressFrame carry the same requirement.
- Combinations.Buffers.FindAllCombinations: requires k <= n. For k > n, `position.size() - k` would wrap around as an unsigned value. Every caller asks for at most n.
- The comment at encode/encode.cc:510 describes a two-bit "01"/"00" flag for a text that does not end with a period. The code writes "0" (encode/encode.cc:517), and the model follows the code.
- The comment at encode/encode.cc:243 says a trie miss returns the word with ratio -1. The code (encode/encode.cc:244-251) instead keeps the best candidate committed before the miss, and the model follows the code.
- `istringstream >> string` is modelled by `Dictionary.Tokens`, splitting at the six `isspace` characters of the C locale.
- Case 1 of `bestCompression` (encode/encode.cc:567-633) is the same computation as one group with no splits. It is modelled by `Selection.SplitSpec` with an empty split list, with the last letter '!'.
- A text whose last period sits just before the bound leaves no empty phrase behind it. `Phrases.PhrasesCover` accounts for that period with `Phrases.Trailer`.
- Several loop bodies are separate methods (`Normalise.SimplifyOne`, `Candidates.TrySubset`, `Candidates.SearchSize`, `Segmentation.TryChoice`, `Driver.EncodeNext`). They run inline in the source, so only the structure differs, not the behaviour.
