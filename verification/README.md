# Verified models of algorithms from this repository

This project models the algorithmic cores of several programs of the repository in Dafny and proves what they
are for. Every file is one component; the models keep the branches, constants and error cases of the code, and
where the code works in place the models do.

- **The Pinyin dictionary** (`DictDef`, `TrieLayout`, `DictBuilder`, `TrieScan`, `TrieSearch`, `DictTrie`,
  `MileStones`, `SingleChars`, `DictList`, `DictPredict`, `MixedRadix`, `SplidRecovery`, `Dictionary`,
  `TriePrefixes`, `TrieAnswers`, `RawEntries`, `MyStdlib`): building the packed two-array trie from raw entries, the breadth-first search in it, the
  incremental search through mile stones, and the recovery of the spelling of a lemma. The reference for all
  searches is a linear scan of the lemma list, and what they hold and find is told from the given ids and the list alone.
- **The UTF converters** (`UtfCodec`, `UtfStream`, `ConvertUTF`, `ConvertUTF32`, `FaultyUTF32`, `UtfReverse`, `UtfMeaning`): RFC 3629 and RFC 2781, round
  trips, agreement of the conversions, and independence of how source and target are cut into pieces. The
  streaming theorems are proved once for an abstract reader and hold of the four conversions that have one; for
  the two from UTF-32, which carry an error on, `FaultyUTF32` says what holds and when.
- **Linear algebra** (`LinearSystem`, `LinearSolve`, `LinearSingular`, `JacobiRotation`, `JacobiSums`, `Jacobi`,
  `EigenVectors`): Gauss and
  Gauss-Jordan elimination and the Jacobi eigenvalue algorithm over the reals. A square root is a parameter of
  which only its defining property is used.
- **Quads of a calibration board** (`QuadGraph`, `FindCorners`, `OtherCorners`, `QuadGroups`): linking neighbours and labelling
  connected groups.
- **Page flips** (`PageFlip`): a mode-setting client and the part of the kernel that it depends on.
- **The media pipeline** (`Pipeline`, `PlayerProgram`, `PipelineFlow`, `Player`, `PlayerEnds`): demuxer, decoders and render as interleaved
  steps under every schedule; who holds which packet and which frame, and what becomes of it.
- **Building blocks of the dictionary builder** (`Primes`, `SpellingTable`, `SplParser`, `SplMeaning`, `Utf16Reader`): the hash
  table of spellings, the greedy parser of spellings, the buffered line reader.
- `Wrappers` and `FiniteSets` hold what several of these share.

`dafny verify dfyconfig.toml` checks the whole project.

## Where the code differs from what is said about it

- The comment at `pinyin/share/dictbuilder.cpp:195` bounds the deeper nodes by the number of lemmas. One lemma of
  three characters breaks it (`Dictionaries.OnePlacePerLemmaIsNotEnough`). The nodes are exactly the different
  beginnings of two ids or more (`TriePrefixes.NodesCounted`), and `TriePrefixes.OnePlacePerLemmaIff` says when the
  bound holds.
- The quick index is right only for a first layer without gaps at the ends of the range
  (`TrieSearch.LookupExactIff`); the searches take this as a precondition, and `Dictionaries.NoGapsIff` says when
  it holds for all ranges.
- `get_lemma_str` yields nothing for the last id of the list.
- `isLegalUTF8` accepts some sequences outside of the grammar of RFC 3629, section 4 (`UtfCodec.IsLegalUTF8`).
  They are read as scalar values, but not as ones that would be written like this.
- The header says of `sourceExhausted` that there is a partial character. In UTF-8 the bytes that are there may rule
  every character out (`UtfMeaning.BeyondHelp`); `UtfMeaning.PartialGoesOnIff` says exactly when they do not.
- A search for a single Yunmu is said to yield the lemmas of its own full id. It yields those of the smallest id of
  its range that begins any lemma (`TrieAnswers.FirstOnlyFinds`), which is that one if the first layer has no gaps.
- The strict conversions from UTF-32 go on behind a value above 10FFFF (hexadecimal). Their source pointer stands
  at the first value at fault if and only if that is a surrogate (`FaultyUTF32.StandsAtFaultIff`); the lenient
  conversion to UTF-8 reports such values, too, and never stands at one (`FaultyUTF32.LenientStandsAtEnd`). A
  resumed call has forgotten them (`FaultyUTF32.Resumed32`).
- `gauss_solve` and `gauss_jordan_solve` refuse a non-singular matrix when elimination meets a pivot below
  `epsilon`, and are right about all other matrices (`LinearSingular.VerdictRightIff`).
- The rows that `jacobi_eigen` returns need not satisfy the documented equation (`EigenVectors.SmallEntryKept`), only
  up to what is left off the diagonal (`EigenVectors.ResidualLength`). `EigenVectors.ConvergentIsSmall` says for which
  matrices that is small, `EigenVectors.NearlyDiagonalIff` and `EigenVectors.TwoRowsIff` when it is nothing.
- The last check of `findQuadNeighbors` looks at one and the same quad in every round, so that corners may be linked
  past a nearer one (`OtherCorners.AgreesIff`, `OtherCorners.LinkedPastANearerOne`).
- The spelling table says that it keeps the first `spelling_size_` characters of a spelling that is too long. It
  keeps one less, and chooses the place by that one as well: the spelling itself is found again
  (`SpellingTables.PutIsMet`), but the key under which it is stored may not be (`SpellingTables.KeyMetIff`), and the
  table stays a map if and only if both walks end at the same slot (`SpellingTables.PutIs`). In the table of
  `SpellingTables.TooLongIsLost` "ac" is stored as "a", `contain("ac")` is true and `contain("a")` is not.
- For tables of 3 and of 41 slots, that is for `spl_max_num` 3 and 38 to 41, a new spelling may be refused although
  there are free slots (`SpellingTables.RefusedThoughFree`, `SpellingTables.BadSizes`); for all other prime sizes it
  may not (`SpellingTables.RefusesOnlyFullIff`).
- `extend_dict1` and `extend_dict2` write behind the array of mile stones if it is full and the frontier is not empty
  (`MileStones.MileStoneDict.ExtendDict`).
- The limit of `readline` counts within one filling of the buffer, so that a line that is too long may be written
  behind it (`Utf16Readers.Utf16Reader.ReadLine`, `Utf16Readers.NeverOverrunsIff`).

## Model

| member | source | states |
|---|---|---|
| `DictDef.OffsetRoundTrip` | pinyin/share/dictbuilder.cpp:647-659 | a son or homophone offset split over 16 and 8 bits is read back, and the other offset is untouched, if and only if it is below 2^24 |
| `DictDef.ComparePyTransitive` | pinyin/share/dictbuilder.cpp:111-121 | the order of the second sort is transitive over all entries, frequencies included |
| `DictDef.CompareHzsTransitive` | pinyin/share/dictbuilder.cpp:91-101 | the order of the first sort is transitive: fewer Hanzis first, then the Hanzis |
| `DictDef.StrCmpMeans` | pinyin/share/utf16char.cpp:103-109 | the comparison of two strings is the order of a dictionary: negative if and only if the first one ends or has the smaller element where they first differ, and 0 if and only if they are the same |
| `DictDef.ComparePyMeans` | pinyin/share/dictbuilder.cpp:111-121 | an entry comes before another one if and only if its spelling does in the order of a dictionary, or is the same and its frequency is not lower |
| `DictDef.CompareHzsMeans` | pinyin/share/dictbuilder.cpp:91-101 | and in the other order if and only if it has fewer Hanzis, or as many and these come first in the order of a dictionary or are the same |
| `DictDef.NextSplAscends` | pinyin/share/dictbuilder.cpp:858-865 | in the sorted list, behind a shared prefix of any length, the next spelling ids ascend with the terminator first; the scan for sons depends on it |
| `DictTries.IdRoundTrip` | pinyin/share/dictbuilder.cpp:640-645 | an id comes back from its three bytes if and only if it is below 2^24 |
| `MyStdlib.MyQsort` | pinyin/share/mystdlib.cpp:24-27 | for every total preorder: a sorted permutation |
| `MyStdlib.MyBsearch` | pinyin/share/mystdlib.cpp:29-32 | finds a matching element if and only if there is one; which one is open |
| `DictBuilders.DictBuilder.CountSons` | pinyin/share/dictbuilder.cpp:776-793 | the count of sons is the number of groups of equal spelling ids |
| `DictBuilders.DictBuilder.AllocateSons` | pinyin/share/dictbuilder.cpp:813-844 | the parent gets the first free node and the count, both counters grow by it, and nothing else changes |
| `DictBuilders.DictBuilder.FillNode` | pinyin/share/dictbuilder.cpp:866-906 | a node gets its spelling id, its slice of the homophone buffer is the ids of its lemmas in order, and the shared counters advance by just these |
| `DictBuilders.DictBuilder.ScanSons` | pinyin/share/dictbuilder.cpp:852-933 | while the scan runs, the finished sons stand for exactly the closed groups, all other sons are still zero, and nothing outside the block and its descendants has changed |
| `DictBuilders.DictBuilder.ConstructSubset` | pinyin/share/dictbuilder.cpp:770-1001 | the recursion builds exactly the tree of the lemma range: each node holds offset and count of the very slice of lemmas spelled by its path, its sons and their descendants lie where the counters were, the homophone counters end at `item_end`, and all older nodes but the parent are unchanged |
| `DictBuilders.DictBuilder.BuildTrie` | pinyin/share/dictbuilder.cpp:585-617 | from empty buffers: the finished trie is packed for the sorted list, and the homophone buffer is the ids of all lemmas in order |
| `TrieLayout.AppendNode` | pinyin/share/dictbuilder.cpp:923-932 | a block built up to the border of two groups and the node of the next group make up the block of both |
| `TrieLayout.BlockFrame` | pinyin/share/dictbuilder.cpp:914-915 | building a son later never disturbs a block that is already finished |
| `TrieSearch.BlockAscends` | pinyin/share/dictbuilder.cpp:858-933 | the sons of a node have strictly ascending spelling ids |
| `Dictionaries.DeepNodesFit` | pinyin/share/dictbuilder.cpp:190-200 | the deeper nodes always fit into a buffer with a place for every character behind a first one |
| `Dictionaries.OnePlacePerLemmaIsNotEnough` | pinyin/share/dictbuilder.cpp:195-197 | the bound that the comment there names is wrong: one lemma of three characters needs two deeper nodes |
| `TriePrefixes.NodesCounted` | pinyin/share/dictbuilder.cpp:190-200 | the size of the trie, read off the list alone: one node of the first layer for every different first id, and exactly one deeper node for every different beginning of two ids or more, so that a buffer is large enough if and only if it has a place for each of these |
| `TriePrefixes.TrieSize` | pinyin/share/dictbuilder.cpp:585-605 | so many nodes the finished trie has, and the root |
| `TriePrefixes.OnePlacePerLemmaIff` | pinyin/share/dictbuilder.cpp:195-197 | the bound that the comment names holds if and only if the beginnings that are no whole spelling are fewer than the lemmas with a repeated or a one-character spelling; as many of them still fit the buffer |
| `TrieSearch.LookupExactIff` | pinyin/share/dicttrie.cpp:222-239 | for every first layer and every range: the indexed lookup finds exactly the nodes of the range if and only if both of its ends are indexed, or neither is and no node lies between them |
| `TrieSearch.GapBreaksLookup` | pinyin/share/dicttrie.cpp:225-233 | a first layer with a gap in which an id that is there is not found |
| `Dictionaries.NoGapsIff` | pinyin/share/dicttrie.cpp:222-239 | the first layer has no gaps if and only if every spelling of the table begins some lemma |
| `DictTries.FillIndex` | pinyin/share/dicttrie.cpp:222-239 | the quick index: the node of an id, and in a gap the node in front of it |
| `DictTries.PackIds` | pinyin/share/dictbuilder.cpp:614-617 | every id below 2^24 is found in the packed bytes at its position |
| `TrieScan.ScanIsFilter` | pinyin/share/dicttrie.cpp:663-667 | the reference: a linear scan selects exactly the lemmas of the asked length with every spelling id in the asked range |
| `TrieScan.ScanAscends` | pinyin/share/dicttrie.cpp:663-667 | and yields them in the order of the list |
| `TrieScan.ScanExpand` | pinyin/share/dicttrie.cpp:728-789 | one step of the breadth-first search neither loses nor adds a lemma of the scan |
| `TrieScan.ScanFrontier` | pinyin/share/dicttrie.cpp:663-846 | at every depth, the nodes of the untruncated search hold exactly what a scan of the whole list selects |
| `TrieSearch.FoundIsPrefix` | pinyin/share/dicttrie.cpp:663-846 | the search, its layers cut off at 200 nodes, yields a prefix of the scan in sorted order; all of it when no layer was full and the query is not a lone one-character Yunmu |
| `TrieAnswers.FrontierCounted` | pinyin/share/dicttrie.cpp:697-789 | at every depth the untruncated search has exactly one node for every different beginning, of that length, that is asked for |
| `TrieAnswers.NeverFullIff` | pinyin/share/dicttrie.cpp:709-767 | so no node buffer overflows if and only if at no length more than 200 different beginnings are asked for |
| `TrieAnswers.FirstOnlyFinds` | pinyin/share/dicttrie.cpp:802-805 | a search for the first node only finds exactly the lemmas of one Hanzi whose id is the smallest in the asked range that begins any lemma |
| `DictTries.AskedIsSpelled` | pinyin/share/spellingtrie.cpp:244-250 | told from the given ids: a lemma is selected if and only if it has as many ids and each is the given one, or for a half id `h` one of the `h2f_num[h]` from `h2f_start[h]` on |
| `DictTries.FoundAnswers` | pinyin/share/dicttrie.cpp:663-805 | told from the given ids and the list alone: what is found are positions of lemmas that the ids spell, in their order; all of them if at no length more than 200 different beginnings are spelled; for a single half id of a Yunmu exactly the lemmas with the smallest of its ids that begins any lemma |
| `DictTries.DictTrie.ExtendRoot` | pinyin/share/dicttrie.cpp:697-717 | the first layer of the search: the nodes of the range, cut off at 200 |
| `DictTries.DictTrie.ExtendNode` | pinyin/share/dicttrie.cpp:728-779 | the asked for sons of one node are appended, the early exit behind the range losing none |
| `DictTries.DictTrie.GetLpis` | pinyin/share/dicttrie.cpp:663-846 | index equals scan, and told from the ids and the list alone: the buffer holds, in the order of the list, id, length and probability of the lemmas that the ids spell, half ids standing for all of their full ids; as many as the 200 nodes a layer, the Yunmu rule and the buffer leave, each of these told exactly; none for an empty or too long query |
| `MileStones.MileStoneDict.ExtendDict0` | pinyin/share/dicttrie.cpp:386-442 | with room in both pools the new mile stone denotes the first-layer frontier; without, nothing changes; the lemmas are those of the wanted nodes |
| `MileStones.MileStoneDict.FindSons` | pinyin/share/dicttrie.cpp:545-575 | the sons of one node that a range asks for are one run of neighbours, and their lemmas are put into the buffer in order |
| `MileStones.MileStoneDict.ExtendDict` | pinyin/share/dicttrie.cpp:444-596 | with room in the pools the new mile stone denotes exactly the untruncated breadth-first frontier for the longer query, there is none if that is empty, and the buffer holds the beginning of what a scan of the whole dictionary selects; with too few marks left the mile stone counts more than are recorded; exactly when the frontier is not empty and no mile stone is left the program writes behind the array; older mile stones keep their frontiers in every case |
| `MileStones.MileStoneDict.AddMark` | pinyin/share/dicttrie.cpp:484-500 | every mark is counted, and recorded if and only if both pools have room |
| `MileStones.MarksCounted` | pinyin/share/dicttrie.cpp:467-596 | the marks that an extension makes, whether recorded or not, are as many as the different beginnings that are asked for so far and go on with an id of the range |
| `MileStones.WantedFound` | pinyin/share/dicttrie.cpp:402-421 | the lemmas that the first step puts: none that are cached; for a Yunmu those of the smallest id of the range that begins any lemma; else all of one Hanzi with an id of the range |
| `TrieAnswers.FrontierHolds` | pinyin/share/dicttrie.cpp:444-596 | what the nodes of a frontier stand for, told from the list: exactly the lemmas whose beginning is asked for, no two nodes for the same beginning |
| `MileStones.MileStoneDict.ResetMilestones` | pinyin/share/dicttrie.cpp:351-363 | giving up a handle gives up those behind it and keeps the frontier of every earlier one |
| `MileStones.ChainedBefore` | pinyin/share/dicttrie.cpp:351-363 | in every reachable state the mile stones lie one behind the other and never share a mark |
| `MileStones.MileStoneDict.PutSon` | pinyin/share/dicttrie.cpp:315-349 | the homophones of a node go to the buffer as far as they fit |
| `SingleChars.CompareIsOrder` | pinyin/share/dictbuilder.cpp:41-66 | the order in which the single characters are sorted is total and transitive |
| `SingleChars.BuildScis` | pinyin/share/dictbuilder.cpp:699-757 | behind the blank item exactly one item for every Hanzi with a reading that some lemma has it with, its half id that of the reading, in strictly ascending order; its frequency the highest of the lemmas that are this Hanzi alone |
| `SingleChars.CharsAreListed` | pinyin/share/dictbuilder.cpp:699-757 | the same of every list that holds the characters of the lemmas, told from the Hanzis, readings and frequencies themselves |
| `SingleChars.ScisIds` | pinyin/share/dictbuilder.cpp:747-767 | every character of every lemma is given the position of its own character and spelling in that list |
| `DictLists.LocatedIff` | pinyin/share/dictlist.cpp:113-167 | the start tables lead every id but the last to its own word length if and only if no length up to the greatest is missing |
| `DictLists.NotLocated` | pinyin/share/dictlist.cpp:126-151 | for a missing length, an id that is taken for one of a longer word |
| `DictLists.DictList.CalculateSize` | pinyin/share/dictlist.cpp:113-167 | both start tables and the size, missing lengths repeating the entry before |
| `DictLists.DictList.FillList` | pinyin/share/dictlist.cpp:178-198 | the packed buffer is all words one behind the other |
| `DictLists.DictList.GetLemmaStr` | pinyin/share/dictlist.cpp:286-308 | the stored word for every id from 1 on but the last one, with its terminator; nothing, and no write, otherwise or when it does not fit |
| `DictLists.WordAt` | pinyin/share/dictlist.cpp:294-304 | the place computed from the tables is where the word lies |
| `DictLists.DictList.GetSplidsForHanzi` | pinyin/share/dictlist.cpp:310-346 | the candidates for a Hanzi are the full ids of its items with the half id, in the order of the list, if it has such an item; if not, those of its items that are compatible; for the half id 0 all of them |
| `DictLists.CandsHas` | pinyin/share/dictlist.cpp:331-343 | a full id is a candidate if and only if the Hanzi has an item with it that, with a half id, has this half id in a strict search and is compatible with it in another one |
| `DictLists.CandidatesAreReadings` | pinyin/share/dictlist.cpp:322-346 | the candidates, told from the items alone: each such item once and in its place; strict if and only if some item of the Hanzi has the half id |
| `DictLists.HanziRun` | pinyin/share/dictlist.cpp:316-342 | all items of a Hanzi are neighbours, so that the loops see all of them |
| `DictPredict.HitsTogether` | pinyin/share/dictlist.cpp:215-231 | words of one length with the same beginning are neighbours in the sorted list |
| `DictPredict.FindPosStartedByHzs` | pinyin/share/dictlist.cpp:215-231 | finds the first word of a length with a given beginning if and only if there is one |
| `DictPredict.PredictLength` | pinyin/share/dictlist.cpp:245-265 | the items for one word length are what a linear scan up to the end of that length collects, with the id of each word computed from its place |
| `DictPredict.ScanPicks` | pinyin/share/dictlist.cpp:243-265 | the reference: the scan picks exactly the longer words that start with the history, in the order of their ids |
| `DictPredict.Predict` | pinyin/share/dictlist.cpp:233-284 | an item for each of the first `npre_max` words that go on where the history ends, in the order of the ids, unless an item in front of the buffer has the same continuation; it holds the continuation, the probability of the id and the length of the history; the items in front are untouched |
| `DictPredict.PredictionSays` | pinyin/share/dictlist.cpp:262-284 | the same, told from the words and the items alone: a word is predicted if and only if it goes on, fewer than `npre_max` words in front of it do, and no item in front of the buffer says the same |
| `DictPredict.DropKnown` | pinyin/share/dictlist.cpp:267-283 | removing known items in place keeps the others in order |
| `DictPredict.GetLemmaId` | pinyin/share/dictlist.cpp:348-361 | the id of the first word equal to the string, or 0 when there is none |
| `DictPredict.SortedWords` | pinyin/share/dictbuilder.cpp:679-697 | sorting by length and Hanzis gives the order that the search by beginning relies on |
| `MixedRadix.EveryCombination` | pinyin/share/dicttrie.cpp:879-885 | every choice of one candidate a character is met by some number below the product |
| `MixedRadix.DigitsDetermine` | pinyin/share/dicttrie.cpp:879-885 | and by only one: numbers below the product with equal digits are equal |
| `SplidRecovery.LemmaDict.TryExtend` | pinyin/share/dicttrie.cpp:598-661 | true if and only if some lemma has this spelling and this id |
| `SplidRecovery.TriedIff` | pinyin/share/dicttrie.cpp:879-889 | the loop tries exactly the spellings made of candidates |
| `SplidRecovery.LemmaDict.FillMatrix` | pinyin/share/dicttrie.cpp:859-877 | the matrix holds the candidate lists one behind the other, and the number of tries is the product of their lengths |
| `SplidRecovery.LemmaDict.FillTry` | pinyin/share/dicttrie.cpp:880-885 | one try: the digit for every character picks its candidate |
| `SplidRecovery.LemmaDict.OwnSpellingIsCand` | pinyin/share/dicttrie.cpp:870-873 | the spelling that a lemma was built with is among the candidates of its characters |
| `SplidRecovery.LemmaDict.GetLemmaSplids` | pinyin/share/dicttrie.cpp:853-892 | for every id but the last: the length and the very spelling ids that the lemma was built with, if no hints are given or every hint goes with the reading of its Hanzi, and 0 otherwise; which hints go, told from the lemmas alone |
| `SplidRecovery.LemmaDict.OwnIsCandIff` | pinyin/share/dicttrie.cpp:866-876 | exactly which hint lets a reading be tried: the reading itself; 0; its half id; or a half id that no reading of the Hanzi has and that is compatible |
| `SplidRecovery.LemmaDict.AllInIffHintsFit` | pinyin/share/dicttrie.cpp:866-892 | so a lemma is recovered with hints if and only if each of them is such a one |
| `SplidRecovery.LemmaDict.OwnHintsFit` | pinyin/share/matrixsearch.cpp:662-680 | hints that are each the reading itself or its half id, as the search passes them, always recover the lemma |
| `Dictionaries.SortLemmasByHz` | pinyin/share/dictbuilder.cpp:679-697 | the entries sorted by length and Hanzis, numbered 1, 2, .., nothing else changed |
| `Dictionaries.SortLemmasByPy` | pinyin/share/dictbuilder.cpp:576-577 | the second sort establishes what the construction requires |
| `Dictionaries.BuildTrieDict` | pinyin/share/dictbuilder.cpp:575-617 | sorting, construction, packing and index together establish what all searches require |
| `Dictionaries.BuildDict` | pinyin/share/dictbuilder.cpp:504-638 | the dictionary and its word list, from one set of lemmas, satisfy what the recovery of spellings requires |
| `Dictionaries.NumberedRaw` | pinyin/share/dictbuilder.cpp:679-697 | sorting and numbering keeps what is required of the entries |
| `Dictionaries.NumberedList` | pinyin/share/dictbuilder.cpp:558-567 | and gives the word list what its tables require |
| `RawEntries.SpellingsPermute` | pinyin/share/dictbuilder.cpp:576-577 | sorting keeps how often each spelling occurs |
| `RawEntries.RoomIsBuildable` | pinyin/share/dictbuilder.cpp:813-844 | the counts that the construction asserts, layer by layer, follow from counts of spellings and of their beginnings, which do not depend on the order |
| `RawEntries.ScisCounted` | pinyin/share/dictbuilder.cpp:727-745 | the list of characters has exactly one item for every character with a spelling of its own, and the blank one |
| `RawEntries.BuildFromRaw` | pinyin/share/dictbuilder.cpp:504-638 | from raw entries in any order: numbering, list of characters, word list, second sort, trie and index together make a dictionary for which searching and the recovery of spellings are proved; every raw entry is in it, and every character is given the position of its own item |
| `UtfCodec.IsLegalUTF8` | pinyin/ConvertUTF.cpp:307-330 | accepts exactly the sequences of the grammar of RFC 3629, section 4, and besides them those with lead ED or F4 and a second byte below 80 |
| `UtfCodec.IsLegalUTF8Sequence` | pinyin/ConvertUTF.cpp:338-344 | the same for the sequence that the first byte announces, if it is there |
| `UtfCodec.SplitJoin` | pinyin/ConvertUTF.cpp:109-112 | RFC 2781, section 2: the halves of a character are joined to it again |
| `UtfCodec.JoinSplit` | pinyin/ConvertUTF.cpp:136-141 | and joined halves are split into the same ones |
| `UtfCodec.TailByteBits` | pinyin/ConvertUTF.cpp:460-463 | masking and marking a continuation byte, on 32-bit words, is adding 80 to the remainder modulo 40 (hexadecimal) |
| `UtfCodec.FirstByteBits2` | pinyin/ConvertUTF.cpp:460-463 | setting the mark of a two-byte sequence, on 32-bit words, is adding it |
| `UtfCodec.FirstByteBits3` | pinyin/ConvertUTF.cpp:460-463 | the same for three bytes |
| `UtfCodec.FirstByteBits4` | pinyin/ConvertUTF.cpp:460-463 | the same for four bytes |
| `UtfCodec.ShiftBits` | pinyin/ConvertUTF.cpp:109-141 | the shifts and the mask of the code, on 32-bit words, are division, remainder and multiplication |
| `UtfCodec.EncodeDecode` | pinyin/ConvertUTF.cpp:421-472 | for every scalar value, what is written is one character of the grammar and is read back as that value |
| `UtfCodec.CharDecodes` | pinyin/ConvertUTF.cpp:474-532 | every character of the grammar is read as a scalar value and is what would be written for it |
| `UtfCodec.AcceptedDecodes` | pinyin/ConvertUTF.cpp:348-417 | every accepted sequence is read as a scalar value, so that the branches for surrogates and too large values are dead; it is of the grammar if and only if it is what would be written |
| `UtfStream.Resume` | pinyin/ConvertUTF.cpp:348-417 | whatever target a call had and whatever source comes later, resuming at the returned position completes the conversion of the whole |
| `UtfStream.EnoughRoom` | pinyin/ConvertUTF.cpp:348-417 | a call reports an exhausted target if and only if the target is too small for the whole, and otherwise has done all there was to do |
| `UtfStream.SplitTarget` | pinyin/ConvertUTF.cpp:385-402 | two targets one behind the other are filled as one |
| `UtfStream.SessionIsWhole` | pinyin/ConvertUTF.cpp:474-532 | any session, source and target cut anywhere, adds up to the one conversion of all source |
| `UtfStream.SessionCompletes` | pinyin/ConvertUTF.cpp:474-532 | so a session that leaves nothing has written what one call would have written, with its result |
| `UtfStream.Progress` | pinyin/ConvertUTF.cpp:122-175 | a call makes progress if and only if there is room for the next character |
| `ConvertUTF.AllSound` | pinyin/ConvertUTF.cpp:122-532 | the four readers satisfy what the streaming theorems ask: units inside the source that later source does not change |
| `ConvertUTF.ConversionsAgree` | pinyin/ConvertUTF.cpp:226-417 | on every text, ill-formed ones included: UTF-8 to UTF-16 and UTF-16 to UTF-8 give what going by way of UTF-32 gives, using the same source, with the same result |
| `ConvertUTF.Agree` | pinyin/ConvertUTF.cpp:226-532 | the same for any reader and any form |
| `ConvertUTF.RoundTrip8` | pinyin/ConvertUTF.cpp:421-532 | UTF-8 text written for scalar values is read back as these |
| `ConvertUTF.RoundTrip16` | pinyin/ConvertUTF.cpp:73-175 | UTF-16 text written for scalar values is read back as these, strictly and leniently |
| `UtfReverse.Reverse8` | pinyin/ConvertUTF.cpp:421-532 | the other way round: the used part of UTF-8 text, read and written again, is what it was if and only if no sequence outside of the grammar was accepted in it |
| `UtfReverse.Reverse16` | pinyin/ConvertUTF.cpp:73-175 | UTF-16 text read strictly and written again is always what it was; read leniently, if and only if no surrogate in it is unpaired |
| `UtfReverse.ReverseIff` | pinyin/ConvertUTF.cpp:73-532 | the same for any reader and any form of the same length |
| `ConvertUTF.Triangle` | pinyin/ConvertUTF.cpp:226-417 | text for scalar values in one form becomes the text for the same values in the other |
| `ConvertUTF.StrictYieldsScalars` | pinyin/ConvertUTF.cpp:122-175 | a strict conversion from UTF-16 yields scalar values only |
| `ConvertUTF.Utf8YieldsScalars` | pinyin/ConvertUTF.cpp:474-532 | a conversion from UTF-8 yields scalar values only, strict or not |
| `ConvertUTF.ConvertUTF8toUTF32` | pinyin/ConvertUTF.cpp:474-532 | result, source position and written elements are those of the reference conversion; the rest of the target is untouched |
| `ConvertUTF.ConvertUTF8toUTF16` | pinyin/ConvertUTF.cpp:348-417 | the same for UTF-16 |
| `ConvertUTF.ConvertUTF16toUTF32` | pinyin/ConvertUTF.cpp:122-175 | the same from UTF-16; what its three ways to stop say of the source is in the rows of UtfMeaning |
| `ConvertUTF.ConvertUTF16toUTF8` | pinyin/ConvertUTF.cpp:226-292 | the same from UTF-16 to UTF-8; what its three ways to stop say of the source is in the rows of UtfMeaning |
| `UtfMeaning.Form16` | pinyin/ConvertUTF.cpp:94-111 | the halves of a value as numbers: `0x10000 + (high - 0xD800) * 0x400 + (low - 0xDC00)`; one unit up to 0xFFFF; the replacement character above 0x10FFFF |
| `UtfMeaning.Form8` | pinyin/ConvertUTF.cpp:441-463 | the bytes of a value as numbers: six bits from each but the first, and as few bytes as that allows; EF BF BD above 0x10FFFF |
| `UtfMeaning.StrictReads16` | pinyin/ConvertUTF.cpp:126-161 | strict UTF-16, told from the forms of scalar values: the reader takes the value whose form the text begins with, is exhausted if and only if the text breaks off in such a form, and otherwise, and only then, the text is illegal |
| `UtfMeaning.LenientReads16` | pinyin/ConvertUTF.cpp:126-161 | a lenient reader differs only where a strict one finds illegal text: there it passes the unpaired half through as it is |
| `UtfMeaning.Reads8AsForm` | pinyin/ConvertUTF.cpp:480-522 | UTF-8: exhausted if and only if the text is shorter than its first byte announces; otherwise the value whose form the text begins with, or that of one of the two slips; all other text is illegal |
| `UtfMeaning.PartialGoesOnIff` | pinyin/ConvertUTF.h:85 | exhausted text is a partial character, as documented, if and only if none of the bytes that are there rules a character out |
| `UtfMeaning.BeyondHelp` | pinyin/ConvertUTF.h:85 | inputs for which it is none: C0, and E0 41, are reported as exhausted, and no further byte makes them a character |
| `UtfMeaning.CallEnds` | pinyin/ConvertUTF.cpp:474-532 | every call ends at the end of its source, or in front of text that is partial, illegal, or a unit that does not fit, and its result says which |
| `UtfMeaning.StrictResult16` | pinyin/ConvertUTF.cpp:122-175 | a strict conversion from UTF-16 has read exactly the forms of scalar values; it ends well if and only if nothing is left, is exhausted if and only if what is left breaks off in a form, and illegal if and only if that neither begins with a form nor breaks off in one |
| `UtfMeaning.Result8` | pinyin/ConvertUTF.cpp:474-532 | and a conversion from UTF-8 the same, with the bytes that are announced and the two slips |
| `UtfMeaning.NoneUnpairedIff` | pinyin/ConvertUTF.cpp:122-175 | what a lenient conversion has used has no unpaired surrogate if and only if every surrogate there has its other half beside it, the high one first |
| `UtfMeaning.Rules16Say` | pinyin/ConvertUTF.cpp:77-112 | which values the conversion from UTF-32 to UTF-16 stops at, which spoil its result, and what it writes for surrogates and too large values |
| `UtfMeaning.Rules8Say` | pinyin/ConvertUTF.cpp:427-470 | the same to UTF-8 |
| `UtfMeaning.NoRoom` | pinyin/ConvertUTF.cpp:77-112 | without room the conversion to UTF-16 looks at no value, while the one to UTF-8 still reports a surrogate |
| `ConvertUTF32.ConvertUTF32toUTF16` | pinyin/ConvertUTF.cpp:73-118 | the same from UTF-32, with the check for room in front |
| `ConvertUTF32.ConvertUTF32toUTF8` | pinyin/ConvertUTF.cpp:421-472 | the same from UTF-32 to UTF-8 |
| `ConvertUTF32.ResultMeans` | pinyin/ConvertUTF.cpp:421-472 | a call that uses all of its source reports illegal source if and only if there was a bad value anywhere in it; one that leaves source behind stands at the value at fault or has run out of target |
| `ConvertUTF32.StrictGoesOn` | pinyin/ConvertUTF.cpp:98-103 | both strict conversions go on behind a value above 10FFFF (hexadecimal) and convert all that follows |
| `FaultyUTF32.ExhaustedIff` | pinyin/ConvertUTF.cpp:73-118 | a call reports an exhausted target if and only if there is less room than the source needs |
| `FaultyUTF32.RoomNeededIs` | pinyin/ConvertUTF.cpp:73-118 | that is the length of what is written, and for UTF-16 at most one more |
| `FaultyUTF32.EnoughRoom32` | pinyin/ConvertUTF.cpp:73-118 | on every source, with enough room: the call ends at the first value that stops it, all in front of that is converted, and the result is illegal if it stopped or passed a bad value |
| `FaultyUTF32.StandsAtFaultIff` | pinyin/ConvertUTF.cpp:421-472 | for every source with any number of faults and enough room, in strict mode: the result is illegal if and only if there is a fault, the source position is the first surrogate or the end, and it is the first fault if and only if that is a surrogate |
| `FaultyUTF32.BothStrict` | pinyin/ConvertUTF.cpp:73-118 | which holds of both strict conversions |
| `FaultyUTF32.LenientStandsAtEnd` | pinyin/ConvertUTF.cpp:439-448 | the lenient conversions always use all of their source; the one to UTF-8 still reports illegal source if and only if a value is too large, and never stands at it |
| `FaultyUTF32.Resumed32` | pinyin/ConvertUTF.cpp:421-472 | however source and target are cut, positions and output of two calls add up to those of one; the result does if and only if it is not the case that the first call passed a too large value and the rest of the source fits, stops nowhere and holds no bad value |
| `ConvertUTF32.ThereAndBack8` | pinyin/ConvertUTF.cpp:421-532 | UTF-32 to UTF-8 and back is the identity on scalar values |
| `ConvertUTF32.ThereAndBack16` | pinyin/ConvertUTF.cpp:73-175 | UTF-32 to UTF-16 and back is the identity on scalar values |
| `LinearSystem.StepsSolve` | cpp/linear_algorithm.cpp:17-52 | every elimination step keeps the set of solutions, for all right-hand sides at once |
| `LinearSystem.StepsTriangular` | cpp/linear_algorithm.cpp:95-104 | behind column `j` the first columns are cleared |
| `LinearSystem.DotUnit` | cpp/linear_algorithm.cpp:44-52 | the products in the equations: with a column that is 1 in one row and 0 elsewhere they yield that entry |
| `LinearSystem.PivotIff` | cpp/linear_algorithm.cpp:21-26 | the pivot is the first entry of its column, from its row on, that all others there are within |
| `LinearSystem.StepIs` | cpp/linear_algorithm.cpp:19-53 | one column of the code, told from the entries: the pivot is not between -0.00000000001 and 0.00000000001, its row comes to the top, and the multiple that clears the column is taken from the rows behind it, by Gauss and Jordan from those in front of it as well |
| `LinearSingular.StuckIff` | cpp/linear_algorithm.cpp:27-30 | the code gives up at a column if and only if all its entries from that row on lie between -0.00000000001 and 0.00000000001 |
| `LinearSystem.SameVerdict` | cpp/linear_algorithm.cpp:72-105 | both eliminations choose the same pivots and stop at the same column or not at all |
| `LinearSolve.BackSolves` | cpp/linear_algorithm.cpp:107-114 | what back substitution leaves is a solution and the only one |
| `LinearSolve.SolversAgree` | cpp/linear_algorithm.cpp:15-116 | on every system both solvers return the same boolean and, when true, the same matrix |
| `LinearSingular.ExactDecides` | cpp/linear_algorithm.cpp:17-52 | elimination that goes on at every pivot but 0 goes through all columns if and only if the matrix is non-singular |
| `LinearSingular.ZeroColumnIsSingular` | cpp/linear_algorithm.cpp:22-30 | a column with nothing left to choose a pivot from means that the matrix is singular: back substitution from it gives a vector other than 0 that is mapped to 0 |
| `LinearSingular.CodeDecides` | cpp/linear_algorithm.cpp:17-52 | for every system and both algorithms: true if and only if that elimination goes through all columns and no pivot is below `epsilon` |
| `LinearSingular.VerdictRightIff` | cpp/linear_algorithm.cpp:13-13 | "true if the matrix is non-singular" holds if and only if it is not the case that exact elimination goes through all columns with a pivot below `epsilon`; true always means non-singular |
| `LinearSingular.ExactExists` | cpp/linear_algorithm.cpp:17-52 | there is such an exact elimination of every system |
| `LinearSingular.VerdictOfRun` | cpp/linear_algorithm.cpp:67-86 | so a run that does not stop at a small pivot other than 0 gives the right verdict |
| `LinearSingular.SmallButNonSingular` | cpp/linear_algorithm.cpp:28-30 | a run that stops at a small pivot of a non-singular matrix |
| `LinearSingular.SmallAndSingular` | cpp/linear_algorithm.cpp:28-30 | a run that does stop at one may be right all the same |
| `LinearSolve.OneEquation` | cpp/linear_algorithm.cpp:85-86 | the smallest case in which the documented "true if non-singular" fails: one equation `p * x = b` has exactly one solution for every `p` but 0, and is solved if and only if `p` is not below `epsilon` |
| `LinearSolve.FindPivot` | cpp/linear_algorithm.cpp:22-27 | the first row with the greatest absolute value |
| `LinearSolve.EliminateColumn` | cpp/linear_algorithm.cpp:28-51 | one column in place is one step of the reference elimination, also where the code skips columns that are known to be zero |
| `LinearSolve.GaussJordanSolve` | cpp/linear_algorithm.cpp:15-60 | in place: the boolean is the verdict of the elimination, and when true `b` is the only solution of the original system for every right-hand side |
| `LinearSolve.GaussSolve` | cpp/linear_algorithm.cpp:70-116 | the same for Gauss elimination with back substitution |
| `JacobiRotation.AngleComputed` | cpp/linear_algorithm.cpp:166-169 | from any square root, the computed sine, cosine and tangent are those of an angle that makes the pivot vanish |
| `Jacobi.SmallTangent` | cpp/linear_algorithm.cpp:166-167 | of the two angles that make the pivot vanish the code takes the smaller one, with a tangent between -1 and 1 |
| `JacobiRotation.GramRotates` | cpp/linear_algorithm.cpp:170-190 | rotating two rows of `v` rotates every bilinear form of its rows just as the matrix is rotated |
| `JacobiSums.OffSumFalls` | cpp/linear_algorithm.cpp:170-182 | each rotation takes exactly twice the square of the pivot from the sum of squares off the diagonal |
| `JacobiSums.RotationConserves` | cpp/linear_algorithm.cpp:170-182 | each rotation keeps the trace and the Frobenius norm, and with the greatest pivot the sum off the diagonal falls by at least its `2 / (n (n - 1))` |
| `Jacobi.FindMaxOff` | cpp/linear_algorithm.cpp:149-154 | the greatest entry above the diagonal, or a pivot of 0 if there is none |
| `Jacobi.RotateMatrix` | cpp/linear_algorithm.cpp:170-182 | in place: exactly the two rows and columns are rotated |
| `Jacobi.RotateRows` | cpp/linear_algorithm.cpp:185-190 | in place: exactly the two rows of eigenvectors are rotated |
| `Jacobi.RotationDiagonalises` | cpp/linear_algorithm.cpp:145-191 | every rotation keeps the matrix symmetric with `v A0 v^T = a` and `v v^T = I` |
| `Jacobi.DecaysOn` | cpp/linear_algorithm.cpp:145-191 | the bound on the sum off the diagonal shrinks geometrically with the rotations |
| `Jacobi.Diagonalise` | cpp/linear_algorithm.cpp:139-191 | the whole loop: these hold at the end, and all entries off the diagonal are below `epsilon` or the sum has decayed through all `30 n^2` rotations; a matrix is left as it is if and only if it is nearly diagonal at the beginning |
| `Jacobi.SortEigen` | cpp/linear_algorithm.cpp:197-210 | values and rows are permuted together into descending order |
| `Jacobi.JacobiEigen` | cpp/linear_algorithm.cpp:134-211 | the result: orthonormal rows with their values in descending order, trace and Frobenius norm those of the original matrix; of a nearly diagonal matrix, and of no other, the diagonal itself with unit rows |
| `EigenVectors.ColumnsOrthonormal` | cpp/linear_algorithm.cpp:117-124 | with the rows of `v` also its columns are orthonormal: `v v^T = I` gives `v^T v = I` |
| `EigenVectors.ResidualLength` | cpp/linear_algorithm.cpp:117-124 | each returned row misses the documented equation `a v.row(i)^T = e(i) v.row(i)^T` by a vector whose squared length is exactly the sum of the squares of the entries left off the diagonal in its column |
| `EigenVectors.EigenVectorIff` | cpp/linear_algorithm.cpp:117-124 | so the equation holds of a row if and only if nothing is left there |
| `EigenVectors.ResidualSmall` | cpp/linear_algorithm.cpp:149-160 | when the matrix that is left is nearly diagonal, the squared length is at most `(n - 1) epsilon^2` |
| `EigenVectors.ConvergentIsSmall` | cpp/linear_algorithm.cpp:136-160 | told from the given matrix: if its sum off the diagonal, shrunk by `(1 - 2 / (n (n - 1)))^(30 n^2)`, is below `2 epsilon^2`, the iterations do not run out and every row satisfies the documented equation up to a residual of squared length `(n - 1) epsilon^2` |
| `EigenVectors.NearlyDiagonalIff` | cpp/linear_algorithm.cpp:149-160 | told from the given matrix: for one that is nearly diagonal, all rows satisfy the equation exactly if and only if it is diagonal |
| `EigenVectors.TwoRowsIff` | cpp/linear_algorithm.cpp:117-124 | for two rows, told from the given matrix: the equation holds of a row if and only if the entry off the diagonal is 0 or not below `epsilon` |
| `EigenVectors.SmallEntryKept` | cpp/linear_algorithm.cpp:117-124 | an input for which the documented equation fails: of `[[0, x], [x, 1]]` with `x` below `epsilon` the row `(0, 1)` is returned for the value 1, and is mapped to `(x, 1)` |
| `QuadGraph.NeighborsSymmetric` | cpp/find_corners.cpp:186-192 | in a well-linked vector the neighbour relation is symmetric |
| `QuadGraph.CountPositive` | cpp/find_corners.cpp:204-206 | a count is at most 4, and positive if and only if there is a neighbour |
| `QuadGraph.LinkKeeps` | cpp/find_corners.cpp:186-192 | linking two free corners of quads that are not neighbours keeps the relation symmetric and simple and every count right |
| `QuadGraph.ConnectedEquivalence` | cpp/find_corners.cpp:198-225 | being connected is an equivalence |
| `FindCorners.FindClosest` | cpp/find_corners.cpp:123-142 | the first of the nearest free corners of all other quads within 11 pixels, if there is one |
| `FindCorners.CheckOtherSlots` | cpp/find_corners.cpp:161-167 | this check never fails: symmetry makes it say what the check before it has said |
| `FindCorners.CheckOthers` | cpp/find_corners.cpp:168-185 | the check looks at the quad with the number of the corner, in every round |
| `OtherCorners.LooksAtOne` | cpp/find_corners.cpp:168-185 | behind the check of the own corners, it rejects if and only if that quad is a third one and has a nearer free corner |
| `OtherCorners.MeantIsLinked` | cpp/find_corners.cpp:168-185 | it is weaker than what its comment says: all corners that no third quad has a nearer one for are linked |
| `OtherCorners.AgreesIff` | cpp/find_corners.cpp:168-185 | the check and its comment agree if and only if no third quad has a nearer free corner, or the quad with the number of the corner is a third one and has one |
| `OtherCorners.LinksAsMeantIff` | cpp/find_corners.cpp:168-185 | corners that are linked should be if and only if no third quad has a nearer one |
| `OtherCorners.LinkedPastANearerOne` | cpp/find_corners.cpp:168-185 | eight boxes of 40 by 30 pixels, two of which are linked past a nearer corner of a third one |
| `OtherCorners.BoardIsInput` | cpp/find_corners.cpp:36-113 | these boxes do not overlap and are what the program lets through: large enough, convex, with sides and diagonals in proportion, and in the order of `orderQuads` |
| `FindCorners.TryCorner` | cpp/find_corners.cpp:120-194 | a corner is linked if and only if there is a corner to link it with; then both, which were free, name each other and have moved to the middle of the line between them, both counts are one higher, and nothing else has changed; otherwise nothing has |
| `FindCorners.MiddleBetween` | cpp/find_corners.cpp:186-188 | the new corner lies on the line between both, equally far from them |
| `FindCorners.DistanceSquared` | cpp/find_corners.cpp:133-134 | the distances that are compared are those of Pythagoras, squared |
| `FindCorners.FreeIff` | cpp/find_corners.cpp:121-132 | a corner is free if and only if no quad of the vector is linked there |
| `FindCorners.FindQuadNeighbors` | cpp/find_corners.cpp:116-196 | there is a sequence of vectors, one for each corner of each quad in turn, from the given vector to the result, in which every corner is linked if there is one to link it with; at all times the graph is symmetric and simple, and every count the number of filled slots; group ids are untouched |
| `QuadGroups.SameGroupIff` | cpp/find_corners.cpp:198-225 | labelled quads share a label if and only if they are connected |
| `QuadGroups.Search` | cpp/find_corners.cpp:208-222 | the search from one quad terminates and labels exactly its component, listing every member once |
| `QuadGroups.FindConnectedQuads` | cpp/find_corners.cpp:198-225 | one call labels one new component, or none if all quads with neighbours have a label; older labels stay |
| `QuadGroups.GroupHasTwo` | cpp/find_corners.cpp:371-372 | a group always has more than one quad, so that nothing is thrown away |
| `QuadGroups.GroupQuads` | cpp/find_corners.cpp:366-374 | behind the loop every quad with a neighbour has exactly one label, two of them the same if and only if they are connected, and the groups list them |
| `PageFlip.Modeset.FindCrtc` | misc/drm/modeset-vsync.c:249-325 | the current CRTC if no listed device uses it; else the first one, encoder by encoder in the order of the resources, that an encoder works with and no listed device uses; none if and only if all of these are used |
| `PageFlip.OneChanged` | misc/drm/modeset-vsync.c:649-677 | a change of one device, its CRTC and its events keeps the invariant of all others |
| `PageFlip.Modeset.AddDevice` | misc/drm/modeset-vsync.c:155-176 | a new device keeps the CRTCs pairwise distinct |
| `PageFlip.Modeset.SetCrtc` | misc/drm/modeset-vsync.c:446-455 | the front buffer is shown, if the kernel takes it, and no other CRTC changes |
| `PageFlip.Modeset.DrawDev` | misc/drm/modeset-vsync.c:649-677 | one picture is drawn, and into the buffer that is not shown; at most one flip is outstanding: front buffer and pending mark change if and only if the kernel took the flip |
| `PageFlip.Modeset.VBlank` | misc/drm/modeset-vsync.c:668-675 | the flip of a CRTC happens and its event comes up; the invariant holds on |
| `PageFlip.Modeset.PageFlipEvent` | misc/drm/modeset-vsync.c:485-494 | an event only ever reaches a device that waits for one, and a live one unless a device was freed too early |
| `PageFlip.Modeset.HandleEvent` | misc/drm/modeset-vsync.c:485-494 | behind the vertical blanks of the call the first of the events that are there or have come up are handed on, as many as it reads; their devices wait no more, and draw again unless clean-up has come to them; the invariant is kept |
| `PageFlip.NothingDangles` | misc/drm/modeset-vsync.c:485-494 | an event is on its way to a freed device if and only if a device was freed too early and still waits |
| `PageFlip.Modeset.CleanupNext` | misc/drm/modeset-vsync.c:703-735 | one round: the device is freed with nothing owed to it if and only if it waited for nothing or one of the calls, told from the rounds and the state before, hands its event on; otherwise with an event on its way to it |
| `PageFlip.HandledWaits` | misc/drm/modeset-vsync.c:711-715 | a device that is cleaned up waits on behind a call if and only if its event is not among the first ones, as many as the call reads, that are there or come up |
| `PageFlip.WaitEndsIff` | misc/drm/modeset-vsync.c:711-715 | its wait ends if and only if it waits for nothing or one of the calls hands its event on |
| `PageFlip.AmpleDelivers` | misc/drm/modeset-vsync.c:711-715 | there are never more events than devices, so a call behind a vertical blank of its CRTC that reads as many events as there are devices hands its event on |
| `PageFlip.AmpleIsClean` | misc/drm/modeset-vsync.c:692-736 | so clean-up ends well, in every state, if in each wait there is such a call |
| `PageFlip.Modeset.WaitFor` | misc/drm/modeset-vsync.c:711-715 | the wait stops at the first call behind which the device waits no more, or when the calls are used up |
| `PageFlip.Modeset.Start` | misc/drm/modeset-vsync.c:129-184 | the devices stand for some of the wanted ones in their order, the last one first in the list; each has a CRTC of its own that it can be driven by, and one that is left out found all of these in use; their CRTCs show the first buffer so far as the kernel let them, and a first flip was asked for each |
| `PageFlip.Modeset.Cleanup` | misc/drm/modeset-vsync.c:692-736 | the whole list, broken waits included: the program ends clean if and only if, told from the rounds and the state before, the wait for every device ends well; then all devices are freed, no event is left, and no CRTC has a buffer of ours; every device freed too early is either still owed its event at the end or was handed it during a later wait |
| `PageFlip.Modeset.Session` | misc/drm/modeset-vsync.c:421-475 | every run from start to end, whatever the kernel answers: it ends clean if and only if every wait of the clean-up ends well, told from the rounds and from the state behind the start; then nothing is left behind |
| `Pipeline.DemuxerKeeps` | player/demuxer.cpp:14-67 | every step of the demuxer keeps the invariant: each packet read is in exactly one place and freed at most once |
| `Pipeline.DecoderTopKeeps` | player/audio_decoder.cpp:12-45 | so does the top of the decoding loop, the stop event included |
| `Pipeline.DecoderDecodeKeeps` | player/audio_decoder.cpp:46-51 | so does decoding, which frees the packet in either case |
| `Pipeline.DecoderGiveKeeps` | player/audio_decoder.cpp:54-58 | so does handing on a frame, accepted or kept pending |
| `Pipeline.DecoderDrainKeeps` | player/video_decoder.cpp:19-23 | so does emptying the queue at the end |
| `Pipeline.RenderKeeps` | player/audio_render.cpp:8-44 | so does every step of the render |
| `Pipeline.EverythingFreed` | player/audio_render.cpp:15-23 | once all four threads have ended no queue holds anything, and all that was read or decoded is freed, each once |
| `PlayerProgram.CallKeeps` | player/try.4.cpp:43-97 | every call of the program keeps the invariant, and every stop comes when it may |
| `PlayerProgram.ResumeKeeps` | player/audio_decoder.cpp:97-121 | so does the rest of a call that started a thread or waited for its end |
| `PlayerProgram.StopsInOrder` | player/try.4.cpp:81-88 | the program stops each thread behind the one that feeds it and while those that it feeds still run |
| `PlayerProgram.LeftBehind` | player/video_decoder.cpp:96-101 | the order matters: stopped in front of the demuxer, the video decoder leaves a packet in its queue for ever |
| `PlayerEnds.FrameLeftBehind` | player/audio_render.cpp:86-91 | and stopped in front of the audio decoder, the render may leave a frame in its queue for ever |
| `Players.Player.StepDemuxer` | player/demuxer.cpp:14-67 | the step in place is the step of the model, from any reachable state; what that does with a packet is in the rows of PipelineFlow |
| `PipelineFlow.DemuxerKeepsKinds` | player/demuxer.cpp:47-66 | video and audio stay apart in every step of the demuxer |
| `PipelineFlow.DecoderStepKeepsKinds` | player/audio_decoder.cpp:9-60 | and in every step of a decoder: what it has, packets and frames, is of its own kind, each frame was decoded from a packet of its own, and that packet is freed |
| `PipelineFlow.OfItsKind` | player/demuxer.cpp:47-66 | so every packet in the queue or the hand of a decoder is of its kind, and every frame that a device has written was decoded from a packet of the kind of the device, no two frames from one packet |
| `PipelineFlow.VideoIsShown` | player/video_render.cpp:96-111 | a video packet that is read, when the video decoder is free: six steps later its frame has been written to the video device, packet and frame are freed, and nothing else has changed, whatever is queued besides |
| `PipelineFlow.AudioIsPlayed` | player/audio_render.cpp:8-45 | an audio packet that is read, when the audio decoder is free and the render plays: its frame is written to the audio device, and nothing else has changed |
| `PipelineFlow.NeitherIsFreed` | player/demuxer.cpp:64-66 | a packet that is neither is freed at once |
| `PipelineFlow.UndecodedIsFreed` | player/audio_decoder.cpp:46-50 | a packet that cannot be decoded is freed, and the decoder is where it was |
| `PipelineFlow.PacketIsGiven` | player/demuxer.cpp:47-63 | a packet goes into the queue of the decoder of its kind unless that is idle or has 256 of them; then it is kept, tried again before anything else is read, and never freed meanwhile |
| `PipelineFlow.FrameIsGiven` | player/audio_decoder.cpp:53-58 | an audio frame goes to the render unless that does not run or has 256 of them; then it is kept and tried again before another packet is taken |
| `PipelineFlow.NothingToDo` | player/audio_render.cpp:28-41 | a render takes no frame if and only if it is paused or has none; threads without input change nothing |
| `PipelineFlow.StatesChangeByOne` | player/demuxer.cpp:69-155 | setting a state changes it by one step of idle, ready, paused, playing or not at all; a demuxer that cannot open its file stays idle; on the way up to paused a thread is started, on the way down its end is waited for; nothing but the one element changes |
| `PipelineFlow.ThreadsStartEmpty` | player/demuxer.cpp:114-125 | a thread starts at the top of its loop with nothing in hand, and a stop event goes to one element alone |
| `PlayerProgram.StatesBetweenRounds` | player/try.4.cpp:43-97 | behind each round of calls the elements are in the next of the states of the program, except that the demuxer may be idle |
| `Players.Player.StepDecoder` | player/video_decoder.cpp:8-59 | the same for both decoders, whichever packet the queue yields |
| `Players.Player.StepRender` | player/audio_render.cpp:8-44 | the same for the render |
| `Players.Player.PushPacket` | player/audio_decoder.cpp:174-185 | accepted if and only if the decoder is not idle and the queue holds fewer than 256 |
| `Players.Player.PushFrame` | player/audio_render.cpp:158-170 | accepted if and only if the render runs and the queue holds fewer than 256 |
| `Players.Player.SetElement` | player/demuxer.cpp:69-155 | the state changes of all four elements, up to the first wait |
| `Players.Player.StepMain` | player/try.4.cpp:43-97 | one step of the main program, from any reachable state |
| `Players.Player.TakeTurn` | player/try.4.cpp:43-97 | a turn is the step of its thread, with the answers that the libraries give, and leaves the other threads where they are |
| `Players.LeadsOn` | player/try.4.cpp:43-97 | schedules compose: what one leads to and another one leads on from, both together lead to |
| `Players.Player.Run` | player/try.4.cpp:43-97 | for every schedule of the threads and every answer of the libraries, each turn one step of its thread: the invariant holds; all packets at the video decoder are video, all at the audio decoder audio; every frame written to a device was decoded from a packet of its kind that was read, different ones from different packets, and freed once; and behind the fifth round of calls all queues are empty and everything is freed |
| `PlayerEnds.DecoderComesNearer` | player/audio_decoder.cpp:12-60 | a decoder that was sent its stop event comes nearer to its end with every step of its own, whatever the others do |
| `PlayerEnds.Step` | player/audio_decoder.cpp:12-60 | one turn of any thread: the thread that is waited for comes nearer to its end with its own turns and loses nothing by those of others, and the main thread gets on whenever it need not wait |
| `PlayerEnds.RunPiece` | player/try.4.cpp:43-97 | any piece of a schedule that gives each thread 260 turns and the main thread one, in any order, brings the program on |
| `PlayerEnds.RunFair` | player/try.4.cpp:43-97 | no wait is for ever: every schedule made of enough such pieces leads, turn by turn, to the end of the program, and then everything is freed |
| `PlayerEnds.StartRank` | player/try.4.cpp:43-97 | from the start 72 pieces are enough |
| `PlayerEnds.RunToEnd` | player/try.4.cpp:43-97 | from every state of a run there are turns, of the main thread and of the threads it waits for, that lead to the end of the program |
| `Primes.EuclidsLemma` | pinyin/share/spellingtable.cpp:92-96 | a prime that divides a product divides a factor |
| `Primes.NextPrime` | pinyin/share/spellingtable.cpp:44-65 | beyond every number there is a prime, so the search for one ends |
| `Primes.GetOddNext` | pinyin/share/spellingtable.cpp:44-65 | the least prime from the argument on, for arguments from 2 on; 0 and 1 come back as they are |
| `SpellingTables.ReachesAllIff` | pinyin/share/spellingtable.cpp:92-96 | in a table of prime size the walk comes to every slot if and only if the size does not divide the stride |
| `SpellingTables.BadSizes` | pinyin/share/spellingtable.cpp:92-96 | which it does for 3 and 41 only |
| `SpellingTables.RefusesOnlyFullIff` | pinyin/share/spellingtable.cpp:137-183 | for every prime size: all refusals, of any spelling by any table of that size, mean that the table is full, if and only if the size does not divide the stride |
| `SpellingTables.RefusedThoughFree` | pinyin/share/spellingtable.cpp:137-183 | for the other sizes, a table that holds "a" only and a spelling that it refuses; with 3 slots that is "d" |
| `SpellingTables.AbsentBehindFree` | pinyin/share/spellingtable.cpp:200-211 | a key is not stored behind a free slot of its walk |
| `SpellingTables.AbsentInRound` | pinyin/share/spellingtable.cpp:200-211 | nor when a whole round of its walk has not met it |
| `SpellingTables.StoreKeeps` | pinyin/share/spellingtable.cpp:161-179 | storing in the first free slot of the walk is a map update and keeps every other key findable |
| `SpellingTables.PutIs` | pinyin/share/spellingtable.cpp:137-183 | for every table and every spelling, too long and empty ones included: the table stays findable if and only if the walks for the spelling and for its key end at the same slot, and then putting is a map update of the key; the empty spelling leaves the map as it is |
| `SpellingTables.CutButFindable` | pinyin/share/spellingtable.cpp:80-90 | which they do if the code of the character behind the key is a multiple of the size of the table |
| `SpellingTables.PutIsMet` | pinyin/share/spellingtable.cpp:185-215 | the spelling itself, cut or not, is found again at once |
| `SpellingTables.KeyMetIff` | pinyin/share/spellingtable.cpp:185-215 | its key alone is found if and only if the walk for it ends at the same slot, or met the key before |
| `SpellingTables.TooLongIsLost` | pinyin/share/spellingtable.cpp:80-90 | a table of two slots in which the key of a spelling that was cut is lost |
| `SpellingTables.SpellingTable.PutSpelling` | pinyin/share/spellingtable.cpp:137-183 | for every spelling: refused, the table unchanged, if and only if its walk has no end, else its frequency goes to the slot where the walk ends; so the table refines a map from spellings to sums of frequencies, and where the walk comes to every slot a spelling is refused if and only if it is new and the table full |
| `SpellingTables.SpellingTable.Contain` | pinyin/share/spellingtable.cpp:185-215 | true if and only if the walk meets the key in front of a free slot; for spellings that are no longer than a key, if and only if the spelling is in the map |
| `SplParsers.Pieces` | pinyin/share/splparser.cpp:30-141 | every piece spells a whole way down the trie that the next letter cannot prolong, and its id is the one stored |
| `SplParsers.ParseComposes` | pinyin/share/splparser.cpp:30-141 | if all of `p` is parsed with room to spare, then `p`, a splitter and `q` are parsed into the pieces of `p` and the shifted pieces of `q` |
| `SplParsers.OnePieceIff` | pinyin/share/splparser.cpp:288-302 | a string is parsed into one id with nothing left if and only if it is one piece with that id |
| `SplMeaning.LettersAre` | pinyin/include/spellingtrie.h:157-166 | letters are those of the alphabet, small or capital, and are the same if their capitals are |
| `SplMeaning.SonIsFirst` | pinyin/share/splparser.cpp:90-101 | the son for a letter is the first one that has it |
| `SplMeaning.ParseIgnoresCase` | pinyin/share/splparser.cpp:30-137 | strings that differ in small and capital letters only are parsed in the same way |
| `SplMeaning.ParserStops` | pinyin/share/splparser.cpp:50-136 | the parser stops if and only if there is no more room, nothing is left, or the letters lead to a node that is no spelling and on to no son; `last_is_pre` says exactly that it has come to the end of the string with a letter, in a spelling or on the way to one |
| `SplParsers.SplstrToIdxs` | pinyin/share/splparser.cpp:30-141 | the loop terminates and fills both arrays with what the reference parser yields |
| `SplParsers.GetSplidByStr` | pinyin/share/splparser.cpp:288-302 | the id of a string that is one piece, else 0 |
| `Utf16Readers.Utf16Reader.FromBuffer` | pinyin/share/utf16reader.cpp:91-117 | a buffer full ends the line and leaves the rest, or is used up, or is written behind the room for the line: which, told from the text and the lengths |
| `Utf16Readers.Utf16Reader.ReadLine` | pinyin/share/utf16reader.cpp:72-119 | for every text and every filling of the buffer: the next line of what is still unread, without a carriage return in front of the line feed, if it fits; cut, with one character lost, if it does not and the first filling is as long as the room; else, but for a carriage return at the very end, it is written behind the room |
| `Utf16Readers.NeverOverrunsIff` | pinyin/share/utf16reader.cpp:91-108 | told from the line alone: however the buffer is filled nothing is written behind the room, if and only if the line fits, or fills all of it with a carriage return last |
| `Utf16Readers.ReadLines` | pinyin/share/utf16reader.cpp:72-119 | for every buffer length and every way of filling it: the lines of the file |
| `Utf16Readers.WrittenLines` | pinyin/share/utf16reader.cpp:92-111 | lines that are written one by one come back |

## Left out

- SpellingTrie: its construction and the numbering of half ids are parameters: ranges of full ids for half ids, the full-to-half function, compatibility, and for the parser a given tree of nodes.
- DictTries.DictTrie.GetLpis: frontier buffers and loaded tables are values, not arrays that are written in place; `max_lma_buf` 0 is not modelled; the precision of the frequency is not modelled.
- MileStones.MileStoneDict.ExtendDict: requires an item buffer that starts empty; what the program does behind a write outside of the array, or with a mile stone that counts marks that were not recorded, is not modelled.
- MileStones: the branches for `extend_dict1` and `extend_dict2`, which differ in the node type only, are one method.
- DictBuilders.DictBuilder.ConstructSubset: the repeated code for the last son and the branches on the node type are merged; the counts that the code asserts, and buffers large enough, are preconditions; the statistics are not modelled.
- RawEntries.BuildFromRaw: begins behind the reading of the file and of the spellings; that every spelling of the table begins a lemma, and the limits of the buffers and counters, are preconditions on the raw entries; the n-gram data and the top lemmas are not built.
- DictDef.LemmaEntry: frequencies are natural numbers, and arrays with a terminator are sequences.
- DictLists.DictList.GetSplidsForHanzi: requires the Hanzi to be listed and room for one more candidate, which the code asserts.
- DictPredict.Predict: scores of words are an uninterpreted function of the id; prediction items hold sequences, not zero-padded buffers; the Hanzis are not 0.
- SplidRecovery.LemmaDict.GetLemmaSplids: requires that the product of the candidate counts fits 16 bits, that the candidates fit the matrix, and the lengths that the code asserts.
- `get_top_lemmas` and `predict_top_lmas`: not modelled.
- MyStdlib.MyQsort: the library sort is an insertion sort here; only its contract is used.
- Reading and writing of files, `LpiCache`, `MatrixSearch`, `UserDict` and the n-gram codebook: not modelled.
- ConvertUTF: the bit operations are arithmetic on integers, tied to 32-bit words by lemmas of their own; the four conversions from UTF-8 and UTF-16 share their reading parts, as helpers; sources are sequences and positions in them.
- LinearSolve: entries are reals, matrices have no padding between rows; rounding and overflow are not modelled.
- Jacobi.JacobiEigen: `astep` and `vstep` are equal, as the rotation of `v` assumes; rounding is not modelled.
- FindCorners: image processing, the ordering of quads and merging of former quads are not modelled; coordinates are reals, and at least four quads are given, as the callers see to.
- PageFlip.Modeset.Cleanup: once an event has been handed to a freed device nothing is certain any more; the model records that and goes on as if the memory were as it was.
- PageFlip.Modeset.CleanupNext: restoring the saved CRTC is modelled as showing nothing of ours; what the kernel and the calls of `select` do is a list of rounds.
- Pipeline: each loop round is cut into steps at the calls of other elements; locks, timeouts and the order inside of a priority queue are not modelled, a queue yields any of its elements; elements are records in the fields of one class; a decoder that succeeds yields a frame.
- Players.Player.SetElement: the returned status codes are not modelled.
- The state changes of `VideoRender` and `Player`, which are stubs in the code: not modelled; the sink of the video decoder writes and frees each frame.
- SpellingTables.SpellingTable.PutSpelling: characters are their codes, frequencies are reals, and sums do not overflow.
- `arrange` of the spelling table: not modelled.
- SplParsers.SplstrToIdxs: `start_pos` is always given; positions do not overflow 16 bits; the variants for 16-bit characters and for full ids differ in types and in a table lookup only.
- Utf16Readers.Utf16Reader.ReadLine: ends in front of the first write behind the room for the line; the file header is already skipped.
- `processmanager`, `filesvr`, `ipucvt`, `droid`, `hik`, `misc/py` and the demos of language features: they would only add easy members.
