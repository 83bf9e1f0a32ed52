/** The whole way from raw entries to a loaded dictionary. */
module Dictionaries {
  import opened DictDef
  import opened MyStdlib
  import opened TrieLayout
  import opened TrieSearch
  import opened DictBuilders
  import opened DictTries
  import opened DictLists
  import opened SingleChars
  import opened SplidRecovery

  // ----- node space -----

  /** For every lemma of `lo..hi`, the number of its characters behind position `level`. */
  ghost function CharsBehind(ls: seq<LemmaEntry>, lo: nat, hi: nat, level: nat): int
    requires hi <= |ls|
    decreases hi - lo
  {
    if hi <= lo then 0 else |ls[lo].spls| - 1 - level + CharsBehind(ls, lo + 1, hi, level)
  }

  lemma {:induction false} CharsBehindSplit(ls: seq<LemmaEntry>, lo: nat, s: nat, hi: nat, level: nat)
    requires lo <= s <= hi <= |ls|
    ensures CharsBehind(ls, lo, hi, level) == CharsBehind(ls, lo, s, level) + CharsBehind(ls, s, hi, level)
    decreases s - lo
  {
    if lo < s {
      CharsBehindSplit(ls, lo + 1, s, hi, level);
    }
  }

  lemma {:induction false} CharsBehindNext(ls: seq<LemmaEntry>, lo: nat, hi: nat, level: nat, next: nat)
    requires lo <= hi <= |ls| && next == level + 1
    ensures CharsBehind(ls, lo, hi, level) == CharsBehind(ls, lo, hi, next) + (hi - lo)
    decreases hi - lo
  {
    if lo < hi {
      CharsBehindNext(ls, lo + 1, hi, level, next);
    }
  }

  lemma {:induction false} CharsBehindPositive(ls: seq<LemmaEntry>, lo: nat, hi: nat, level: nat)
    requires lo <= hi <= |ls| && forall i | lo <= i < hi :: level < |ls[i].spls|
    ensures CharsBehind(ls, lo, hi, level) >= 0
    decreases hi - lo
  {
    if lo < hi {
      CharsBehindPositive(ls, lo + 1, hi, level);
    }
  }

  /** Below the first layer there is at most one node for every character behind a first one. */
  lemma {:induction false} DescendantsBound(ls: seq<LemmaEntry>, a: nat, lo: nat, hi: nat, level: nat)
    requires ValidLemmas(ls) && a <= lo <= hi <= |ls| && SharedPrefix(ls, a, hi, level)
    ensures Descendants(ls, lo, hi, level) <= CharsBehind(ls, lo, hi, level)
    decreases K_MAX_LEMMA_SIZE - level, hi - lo
  {
    forall i | lo <= i < hi ensures level < |ls[i].spls| <= K_MAX_LEMMA_SIZE {
      assert GoesOn(ls, a, i, level) && ValidEntry(ls[i]);
    }
    if lo < hi {
      var e := GroupEnd(ls, lo, hi, level);
      CharsBehindSplit(ls, lo, e, hi, level);
      DescendantsBound(ls, a, e, hi, level);
      BelowBound(ls, a, lo, e, hi, level, level + 1);
    }
  }

  lemma {:induction false} BelowBound(ls: seq<LemmaEntry>, a: nat, lo: nat, e: nat, hi: nat, level: nat, next: nat)
    requires ValidLemmas(ls) && a <= lo < e <= hi <= |ls| && SharedPrefix(ls, a, hi, level) && e == GroupEnd(ls, lo, hi, level)
    requires level < K_MAX_LEMMA_SIZE && next == level + 1 && forall i | lo <= i < e :: level < |ls[i].spls|
    ensures Below(ls, lo, e, level) <= CharsBehind(ls, lo, e, level)
    decreases K_MAX_LEMMA_SIZE - level, e - lo, 0
  {
    var h := HomoEnd(ls, lo, e, level);
    GroupShares(ls, a, hi, level, lo, e);
    DescendantsBound(ls, h, h, e, next);
    CharsBehindSplit(ls, lo, h, e, level);
    CharsBehindNext(ls, h, e, level, next);
    CharsBehindPositive(ls, lo, h, level);
  }

  /** The nodes below the first layer fit into a buffer with a place for every character behind a first one. */
  lemma DeepNodesFit(ls: seq<LemmaEntry>)
    requires ValidLemmas(ls)
    ensures Descendants(ls, 0, |ls|, 0) <= CharsBehind(ls, 0, |ls|, 0)
  {
    AllShareNothing(ls);
    DescendantsBound(ls, 0, 0, |ls|, 0);
  }

  lemma OneLemmaNode(ls: seq<LemmaEntry>, level: nat, next: nat)
    requires |ls| == 1 && next == level + 1 < |ls[0].spls| <= K_MAX_LEMMA_SIZE && ls[0].spls[next] != 0
    ensures Descendants(ls, 0, 1, level) == 1 + Descendants(ls, 0, 1, next)
  {
    assert GroupEnd(ls, 0, 1, level) == 1 && HomoEnd(ls, 0, 1, level) == 0;
    assert GroupCount(ls, 0, 1, next) == 1 + GroupCount(ls, 1, 1, next) == 1;
    assert Descendants(ls, 0, 1, level) == Below(ls, 0, 1, level) + Descendants(ls, 1, 1, level);
  }

  const THREE_CHARS := [LemmaEntry([30, 30, 30], 1, 1, [0x554a, 0x554a, 0x554a])]

  /** A place for every lemma is not enough: one lemma of three characters needs two nodes. */
  lemma OnePlacePerLemmaIsNotEnough()
    ensures ValidLemmas(THREE_CHARS) && Descendants(THREE_CHARS, 0, |THREE_CHARS|, 0) > |THREE_CHARS|
  {
    hide Descendants, Below, GroupEnd, HomoEnd, GroupCount;
    OneLemmaNode(THREE_CHARS, 0, 1);
    OneLemmaNode(THREE_CHARS, 1, 2);
  }

  // ----- the first layer -----

  /** Every spelling of the table begins some lemma. */
  ghost predicate AllBegin(ls: seq<LemmaEntry>, spellingNum: nat) {
    forall s | K_FULL_SPL_ID_START <= s < K_FULL_SPL_ID_START + spellingNum :: Begins(ls, s)
  }

  ghost predicate Begins(ls: seq<LemmaEntry>, s: nat) {
    exists i :: 0 <= i < |ls| && SplIdx(ls[i], 0) == s
  }

  lemma {:induction false} FirstIdListed(t: Nodes, ls: seq<LemmaEntry>, s: nat, first: nat, u: nat, i: nat) returns (v: nat)
    requires s <= i < |ls| && RepBlock(t, ls, s, |ls|, 0, first, u)
    ensures first <= v < first + GroupCount(ls, s, |ls|, 0) && v < |t.le0| && t.le0[v].splIdx == SplIdx(ls[i], 0)
    decreases |ls| - s
  {
    var g, u' := OpenBlock(t, ls, s, |ls|, 0, first, u);
    if i < g {
      v := first;
    } else {
      v := FirstIdListed(t, ls, g, first + 1, u', i);
    }
  }

  lemma {:induction false} ListedIdIsFirst(t: Nodes, ls: seq<LemmaEntry>, s: nat, first: nat, u: nat, v: nat) returns (i: nat)
    requires s <= |ls| && RepBlock(t, ls, s, |ls|, 0, first, u) && first <= v < first + GroupCount(ls, s, |ls|, 0)
    ensures s <= i < |ls| && v < |t.le0| && t.le0[v].splIdx == SplIdx(ls[i], 0)
    decreases |ls| - s
  {
    var g, u' := OpenBlock(t, ls, s, |ls|, 0, first, u);
    if v == first {
      i := s;
    } else {
      i := ListedIdIsFirst(t, ls, g, first + 1, u', v);
    }
  }

  /** The node of a first id cannot lie before the nodes of all smaller ids. */
  lemma {:induction false} NodeFarEnough(t: Nodes, ls: seq<LemmaEntry>, spellingNum: nat, s: nat) returns (v: nat)
    requires Packed(t, ls) && FirstLayer(t.le0, spellingNum) && AllBegin(ls, spellingNum)
    requires K_FULL_SPL_ID_START <= s < K_FULL_SPL_ID_START + spellingNum
    ensures s - K_FULL_SPL_ID_START + 1 <= v < |t.le0| && t.le0[v].splIdx == s
    decreases s
  {
    assert Begins(ls, s);
    var i :| 0 <= i < |ls| && SplIdx(ls[i], 0) == s;
    v := FirstIdListed(t, ls, 0, 1, 0, i);
    if s > K_FULL_SPL_ID_START {
      var w := NodeFarEnough(t, ls, spellingNum, s - 1);
    }
  }

  /** The first layer has no gaps exactly when every spelling of the table begins some lemma. */
  lemma NoGapsIff(t: Nodes, ls: seq<LemmaEntry>, spellingNum: nat)
    requires Packed(t, ls) && FirstLayer(t.le0, spellingNum)
    ensures NoGaps(t.le0, spellingNum) <==> AllBegin(ls, spellingNum)
  {
    if NoGaps(t.le0, spellingNum) {
      forall s | K_FULL_SPL_ID_START <= s < K_FULL_SPL_ID_START + spellingNum ensures Begins(ls, s) {
        NoGapsIndexed(t.le0, spellingNum, s);
        var i := ListedIdIsFirst(t, ls, 0, 1, 0, IndexEntry(t.le0, s));
      }
    }
    if AllBegin(ls, spellingNum) && spellingNum > 0 {
      var v := NodeFarEnough(t, ls, spellingNum, K_FULL_SPL_ID_START + spellingNum - 1);
    }
  }

  // ----- building -----

  /** A raw entry: as many known spellings as characters. */
  ghost predicate RawEntry(l: LemmaEntry, spellingNum: nat) {
    ValidEntry(l) && Spelled(l) && FullySpelled(l, spellingNum)
  }

  /** `b` is `a` with the ids `1..|a|`. */
  ghost predicate Numbered(a: seq<LemmaEntry>, b: seq<LemmaEntry>) {
    |a| == |b| && forall i | 0 <= i < |a| :: b[i] == a[i].(idxByHz := i + 1)
  }

  /** `sort_lemmas_by_hz`: every entry gets an id of its own, in the order of length and Hanzis. */
  method SortLemmasByHz(raw: seq<LemmaEntry>) returns (hs: seq<LemmaEntry>, ghost sorted: seq<LemmaEntry>)
    ensures Sorted(sorted, CompareHzs) && multiset(sorted) == multiset(raw) && Numbered(sorted, hs)
    ensures Sorted(hs, CompareHzs)
  {
    forall a, b ensures CompareHzs(a, b) <= 0 || CompareHzs(b, a) <= 0 {
      CompareHzsTotal(a, b);
    }
    forall a, b, c | CompareHzs(a, b) <= 0 && CompareHzs(b, c) <= 0 ensures CompareHzs(a, c) <= 0 {
      CompareHzsTransitive(a, b, c);
    }
    var s := MyQsort(raw, CompareHzs);
    sorted := s;
    hs := [];
    for i := 0 to |s|
      invariant Numbered(s[..i], hs)
    {
      hs := hs + [s[i].(idxByHz := i + 1)];
    }
    assert s[..|s|] == s;
    forall i, j | 0 <= i < j < |hs| ensures InOrder(hs, CompareHzs, i, j) {
      assert InOrder(sorted, CompareHzs, i, j);
    }
  }

  /** Permuting and numbering keeps what is required of the entries. */
  lemma NumberedRaw(raw: seq<LemmaEntry>, sorted: seq<LemmaEntry>, hs: seq<LemmaEntry>, spellingNum: nat)
    requires multiset(sorted) == multiset(raw) && Numbered(sorted, hs)
    requires forall i | 0 <= i < |raw| :: RawEntry(raw[i], spellingNum)
    ensures forall i | 0 <= i < |hs| :: RawEntry(hs[i], spellingNum)
  {
    forall i | 0 <= i < |hs| ensures RawEntry(hs[i], spellingNum) {
      assert sorted[i] in multiset(raw);
      var k :| 0 <= k < |raw| && raw[k] == sorted[i];
      assert RawEntry(raw[k], spellingNum);
    }
  }

  lemma NumberedList(hs: seq<LemmaEntry>, sorted: seq<LemmaEntry>, spellingNum: nat)
    requires Numbered(sorted, hs) && Sorted(hs, CompareHzs) && hs != [] && |hs[0].hanzis| == 1
    requires forall i | 0 <= i < |hs| :: RawEntry(hs[i], spellingNum)
    ensures ValidList(hs)
  {
    forall i, j | 0 <= i < j < |hs| ensures LengthsAscend(hs, i, j) {
      assert InOrder(hs, CompareHzs, i, j);
    }
    forall i | 0 <= i < |hs| ensures hs[i].idxByHz == i + 1 && 1 <= |hs[i].hanzis| <= K_MAX_LEMMA_SIZE {
      assert RawEntry(hs[i], spellingNum);
    }
  }

  /** The second sort of `build_dict`, by spelling. */
  method SortLemmasByPy(hs: seq<LemmaEntry>, ghost spellingNum: nat) returns (ls: seq<LemmaEntry>)
    requires forall i | 0 <= i < |hs| :: RawEntry(hs[i], spellingNum)
    ensures multiset(ls) == multiset(hs) && ValidLemmas(ls)
    ensures forall i | 0 <= i < |ls| :: RawEntry(ls[i], spellingNum)
  {
    forall a, b ensures ComparePy(a, b) <= 0 || ComparePy(b, a) <= 0 {
      ComparePyTotal(a, b);
    }
    forall a, b, c | ComparePy(a, b) <= 0 && ComparePy(b, c) <= 0 ensures ComparePy(a, c) <= 0 {
      ComparePyTransitive(a, b, c);
    }
    ls := MyQsort(hs, ComparePy);
    forall i | 0 <= i < |ls| ensures RawEntry(ls[i], spellingNum) {
      assert ls[i] in multiset(hs);
      ghost var k :| 0 <= k < |hs| && hs[k] == ls[i];
    }
    forall i, j | 0 <= i < j < |ls| ensures InPyOrder(ls, i, j) {
      assert InOrder(ls, ComparePy, i, j);
    }
  }

  /** What the builder asserts of the counts, and the room its buffers need. */
  ghost predicate Buildable(ls: seq<LemmaEntry>, lmaNum: nat) {
    && |ls| <= lmaNum < OFFSET_LIMIT
    && BlockFits(ls, 0, |ls|, 0)
    && GroupCount(ls, 0, |ls|, 0) <= K_MAX_SPELLING_NUM
    && Descendants(ls, 0, |ls|, 0) <= lmaNum
  }

  /** `build_dict` behind the sorting, and `load_dict`: the trie, its id buffer and its index. */
  method BuildTrieDict(ls: seq<LemmaEntry>, lmaNum: nat, spl: SpellingTrie, psb: nat -> uint16) returns (dict: DictTrie)
    requires ValidLemmas(ls) && ls != [] && Buildable(ls, lmaNum) && spl.Valid()
    requires forall i | 0 <= i < |ls| :: RawEntry(ls[i], spl.spellingNum) && ls[i].idxByHz < OFFSET_LIMIT
    ensures fresh(dict) && dict.Valid() && dict.lemmas == ls && dict.splTrie == spl && dict.uniPsb == psb
  {
    var builder := new DictBuilder(ls, lmaNum);
    var trie, ids := builder.BuildTrie();
    var buf := PackIds(ids);
    forall i | 0 <= i < |ls| ensures K_FULL_SPL_ID_START <= SplIdx(ls[i], 0) < K_FULL_SPL_ID_START + spl.spellingNum {
      assert RawEntry(ls[i], spl.spellingNum);
    }
    dict := new DictTrie(trie, buf[..], spl, psb, ls);
  }

  /**
   * The dictionary for lemmas that have been sorted both ways, and their characters: everything that
   * the searches and the recovery of spellings rely on holds.
   */
  method BuildDict(hs: seq<LemmaEntry>, scis: seq<SingleCharItem>, ls: seq<LemmaEntry>, lmaNum: nat, spl: SpellingTrie, psb: nat -> uint16,
                   ghost fullToHalf: uint16 -> uint16, compatible: (uint16, uint16) -> bool) returns (d: LemmaDict)
    requires ValidList(hs) && NoMissingLength(hs) && spl.Valid()
    requires ListsCharsOf(scis, hs, fullToHalf) && |scis| <= 0x1_0000
    requires forall i | 0 <= i < |hs| :: RawEntry(hs[i], spl.spellingNum)
    requires ValidLemmas(ls) && multiset(ls) == multiset(hs) && Buildable(ls, lmaNum) && AllBegin(ls, spl.spellingNum)
    ensures fresh(d) && d.Valid() && d.dict.lemmas == ls && d.list.lemmas == hs && d.list.scis == scis
    ensures d.dict.splTrie == spl && d.compatible == compatible && d.fullToHalf == fullToHalf
  {
    SameSize(ls, hs);
    forall i | 0 <= i < |ls| ensures RawEntry(ls[i], spl.spellingNum) && ls[i].idxByHz < OFFSET_LIMIT {
      assert ls[i] in multiset(hs);
      ghost var k :| 0 <= k < |hs| && hs[k] == ls[i];
    }
    var list := new DictList(hs, scis);
    var dict := BuildTrieDict(ls, lmaNum, spl, psb);
    NoGapsIff(dict.nodes, ls, spl.spellingNum);
    d := new LemmaDict(dict, list, compatible, fullToHalf);
  }

  lemma SameSize(a: seq<LemmaEntry>, b: seq<LemmaEntry>)
    requires multiset(a) == multiset(b)
    ensures |a| == |b|
  {
    assert |multiset(a)| == |a| && |multiset(b)| == |b|;
  }
}
