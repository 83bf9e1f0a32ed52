/** From raw entries, in any order, to the dictionary: `build_dict` as one whole. */
module RawEntries {
  import opened DictDef
  import opened MyStdlib
  import opened TrieLayout
  import opened DictLists
  import opened SingleChars
  import opened SplidRecovery
  import opened DictTries
  import opened TriePrefixes
  import opened Dictionaries
  import opened FiniteSets

  // ----- what does not depend on the order -----

  ghost function Spellings(ls: seq<LemmaEntry>): (r: seq<seq<uint16>>)
    ensures |r| == |ls| && forall i | 0 <= i < |ls| :: r[i] == ls[i].spls
  {
    seq(|ls|, i requires 0 <= i < |ls| => ls[i].spls)
  }

  lemma TakenOut<X>(s: seq<X>, k: nat)
    requires k < |s|
    ensures multiset(s) == multiset(s[..k] + s[k + 1..]) + multiset{s[k]}
  {
    assert s == s[..k] + [s[k]] + s[k + 1..];
  }

  lemma Cancel<X>(a: multiset<X>, b: multiset<X>, x: X)
    requires a + multiset{x} == b + multiset{x}
    ensures a == b
  {
    assert a == a + multiset{x} - multiset{x};
    assert b == b + multiset{x} - multiset{x};
  }

  /** Both lists without the first element of one of them. */
  lemma PairOff<X>(a: seq<X>, b: seq<X>) returns (k: nat)
    requires multiset(a) == multiset(b) && a != []
    ensures k < |b| && b[k] == a[0]
    ensures multiset(a[..0] + a[1..]) == multiset(b[..k] + b[k + 1..])
  {
    assert a[0] in multiset(b);
    k :| 0 <= k < |b| && b[k] == a[0];
    TakenOut(a, 0);
    TakenOut(b, k);
    Cancel(multiset(a[..0] + a[1..]), multiset(b[..k] + b[k + 1..]), a[0]);
  }

  lemma SpellingsTakenOut(a: seq<LemmaEntry>, k: nat)
    requires k < |a|
    ensures multiset(Spellings(a)) == multiset(Spellings(a[..k] + a[k + 1..])) + multiset{a[k].spls}
  {
    TakenOut(Spellings(a), k);
    assert Spellings(a[..k] + a[k + 1..]) == Spellings(a)[..k] + Spellings(a)[k + 1..];
  }

  lemma {:induction false} SpellingsPermute(a: seq<LemmaEntry>, b: seq<LemmaEntry>)
    requires multiset(a) == multiset(b)
    ensures multiset(Spellings(a)) == multiset(Spellings(b))
    decreases |a|
  {
    hide Spellings;
    if a == [] {
      SameSize(a, b);
      assert Spellings(a) == Spellings(b);
    } else {
      var k := PairOff(a, b);
      SpellingsPermute(a[..0] + a[1..], b[..k] + b[k + 1..]);
      SpellingsTakenOut(a, 0);
      SpellingsTakenOut(b, k);
    }
  }

  /** The beginnings that are one id longer than `p`. */
  ghost function Sons(ls: seq<LemmaEntry>, p: seq<uint16>): set<seq<uint16>> {
    set q | q in Heads(ls, 0, |ls|, |p| + 1) && q[..|p|] == p
  }

  /**
   * The counts that the builder asserts and the room of its buffers, on the spellings alone: so many lemmas,
   * first ids and longer beginnings, and behind every beginning so many next ids and lemmas that end there.
   */
  ghost predicate RoomFor(ls: seq<LemmaEntry>, lmaNum: nat) {
    && |ls| <= lmaNum < OFFSET_LIMIT
    && |Heads(ls, 0, |ls|, 1)| <= K_MAX_SPELLING_NUM
    && |Prefixes(ls, 0, |ls|, 2)| <= lmaNum
    && (forall p: seq<uint16> :: |Sons(ls, p)| <= SonLimit(|p|))
    && (forall p: seq<uint16>, level: nat | |p| == level + 1 :: multiset(Spellings(ls))[p] <= HomoLimit(level))
  }

  lemma PrefixesPermute(a: seq<LemmaEntry>, b: seq<LemmaEntry>, n: nat)
    requires multiset(Spellings(a)) == multiset(Spellings(b))
    ensures Prefixes(a, 0, |a|, n) == Prefixes(b, 0, |b|, n)
  {
    hide Prefixes, BegunIn;
    forall p ensures BegunIn(a, 0, |a|, n, p) <==> BegunIn(b, 0, |b|, n, p) {
      OccursOn(a, b, n, p);
      OccursOn(b, a, n, p);
    }
  }

  lemma OccursOn(a: seq<LemmaEntry>, b: seq<LemmaEntry>, n: nat, p: seq<uint16>)
    requires multiset(Spellings(a)) == multiset(Spellings(b))
    ensures BegunIn(a, 0, |a|, n, p) ==> BegunIn(b, 0, |b|, n, p)
  {
    if BegunIn(a, 0, |a|, n, p) {
      var i :| 0 <= i < |a| && Begun(a, i, n, p);
      assert Spellings(a)[i] in multiset(Spellings(b));
      var j :| 0 <= j < |b| && Spellings(b)[j] == Spellings(a)[i];
      assert Begun(b, j, n, p);
    }
  }

  lemma RoomPermutes(a: seq<LemmaEntry>, b: seq<LemmaEntry>, lmaNum: nat)
    requires multiset(Spellings(a)) == multiset(Spellings(b)) && |a| == |b| && RoomFor(a, lmaNum)
    ensures RoomFor(b, lmaNum)
  {
    hide Prefixes, Spellings;
    forall n: nat ensures Prefixes(a, 0, |a|, n) == Prefixes(b, 0, |b|, n) {
      PrefixesPermute(a, b, n);
    }
    forall p: seq<uint16> ensures |Sons(b, p)| <= SonLimit(|p|) {
      assert Sons(a, p) == Sons(b, p);
    }
    assert Heads(a, 0, |a|, 1) == Heads(b, 0, |b|, 1);
  }

  // ----- the builder's counts follow -----

  lemma {:induction false} RunCounted<X>(s: seq<X>, lo: nat, h: nat, x: X)
    requires lo <= h <= |s| && forall i | lo <= i < h :: s[i] == x
    ensures multiset(s)[x] >= h - lo
    decreases h - lo
  {
    if lo < h {
      var rest := s[..lo] + s[lo + 1..];
      TakenOut(s, lo);
      RunCounted(rest, lo, h - 1, x);
    }
  }

  lemma HomophonesFit(ls: seq<LemmaEntry>, a: nat, lo: nat, e: nat, hi: nat, level: nat, lmaNum: nat)
    requires ValidLemmas(ls) && RoomFor(ls, lmaNum)
    requires a <= lo < e <= hi <= |ls| && SharedPrefix(ls, a, hi, level) && e == GroupEnd(ls, lo, hi, level)
    ensures HomoEnd(ls, lo, e, level) - lo <= HomoLimit(level)
  {
    hide Heads, Prefixes, Sons, GroupEnd;
    var h := HomoEnd(ls, lo, e, level);
    if lo < h {
      forall i | lo <= i < h ensures |ls[i].spls| == level + 1 && ls[i].spls == ls[lo].spls {
        assert GoesOn(ls, a, i, level) && GoesOn(ls, a, lo, level) && ValidEntry(ls[i]) && ValidEntry(ls[lo]);
        assert ls[i].spls == ls[i].spls[..level] + [SplIdx(ls[i], level)];
        assert ls[lo].spls == ls[lo].spls[..level] + [SplIdx(ls[lo], level)];
      }
      RunCounted(Spellings(ls), lo, h, ls[lo].spls);
    }
  }

  lemma SonsFit(ls: seq<LemmaEntry>, lo: nat, hi: nat, level: nat, next: nat, lmaNum: nat)
    requires ValidLemmas(ls) && RoomFor(ls, lmaNum) && SharedPrefix(ls, lo, hi, level) && next == level + 1
    ensures GroupCount(ls, lo, hi, level) <= SonLimit(level)
  {
    hide Prefixes, Spellings, Sons, Heads;
    if lo < hi {
      assert GoesOn(ls, lo, lo, level);
      var p := ls[lo].spls[..level];
      SonsAreHeads(ls, lo, lo, hi, level, next);
      HeadsAreSons(ls, lo, hi, p, next);
      SubsetSize(Heads(ls, lo, hi, next), Sons(ls, p));
    }
  }

  lemma HeadsAreSons(ls: seq<LemmaEntry>, lo: nat, hi: nat, p: seq<uint16>, next: nat)
    requires lo < hi <= |ls| && SharedPrefix(ls, lo, hi, |p|) && next == |p| + 1 && |p| <= |ls[lo].spls| && p == ls[lo].spls[..|p|]
    ensures Heads(ls, lo, hi, next) <= Sons(ls, p)
  {
    hide Prefixes;
    forall q | q in Heads(ls, lo, hi, next) ensures q in Sons(ls, p) {
      assert BegunIn(ls, lo, hi, next, q);
      var i :| lo <= i < hi && Begun(ls, i, next, q);
      assert BegunIn(ls, 0, |ls|, next, q) && GoesOn(ls, lo, i, |p|);
      assert q[..|p|] == ls[i].spls[..|p|];
    }
  }

  lemma {:induction false} GroupsFitThen(ls: seq<LemmaEntry>, a: nat, lo: nat, hi: nat, level: nat, lmaNum: nat)
    requires ValidLemmas(ls) && RoomFor(ls, lmaNum) && a <= lo <= hi <= |ls| && SharedPrefix(ls, a, hi, level)
    ensures GroupsFit(ls, lo, hi, level)
    decreases K_MAX_LEMMA_SIZE - level, hi - lo
  {
    hide RoomFor, ValidLemmas, SharedPrefix, GroupEnd, HomoEnd;
    if lo < hi {
      var e := GroupEnd(ls, lo, hi, level);
      if level < K_MAX_LEMMA_SIZE {
        var h := HomoEnd(ls, lo, e, level);
        HomophonesFit(ls, a, lo, e, hi, level, lmaNum);
        GroupShares(ls, a, hi, level, lo, e);
        SonsFit(ls, h, e, level + 1, level + 2, lmaNum);
        GroupsFitThen(ls, h, h, e, level + 1, lmaNum);
        assert BlockFits(ls, h, e, level + 1);
      }
      assert NodeFits(ls, lo, e, level);
      GroupsFitThen(ls, a, e, hi, level, lmaNum);
    }
  }

  /** A sorted list with so much room can be built. */
  lemma RoomIsBuildable(ls: seq<LemmaEntry>, lmaNum: nat)
    requires ValidLemmas(ls) && RoomFor(ls, lmaNum)
    ensures Buildable(ls, lmaNum)
  {
    hide Prefixes, Heads, Sons, Spellings, ValidLemmas, SharedPrefix, GroupsFit, Descendants, GroupCount;
    AllShareNothing(ls);
    NodesCounted(ls);
    SonsFit(ls, 0, |ls|, 0, 1, lmaNum);
    GroupsFitThen(ls, 0, 0, |ls|, 0, lmaNum);
  }

  // ----- what the lists need follows -----

  /** Every entry of `a` is in `b`, maybe with another id. */
  ghost predicate Covered(a: seq<LemmaEntry>, b: seq<LemmaEntry>) {
    forall i | 0 <= i < |a| :: Copied(a[i], b)
  }

  ghost predicate Copied(x: LemmaEntry, b: seq<LemmaEntry>) {
    exists j :: 0 <= j < |b| && b[j] == x.(idxByHz := b[j].idxByHz)
  }

  lemma PermutedCovers(a: seq<LemmaEntry>, b: seq<LemmaEntry>)
    requires multiset(a) == multiset(b)
    ensures Covered(a, b)
  {
    forall i | 0 <= i < |a| ensures Copied(a[i], b) {
      assert a[i] in multiset(b);
      var j :| 0 <= j < |b| && b[j] == a[i];
    }
  }

  lemma NumberedCovers(a: seq<LemmaEntry>, b: seq<LemmaEntry>)
    requires Numbered(a, b)
    ensures Covered(a, b) && Covered(b, a)
  {
    forall i | 0 <= i < |a| ensures Copied(a[i], b) && Copied(b[i], a) {
      assert b[i] == a[i].(idxByHz := b[i].idxByHz) && a[i] == b[i].(idxByHz := a[i].idxByHz);
    }
  }

  lemma CoveredThen(a: seq<LemmaEntry>, b: seq<LemmaEntry>, c: seq<LemmaEntry>)
    requires Covered(a, b) && Covered(b, c)
    ensures Covered(a, c)
  {
    forall i | 0 <= i < |a| ensures Copied(a[i], c) {
      assert Copied(a[i], b);
      var j :| 0 <= j < |b| && b[j] == a[i].(idxByHz := b[j].idxByHz);
      assert Copied(b[j], c);
      var k :| 0 <= k < |c| && c[k] == b[j].(idxByHz := c[k].idxByHz);
    }
  }

  /** With a lemma there are lemmas of all smaller lengths. */
  ghost predicate EveryLength(ls: seq<LemmaEntry>) {
    forall i, len | 0 <= i < |ls| && 1 <= len <= |ls[i].hanzis| :: Present(ls, len)
  }

  lemma LengthsKept(a: seq<LemmaEntry>, b: seq<LemmaEntry>)
    requires Covered(a, b) && Covered(b, a) && EveryLength(a)
    ensures EveryLength(b)
  {
    forall i, len | 0 <= i < |b| && 1 <= len <= |b[i].hanzis| ensures Present(b, len) {
      assert Copied(b[i], a);
      var j :| 0 <= j < |a| && a[j] == b[i].(idxByHz := a[j].idxByHz);
      PresentKept(a, b, j, len);
    }
  }

  lemma PresentKept(a: seq<LemmaEntry>, b: seq<LemmaEntry>, j: nat, len: nat)
    requires Covered(a, b) && EveryLength(a) && j < |a| && 1 <= len <= |a[j].hanzis|
    ensures Present(b, len)
  {
    assert Present(a, len);
    var k :| 0 <= k < |a| && |a[k].hanzis| == len;
    assert Copied(a[k], b);
  }

  lemma BeginsKept(a: seq<LemmaEntry>, b: seq<LemmaEntry>, spellingNum: nat)
    requires Covered(a, b) && AllBegin(a, spellingNum)
    ensures AllBegin(b, spellingNum)
  {
    forall s | K_FULL_SPL_ID_START <= s < K_FULL_SPL_ID_START + spellingNum ensures Begins(b, s) {
      assert Begins(a, s);
      var i :| 0 <= i < |a| && SplIdx(a[i], 0) == s;
      assert Copied(a[i], b);
    }
  }

  /** Every character of the lemmas with its spelling there. */
  ghost function CharPairs(ls: seq<LemmaEntry>): set<(uint16, uint16)> {
    set i, k | 0 <= i < |ls| && 0 <= k < |ls[i].hanzis| && k < |ls[i].spls| :: (ls[i].hanzis[k], ls[i].spls[k])
  }

  lemma PairsKept(a: seq<LemmaEntry>, b: seq<LemmaEntry>)
    requires Covered(a, b)
    ensures CharPairs(a) <= CharPairs(b)
  {
    forall i, k | 0 <= i < |a| && 0 <= k < |a[i].hanzis| && k < |a[i].spls|
      ensures (a[i].hanzis[k], a[i].spls[k]) in CharPairs(b)
    {
      assert Copied(a[i], b);
      var j :| 0 <= j < |b| && b[j] == a[i].(idxByHz := b[j].idxByHz);
      assert b[j].hanzis[k] == a[i].hanzis[k] && b[j].spls[k] == a[i].spls[k];
    }
  }

  ghost function ItemPairs(scis: seq<SingleCharItem>, n: nat): set<(uint16, uint16)>
    requires n <= |scis|
  {
    set k | 1 <= k < n :: PairOf(scis[k])
  }

  ghost function PairOf(x: SingleCharItem): (uint16, uint16) { (x.hz, x.fullSplid) }

  lemma PairsDiffer(scis: seq<SingleCharItem>, ls: seq<LemmaEntry>, fullToHalf: uint16 -> uint16, j: nat, k: nat)
    requires ListsCharsOf(scis, ls, fullToHalf) && 1 <= j < k < |scis|
    ensures PairOf(scis[j]) != PairOf(scis[k])
  {
    hide Listed;
    assert Before(scis, j, k) && Occurs(scis[j], ls, fullToHalf) && Occurs(scis[k], ls, fullToHalf);
  }

  lemma {:induction false} ItemsDiffer(scis: seq<SingleCharItem>, ls: seq<LemmaEntry>, fullToHalf: uint16 -> uint16, n: nat)
    requires ListsCharsOf(scis, ls, fullToHalf) && 1 <= n <= |scis|
    ensures |ItemPairs(scis, n)| == n - 1
    decreases n
  {
    hide ListsCharsOf, PairOf;
    if n == 1 {
      assert ItemPairs(scis, n) == {};
    } else {
      ItemsDiffer(scis, ls, fullToHalf, n - 1);
      forall k | 1 <= k < n - 1 ensures PairOf(scis[k]) != PairOf(scis[n - 1]) {
        PairsDiffer(scis, ls, fullToHalf, k, n - 1);
      }
      assert ItemPairs(scis, n) == ItemPairs(scis, n - 1) + {PairOf(scis[n - 1])};
    }
  }

  /** The list of characters has one item for every character with a spelling of its own, and the blank one. */
  lemma ScisCounted(scis: seq<SingleCharItem>, ls: seq<LemmaEntry>, fullToHalf: uint16 -> uint16)
    requires ListsCharsOf(scis, ls, fullToHalf) && forall i | 0 <= i < |ls| :: Spelled(ls[i])
    ensures |scis| == 1 + |CharPairs(ls)|
  {
    hide Ascending, Occurs, Listed, ItemPairs, CharPairs;
    ItemsDiffer(scis, ls, fullToHalf, |scis|);
    PairsListed(scis, ls, fullToHalf);
    ItemsOccur(scis, ls, fullToHalf);
    assert ItemPairs(scis, |scis|) == CharPairs(ls);
  }

  lemma PairsListed(scis: seq<SingleCharItem>, ls: seq<LemmaEntry>, fullToHalf: uint16 -> uint16)
    requires ListsCharsOf(scis, ls, fullToHalf) && forall i | 0 <= i < |ls| :: Spelled(ls[i])
    ensures CharPairs(ls) <= ItemPairs(scis, |scis|)
  {
    forall i, k | 0 <= i < |ls| && 0 <= k < |ls[i].hanzis| && k < |ls[i].spls|
      ensures (ls[i].hanzis[k], ls[i].spls[k]) in ItemPairs(scis, |scis|)
    {
      var item := ItemFor(ls[i], k, fullToHalf);
      assert Occurs(item, ls, fullToHalf);
      assert Listed(scis, item);
      var x :| 1 <= x < |scis| && SameChar(scis[x], item);
      assert PairOf(scis[x]) == (ls[i].hanzis[k], ls[i].spls[k]);
    }
  }

  lemma ItemsOccur(scis: seq<SingleCharItem>, ls: seq<LemmaEntry>, fullToHalf: uint16 -> uint16)
    requires ListsCharsOf(scis, ls, fullToHalf)
    ensures ItemPairs(scis, |scis|) <= CharPairs(ls)
  {
    hide Listed;
    forall x | 1 <= x < |scis| ensures PairOf(scis[x]) in CharPairs(ls) {
      assert Occurs(scis[x], ls, fullToHalf);
    }
  }

  /** What is asked of the raw entries, in whatever order they come. */
  ghost predicate Raw(raw: seq<LemmaEntry>, lmaNum: nat, spellingNum: nat) {
    && raw != [] && (forall i | 0 <= i < |raw| :: RawEntry(raw[i], spellingNum))
    && EveryLength(raw) && AllBegin(raw, spellingNum)
    && RoomFor(raw, lmaNum) && |CharPairs(raw)| < 0x1_0000
  }

  lemma SortedByHzReady(raw: seq<LemmaEntry>, sorted: seq<LemmaEntry>, hs: seq<LemmaEntry>, lmaNum: nat, spellingNum: nat)
    requires Raw(raw, lmaNum, spellingNum)
    requires multiset(sorted) == multiset(raw) && Numbered(sorted, hs) && Sorted(hs, CompareHzs)
    ensures Raw(hs, lmaNum, spellingNum) && ValidList(hs) && NoMissingLength(hs) && Covered(raw, hs)
  {
    hide RoomFor, CharPairs, Covered, EveryLength, AllBegin;
    SameSize(sorted, raw);
    NumberedRaw(raw, sorted, hs, spellingNum);
    PermutedCovers(raw, sorted);
    PermutedCovers(sorted, raw);
    NumberedCovers(sorted, hs);
    CoveredThen(raw, sorted, hs);
    CoveredThen(hs, sorted, raw);
    LengthsKept(raw, hs);
    BeginsKept(raw, hs, spellingNum);
    PairsKept(raw, hs);
    PairsKept(hs, raw);
    assert CharPairs(raw) == CharPairs(hs);
    SpellingsPermute(raw, sorted);
    assert Spellings(sorted) == Spellings(hs);
    RoomPermutes(raw, hs, lmaNum);
    EveryLengthStarts(hs, spellingNum);
    NumberedList(hs, sorted, spellingNum);
  }

  lemma EveryLengthStarts(hs: seq<LemmaEntry>, spellingNum: nat)
    requires hs != [] && EveryLength(hs) && Sorted(hs, CompareHzs) && forall i | 0 <= i < |hs| :: RawEntry(hs[i], spellingNum)
    ensures |hs[0].hanzis| == 1 && NoMissingLength(hs)
  {
    assert RawEntry(hs[0], spellingNum) && Present(hs, 1);
    var k :| 0 <= k < |hs| && |hs[k].hanzis| == 1;
    assert 0 < k ==> InOrder(hs, CompareHzs, 0, k);
  }

  lemma SortedByPyReady(hs: seq<LemmaEntry>, ls: seq<LemmaEntry>, lmaNum: nat, spellingNum: nat)
    requires Raw(hs, lmaNum, spellingNum) && multiset(ls) == multiset(hs) && ValidLemmas(ls)
    ensures Buildable(ls, lmaNum) && AllBegin(ls, spellingNum)
  {
    hide RoomFor, CharPairs, Covered, EveryLength, AllBegin, ValidLemmas;
    SameSize(ls, hs);
    PermutedCovers(hs, ls);
    BeginsKept(hs, ls, spellingNum);
    SpellingsPermute(hs, ls);
    RoomPermutes(hs, ls, lmaNum);
    RoomIsBuildable(ls, lmaNum);
  }

  /**
   * `build_dict` behind the reading: from raw entries in any order to a dictionary for which searching and the
   * recovery of spellings are proved. Every raw entry is in it, under the id that its place in the order of
   * Hanzis gives it, and every character finds its item.
   */
  method BuildFromRaw(raw: seq<LemmaEntry>, lmaNum: nat, spl: SpellingTrie, psb: nat -> uint16,
                      fullToHalf: uint16 -> uint16, compatible: (uint16, uint16) -> bool)
    returns (d: LemmaDict, ids: seq<seq<uint16>>, ghost sorted: seq<LemmaEntry>)
    requires Raw(raw, lmaNum, spl.spellingNum) && spl.Valid()
    ensures fresh(d) && d.Valid() && d.dict.splTrie == spl && d.compatible == compatible
    ensures Sorted(sorted, CompareHzs) && multiset(sorted) == multiset(raw) && Numbered(sorted, d.list.lemmas)
    ensures Covered(raw, d.list.lemmas) && multiset(d.dict.lemmas) == multiset(d.list.lemmas)
    ensures |ids| == |d.list.lemmas| && forall i | 0 <= i < |ids| :: CharsFound(d.list.scis, d.list.lemmas[i], ids[i], fullToHalf)
  {
    hide Raw, ValidList, NoMissingLength, Covered, AllBegin, Buildable, ListsCharsOf, ValidLemmas;
    var hs;
    hs, sorted := SortLemmasByHz(raw);
    SortedByHzReady(raw, sorted, hs, lmaNum, spl.spellingNum);
    EntriesSpelled(hs, lmaNum, spl.spellingNum);
    var scis := BuildScis(hs, fullToHalf);
    ScisCounted(scis, hs, fullToHalf);
    ids := [];
    for pos := 0 to |hs|
      invariant |ids| == pos && forall i | 0 <= i < pos :: CharsFound(scis, hs[i], ids[i], fullToHalf)
    {
      var own := ScisIds(scis, hs, pos, fullToHalf);
      ids := ids + [own];
    }
    var ls := SortLemmasByPy(hs, spl.spellingNum);
    SortedByPyReady(hs, ls, lmaNum, spl.spellingNum);
    d := BuildDict(hs, scis, ls, lmaNum, spl, psb, fullToHalf, compatible);
  }

  lemma EntriesSpelled(hs: seq<LemmaEntry>, lmaNum: nat, spellingNum: nat)
    requires Raw(hs, lmaNum, spellingNum)
    ensures |CharPairs(hs)| < 0x1_0000
    ensures forall i | 0 <= i < |hs| :: RawEntry(hs[i], spellingNum)
    ensures forall i | 0 <= i < |hs| :: Spelled(hs[i])
  {
    forall i | 0 <= i < |hs| ensures Spelled(hs[i]) {
      assert RawEntry(hs[i], spellingNum);
    }
  }

  /** The ids of a lemma's characters name items with these characters and spellings. */
  ghost predicate CharsFound(scis: seq<SingleCharItem>, l: LemmaEntry, ids: seq<uint16>, fullToHalf: uint16 -> uint16) {
    && |ids| == |l.hanzis| == |l.spls|
    && forall h | 0 <= h < |ids| :: ids[h] < |scis| && SameChar(scis[ids[h]], ItemFor(l, h, fullToHalf))
  }
}
