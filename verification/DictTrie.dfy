/** The loaded dictionary: the quick index, the breadth-first search, and the lookup of one spelling. */
module DictTries {
  import opened DictDef
  import opened TrieAnswers
  import opened TrieLayout
  import opened TriePrefixes
  import opened TrieScan
  import opened TrieSearch

  /** What the dictionary asks of the spelling trie: which full ids a half id stands for. */
  datatype SpellingTrie = SpellingTrie(h2fStart: seq<uint16>, h2fNum: seq<uint16>, yunmu: seq<bool>, spellingNum: nat) {
    ghost predicate Valid() {
      && |h2fStart| == |h2fNum| == |yunmu| == K_FULL_SPL_ID_START
      && (forall h | 0 < h < K_FULL_SPL_ID_START && h2fNum[h] > 0 ::
            K_FULL_SPL_ID_START <= h2fStart[h] && h2fStart[h] + h2fNum[h] <= K_FULL_SPL_ID_START + spellingNum)
    }

    predicate IsHalfId(splid: uint16) { 0 < splid < K_FULL_SPL_ID_START }

    predicate IsHalfIdYunmu(splid: uint16)
      requires Valid()
    {
      IsHalfId(splid) && yunmu[splid]
    }

    /** A full id of the table, or a half id that stands for at least one full id. */
    predicate IsSearchable(splid: uint16)
      requires Valid()
    {
      if IsHalfId(splid) then h2fNum[splid] > 0 else K_FULL_SPL_ID_START <= splid < K_FULL_SPL_ID_START + spellingNum
    }

    function RangeOf(splid: uint16): (r: SplRange)
      requires Valid() && IsSearchable(splid)
      ensures K_FULL_SPL_ID_START <= r.start && 0 < r.num && r.start + r.num <= K_FULL_SPL_ID_START + spellingNum
    {
      if IsHalfId(splid) then SplRange(h2fStart[splid], h2fNum[splid]) else SplRange(splid, 1)
    }

    /** The ids are all searchable, and `q` is what they ask for. */
    ghost predicate Asks(splids: seq<uint16>, q: seq<SplRange>)
      requires Valid()
    {
      |splids| == |q| && forall i | 0 <= i < |q| :: IsSearchable(splids[i]) && q[i] == RangeOf(splids[i])
    }

    /** The spelling has one id for every given one: the same, or for a half id one of those the half id stands for. */
    ghost predicate Spells(splids: seq<uint16>, spls: seq<uint16>)
      requires Valid()
    {
      |spls| == |splids| && forall i | 0 <= i < |spls| ::
        if 0 < splids[i] < 30 then h2fStart[splids[i]] <= spls[i] && spls[i] < h2fStart[splids[i]] as int + h2fNum[splids[i]]
        else spls[i] == splids[i]
    }
  }

  /** What is asked for is what the given ids spell. */
  lemma AskedIsSpelled(spl: SpellingTrie, splids: seq<uint16>, q: seq<SplRange>, l: LemmaEntry)
    requires spl.Valid() && spl.Asks(splids, q)
    ensures Selected(l, q, 0) <==> spl.Spells(splids, l.spls)
  {
  }

  lemma BeginningIsSpelled(spl: SpellingTrie, splids: seq<uint16>, q: seq<SplRange>, p: seq<uint16>, level: nat)
    requires spl.Valid() && spl.Asks(splids, q) && level < |q| && |p| == level + 1
    ensures AskedFor(q, p, level) <==> spl.Spells(splids[..level + 1], p)
  {
  }

  /** The different beginnings of the lemmas' spellings that the given ids spell. */
  ghost function SpelledBeginnings(ls: seq<LemmaEntry>, spl: SpellingTrie, splids: seq<uint16>): set<seq<uint16>>
    requires spl.Valid()
  {
    set p | p in Prefixes(ls, 0, |ls|, |splids|) && spl.Spells(splids, p)
  }

  /** None of the search's buffers for 200 nodes overflows. */
  ghost predicate SmallEnough(ls: seq<LemmaEntry>, spl: SpellingTrie, splids: seq<uint16>)
    requires spl.Valid()
  {
    forall n: nat | 1 <= n <= |splids| :: |SpelledBeginnings(ls, spl, splids[..n])| <= 200
  }

  /** The one id is a half id of a Yunmu. */
  ghost predicate SingleYunmu(spl: SpellingTrie, splids: seq<uint16>)
    requires spl.Valid()
  {
    |splids| == 1 && 0 < splids[0] < 30 && spl.yunmu[splids[0]]
  }

  /** `i` is a lemma of one Hanzi, spelled by the one id, and no spelled beginning is smaller. */
  ghost predicate FirstSpelled(ls: seq<LemmaEntry>, spl: SpellingTrie, splids: seq<uint16>, i: nat)
    requires spl.Valid()
  {
    && i < |ls| && spl.Spells(splids, ls[i].spls) && |ls[i].spls| == 1
    && forall j | 0 <= j < |ls| && |ls[j].spls| > 0 && spl.Spells(splids, ls[j].spls[..1]) :: ls[i].spls[0] <= ls[j].spls[0]
  }

  /**
   * The positions that a search for the ids yields: of spelled lemmas, in their order, all of them if no buffer overflows.
   * For a single half id of a Yunmu these are the lemmas with the smallest of its full ids that begins any lemma.
   */
  ghost predicate Answers(ls: seq<LemmaEntry>, spl: SpellingTrie, splids: seq<uint16>, found: seq<nat>)
    requires spl.Valid()
  {
    && (forall a, b | 0 <= a < b < |found| :: found[a] < found[b])
    && (forall i | i in found :: i < |ls| && spl.Spells(splids, ls[i].spls))
    && if SingleYunmu(spl, splids) then forall i: nat :: i in found <==> FirstSpelled(ls, spl, splids, i)
       else SmallEnough(ls, spl, splids) ==> forall i: nat | i < |ls| && spl.Spells(splids, ls[i].spls) :: i in found
  }

  lemma OneRangeEach(spl: SpellingTrie, splids: seq<uint16>, q: seq<SplRange>)
    requires spl.Valid() && spl.Asks(splids, q)
    ensures |splids| == |q|
  {
  }

  lemma SmallEnoughIff(t: Nodes, ls: seq<LemmaEntry>, spl: SpellingTrie, splids: seq<uint16>, q: seq<SplRange>)
    requires Packed(t, ls) && spl.Valid() && spl.Asks(splids, q) && q != []
    ensures NeverFull(t, ls, q, |q| - 1) <==> SmallEnough(ls, spl, splids)
  {
    hide Packed, NeverFull, AskedFor, Prefixes, SpellingTrie.Asks, SpellingTrie.Spells;
    OneRangeEach(spl, splids, q);
    NeverFullIff(t, ls, q, |q| - 1);
    forall n: nat | 1 <= n <= |splids| ensures AskedHeads(ls, q, n - 1) == SpelledBeginnings(ls, spl, splids[..n]) {
      HeadsAreSpelled(ls, spl, splids, q, n - 1, n);
    }
    if SmallEnough(ls, spl, splids) {
      forall k: nat | k <= |q| - 1 ensures |AskedHeads(ls, q, k)| <= 200 {
        assert |SpelledBeginnings(ls, spl, splids[..k + 1])| <= 200;
      }
    }
  }

  lemma HeadsAreSpelled(ls: seq<LemmaEntry>, spl: SpellingTrie, splids: seq<uint16>, q: seq<SplRange>, level: nat, n: nat)
    requires spl.Valid() && spl.Asks(splids, q) && level < |q| && n == level + 1
    ensures AskedHeads(ls, q, level) == SpelledBeginnings(ls, spl, splids[..n])
  {
    forall p | |p| == n ensures AskedFor(q, p, level) <==> spl.Spells(splids[..n], p) {
      BeginningIsSpelled(spl, splids, q, p, level);
    }
  }

  lemma FirstSpelledIff(ls: seq<LemmaEntry>, spl: SpellingTrie, splids: seq<uint16>, q: seq<SplRange>, i: nat)
    requires ValidLemmas(ls) && spl.Valid() && spl.Asks(splids, q) && |q| == 1
    ensures IsFirstAsked(ls, q[0], i) <==> FirstSpelled(ls, spl, splids, i)
  {
    hide SortedByPy;
    forall j | 0 <= j < |ls| ensures spl.Spells(splids, ls[j].spls[..1]) <==> q[0].start <= SplIdx(ls[j], 0) < q[0].start + q[0].num {
      assert ValidEntry(ls[j]);
      BeginningIsSpelled(spl, splids, q, ls[j].spls[..1], 0);
    }
  }

  /** What the search finds, told from the ids and the list alone. */
  lemma FoundAnswers(t: Nodes, ls: seq<LemmaEntry>, spl: SpellingTrie, splids: seq<uint16>, q: seq<SplRange>, firstOnly: bool)
    requires Packed(t, ls) && ValidQuery(q) && q != [] && spl.Valid() && spl.Asks(splids, q)
    requires firstOnly <==> SingleYunmu(spl, splids)
    ensures Answers(ls, spl, splids, Found(t, ls, q, firstOnly))
  {
    hide NeverFull, Found, SmallEnough, FirstSpelled, ValidLemmas, SpellingTrie.Spells, SpellingTrie.Asks;
    var found, all := Found(t, ls, q, firstOnly), Scan(ls, 0, |ls|, q, 0);
    FoundIsPrefix(t, ls, q, firstOnly);
    SmallEnoughIff(t, ls, spl, splids, q);
    forall i: nat ensures i in all <==> i < |ls| && spl.Spells(splids, ls[i].spls) {
      ScanIsFilter(ls, 0, |ls|, q, 0, i);
      if i < |ls| {
        AskedIsSpelled(spl, splids, q, ls[i]);
      }
    }
    forall a, b | 0 <= a < b < |found| ensures found[a] < found[b] {
      ScanAscends(ls, 0, |ls|, q, 0, a, b);
    }
    forall i | i in found ensures i in all {
      var k :| 0 <= k < |found| && found[k] == i;
      assert all[k] == i;
    }
    if firstOnly {
      OneRangeEach(spl, splids, q);
      forall i: nat ensures i in found <==> FirstSpelled(ls, spl, splids, i) {
        FirstOnlyFinds(t, ls, q, i);
        FirstSpelledIff(ls, spl, splids, q, i);
      }
    }
  }

  datatype LmaPsbItem = LmaPsbItem(id: nat, lmaLen: nat, psb: uint16)

  /** The value of an id that is stored low byte first. */
  function BytesValue(bytes: seq<uint8>): nat {
    if bytes == [] then 0 else bytes[0] + 0x100 * BytesValue(bytes[1..])
  }

  /** The id that is stored at position `off` of the id buffer. */
  function IdAt(buf: seq<uint8>, off: nat): nat
    requires K_LEMMA_ID_SIZE * (off + 1) <= |buf|
  {
    BytesValue(buf[K_LEMMA_ID_SIZE * off..K_LEMMA_ID_SIZE * (off + 1)])
  }

  /** `id_to_charbuf`: the low three bytes of an id. */
  function IdBytes(id: nat): (bytes: seq<uint8>)
    ensures |bytes| == K_LEMMA_ID_SIZE
  {
    [id % 0x100, id / 0x100 % 0x100, id / 0x1_0000 % 0x100]
  }

  lemma BytesValue3(b0: uint8, b1: uint8, b2: uint8)
    ensures BytesValue([b0, b1, b2]) == b0 + 0x100 * b1 + 0x1_0000 * b2
  {
    assert [b0, b1, b2][1..] == [b1, b2] && [b1, b2][1..] == [b2] && [b2][1..] == [];
    assert BytesValue([b2]) == b2;
    assert BytesValue([b1, b2]) == b1 + 0x100 * b2;
  }

  /** An id survives its three bytes exactly when it is below 2^24. */
  lemma IdRoundTrip(id: nat)
    ensures BytesValue(IdBytes(id)) == id <==> id < OFFSET_LIMIT
  {
    BytesValue3(id % 0x100, id / 0x100 % 0x100, id / 0x1_0000 % 0x100);
    assert id == id % 0x100 + 0x100 * (id / 0x100);
    assert id / 0x100 == id / 0x100 % 0x100 + 0x100 * (id / 0x1_0000);
  }

  /** Packs the ids one behind the other, as `build_dict` does behind `construct_subset`. */
  method PackIds(ids: seq<nat>) returns (buf: array<uint8>)
    ensures fresh(buf) && buf.Length == K_LEMMA_ID_SIZE * |ids|
    ensures forall k | 0 <= k < |ids| && ids[k] < OFFSET_LIMIT :: IdAt(buf[..], k) == ids[k]
  {
    buf := new uint8[K_LEMMA_ID_SIZE * |ids|];
    for pos := 0 to |ids|
      invariant forall k | 0 <= k < pos :: buf[K_LEMMA_ID_SIZE * k..K_LEMMA_ID_SIZE * (k + 1)] == IdBytes(ids[k])
    {
      var bytes := IdBytes(ids[pos]);
      buf[K_LEMMA_ID_SIZE * pos] := bytes[0];
      buf[K_LEMMA_ID_SIZE * pos + 1] := bytes[1];
      buf[K_LEMMA_ID_SIZE * pos + 2] := bytes[2];
      assert buf[K_LEMMA_ID_SIZE * pos..K_LEMMA_ID_SIZE * (pos + 1)] == bytes;
    }
    forall k | 0 <= k < |ids| && ids[k] < OFFSET_LIMIT ensures IdAt(buf[..], k) == ids[k] {
      assert buf[..][K_LEMMA_ID_SIZE * k..K_LEMMA_ID_SIZE * (k + 1)] == buf[K_LEMMA_ID_SIZE * k..K_LEMMA_ID_SIZE * (k + 1)];
      IdRoundTrip(ids[k]);
    }
  }

  /** The quick index that `load_dict` fills for the sons of the root. */
  method FillIndex(le0: seq<LmaNodeLE0>, spellingNum: nat) returns (index: array<nat>)
    requires FirstLayer(le0, spellingNum) && 1 < |le0|
    ensures fresh(index) && index.Length == spellingNum + 1
    ensures forall k | 0 <= k < index.Length :: index[k] == IndexEntry(le0, k + K_FULL_SPL_ID_START)
  {
    var bufSize := spellingNum + 1;
    index := new nat[bufSize];
    var lastSplid, lastPos := K_FULL_SPL_ID_START, 0;
    for i := 1 to |le0|
      invariant lastPos == i - 1
      invariant K_FULL_SPL_ID_START <= lastSplid < K_FULL_SPL_ID_START + bufSize
      invariant i == 1 ==> lastSplid == K_FULL_SPL_ID_START
      invariant i > 1 ==> lastSplid == le0[i - 1].splIdx
      invariant forall k | 0 <= k < lastSplid - K_FULL_SPL_ID_START + (if i > 1 then 1 else 0) ::
        index[k] == IndexEntry(le0, k + K_FULL_SPL_ID_START)
    {
      FillGap(index, le0, lastSplid - K_FULL_SPL_ID_START, le0[i].splIdx - K_FULL_SPL_ID_START, i);
      FirstFromUnique(le0, le0[i].splIdx, i);
      index[le0[i].splIdx - K_FULL_SPL_ID_START] := i;
      lastSplid, lastPos := le0[i].splIdx, i;
    }
    for splid := lastSplid + 1 to bufSize + K_FULL_SPL_ID_START
      invariant forall k | 0 <= k < splid - K_FULL_SPL_ID_START :: index[k] == IndexEntry(le0, k + K_FULL_SPL_ID_START)
    {
      FirstFromUnique(le0, splid, |le0|);
      index[splid - K_FULL_SPL_ID_START] := lastPos + 1;
    }
  }

  /** The entries from the last id up to the id of node `i` point to the node in front of `i`. */
  method FillGap(index: array<nat>, le0: seq<LmaNodeLE0>, from: nat, to: nat, i: nat)
    requires 0 < index.Length && FirstLayer(le0, index.Length - 1) && 1 <= i < |le0| && to == le0[i].splIdx - K_FULL_SPL_ID_START
    requires from <= to < index.Length
    requires i == 1 ==> from == 0
    requires i > 1 ==> from == le0[i - 1].splIdx - K_FULL_SPL_ID_START
    requires forall k | 0 <= k < from :: index[k] == IndexEntry(le0, k + K_FULL_SPL_ID_START)
    modifies index
    ensures forall k | 0 <= k < to :: index[k] == IndexEntry(le0, k + K_FULL_SPL_ID_START)
  {
    for k := from to to
      invariant forall j | 0 <= j < k :: index[j] == IndexEntry(le0, j + K_FULL_SPL_ID_START)
    {
      index[k] := i - 1;
      var s := k + K_FULL_SPL_ID_START;
      if i > 1 && s == le0[i - 1].splIdx {
        FirstFromUnique(le0, s, i - 1);
      } else {
        FirstFromUnique(le0, s, i);
      }
    }
  }

  /** The first layer of a finished trie, with its ids inside of the spelling table, can be indexed. */
  lemma PackedFirstLayer(t: Nodes, ls: seq<LemmaEntry>, spellingNum: nat)
    requires Packed(t, ls)
    requires forall i | 0 <= i < |ls| :: K_FULL_SPL_ID_START <= SplIdx(ls[i], 0) < K_FULL_SPL_ID_START + spellingNum
    ensures FirstLayer(t.le0, spellingNum) && 1 < |t.le0|
  {
    AllShareNothing(ls);
    BlockAscends(t, ls, 0, 0, |ls|, 0, 1, 0);
    forall v | 1 <= v < |t.le0| ensures K_FULL_SPL_ID_START <= t.le0[v].splIdx < K_FULL_SPL_ID_START + spellingNum {
      FirstLayerIds(t, ls, 0, 1, 0, v, spellingNum);
    }
    forall i, j | 1 <= i < j < |t.le0| ensures t.le0[i].splIdx < t.le0[j].splIdx {
      assert t.Spl(0, i) < t.Spl(0, j);
    }
    AscendingFits(t.le0, spellingNum, |t.le0| - 1);
  }

  lemma {:induction false} FirstLayerIds(t: Nodes, ls: seq<LemmaEntry>, s: nat, first: nat, u: nat, v: nat, spellingNum: nat)
    requires s <= |ls| && RepBlock(t, ls, s, |ls|, 0, first, u)
    requires forall i | s <= i < |ls| :: K_FULL_SPL_ID_START <= SplIdx(ls[i], 0) < K_FULL_SPL_ID_START + spellingNum
    requires first <= v < first + GroupCount(ls, s, |ls|, 0) <= |t.le0|
    ensures K_FULL_SPL_ID_START <= t.le0[v].splIdx < K_FULL_SPL_ID_START + spellingNum
    decreases |ls| - s
  {
    var g, u' := OpenBlock(t, ls, s, |ls|, 0, first, u);
    if first < v {
      FirstLayerIds(t, ls, g, first + 1, u', v, spellingNum);
    }
  }

  lemma {:induction false} AscendingFits(le0: seq<LmaNodeLE0>, spellingNum: nat, n: nat)
    requires 0 < n < |le0|
    requires forall i | 1 <= i < |le0| :: K_FULL_SPL_ID_START <= le0[i].splIdx < K_FULL_SPL_ID_START + spellingNum
    requires forall i, j | 1 <= i < j < |le0| :: le0[i].splIdx < le0[j].splIdx
    ensures K_FULL_SPL_ID_START + n <= le0[n].splIdx + 1
  {
    if n > 1 {
      AscendingFits(le0, spellingNum, n - 1);
      assert le0[n - 1].splIdx < le0[n].splIdx;
    }
  }

  class DictTrie {
    const nodes: Nodes
    const lmaIdxBuf: seq<uint8>
    const splidLe0Index: seq<nat>
    const splTrie: SpellingTrie
    /** `NGram::get_uni_psb` */
    const uniPsb: nat -> uint16
    ghost const lemmas: seq<LemmaEntry>

    ghost predicate Valid() {
      && Packed(nodes, lemmas) && splTrie.Valid()
      && FirstLayer(nodes.le0, splTrie.spellingNum)
      && IndexFilled() && IdsStored()
    }

    ghost predicate IndexFilled() {
      && 0 < |nodes.le0| && |splidLe0Index| == splTrie.spellingNum + 1
      && forall k | 0 <= k < |splidLe0Index| :: splidLe0Index[k] == IndexEntry(nodes.le0, k + K_FULL_SPL_ID_START)
    }

    /** The id buffer begins with the ids of all lemmas, in the order of the list. */
    ghost predicate IdsStored() {
      && K_LEMMA_ID_SIZE * |lemmas| <= |lmaIdxBuf|
      && forall k | 0 <= k < |lemmas| :: IdAt(lmaIdxBuf, k) == lemmas[k].idxByHz
    }

    /** `load_dict` */
    constructor (trie: Nodes, buf: seq<uint8>, spl: SpellingTrie, psb: nat -> uint16, ghost ls: seq<LemmaEntry>)
      requires Packed(trie, ls) && spl.Valid()
      requires forall i | 0 <= i < |ls| :: K_FULL_SPL_ID_START <= SplIdx(ls[i], 0) < K_FULL_SPL_ID_START + spl.spellingNum
      requires K_LEMMA_ID_SIZE * |ls| <= |buf|
      requires forall k | 0 <= k < |ls| :: IdAt(buf, k) == ls[k].idxByHz
      ensures Valid() && lemmas == ls && nodes == trie && splTrie == spl && uniPsb == psb
    {
      PackedFirstLayer(trie, ls, spl.spellingNum);
      var index := FillIndex(trie.le0, spl.spellingNum);
      nodes, lmaIdxBuf, splidLe0Index, splTrie, uniPsb, lemmas := trie, buf, index[..], spl, psb, ls;
    }

    /** `get_lemma_id` of an id buffer position */
    method GetLemmaId(idOffset: nat) returns (id: nat)
      requires K_LEMMA_ID_SIZE * (idOffset + 1) <= |lmaIdxBuf|
      ensures id == IdAt(lmaIdxBuf, idOffset)
    {
      ghost var bytes := lmaIdxBuf[K_LEMMA_ID_SIZE * idOffset..K_LEMMA_ID_SIZE * (idOffset + 1)];
      id := 0;
      var pos := K_LEMMA_ID_SIZE - 1;
      while pos > 0
        invariant 0 <= pos < K_LEMMA_ID_SIZE
        invariant id == BytesValue(bytes[pos + 1..])
      {
        assert bytes[pos..][1..] == bytes[pos + 1..];
        id := id * 0x100 + lmaIdxBuf[idOffset * K_LEMMA_ID_SIZE + pos];
        pos := pos - 1;
      }
      assert bytes[0..][1..] == bytes[1..] && bytes[0..] == bytes;
      id := id * 0x100 + lmaIdxBuf[idOffset * K_LEMMA_ID_SIZE];
    }

    /** The nodes of the first layer from `sonStart` to `sonEnd`, as far as they fit. */
    method ExtendRoot(r: SplRange, sonStart: nat, sonEnd: nat) returns (nodeTo: seq<nat>)
      requires FirstLayer(nodes.le0, splTrie.spellingNum) && sonEnd <= |nodes.le0|
      requires forall p | sonStart <= p < sonEnd :: 1 <= p && r.Has(nodes.le0[p].splIdx)
      ensures nodeTo == Cap(Upto(sonStart, sonEnd))
    {
      nodeTo := [];
      if sonEnd <= sonStart {
        return;
      }
      for sonPos := sonStart to sonEnd
        invariant nodeTo == Cap(Upto(sonStart, sonPos))
      {
        UptoNext(sonStart, sonPos);
        CapAppend(Upto(sonStart, sonPos), [sonPos]);
        if |nodeTo| < MAX_EXTENDBUF_LEN {
          nodeTo := nodeTo + [sonPos];
        }
        var spl := nodes.le0[sonPos].splIdx;
        if spl >= r.start + r.num - 1 {
          LastInRange(nodes.le0, splTrie.spellingNum, r, sonPos, sonEnd);
          return;
        }
      }
    }

    /** Appends the asked for sons of one node, of which there are `num` from `first` on. */
    method ExtendNode(first: nat, num: nat, r: SplRange, nodeFrom: seq<nat>,
                      ghost lo: nat, ghost hi: nat, ghost level: nat, ghost u: nat, ghost all: seq<nat>)
      returns (nodeTo: seq<nat>)
      requires ValidLemmas(lemmas) && lo <= hi <= |lemmas| && SharedPrefix(lemmas, lo, hi, level)
      requires level > 0 && RepBlock(nodes, lemmas, lo, hi, level, first, u) && num == GroupCount(lemmas, lo, hi, level)
      requires all == NodesOf(Kids(lemmas, lo, hi, level, first, r))
      requires |nodeFrom| <= MAX_EXTENDBUF_LEN && 0 < r.num
      ensures nodeTo == Cap(nodeFrom + all)
    {
      hide RepBlock, ValidLemmas, Kids, NodesOf;
      nodeTo := nodeFrom;
      ghost var s, u', done: seq<nat> := lo, u, [];
      var sonPos: nat, v: nat := 0, first;
      while sonPos < num
        invariant SonScan(nodes, lemmas, lo, hi, level, first, r, num, all, s, u', sonPos, v, done)
        invariant nodeTo == Cap(nodeFrom + done)
      {
        ghost var done', g, w := SonScanStep(nodes, lemmas, lo, hi, level, first, r, num, all, s, u', sonPos, v, done);
        var son := nodes.ge1[v];
        nodeTo := AppendCapped(nodeTo, v, r.Has(son.splIdx), nodeFrom, done);
        if son.splIdx >= r.start + r.num - 1 {
          return;
        }
        sonPos, v := sonPos + 1, v + 1;
        s, u', done := g, w, done';
      }
      SonScanEnd(nodes, lemmas, lo, hi, level, first, r, num, all, s, u', sonPos, v, done);
    }

    /** Puts a node that is asked for into the buffer, if there is room. */
    method AppendCapped(nodeTo: seq<nat>, v: nat, wanted: bool, ghost nodeFrom: seq<nat>, ghost done: seq<nat>) returns (r: seq<nat>)
      requires nodeTo == Cap(nodeFrom + done)
      ensures r == Cap(nodeFrom + (done + if wanted then [v] else []))
    {
      assert done + [] == done;
      assert nodeFrom + (done + [v]) == nodeFrom + done + [v];
      r := if wanted && |nodeTo| < MAX_EXTENDBUF_LEN then nodeTo + [v] else nodeTo;
    }

    /** One layer deeper: the sons of all nodes held, as far as they fit. */
    method ExtendLayer(nodeFr: seq<nat>, r: SplRange, level: nat, ghost next: nat, ghost items: seq<Item>, ghost all: seq<nat>)
      returns (nodeTo: seq<nat>)
      requires ValidLemmas(lemmas) && nodeFr == NodesOf(items) && next == level + 1 && 0 < r.num
      requires LayerScan(nodes, lemmas, level, r, all, items, [])
      ensures nodeTo == Cap(all)
    {
      nodeTo := [];
      NodesOfAt(items);
      ghost var left, found: seq<nat> := items, [];
      for nodeFrPos := 0 to |nodeFr|
        invariant left == items[nodeFrPos..] && LayerScan(nodes, lemmas, level, r, all, left, found)
        invariant nodeTo == Cap(found)
      {
        ghost var v, first, num, lo, hi, u, kids := LayerScanStep(nodes, lemmas, level, next, r, all, left, found);
        nodeTo := ExtendNode(nodes.SonOff(level, nodeFr[nodeFrPos]), nodes.SonNum(level, nodeFr[nodeFrPos]), r, nodeTo, lo, hi, next, u, kids);
        CapAppend(found, kids);
        found, left := found + kids, left[1..];
      }
    }

    /** From the root to the first layer. */
    method FirstFrontier(splid: uint16) returns (nodeTo: seq<nat>)
      requires splTrie.Valid() && splTrie.IsSearchable(splid) && FirstLayer(nodes.le0, splTrie.spellingNum) && IndexFilled()
      requires var r := splTrie.RangeOf(splid); LookupExact(nodes.le0, r.start, r.start + r.num)
      ensures var r := splTrie.RangeOf(splid);
        nodeTo == Cap(Upto(IndexEntry(nodes.le0, r.start), IndexEntry(nodes.le0, r.start + r.num)))
    {
      var r := splTrie.RangeOf(splid);
      var sonStart := splidLe0Index[r.start - K_FULL_SPL_ID_START];
      var sonEnd := splidLe0Index[r.start + r.num - K_FULL_SPL_ID_START];
      LookupInterval(nodes.le0, r, sonStart, sonEnd);
      nodeTo := ExtendRoot(r, sonStart, sonEnd);
    }

    /** From the nodes of `level` to their sons. */
    method NextFrontier(nodeFr: seq<nat>, splid: uint16, level: nat, ghost next: nat, ghost q: seq<SplRange>) returns (nodeTo: seq<nat>)
      requires ValidLemmas(lemmas) && splTrie.Valid() && splTrie.IsSearchable(splid)
      requires next == level + 1 < |q| && q[next] == splTrie.RangeOf(splid)
      requires AllStand(nodes, lemmas, Bounded(nodes, lemmas, q, level), level)
      requires nodeFr == NodesOf(Bounded(nodes, lemmas, q, level))
      ensures nodeTo == NodesOf(Bounded(nodes, lemmas, q, next))
      ensures AllStand(nodes, lemmas, Bounded(nodes, lemmas, q, next), next)
    {
      var r := splTrie.RangeOf(splid);
      ghost var items := Bounded(nodes, lemmas, q, level);
      ghost var kids := Expand(nodes, lemmas, items, level, r);
      nodeTo := ExtendLayer(nodeFr, r, level, next, items, NodesOf(kids));
      CapNodes(kids);
      ExpandStand(nodes, lemmas, items, level, next, r);
      AllStandPrefix(nodes, lemmas, Cap(kids), kids, next);
      BoundedStep(nodes, lemmas, q, level, next);
    }

    /** The frontiers of the deeper layers, one by one. */
    method DeeperLayers(nodeFr: seq<nat>, splidStr: seq<uint16>, ghost q: seq<SplRange>, ghost last: nat) returns (nodeTo: seq<nat>)
      requires ValidLemmas(lemmas) && splTrie.Valid() && splidStr != []
      requires splTrie.Asks(splidStr, q)
      requires nodeFr == NodesOf(Bounded(nodes, lemmas, q, 0)) && AllStand(nodes, lemmas, Bounded(nodes, lemmas, q, 0), 0)
      requires last + 1 == |q|
      ensures nodeTo == NodesOf(Bounded(nodes, lemmas, q, last))
    {
      nodeTo := nodeFr;
      var level: nat := 0;
      while level + 1 < |splidStr| && nodeTo != []
        invariant level < |splidStr| == |q|
        invariant nodeTo == NodesOf(Bounded(nodes, lemmas, q, level))
        invariant AllStand(nodes, lemmas, Bounded(nodes, lemmas, q, level), level)
      {
        var next := level + 1;
        nodeTo := NextFrontier(nodeTo, splidStr[next], level, next, q);
        level := next;
      }
      NodesOfAt(Bounded(nodes, lemmas, q, level));
      if nodeTo == [] {
        BoundedEmpty(nodes, lemmas, q, level, last);
      } else {
        assert level == last;
      }
    }

    /** The result item for the lemma at a list position. */
    ghost function ItemFor(position: nat, lmaLen: nat): LmaPsbItem
      requires position < |lemmas|
    {
      LmaPsbItem(lemmas[position].idxByHz, lmaLen, uniPsb(lemmas[position].idxByHz))
    }

    /** The first `n` items of the buffer are the ones for the first `n` of these list positions. */
    ghost predicate Holds(buf: seq<LmaPsbItem>, n: nat, positions: seq<nat>, lmaLen: nat) {
      && n <= |positions| && n <= |buf|
      && forall i | 0 <= i < n :: positions[i] < |lemmas| && buf[i] == ItemFor(positions[i], lmaLen)
    }

    /** The homophones of one node, as far as they fit. */
    method FillHomophones(lmaBuf: array<LmaPsbItem>, lmaNum: nat, maxLmaBuf: nat, off: nat, numOfHomo: nat, lmaLen: nat)
      requires IdsStored() && lmaNum < maxLmaBuf <= lmaBuf.Length && off + numOfHomo <= |lemmas|
      modifies lmaBuf
      ensures forall k | 0 <= k < lmaNum :: lmaBuf[k] == old(lmaBuf[k])
      ensures forall k | lmaNum <= k < lmaNum + numOfHomo && k < maxLmaBuf :: lmaBuf[k] == ItemFor(off + (k - lmaNum), lmaLen)
      ensures forall k | 0 <= k < lmaBuf.Length && !(lmaNum <= k < lmaNum + numOfHomo && k < maxLmaBuf) :: lmaBuf[k] == old(lmaBuf[k])
    {
      for homoPos := 0 to numOfHomo
        invariant lmaNum + homoPos < maxLmaBuf || homoPos == numOfHomo == maxLmaBuf - lmaNum
        invariant forall k | lmaNum <= k < lmaNum + homoPos :: lmaBuf[k] == ItemFor(off + (k - lmaNum), lmaLen)
        invariant forall k | 0 <= k < lmaBuf.Length && !(lmaNum <= k < lmaNum + homoPos) :: lmaBuf[k] == old(lmaBuf[k])
      {
        var chPos := lmaNum + homoPos;
        var id := GetLemmaId(off + homoPos);
        lmaBuf[chPos] := LmaPsbItem(id, lmaLen, uniPsb(id));
        if chPos >= maxLmaBuf - 1 {
          break;
        }
      }
    }

    /** The results for one node of the last layer, as far as they fit. */
    method CollectNode(off: nat, numOfHomo: nat, lmaBuf: array<LmaPsbItem>, lmaNum: nat, maxLmaBuf: nat, lmaLen: nat,
                       ghost done: seq<nat>, ghost homos: seq<nat>)
      returns (lmaNum': nat)
      requires IdsStored() && lmaNum == |done| < maxLmaBuf <= lmaBuf.Length && off + numOfHomo <= |lemmas|
      requires |homos| == numOfHomo && forall i | 0 <= i < numOfHomo :: homos[i] == off + i
      requires Holds(lmaBuf[..], lmaNum, done, lmaLen)
      modifies lmaBuf
      ensures lmaNum' == Min(maxLmaBuf, |done + homos|) && Holds(lmaBuf[..], lmaNum', done + homos, lmaLen)
    {
      FillHomophones(lmaBuf, lmaNum, maxLmaBuf, off, numOfHomo, lmaLen);
      lmaNum' := lmaNum + numOfHomo;
      if lmaNum' >= maxLmaBuf {
        lmaNum' := maxLmaBuf;
      }
      ghost var now := done + homos;
      forall i | 0 <= i < lmaNum' ensures now[i] < |lemmas| && lmaBuf[i] == ItemFor(now[i], lmaLen) {
        if lmaNum <= i {
          assert now[i] == homos[i - lmaNum] == off + (i - lmaNum);
        } else {
          assert now[i] == done[i];
          assert old(lmaBuf[..])[i] == old(lmaBuf[i]);
        }
      }
    }

    /** The results for all nodes of the last layer, as far as they fit. */
    method CollectLpis(nodeTo: seq<nat>, level: nat, lmaBuf: array<LmaPsbItem>, maxLmaBuf: nat,
                       ghost items: seq<Item>, ghost q: seq<SplRange>, k: nat, ghost found: seq<nat>)
      returns (lmaNum: nat)
      requires ValidLemmas(lemmas) && IdsStored() && 1 <= maxLmaBuf <= lmaBuf.Length && |q| == k == level + 1
      requires nodeTo == NodesOf(items) && AllStand(nodes, lemmas, items, level) && found == ScanItems(lemmas, items, q, k)
      modifies lmaBuf
      ensures lmaNum == Min(maxLmaBuf, |found|) && Holds(lmaBuf[..], lmaNum, found, k)
    {
      hide AllStand, ScanItems, ValidLemmas, ItemFor;
      lmaNum := 0;
      NodesOfAt(items);
      ghost var left, done: seq<nat> := items, [];
      for nodePos := 0 to |nodeTo|
        invariant left == items[nodePos..] && CollectState(nodes, lemmas, left, q, level, k, done, found)
        invariant lmaNum == |done| < maxLmaBuf && Holds(lmaBuf[..], lmaNum, done, k)
      {
        var v := nodeTo[nodePos];
        ghost var homos := FoundStep(nodes, lemmas, left, q, level, k, v, done, found);
        lmaNum := CollectNode(nodes.HomoOff(level, v), nodes.HomoNum(level, v), lmaBuf, lmaNum, maxLmaBuf, k, done, homos);
        done, left := done + homos, left[1..];
        CollectedSoFar(nodes, lemmas, left, q, level, k, done, found);
        if lmaNum >= maxLmaBuf {
          HoldsLonger(lmaBuf[..], lmaNum, done, found, k);
          return;
        }
      }
      CollectedSoFar(nodes, lemmas, left, q, level, k, done, found);
    }

    lemma HoldsLonger(buf: seq<LmaPsbItem>, n: nat, done: seq<nat>, all: seq<nat>, lmaLen: nat)
      requires Holds(buf, n, done, lmaLen) && done <= all
      ensures Holds(buf, n, all, lmaLen)
    {
      forall i | 0 <= i < n ensures all[i] < |lemmas| && buf[i] == ItemFor(all[i], lmaLen) {
        assert all[i] == done[i];
      }
    }

    /** The buffer begins with an item for each of the first `n` positions: the id of its lemma, the length, the probability. */
    ghost predicate Delivered(buf: seq<LmaPsbItem>, n: nat, positions: seq<nat>, lmaLen: nat) {
      && n <= |buf| && n <= |positions|
      && forall k | 0 <= k < n ::
        && positions[k] < |lemmas| && buf[k].id == lemmas[positions[k]].idxByHz
        && buf[k].lmaLen == lmaLen && buf[k].psb == uniPsb(buf[k].id)
    }

    lemma HeldAreDelivered(buf: seq<LmaPsbItem>, n: nat, positions: seq<nat>, lmaLen: nat)
      requires Holds(buf, n, positions, lmaLen)
      ensures Delivered(buf, n, positions, lmaLen)
    {
    }

    /** A length-1 search for a one-character Yunmu wants its first node only. */
    predicate FirstOnly(splidStr: seq<uint16>)
      requires splTrie.Valid()
    {
      |splidStr| == 1 && splTrie.IsHalfIdYunmu(splidStr[0])
    }

    /**
     * `get_lpis`: the search finds what a scan of the sorted list selects, in its order. It finds a
     * beginning of it, and all of it when no node buffer overflows and not only the first node is wanted;
     * `maxLmaBuf` cuts the result off.
     */
    method GetLpis(splidStr: seq<uint16>, lmaBuf: array<LmaPsbItem>, maxLmaBuf: nat, ghost q: seq<SplRange>) returns (lmaNum: nat)
      requires Valid() && 1 <= maxLmaBuf <= lmaBuf.Length
      requires splTrie.Asks(splidStr, q)
      requires q != [] ==> LookupExact(nodes.le0, q[0].start, q[0].start + q[0].num)
      modifies lmaBuf
      ensures splidStr == [] || |splidStr| > K_MAX_LEMMA_SIZE ==> lmaNum == 0
      ensures 0 < |splidStr| <= K_MAX_LEMMA_SIZE ==>
        var found, all := Found(nodes, lemmas, q, FirstOnly(splidStr)), Scan(lemmas, 0, |lemmas|, q, 0);
        && found <= all
        && (!FirstOnly(splidStr) && NeverFull(nodes, lemmas, q, |q| - 1) ==> found == all)
        && lmaNum == Min(maxLmaBuf, |found|)
        && Holds(lmaBuf[..], lmaNum, all, |splidStr|)
      ensures 0 < |splidStr| <= 8 ==>
        var found := Found(nodes, lemmas, q, FirstOnly(splidStr));
        && Answers(lemmas, splTrie, splidStr, found)
        && (lmaNum == |found| <= maxLmaBuf || lmaNum == maxLmaBuf < |found|)
        && Delivered(lmaBuf[..], lmaNum, found, |splidStr|)
    {
      hide Holds, Delivered, Answers, Found, NeverFull, Scan, Bounded, AllStand, Packed, FirstLayer, LookupExact, IndexFilled, IdsStored;
      if |splidStr| > K_MAX_LEMMA_SIZE || splidStr == [] {
        return 0;
      }
      AskedIsQuery(splTrie, splidStr, q);
      var nodeTo := LastFrontier(splidStr, q, |splidStr| - 1);
      PackedIsSorted(nodes, lemmas);
      FoundIsPrefix(nodes, lemmas, q, FirstOnly(splidStr));
      lmaNum := CollectFound(nodeTo, FirstOnly(splidStr), lmaBuf, maxLmaBuf, q, |splidStr| - 1, |splidStr|);
      ghost var found, all := Found(nodes, lemmas, q, FirstOnly(splidStr)), Scan(lemmas, 0, |lemmas|, q, 0);
      HoldsLonger(lmaBuf[..], lmaNum, found, all, |splidStr|);
      HeldAreDelivered(lmaBuf[..], lmaNum, found, |splidStr|);
      FoundAnswers(nodes, lemmas, splTrie, splidStr, q, FirstOnly(splidStr));
    }

    /** The search through all layers. */
    method LastFrontier(splidStr: seq<uint16>, ghost q: seq<SplRange>, ghost level: nat) returns (nodeTo: seq<nat>)
      requires Valid() && splTrie.Asks(splidStr, q) && ValidQuery(q) && level + 1 == |q|
      requires LookupExact(nodes.le0, q[0].start, q[0].start + q[0].num)
      ensures nodeTo == NodesOf(Bounded(nodes, lemmas, q, level)) && AllStand(nodes, lemmas, Bounded(nodes, lemmas, q, level), level)
    {
      hide AllStand, Bounded, NodesOf, Packed, FirstLayer, LookupExact, IndexFilled, IdsStored, Cap, Upto, IndexEntry;
      PackedIsSorted(nodes, lemmas);
      var first := FirstFrontier(splidStr[0]);
      FirstFrontierIs(nodes, lemmas, q, first);
      BoundedStands(nodes, lemmas, q, 0);
      nodeTo := DeeperLayers(first, splidStr, q, level);
      BoundedStands(nodes, lemmas, q, level);
    }

    method CollectFound(nodeFr: seq<nat>, firstOnly: bool, lmaBuf: array<LmaPsbItem>, maxLmaBuf: nat, ghost q: seq<SplRange>, level: nat, k: nat)
      returns (lmaNum: nat)
      requires ValidLemmas(lemmas) && IdsStored() && 1 <= maxLmaBuf <= lmaBuf.Length
      requires level + 1 == k == |q| && nodeFr == NodesOf(Bounded(nodes, lemmas, q, level))
      requires AllStand(nodes, lemmas, Bounded(nodes, lemmas, q, level), level)
      modifies lmaBuf
      ensures lmaNum == Min(maxLmaBuf, |Found(nodes, lemmas, q, firstOnly)|)
      ensures Holds(lmaBuf[..], lmaNum, Found(nodes, lemmas, q, firstOnly), k)
    {
      ghost var items := FoundItems(nodes, lemmas, q, firstOnly);
      var nodeTo := KeepFirst(nodeFr, firstOnly, level, q, items);
      lmaNum := CollectLpis(nodeTo, level, lmaBuf, maxLmaBuf, items, q, k, Found(nodes, lemmas, q, firstOnly));
    }

    method KeepFirst(nodeFr: seq<nat>, firstOnly: bool, ghost level: nat, ghost q: seq<SplRange>, ghost items: seq<Item>) returns (nodeTo: seq<nat>)
      requires level + 1 == |q| && nodeFr == NodesOf(Bounded(nodes, lemmas, q, level))
      requires AllStand(nodes, lemmas, Bounded(nodes, lemmas, q, level), level)
      requires items == FoundItems(nodes, lemmas, q, firstOnly)
      ensures nodeTo == NodesOf(items) && AllStand(nodes, lemmas, items, level)
    {
      ghost var all := Bounded(nodes, lemmas, q, level);
      NodesOfAt(all);
      NodesOfAt(items);
      AllStandPrefix(nodes, lemmas, items, all, level);
      nodeTo := if firstOnly && nodeFr != [] then nodeFr[..1] else nodeFr;
    }
  }

  lemma AskedIsQuery(spl: SpellingTrie, splids: seq<uint16>, q: seq<SplRange>)
    requires spl.Valid() && spl.Asks(splids, q) && |splids| <= K_MAX_LEMMA_SIZE
    ensures ValidQuery(q)
  {
  }

  lemma PackedIsSorted(t: Nodes, ls: seq<LemmaEntry>)
    requires Packed(t, ls)
    ensures ValidLemmas(ls)
  {
  }

  lemma FirstFrontierIs(t: Nodes, ls: seq<LemmaEntry>, q: seq<SplRange>, first: seq<nat>)
    requires Packed(t, ls) && q != [] && LookupExact(t.le0, q[0].start, q[0].start + q[0].num)
    requires first == Cap(Upto(IndexEntry(t.le0, q[0].start), IndexEntry(t.le0, q[0].start + q[0].num)))
    ensures first == NodesOf(Bounded(t, ls, q, 0))
  {
    FirstLayerKids(t, ls, q[0], IndexEntry(t.le0, q[0].start), IndexEntry(t.le0, q[0].start + q[0].num));
    CapNodes(Kids(ls, 0, |ls|, 0, 1, q[0]));
  }

  function Min(a: nat, b: nat): nat { if a < b then a else b }

  lemma {:induction false} IntervalAt(lo: nat, n: nat, i: nat)
    requires i < n
    ensures |Interval(lo, n)| == n && Interval(lo, n)[i] == lo + i
    decreases n
  {
    IntervalLength(lo, n);
    if i > 0 {
      IntervalAt(lo + 1, n - 1, i - 1);
    }
  }

  lemma {:induction false} IntervalLength(lo: nat, n: nat)
    ensures |Interval(lo, n)| == n
    decreases n
  {
    if n > 0 {
      IntervalLength(lo + 1, n - 1);
    }
  }

  /** The results of the nodes of `left` are still to be collected. */
  ghost predicate CollectState(t: Nodes, ls: seq<LemmaEntry>, left: seq<Item>, q: seq<SplRange>, level: nat, k: nat, done: seq<nat>, found: seq<nat>) {
    AllStand(t, ls, left, level) && found == done + ScanItems(ls, left, q, k)
  }

  lemma CollectedSoFar(t: Nodes, ls: seq<LemmaEntry>, left: seq<Item>, q: seq<SplRange>, level: nat, k: nat, done: seq<nat>, found: seq<nat>)
    requires CollectState(t, ls, left, q, level, k, done, found)
    ensures done <= found && (left == [] ==> done == found)
  {
  }

  lemma HomophonesInList(t: Nodes, ls: seq<LemmaEntry>, it: Item, level: nat, homos: seq<nat>)
    requires Stands(t, ls, it, level) && homos == Homophones(t, it.node, level)
    ensures t.HomoOff(level, it.node) + t.HomoNum(level, it.node) <= |ls|
    ensures |homos| == t.HomoNum(level, it.node) && forall i | 0 <= i < |homos| :: homos[i] == t.HomoOff(level, it.node) + i
  {
    var off, num := t.HomoOff(level, it.node), t.HomoNum(level, it.node);
    IntervalLength(off, num);
    forall i | 0 <= i < |homos| ensures homos[i] == off + i {
      IntervalAt(off, num, i);
    }
  }

  /** The homophones of the next node are the next ones that are found. */
  lemma FoundStep(t: Nodes, ls: seq<LemmaEntry>, left: seq<Item>, q: seq<SplRange>, level: nat, k: nat, v: nat, done: seq<nat>, found: seq<nat>)
    returns (homos: seq<nat>)
    requires ValidLemmas(ls) && left != [] && v == left[0].node && |q| == k == level + 1
    requires CollectState(t, ls, left, q, level, k, done, found)
    ensures v < t.Size(level) && t.HomoOff(level, v) + t.HomoNum(level, v) <= |ls|
    ensures |homos| == t.HomoNum(level, v) && forall i | 0 <= i < |homos| :: homos[i] == t.HomoOff(level, v) + i
    ensures CollectState(t, ls, left[1..], q, level, k, done + homos, found)
  {
    FirstOfLayer(t, ls, left, level, v);
    ScanHomophones(t, ls, left[0], q, level, k);
    homos := Homophones(t, v, level);
    HomophonesInList(t, ls, left[0], level, homos);
    var rest := ScanItems(ls, left[1..], q, k);
    assert ScanItems(ls, left, q, k) == homos + rest;
    assert done + (homos + rest) == (done + homos) + rest;
  }

  lemma {:induction false} BoundedEmpty(t: Nodes, ls: seq<LemmaEntry>, q: seq<SplRange>, level: nat, last: nat)
    requires level <= last < |q| && Bounded(t, ls, q, level) == []
    ensures Bounded(t, ls, q, last) == []
    decreases last - level
  {
    if level < last {
      var next := level + 1;
      BoundedStep(t, ls, q, level, next);
      assert Expand(t, ls, [], level, q[next]) == [];
      BoundedEmpty(t, ls, q, next, last);
    }
  }

  lemma CapNodes(items: seq<Item>)
    ensures Cap(NodesOf(items)) == NodesOf(Cap(items))
  {
    NodesOfAt(items);
    if |items| > MAX_EXTENDBUF_LEN {
      assert items == Cap(items) + items[MAX_EXTENDBUF_LEN..];
      NodesOfConcat(Cap(items), items[MAX_EXTENDBUF_LEN..]);
      NodesOfAt(Cap(items));
    }
  }

  /** The search for the next layer has found `found` of `all` and has to go through the nodes of `left`. */
  ghost predicate LayerScan(t: Nodes, ls: seq<LemmaEntry>, level: nat, r: SplRange, all: seq<nat>, left: seq<Item>, found: seq<nat>) {
    AllStand(t, ls, left, level) && all == found + NodesOf(Expand(t, ls, left, level, r))
  }

  lemma LayerScanStep(t: Nodes, ls: seq<LemmaEntry>, level: nat, next: nat, r: SplRange, all: seq<nat>, left: seq<Item>, found: seq<nat>)
    returns (v: nat, first: nat, num: nat, lo: nat, hi: nat, u: nat, kids: seq<nat>)
    requires ValidLemmas(ls) && LayerScan(t, ls, level, r, all, left, found) && left != [] && next == level + 1
    ensures v == left[0].node && v < t.Size(level) && first == t.SonOff(level, v) && num == t.SonNum(level, v)
    ensures lo <= hi <= |ls| && SharedPrefix(ls, lo, hi, next) && num == GroupCount(ls, lo, hi, next)
    ensures RepBlock(t, ls, lo, hi, next, first, u) && kids == NodesOf(Kids(ls, lo, hi, next, first, r))
    ensures KidsOf(t, ls, left[0], level, r) == Kids(ls, lo, hi, next, first, r)
    ensures LayerScan(t, ls, level, r, all, left[1..], found + kids)
  {
    v := left[0].node;
    FirstOfLayer(t, ls, left, level, v);
    first, num := t.SonOff(level, v), t.SonNum(level, v);
    lo, hi, u, kids := ExpandFirst(t, ls, left, level, next, r, first, num);
    var rest := NodesOf(Expand(t, ls, left[1..], level, r));
    assert found + (kids + rest) == (found + kids) + rest;
  }

  lemma FirstOfLayer(t: Nodes, ls: seq<LemmaEntry>, left: seq<Item>, level: nat, v: nat)
    requires left != [] && AllStand(t, ls, left, level) && left[0].node == v
    ensures v < t.Size(level) && Stands(t, ls, left[0], level)
    ensures t.SonOff(level, v) == t.SonOff(level, left[0].node) && t.SonNum(level, v) == t.SonNum(level, left[0].node)
  {
  }

  /** The sons of a node. */
  lemma OpenNode(t: Nodes, ls: seq<LemmaEntry>, it: Item, level: nat, next: nat) returns (h: nat, first: nat, num: nat, u: nat)
    requires ValidLemmas(ls) && Stands(t, ls, it, level) && next == level + 1
    ensures h == HomoEnd(ls, it.lo, it.e, level) && first == t.SonOff(level, it.node) && num == t.SonNum(level, it.node)
    ensures SharedPrefix(ls, h, it.e, next) && num == GroupCount(ls, h, it.e, next)
    ensures RepBlock(t, ls, h, it.e, next, first, u)
  {
    h, first, num := HomoEnd(ls, it.lo, it.e, level), t.SonOff(level, it.node), t.SonNum(level, it.node);
    u := first + num;
    GroupShares(ls, it.lo, it.e, level, it.lo, it.e);
  }

  lemma ExpandSplit(t: Nodes, ls: seq<LemmaEntry>, left: seq<Item>, level: nat, r: SplRange)
    requires left != []
    ensures NodesOf(Expand(t, ls, left, level, r)) == NodesOf(KidsOf(t, ls, left[0], level, r)) + NodesOf(Expand(t, ls, left[1..], level, r))
  {
    NodesOfConcat(KidsOf(t, ls, left[0], level, r), Expand(t, ls, left[1..], level, r));
  }

  /** The first node of a frontier and its part of the next one. */
  lemma ExpandFirst(t: Nodes, ls: seq<LemmaEntry>, left: seq<Item>, level: nat, next: nat, r: SplRange, first: nat, num: nat)
    returns (lo: nat, hi: nat, u: nat, kids: seq<nat>)
    requires ValidLemmas(ls) && left != [] && Stands(t, ls, left[0], level) && next == level + 1
    requires first == t.SonOff(level, left[0].node) && num == t.SonNum(level, left[0].node)
    ensures lo <= hi <= |ls| && SharedPrefix(ls, lo, hi, next) && num == GroupCount(ls, lo, hi, next)
    ensures RepBlock(t, ls, lo, hi, next, first, u)
    ensures kids == NodesOf(Kids(ls, lo, hi, next, first, r))
    ensures KidsOf(t, ls, left[0], level, r) == Kids(ls, lo, hi, next, first, r)
    ensures NodesOf(Expand(t, ls, left, level, r)) == kids + NodesOf(Expand(t, ls, left[1..], level, r))
  {
    var first', num';
    hi := left[0].e;
    lo, first', num', u := OpenNode(t, ls, left[0], level, next);
    kids := NodesOf(Kids(ls, lo, hi, next, first, r));
    assert KidsOf(t, ls, left[0], level, r) == Kids(ls, lo, hi, next, first, r);
    ExpandSplit(t, ls, left, level, r);
  }

  /** A scan over sons has reached the son `v` at `sonPos`, which stands for the group at `s`; it found `done` of `all`. */
  ghost predicate SonScan(t: Nodes, ls: seq<LemmaEntry>, lo: nat, hi: nat, level: nat, first: nat, r: SplRange, num: nat,
                          all: seq<nat>, s: nat, u: nat, sonPos: nat, v: nat, done: seq<nat>) {
    && lo <= s <= hi <= |ls| && v == first + sonPos
    && sonPos + GroupCount(ls, s, hi, level) == num
    && RepBlock(t, ls, s, hi, level, v, u)
    && all == done + NodesOf(Kids(ls, s, hi, level, v, r))
  }

  lemma SonScanStart(t: Nodes, ls: seq<LemmaEntry>, lo: nat, hi: nat, level: nat, first: nat, u: nat, r: SplRange, num: nat, all: seq<nat>)
    requires lo <= hi <= |ls| && RepBlock(t, ls, lo, hi, level, first, u) && num == GroupCount(ls, lo, hi, level)
    requires all == NodesOf(Kids(ls, lo, hi, level, first, r))
    ensures SonScan(t, ls, lo, hi, level, first, r, num, all, lo, u, 0, first, [])
  {
    assert [] + all == all;
  }

  lemma SonScanEnd(t: Nodes, ls: seq<LemmaEntry>, lo: nat, hi: nat, level: nat, first: nat, r: SplRange, num: nat,
                   all: seq<nat>, s: nat, u: nat, sonPos: nat, v: nat, done: seq<nat>)
    requires SonScan(t, ls, lo, hi, level, first, r, num, all, s, u, sonPos, v, done) && num <= sonPos
    ensures done == all
  {
    assert done + [] == done;
  }

  lemma SonScanStep(t: Nodes, ls: seq<LemmaEntry>, lo: nat, hi: nat, level: nat, first: nat, r: SplRange, num: nat,
                    all: seq<nat>, s: nat, u: nat, sonPos: nat, v: nat, done: seq<nat>) returns (done': seq<nat>, g: nat, w: nat)
    requires ValidLemmas(ls) && lo <= hi <= |ls| && SharedPrefix(ls, lo, hi, level) && level > 0
    requires SonScan(t, ls, lo, hi, level, first, r, num, all, s, u, sonPos, v, done) && sonPos < num
    ensures v < |t.ge1| && done' == done + if r.Has(t.ge1[v].splIdx) then [v] else []
    ensures lo <= s < hi && g == GroupEnd(ls, s, hi, level) && t.ge1[v].splIdx == SplIdx(ls[s], level)
    ensures v == first + sonPos && RepBlock(t, ls, s, hi, level, v, u)
    ensures SonScan(t, ls, lo, hi, level, first, r, num, all, g, w, sonPos + 1, v + 1, done')
    ensures r.start + r.num - 1 <= t.ge1[v].splIdx ==> done' == all
  {
    g, w := OpenBlock(t, ls, s, hi, level, v, u);
    KidsStep(ls, s, g, hi, level, v, r);
    done' := done + if r.Has(t.ge1[v].splIdx) then [v] else [];
    if r.start + r.num - 1 <= t.ge1[v].splIdx {
      NoMoreKids(ls, lo, s, g, hi, level, v + 1, r);
    }
  }

  ghost function Upto(a: nat, b: nat): seq<nat>
    decreases b - a
  {
    if b <= a then [] else [a] + Upto(a + 1, b)
  }

  lemma {:induction false} UptoNext(a: nat, b: nat)
    requires a <= b
    ensures Upto(a, b + 1) == Upto(a, b) + [b]
    decreases b - a
  {
    if a < b {
      UptoNext(a + 1, b);
    }
  }

  /** The positions of the first-layer nodes from `a` on that are in a range. */
  ghost function InRange(le0: seq<LmaNodeLE0>, a: nat, r: SplRange): seq<nat>
    decreases |le0| - a
  {
    if |le0| <= a then [] else (if r.Has(le0[a].splIdx) then [a] else []) + InRange(le0, a + 1, r)
  }

  lemma {:induction false} InRangeIsInterval(le0: seq<LmaNodeLE0>, a: nat, r: SplRange, i: nat, j: nat)
    requires a <= |le0| && (i < j ==> a <= i && j <= |le0|)
    requires forall p | a <= p < |le0| :: r.Has(le0[p].splIdx) <==> i <= p < j
    ensures InRange(le0, a, r) == Upto(i, j)
    decreases |le0| - a
  {
    if a < |le0| {
      if i == a && i < j {
        InRangeIsInterval(le0, a + 1, r, i + 1, j);
      } else {
        InRangeIsInterval(le0, a + 1, r, i, j);
      }
    }
  }

  lemma {:induction false} KidsInRange(t: Nodes, ls: seq<LemmaEntry>, s: nat, first: nat, u: nat, r: SplRange)
    requires s <= |ls| && RepBlock(t, ls, s, |ls|, 0, first, u) && first + GroupCount(ls, s, |ls|, 0) == |t.le0|
    ensures NodesOf(Kids(ls, s, |ls|, 0, first, r)) == InRange(t.le0, first, r)
    decreases |ls| - s
  {
    if s < |ls| {
      var g, u' := OpenBlock(t, ls, s, |ls|, 0, first, u);
      KidsInRange(t, ls, g, first + 1, u', r);
      KidsStep(ls, s, g, |ls|, 0, first, r);
    }
  }

  lemma LastInRange(le0: seq<LmaNodeLE0>, spellingNum: nat, r: SplRange, p: nat, sonEnd: nat)
    requires FirstLayer(le0, spellingNum) && 1 <= p < sonEnd <= |le0|
    requires r.start + r.num - 1 <= le0[p].splIdx && r.Has(le0[sonEnd - 1].splIdx)
    ensures p + 1 == sonEnd
  {
    var atP, atLast := le0[p].splIdx, le0[sonEnd - 1].splIdx;
    assert atLast <= atP;
  }

  lemma LookupInterval(le0: seq<LmaNodeLE0>, r: SplRange, i: nat, j: nat)
    requires 0 < |le0| && LookupExact(le0, r.start, r.start + r.num)
    requires i == IndexEntry(le0, r.start) && j == IndexEntry(le0, r.start + r.num)
    ensures j <= |le0| && forall p | i <= p < j :: 1 <= p && r.Has(le0[p].splIdx)
    ensures i < j ==> 1 <= i
    ensures InRange(le0, 1, r) == Upto(i, j)
  {
    assert i < j ==> 1 <= i && r.Has(le0[i].splIdx);
    InRangeIsInterval(le0, 1, r, i, j);
  }

  /** An exact lookup names the sons of the root that a range asks for. */
  lemma FirstLayerKids(t: Nodes, ls: seq<LemmaEntry>, r: SplRange, i: nat, j: nat)
    requires Packed(t, ls) && LookupExact(t.le0, r.start, r.start + r.num)
    requires i == IndexEntry(t.le0, r.start) && j == IndexEntry(t.le0, r.start + r.num)
    ensures j <= |t.le0| && forall p | i <= p < j :: 1 <= p && r.Has(t.le0[p].splIdx)
    ensures NodesOf(Kids(ls, 0, |ls|, 0, 1, r)) == Upto(i, j)
  {
    LookupInterval(t.le0, r, i, j);
    KidsInRange(t, ls, 0, 1, 0, r);
  }

  lemma KidsStep(ls: seq<LemmaEntry>, s: nat, g: nat, hi: nat, level: nat, v: nat, r: SplRange)
    requires s < hi <= |ls| && g == GroupEnd(ls, s, hi, level)
    ensures NodesOf(Kids(ls, s, hi, level, v, r)) ==
      (if r.Has(SplIdx(ls[s], level)) then [v] else []) + NodesOf(Kids(ls, g, hi, level, v + 1, r))
  {
    var head := if r.Has(SplIdx(ls[s], level)) then [Item(v, s, g)] else [];
    assert head != [] ==> head[1..] == [];
    NodesOfConcat(head, Kids(ls, g, hi, level, v + 1, r));
  }

  lemma NoMoreKids(ls: seq<LemmaEntry>, lo: nat, s: nat, g: nat, hi: nat, level: nat, first: nat, r: SplRange)
    requires ValidLemmas(ls) && lo <= s < hi <= |ls| && SharedPrefix(ls, lo, hi, level) && g == GroupEnd(ls, s, hi, level)
    requires r.start + r.num - 1 <= SplIdx(ls[s], level)
    ensures Kids(ls, g, hi, level, first, r) == []
  {
    if g < hi {
      NextGroupAbove(ls, lo, s, g, hi, level);
    }
    KidsBeyond(ls, lo, g, hi, level, first, r);
  }
}
