/** The packed list of Hanzi strings: all words of one length lie one behind the other. */
module DictLists {
  import opened DictDef
  import opened MyStdlib
  import opened SingleChars

  /** The lemmas in the order of their ids: shorter words first, ids from 1 on. */
  ghost predicate ValidList(hs: seq<LemmaEntry>) {
    && hs != [] && |hs[0].hanzis| == 1
    && (forall i | 0 <= i < |hs| :: hs[i].idxByHz == i + 1 && 1 <= |hs[i].hanzis| <= K_MAX_LEMMA_SIZE)
    && (forall i, j | 0 <= i < j < |hs| :: LengthsAscend(hs, i, j))
  }

  ghost predicate LengthsAscend(hs: seq<LemmaEntry>, i: nat, j: nat)
    requires i < |hs| && j < |hs|
  {
    |hs[i].hanzis| <= |hs[j].hanzis|
  }

  /** Position in the packed list of the word at list position `k`. */
  ghost function PosOf(hs: seq<LemmaEntry>, k: nat): nat
    requires k <= |hs|
  {
    if k == 0 then 0 else PosOf(hs, k - 1) + |hs[k - 1].hanzis|
  }

  /** The words one behind the other. */
  ghost function AllHanzis(hs: seq<LemmaEntry>, k: nat): (r: seq<uint16>)
    requires k <= |hs|
    ensures |r| == PosOf(hs, k)
  {
    if k == 0 then [] else AllHanzis(hs, k - 1) + hs[k - 1].hanzis
  }

  /** The first word from `k` on that is longer than `len`. */
  ghost function FirstLonger(hs: seq<LemmaEntry>, len: nat, k: nat): (r: nat)
    requires k <= |hs|
    ensures k <= r <= |hs|
    ensures forall i | k <= i < r :: |hs[i].hanzis| <= len
    ensures r < |hs| ==> len < |hs[r].hanzis|
    decreases |hs| - k
  {
    if k < |hs| && |hs[k].hanzis| <= len then FirstLonger(hs, len, k + 1) else k
  }

  lemma FirstLongerIs(hs: seq<LemmaEntry>, len: nat, r: nat)
    requires r <= |hs|
    requires forall i | 0 <= i < r :: |hs[i].hanzis| <= len
    requires r < |hs| ==> len < |hs[r].hanzis|
    ensures FirstLonger(hs, len, 0) == r
  {
  }

  ghost predicate Present(hs: seq<LemmaEntry>, len: nat) {
    exists i :: 0 <= i < |hs| && |hs[i].hanzis| == len
  }

  function MaxLen(hs: seq<LemmaEntry>): nat
    requires hs != []
  {
    |hs[|hs| - 1].hanzis|
  }

  /** Every length up to the greatest one occurs. */
  ghost predicate NoMissingLength(hs: seq<LemmaEntry>)
    requires hs != []
  {
    forall len | 1 <= len <= MaxLen(hs) :: Present(hs, len)
  }

  /** The list position that the tables name for words of length `slot + 1`; a missing length repeats the one before. */
  ghost function Start(hs: seq<LemmaEntry>, slot: nat): (r: nat)
    ensures r <= |hs|
  {
    if slot == 0 || Present(hs, slot + 1) then FirstLonger(hs, slot, 0) else Start(hs, slot - 1)
  }

  /** An entry of both tables names the word at list position `k`. */
  ghost predicate Names(hs: seq<LemmaEntry>, pos: nat, id: nat, k: nat) {
    k <= |hs| && pos == PosOf(hs, k) && id == k + 1
  }

  /** What `start_id_[slot]` is set to: behind the greatest length it is the number of words. */
  ghost function StartId(hs: seq<LemmaEntry>, slot: nat): nat
    requires hs != []
  {
    if slot < MaxLen(hs) then Start(hs, slot) + 1 else |hs|
  }

  ghost function StartPos(hs: seq<LemmaEntry>, slot: nat): nat
    requires hs != []
  {
    if slot < MaxLen(hs) then PosOf(hs, Start(hs, slot)) else PosOf(hs, |hs|)
  }

  /** The tables name `slot` for an id. */
  ghost predicate InSlot(hs: seq<LemmaEntry>, id: nat, slot: nat)
    requires hs != []
  {
    StartId(hs, slot) <= id < StartId(hs, slot + 1)
  }

  /** The tables lead from the id to the slot of its own length, and to no slot before it. */
  ghost predicate Located(hs: seq<LemmaEntry>, id: nat)
    requires hs != [] && 1 <= id < |hs|
  {
    var slot := |hs[id - 1].hanzis| - 1;
    0 <= slot && InSlot(hs, id, slot) && forall i | 0 <= i < slot :: !InSlot(hs, id, i)
  }

  lemma FirstLongerBetween(hs: seq<LemmaEntry>, len: nat, k: nat)
    requires ValidList(hs) && k < |hs|
    ensures FirstLonger(hs, len, 0) <= k <==> len < |hs[k].hanzis|
  {
    var r := FirstLonger(hs, len, 0);
    if r < k {
      assert LengthsAscend(hs, r, k);
    }
  }

  lemma LocatedWithoutGaps(hs: seq<LemmaEntry>, id: nat)
    requires ValidList(hs) && NoMissingLength(hs) && 1 <= id < |hs|
    ensures Located(hs, id)
  {
    var k := id - 1;
    var len := |hs[k].hanzis|;
    assert LengthsAscend(hs, k, |hs| - 1);
    forall i | 0 <= i <= len ensures StartId(hs, i) <= id <==> i < len {
      if i < MaxLen(hs) {
        assert Present(hs, i + 1);
        FirstLongerBetween(hs, i, k);
      }
    }
  }

  /** The first word of the length in front of a missing one is taken for a longer word. */
  lemma NotLocated(hs: seq<LemmaEntry>, len: nat) returns (id: nat)
    requires ValidList(hs) && 1 <= len <= MaxLen(hs) && !Present(hs, len)
    ensures 1 <= id < |hs| && !Located(hs, id)
    decreases len
  {
    assert len > 1 by {
      assert Present(hs, |hs[0].hanzis|);
    }
    assert Present(hs, MaxLen(hs)) by {
      assert |hs[|hs| - 1].hanzis| == MaxLen(hs);
    }
    if Present(hs, len - 1) {
      var k := FirstLonger(hs, len - 2, 0);
      var w :| 0 <= w < |hs| && |hs[w].hanzis| == len - 1;
      FirstLongerBetween(hs, len - 2, w);
      assert LengthsAscend(hs, k, w);
      id := k + 1;
      assert Start(hs, len - 1) == Start(hs, len - 2) == k;
    } else {
      id := NotLocated(hs, len - 1);
    }
  }

  /** The tables lead every id but the last one to its own word length exactly when no length is missing. */
  lemma LocatedIff(hs: seq<LemmaEntry>)
    requires ValidList(hs)
    ensures NoMissingLength(hs) <==> forall id | 1 <= id < |hs| :: Located(hs, id)
  {
    if NoMissingLength(hs) {
      forall id | 1 <= id < |hs| ensures Located(hs, id) {
        LocatedWithoutGaps(hs, id);
      }
    } else {
      var len :| 1 <= len <= MaxLen(hs) && !Present(hs, len);
      var id := NotLocated(hs, len);
    }
  }

  lemma {:induction false} PosOfRun(hs: seq<LemmaEntry>, a: nat, k: nat, len: nat)
    requires a <= k <= |hs| && forall i | a <= i < k :: |hs[i].hanzis| == len
    ensures PosOf(hs, k) == PosOf(hs, a) + (k - a) * len
    decreases k
  {
    if a < k {
      PosOfRun(hs, a, k - 1, len);
      assert (k - a) * len == (k - 1 - a) * len + len;
    }
  }

  lemma {:induction false} AllHanzisAt(hs: seq<LemmaEntry>, k: nat, n: nat)
    requires k < n <= |hs|
    ensures PosOf(hs, k) + |hs[k].hanzis| <= PosOf(hs, n)
    ensures AllHanzis(hs, n)[PosOf(hs, k)..PosOf(hs, k) + |hs[k].hanzis|] == hs[k].hanzis
    decreases n
  {
    if k < n - 1 {
      AllHanzisAt(hs, k, n - 1);
      var a, b := PosOf(hs, k), PosOf(hs, k) + |hs[k].hanzis|;
      var all, before := AllHanzis(hs, n), AllHanzis(hs, n - 1);
      assert all == before + hs[n - 1].hanzis && b <= |before|;
      assert all[a..b] == before[a..b];
    }
  }

  /** The word of an id lies where the tables say. */
  lemma WordAt(hs: seq<LemmaEntry>, id: nat, slot: nat)
    requires ValidList(hs) && NoMissingLength(hs) && 1 <= id < |hs| && slot == |hs[id - 1].hanzis| - 1
    ensures StartId(hs, slot) <= id
    ensures PosOf(hs, id - 1) == StartPos(hs, slot) + (id - StartId(hs, slot)) * (slot + 1)
  {
    LocatedWithoutGaps(hs, id);
    var k, a := id - 1, FirstLonger(hs, slot, 0);
    assert LengthsAscend(hs, k, |hs| - 1);
    assert Present(hs, slot + 1);
    FirstLongerBetween(hs, slot, k);
    forall i | a <= i < k ensures |hs[i].hanzis| == slot + 1 {
      assert LengthsAscend(hs, a, i) && LengthsAscend(hs, i, k);
    }
    PosOfRun(hs, a, k, slot + 1);
  }

  class DictList {
    const buf: array<uint16>
    const startPos: array<nat>
    const startId: array<nat>
    /** `scis_hz_` and `scis_splid_` */
    const scis: seq<SingleCharItem>
    ghost const lemmas: seq<LemmaEntry>

    ghost predicate Valid()
      reads buf, startPos, startId
    {
      && Ascending(scis) && |scis| <= 0x1_0000
      && ValidList(lemmas) && NoMissingLength(lemmas)
      && TablesFilled(startPos[..], startId[..], lemmas, K_MAX_LEMMA_SIZE + 1)
      && buf[..] == AllHanzis(lemmas, |lemmas|)
    }

    /** The first `n` slots of both tables. */
    static ghost predicate TablesFilled(pos: seq<nat>, id: seq<nat>, hs: seq<LemmaEntry>, n: nat) {
      && hs != [] && |pos| == |id| == K_MAX_LEMMA_SIZE + 1 && n <= |pos|
      && forall i | 0 <= i < n :: pos[i] == StartPos(hs, i) && id[i] == StartId(hs, i)
    }

    /** `calculate_size`: fills both tables and returns the number of Hanzis. */
    static method CalculateSize(lemmaArr: seq<LemmaEntry>, startPos: array<nat>, startId: array<nat>) returns (listSize: nat)
      requires ValidList(lemmaArr) && startPos.Length == startId.Length == K_MAX_LEMMA_SIZE + 1 && startPos != startId
      modifies startPos, startId
      ensures TablesFilled(startPos[..], startId[..], lemmaArr, K_MAX_LEMMA_SIZE + 1)
      ensures listSize == PosOf(lemmaArr, |lemmaArr|)
    {
      hide Start, Present;
      var idNum, lastHzLen: nat := 1, 1;
      startPos[0], startId[0] := 0, 1;
      listSize := 1;
      StartOfAll(lemmaArr);
      for i := 1 to |lemmaArr|
        invariant idNum == i && listSize == PosOf(lemmaArr, i) && lastHzLen == |lemmaArr[i - 1].hanzis|
        invariant forall s | 0 <= s < lastHzLen :: Names(lemmaArr, startPos[s], startId[s], Start(lemmaArr, s))
      {
        var currentHzLen := |lemmaArr[i].hanzis|;
        assert LengthsAscend(lemmaArr, i - 1, i);
        if currentHzLen != lastHzLen {
          SkipMissing(lemmaArr, startPos, startId, lastHzLen, currentHzLen, i);
          FirstOfLength(lemmaArr, i);
          startPos[currentHzLen - 1] := listSize;
          startId[currentHzLen - 1] := idNum + 1;
          lastHzLen := currentHzLen;
        }
        listSize := listSize + currentHzLen;
        idNum := idNum + 1;
      }
      for i := lastHzLen to K_MAX_LEMMA_SIZE + 1
        invariant forall s | 0 <= s < i :: startPos[s] == StartPos(lemmaArr, s) && startId[s] == StartId(lemmaArr, s)
      {
        startPos[i], startId[i] := listSize, idNum;
      }
      listSize := startPos[K_MAX_LEMMA_SIZE];
    }

    static lemma FirstOfLength(hs: seq<LemmaEntry>, i: nat)
      requires ValidList(hs) && 0 < i < |hs| && |hs[i - 1].hanzis| < |hs[i].hanzis|
      ensures Start(hs, |hs[i].hanzis| - 1) == i
    {
      forall j | 0 <= j < i ensures |hs[j].hanzis| <= |hs[i].hanzis| - 1 {
        assert j < i - 1 ==> LengthsAscend(hs, j, i - 1);
      }
      FirstLongerIs(hs, |hs[i].hanzis| - 1, i);
      assert Present(hs, |hs[i].hanzis|);
    }

    static lemma StartOfAll(hs: seq<LemmaEntry>)
      requires ValidList(hs)
      ensures Start(hs, 0) == 0
    {
      FirstLongerIs(hs, 0, 0);
    }

    static lemma NothingBetween(hs: seq<LemmaEntry>, i: nat, slot: nat)
      requires ValidList(hs) && 0 < i < |hs| && |hs[i - 1].hanzis| <= slot && slot + 1 < |hs[i].hanzis|
      ensures slot > 0 && Start(hs, slot) == Start(hs, slot - 1)
    {
      forall j | 0 <= j < |hs| ensures |hs[j].hanzis| != slot + 1 {
        assert j < i - 1 ==> LengthsAscend(hs, j, i - 1);
        assert i < j ==> LengthsAscend(hs, i, j);
      }
    }

    /** The slots of the lengths between those of two neighbours repeat the slot in front of them. */
    static method SkipMissing(lemmaArr: seq<LemmaEntry>, startPos: array<nat>, startId: array<nat>, last: nat, current: nat, ghost i: nat)
      requires ValidList(lemmaArr) && startPos.Length == startId.Length == K_MAX_LEMMA_SIZE + 1 && startPos != startId
      requires 0 < i < |lemmaArr| && 0 < last == |lemmaArr[i - 1].hanzis| < current == |lemmaArr[i].hanzis| <= K_MAX_LEMMA_SIZE
      requires forall s | 0 <= s < last :: Names(lemmaArr, startPos[s], startId[s], Start(lemmaArr, s))
      modifies startPos, startId
      ensures forall s | 0 <= s < current - 1 :: Names(lemmaArr, startPos[s], startId[s], Start(lemmaArr, s))
    {
      hide ValidList, Present, Start, Names;
      for len := last to current - 1
        invariant forall s | 0 <= s < len :: Names(lemmaArr, startPos[s], startId[s], Start(lemmaArr, s))
      {
        NothingBetween(lemmaArr, i, len);
        startPos[len], startId[len] := startPos[len - 1], startId[len - 1];
      }
    }

    /** `init_list`: the tables and the packed words. */
    constructor (lemmaArr: seq<LemmaEntry>, chars: seq<SingleCharItem>)
      requires ValidList(lemmaArr) && NoMissingLength(lemmaArr) && Ascending(chars) && |chars| <= 0x1_0000
      ensures Valid() && lemmas == lemmaArr && scis == chars && fresh(buf) && fresh(startPos) && fresh(startId)
    {
      var pos, id := new nat[K_MAX_LEMMA_SIZE + 1], new nat[K_MAX_LEMMA_SIZE + 1];
      var bufSize := CalculateSize(lemmaArr, pos, id);
      var words := new uint16[bufSize];
      FillList(lemmaArr, words);
      buf, startPos, startId, scis, lemmas := words, pos, id, chars, lemmaArr;
    }

    /** `fill_list` */
    static method FillList(lemmaArr: seq<LemmaEntry>, buf: array<uint16>)
      requires buf.Length == PosOf(lemmaArr, |lemmaArr|)
      modifies buf
      ensures buf[..] == AllHanzis(lemmaArr, |lemmaArr|)
    {
      var currentPos := 0;
      for i := 0 to |lemmaArr|
        invariant currentPos == PosOf(lemmaArr, i) <= buf.Length
        invariant buf[..currentPos] == AllHanzis(lemmaArr, i)
      {
        AllHanzisAt(lemmaArr, i, |lemmaArr|);
        PutWord(buf, currentPos, lemmaArr[i].hanzis);
        currentPos := currentPos + |lemmaArr[i].hanzis|;
      }
    }

    static method PutWord(buf: array<uint16>, at: nat, word: seq<uint16>)
      requires at + |word| <= buf.Length
      modifies buf
      ensures buf[..at + |word|] == old(buf[..at]) + word
    {
      for k := 0 to |word|
        invariant buf[..at] == old(buf[..at]) && buf[at..at + k] == word[..k]
      {
        buf[at + k] := word[k];
      }
    }

    /** `get_lemma_str`: the stored word for every id from 1 on but the last one; nothing otherwise, or when it does not fit. */
    method GetLemmaStr(idLemma: nat, strBuf: array<uint16>, strMax: nat) returns (len: nat)
      requires Valid() && strMax <= strBuf.Length && strBuf != buf
      modifies strBuf
      ensures 1 <= idLemma < |lemmas| && |lemmas[idLemma - 1].hanzis| < strMax ==>
        var word := lemmas[idLemma - 1].hanzis;
        len == |word| && strBuf[..len + 1] == word + [0]
      ensures !(1 <= idLemma < |lemmas| && |lemmas[idLemma - 1].hanzis| < strMax) ==> len == 0 && strBuf[..] == old(strBuf[..])
    {
      if idLemma >= startId[K_MAX_LEMMA_SIZE] || strMax <= 1 {
        return 0;
      }
      assert MaxLen(lemmas) <= K_MAX_LEMMA_SIZE;
      if 1 <= idLemma {
        LocatedWithoutGaps(lemmas, idLemma);
      }
      for i := 0 to K_MAX_LEMMA_SIZE
        invariant forall s | 0 <= s < i :: !(startId[s] <= idLemma < startId[s + 1])
        invariant strBuf[..] == old(strBuf[..])
        invariant 1 <= idLemma ==> i < |lemmas[idLemma - 1].hanzis|
        invariant i + 1 < strMax || i == 0 || i + 1 == strMax
      {
        if i + 1 > strMax - 1 {
          return 0;
        }
        if startId[i] <= idLemma < startId[i + 1] {
          CopyWord(idLemma, i, strBuf);
          return i + 1;
        }
      }
      return 0;
    }

    method CopyWord(idLemma: nat, slot: nat, strBuf: array<uint16>)
      requires Valid() && 1 <= idLemma < |lemmas| && slot == |lemmas[idLemma - 1].hanzis| - 1
      requires slot < K_MAX_LEMMA_SIZE && slot + 1 < strBuf.Length && strBuf != buf
      modifies strBuf
      ensures strBuf[..slot + 2] == lemmas[idLemma - 1].hanzis + [0]
    {
      ghost var word := lemmas[idLemma - 1].hanzis;
      WordAt(lemmas, idLemma, slot);
      AllHanzisAt(lemmas, idLemma - 1, |lemmas|);
      var idSpan := idLemma - startId[slot];
      var from := startPos[slot] + idSpan * (slot + 1);
      assert from == PosOf(lemmas, idLemma - 1);
      ghost var all := buf[..];
      assert all[from..from + slot + 1] == word;
      for len := 0 to slot + 1
        invariant strBuf[..len] == word[..len]
      {
        assert buf[from + len] == all[from..from + slot + 1][len];
        strBuf[len] := buf[from + len];
      }
      strBuf[slot + 1] := 0;
    }

    /** `get_splids_for_hanzi`: the candidates, from position `from` of the buffer on. */
    method GetSplidsForHanzi(hanzi: uint16, halfSplid: uint16, splids: array<uint16>, from: nat, maxSplids: nat, compatible: (uint16, uint16) -> bool)
      returns (foundNum: nat)
      requires Ascending(scis) && |scis| <= 0x1_0000
      requires HasHanzi(scis, hanzi)
      requires from + maxSplids <= splids.Length && |Candidates(scis, |scis|, hanzi, halfSplid, compatible)| < maxSplids
      modifies splids
      ensures foundNum == |Candidates(scis, |scis|, hanzi, halfSplid, compatible)|
      ensures splids[from..from + foundNum] == Candidates(scis, |scis|, hanzi, halfSplid, compatible)
      ensures AreReadings(scis, hanzi, halfSplid, compatible, splids[from..from + foundNum])
      ensures splids[..from] == old(splids[..from]) && splids[from + foundNum..] == old(splids[from + foundNum..])
    {
      ghost var at := CandidatesAreReadings(scis, hanzi, halfSplid, compatible);
      var first := FirstOfHanzi(hanzi);
      var strict := FindStrict(hanzi, halfSplid, first);
      foundNum := CollectCands(hanzi, halfSplid, strict, first, splids, from, compatible);
    }

    /** Whether strict comparison finds anything. */
    method FindStrict(hanzi: uint16, halfSplid: uint16, first: nat) returns (strict: bool)
      requires Ascending(scis) && first < |scis| && scis[first].hz == hanzi && forall k | 0 <= k < first :: scis[k].hz != hanzi
      ensures strict == Strict(scis, hanzi, halfSplid)
    {
      var hzF := first;
      strict := false;
      while hzF < |scis| && hanzi == scis[hzF].hz
        invariant first <= hzF <= |scis|
        invariant strict <==> exists k :: 0 <= k < hzF && StrictMatch(scis[k], hanzi, halfSplid)
      {
        if halfSplid == 0 || scis[hzF].halfSplid == halfSplid {
          assert StrictMatch(scis[hzF], hanzi, halfSplid);
          strict := true;
        }
        hzF := hzF + 1;
      }
      HanziRun(scis, hanzi, first, hzF);
    }

    method CollectCands(hanzi: uint16, halfSplid: uint16, strict: bool, first: nat, splids: array<uint16>, from: nat, compatible: (uint16, uint16) -> bool)
      returns (foundNum: nat)
      requires Ascending(scis) && first < |scis| && scis[first].hz == hanzi && forall k | 0 <= k < first :: scis[k].hz != hanzi
      requires from + |Cands(scis, |scis|, hanzi, halfSplid, strict, compatible)| <= splids.Length
      modifies splids
      ensures foundNum == |Cands(scis, |scis|, hanzi, halfSplid, strict, compatible)|
      ensures splids[from..from + foundNum] == Cands(scis, |scis|, hanzi, halfSplid, strict, compatible)
      ensures splids[..from] == old(splids[..from]) && splids[from + foundNum..] == old(splids[from + foundNum..])
    {
      hide Ascending;
      foundNum := 0;
      var hzFound := first;
      CandsNone(scis, 0, first, hanzi, halfSplid, strict, compatible);
      ghost var cands: seq<uint16> := [];
      while hzFound < |scis| && hanzi == scis[hzFound].hz
        invariant first <= hzFound <= |scis| && (hzFound > first || scis[first].hz == hanzi)
        invariant cands == Cands(scis, hzFound, hanzi, halfSplid, strict, compatible) && foundNum == |cands|
        invariant from + foundNum <= splids.Length && splids[from..from + foundNum] == cands
        invariant splids[..from] == old(splids[..from])
        invariant forall k | from + foundNum <= k < splids.Length :: splids[k] == old(splids[k])
      {
        CandsPrefix(scis, hzFound + 1, |scis|, hanzi, halfSplid, strict, compatible);
        if Accepts(scis[hzFound], halfSplid, strict, compatible) {
          PutCand(splids, from, foundNum, scis[hzFound].fullSplid);
          foundNum := foundNum + 1;
          cands := cands + [scis[hzFound].fullSplid];
        }
        hzFound := hzFound + 1;
      }
      HanziRun(scis, hanzi, first, hzFound);
      CandsNone(scis, hzFound, |scis|, hanzi, halfSplid, strict, compatible);
    }

    method PutCand(splids: array<uint16>, from: nat, foundNum: nat, splid: uint16)
      requires from + foundNum < splids.Length
      modifies splids
      ensures splids[from..from + foundNum + 1] == old(splids[from..from + foundNum]) + [splid]
      ensures splids[..from] == old(splids[..from])
      ensures forall k | from + foundNum < k < splids.Length :: splids[k] == old(splids[k])
    {
      splids[from + foundNum] := splid;
    }

    /** The first item of a Hanzi that is listed. */
    method FirstOfHanzi(hanzi: uint16) returns (first: nat)
      requires Ascending(scis) && HasHanzi(scis, hanzi)
      ensures first < |scis| && scis[first].hz == hanzi && forall k | 0 <= k < first :: scis[k].hz != hanzi
    {
      var side := (x: SingleCharItem) => x.hz - hanzi;
      forall i, j | 0 <= i < j < |scis| ensures scis[i].hz <= scis[j].hz {
        assert Before(scis, i, j);
      }
      var found;
      found, first := MyBsearch(scis, side);
      assert found by {
        ghost var k :| 0 <= k < |scis| && scis[k].hz == hanzi;
        assert side(scis[k]) == 0;
      }
      while first > 0 && hanzi == scis[first - 1].hz
        invariant first < |scis| && scis[first].hz == hanzi
      {
        first := first - 1;
      }
      forall k | 0 <= k < first ensures scis[k].hz != hanzi {
        assert scis[k].hz <= scis[first - 1].hz < hanzi;
      }
    }
  }

  ghost predicate HasHanzi(scis: seq<SingleCharItem>, hanzi: uint16) {
    exists k :: 0 <= k < |scis| && scis[k].hz == hanzi
  }

  predicate StrictMatch(x: SingleCharItem, hanzi: uint16, halfSplid: uint16) {
    x.hz == hanzi && (halfSplid == 0 || x.halfSplid == halfSplid)
  }

  /** Some spelling of the Hanzi has the very half id, so that merely compatible ones do not count. */
  ghost predicate Strict(scis: seq<SingleCharItem>, hanzi: uint16, halfSplid: uint16) {
    exists k :: 0 <= k < |scis| && StrictMatch(scis[k], hanzi, halfSplid)
  }

  predicate Accepts(x: SingleCharItem, halfSplid: uint16, strict: bool, compatible: (uint16, uint16) -> bool) {
    halfSplid == 0 || (strict && x.halfSplid == halfSplid) || (!strict && compatible(halfSplid, x.fullSplid))
  }

  /** The full ids among the first `n` items that a Hanzi may have. */
  ghost function Cands(scis: seq<SingleCharItem>, n: nat, hanzi: uint16, halfSplid: uint16, strict: bool, compatible: (uint16, uint16) -> bool): seq<uint16>
    requires n <= |scis|
  {
    if n == 0 then []
    else if scis[n - 1].hz == hanzi && Accepts(scis[n - 1], halfSplid, strict, compatible)
    then Cands(scis, n - 1, hanzi, halfSplid, strict, compatible) + [scis[n - 1].fullSplid]
    else Cands(scis, n - 1, hanzi, halfSplid, strict, compatible)
  }

  ghost function Candidates(scis: seq<SingleCharItem>, n: nat, hanzi: uint16, halfSplid: uint16, compatible: (uint16, uint16) -> bool): seq<uint16>
    requires n <= |scis|
  {
    Cands(scis, n, hanzi, halfSplid, Strict(scis, hanzi, halfSplid), compatible)
  }

  lemma {:induction false} CandsNone(scis: seq<SingleCharItem>, a: nat, n: nat, hanzi: uint16, halfSplid: uint16, strict: bool, compatible: (uint16, uint16) -> bool)
    requires a <= n <= |scis| && forall k | a <= k < n :: scis[k].hz != hanzi
    ensures Cands(scis, n, hanzi, halfSplid, strict, compatible) == Cands(scis, a, hanzi, halfSplid, strict, compatible)
    decreases n
  {
    if a < n {
      CandsNone(scis, a, n - 1, hanzi, halfSplid, strict, compatible);
    }
  }

  lemma {:induction false} CandsPrefix(scis: seq<SingleCharItem>, a: nat, n: nat, hanzi: uint16, halfSplid: uint16, strict: bool, compatible: (uint16, uint16) -> bool)
    requires a <= n <= |scis|
    ensures Cands(scis, a, hanzi, halfSplid, strict, compatible) <= Cands(scis, n, hanzi, halfSplid, strict, compatible)
    decreases n
  {
    if a < n {
      CandsPrefix(scis, a, n - 1, hanzi, halfSplid, strict, compatible);
    }
  }

  /** A spelling is a candidate exactly when it is listed for the Hanzi and accepted. */
  lemma {:induction false} CandsHas(scis: seq<SingleCharItem>, n: nat, hanzi: uint16, halfSplid: uint16, strict: bool, compatible: (uint16, uint16) -> bool, full: uint16)
    requires n <= |scis|
    ensures full in Cands(scis, n, hanzi, halfSplid, strict, compatible) <==>
      exists k :: 0 <= k < n && scis[k].hz == hanzi && scis[k].fullSplid == full &&
        (halfSplid == 0 || if strict then scis[k].halfSplid == halfSplid else compatible(halfSplid, full))
    decreases n
  {
    if n > 0 {
      CandsHas(scis, n - 1, hanzi, halfSplid, strict, compatible, full);
    }
  }

  /** Some item of the Hanzi has the half id. */
  ghost predicate HasHalf(scis: seq<SingleCharItem>, hanzi: uint16, halfSplid: uint16) {
    exists k :: 0 <= k < |scis| && scis[k].hz == hanzi && scis[k].halfSplid == halfSplid
  }

  /**
   * Item `k` is a reading of the Hanzi that goes with the half id: any reading for the half id 0, one of the very half id
   * if there is such a reading, and otherwise one that is compatible.
   */
  ghost predicate Reading(scis: seq<SingleCharItem>, hanzi: uint16, halfSplid: uint16, compatible: (uint16, uint16) -> bool, k: nat) {
    && k < |scis| && scis[k].hz == hanzi
    && (halfSplid != 0 ==>
          if HasHalf(scis, hanzi, halfSplid) then scis[k].halfSplid == halfSplid else compatible(halfSplid, scis[k].fullSplid))
  }

  /** `cands` are the full ids of these readings, in their order; `at` are the places of the readings. */
  ghost predicate ReadingsAt(scis: seq<SingleCharItem>, n: nat, hanzi: uint16, halfSplid: uint16, compatible: (uint16, uint16) -> bool,
                             at: seq<nat>, cands: seq<uint16>)
  {
    && |at| == |cands| && (forall a, b | 0 <= a < b < |at| :: at[a] < at[b])
    && (forall a | 0 <= a < |at| :: at[a] < n && Reading(scis, hanzi, halfSplid, compatible, at[a]) && cands[a] == scis[at[a]].fullSplid)
    && (forall k | 0 <= k < n && Reading(scis, hanzi, halfSplid, compatible, k) :: k in at)
  }

  ghost predicate AreReadings(scis: seq<SingleCharItem>, hanzi: uint16, halfSplid: uint16, compatible: (uint16, uint16) -> bool, cands: seq<uint16>) {
    exists at :: ReadingsAt(scis, |scis|, hanzi, halfSplid, compatible, at, cands)
  }

  /** The candidates are the readings that go with the half id, each of them once and in the order of the list. */
  lemma CandidatesAreReadings(scis: seq<SingleCharItem>, hanzi: uint16, halfSplid: uint16, compatible: (uint16, uint16) -> bool)
    returns (at: seq<nat>)
    ensures ReadingsAt(scis, |scis|, hanzi, halfSplid, compatible, at, Candidates(scis, |scis|, hanzi, halfSplid, compatible))
  {
    if halfSplid != 0 {
      StrictIff(scis, hanzi, halfSplid);
    }
    at := ReadingsUpTo(scis, |scis|, hanzi, halfSplid, Strict(scis, hanzi, halfSplid), compatible);
  }

  lemma StrictIff(scis: seq<SingleCharItem>, hanzi: uint16, halfSplid: uint16)
    requires halfSplid != 0
    ensures Strict(scis, hanzi, halfSplid) <==> HasHalf(scis, hanzi, halfSplid)
  {
    if HasHalf(scis, hanzi, halfSplid) {
      var k :| 0 <= k < |scis| && scis[k].hz == hanzi && scis[k].halfSplid == halfSplid;
      assert StrictMatch(scis[k], hanzi, halfSplid);
    }
  }

  lemma {:induction false} ReadingsUpTo(scis: seq<SingleCharItem>, n: nat, hanzi: uint16, halfSplid: uint16, strict: bool,
                                        compatible: (uint16, uint16) -> bool) returns (at: seq<nat>)
    requires n <= |scis| && (halfSplid != 0 ==> (strict <==> HasHalf(scis, hanzi, halfSplid)))
    ensures ReadingsAt(scis, n, hanzi, halfSplid, compatible, at, Cands(scis, n, hanzi, halfSplid, strict, compatible))
    decreases n
  {
    hide HasHalf;
    if n == 0 {
      at := [];
    } else {
      at := ReadingsUpTo(scis, n - 1, hanzi, halfSplid, strict, compatible);
      ghost var before := at;
      if Reading(scis, hanzi, halfSplid, compatible, n - 1) {
        at := at + [n - 1];
        assert at[|before|] == n - 1;
        forall k | k in before ensures k in at {
          var a :| 0 <= a < |before| && before[a] == k;
          assert at[a] == k;
        }
      }
    }
  }

  /** All items of a Hanzi are neighbours. */
  lemma HanziRun(scis: seq<SingleCharItem>, hanzi: uint16, first: nat, end: nat)
    requires Ascending(scis) && first < end <= |scis| && scis[first].hz == hanzi
    requires end < |scis| ==> scis[end].hz != hanzi
    ensures forall k | end <= k < |scis| :: scis[k].hz != hanzi
  {
    if end < |scis| {
      assert Before(scis, first, end);
      forall k | end <= k < |scis| ensures scis[k].hz != hanzi {
        assert end < k ==> Before(scis, end, k);
      }
    }
  }
}
