/** The recursive construction of the packed trie from the sorted lemma list. */
module DictBuilders {
  import opened DictDef
  import opened TrieLayout

  class DictBuilder {
    const lemmaArr: seq<LemmaEntry>
    const lmaNodesLe0: array<LmaNodeLE0>
    const lmaNodesGe1: array<LmaNodeGE1>
    const homoIdxBuf: array<nat>
    var lmaNdsUsedNumLe0: nat
    var lmaNdsUsedNumGe1: nat
    var homoIdxNumEq1: nat
    var homoIdxNumGt1: nat

    ghost function Snapshot(): Nodes
      reads lmaNodesLe0, lmaNodesGe1
    {
      Nodes(lmaNodesLe0[..], lmaNodesGe1[..])
    }

    /** Number of nodes in use in the buffer that holds `level`. */
    ghost function Used(level: nat): nat
      reads this
    {
      if level == 0 then lmaNdsUsedNumLe0 else lmaNdsUsedNumGe1
    }

    /**
     * The buffers can hold the trie, the rest of them is still zero, and the id of every lemma that
     * has been reached is at the position of the lemma in the homophone buffer.
     */
    ghost predicate Valid()
      reads this, lmaNodesLe0, lmaNodesGe1, homoIdxBuf
    {
      && ValidLemmas(lemmaArr)
      && homoIdxNumEq1 + homoIdxNumGt1 <= |lemmaArr| <= homoIdxBuf.Length
      && |lemmaArr| <= OFFSET_LIMIT
      && lmaNdsUsedNumLe0 <= lmaNodesLe0.Length
      && lmaNdsUsedNumGe1 <= lmaNodesGe1.Length <= OFFSET_LIMIT
      && StillZero(Snapshot(), 0, lmaNdsUsedNumLe0, lmaNodesLe0.Length)
      && StillZero(Snapshot(), 1, lmaNdsUsedNumGe1, lmaNodesGe1.Length)
      && IdsInPlace(homoIdxNumEq1 + homoIdxNumGt1)
    }

    ghost predicate IdsInPlace(n: nat)
      requires n <= |lemmaArr| <= homoIdxBuf.Length
      reads homoIdxBuf
    {
      forall k | 0 <= k < n :: homoIdxBuf[k] == lemmaArr[k].idxByHz
    }

    /** First step of `construct_subset`: how many sons are to be allocated. */
    method CountSons(itemStart: nat, itemEnd: nat, level: nat) returns (parentSonNum: nat)
      requires itemStart < itemEnd <= |lemmaArr|
      ensures parentSonNum == GroupCount(lemmaArr, itemStart, itemEnd, level)
    {
      parentSonNum := 0;
      var splIdxNode := SplIdx(lemmaArr[itemStart], level);
      ghost var s := itemStart;
      for i := itemStart + 1 to itemEnd
        invariant itemStart <= s < i
        invariant splIdxNode == SplIdx(lemmaArr[s], level)
        invariant forall k | s <= k < i :: SplIdx(lemmaArr[k], level) == splIdxNode
        invariant parentSonNum + GroupCount(lemmaArr, s, itemEnd, level) == GroupCount(lemmaArr, itemStart, itemEnd, level)
      {
        var splIdxCurrent := SplIdx(lemmaArr[i], level);
        if splIdxCurrent != splIdxNode {
          RunIsGroup(lemmaArr, s, i, itemEnd, level);
          parentSonNum := parentSonNum + 1;
          splIdxNode := splIdxCurrent;
          s := i;
        }
      }
      RunIsGroup(lemmaArr, s, itemEnd, itemEnd, level);
      parentSonNum := parentSonNum + 1;
    }

    /** `set_son_offset` */
    method StoreSonOffset(v: nat, offset: nat)
      requires v < lmaNodesGe1.Length && offset < OFFSET_LIMIT
      modifies lmaNodesGe1
      ensures GetSonOffset(lmaNodesGe1[v]) == offset
      ensures SameButSons(old(lmaNodesGe1[v]), lmaNodesGe1[v]) && lmaNodesGe1[v].numOfSon == old(lmaNodesGe1[v].numOfSon)
      ensures forall k | 0 <= k < lmaNodesGe1.Length && k != v :: lmaNodesGe1[k] == old(lmaNodesGe1[k])
    {
      OffsetRoundTrip(lmaNodesGe1[v], offset);
      lmaNodesGe1[v] := SetSonOffset(lmaNodesGe1[v], offset);
    }

    /** `set_homo_id_buf_offset` */
    method StoreHomoIdBufOffset(v: nat, offset: nat)
      requires v < lmaNodesGe1.Length && offset < OFFSET_LIMIT
      modifies lmaNodesGe1
      ensures GetHomoIdxBufOffset(lmaNodesGe1[v]) == offset && GetSonOffset(lmaNodesGe1[v]) == old(GetSonOffset(lmaNodesGe1[v]))
      ensures lmaNodesGe1[v].splIdx == old(lmaNodesGe1[v].splIdx) && lmaNodesGe1[v].numOfSon == old(lmaNodesGe1[v].numOfSon)
      ensures lmaNodesGe1[v].numOfHomo == old(lmaNodesGe1[v].numOfHomo)
      ensures forall k | 0 <= k < lmaNodesGe1.Length && k != v :: lmaNodesGe1[k] == old(lmaNodesGe1[k])
    {
      OffsetRoundTrip(lmaNodesGe1[v], offset);
      lmaNodesGe1[v] := SetHomoIdBufOffset(lmaNodesGe1[v], offset);
    }

    /** Second step: take the next free nodes and tell the parent. */
    method AllocateSons(parent: nat, parentSonNum: nat, level: nat) returns (first: nat)
      requires Valid() && parentSonNum <= SonLimit(level)
      requires parent < (if level <= 1 then lmaNdsUsedNumLe0 else lmaNdsUsedNumGe1)
      requires level == 0 ==> lmaNdsUsedNumLe0 + parentSonNum <= lmaNodesLe0.Length
      requires level > 0 ==> lmaNdsUsedNumGe1 + parentSonNum <= lmaNodesGe1.Length
      requires level > 0 ==> lmaNdsUsedNumGe1 < OFFSET_LIMIT
      modifies this`lmaNdsUsedNumLe0, this`lmaNdsUsedNumGe1, lmaNodesLe0, lmaNodesGe1
      ensures Valid()
      ensures first == old(Used(level)) && StillZero(Snapshot(), level, first, first + parentSonNum)
      ensures lmaNdsUsedNumLe0 == old(lmaNdsUsedNumLe0) + if level == 0 then parentSonNum else 0
      ensures lmaNdsUsedNumGe1 == old(lmaNdsUsedNumGe1) + if level == 0 then 0 else parentSonNum
      ensures ParentUpdated(old(Snapshot()), Snapshot(), parent, level, first, parentSonNum)
      ensures OnlyChanged(old(Snapshot()), Snapshot(), ParentLevel(level), parent, parent + 1, lmaNodesGe1.Length)
    {
      if level == 0 {
        first := lmaNdsUsedNumLe0;
        lmaNodesLe0[parent] := lmaNodesLe0[parent].(son1stOff := first, numOfSon := parentSonNum);
        lmaNdsUsedNumLe0 := lmaNdsUsedNumLe0 + parentSonNum;
      } else if level == 1 {
        first := lmaNdsUsedNumGe1;
        lmaNodesLe0[parent] := lmaNodesLe0[parent].(son1stOff := first, numOfSon := parentSonNum);
        lmaNdsUsedNumGe1 := lmaNdsUsedNumGe1 + parentSonNum;
      } else {
        first := lmaNdsUsedNumGe1;
        StoreSonOffset(parent, first);
        lmaNodesGe1[parent] := lmaNodesGe1[parent].(numOfSon := parentSonNum);
        lmaNdsUsedNumGe1 := lmaNdsUsedNumGe1 + parentSonNum;
      }
    }

    method CopyIds(idxBuf: nat, start: nat, homoNum: nat)
      requires idxBuf + homoNum <= homoIdxBuf.Length && start + homoNum <= |lemmaArr|
      modifies homoIdxBuf
      ensures forall k | idxBuf <= k < idxBuf + homoNum :: homoIdxBuf[k] == lemmaArr[start + (k - idxBuf)].idxByHz
      ensures forall k | 0 <= k < homoIdxBuf.Length && !(idxBuf <= k < idxBuf + homoNum) :: homoIdxBuf[k] == old(homoIdxBuf[k])
    {
      for homoPos := 0 to homoNum
        invariant forall k | idxBuf <= k < idxBuf + homoPos :: homoIdxBuf[k] == lemmaArr[start + (k - idxBuf)].idxByHz
        invariant forall k | 0 <= k < homoIdxBuf.Length && !(idxBuf <= k < idxBuf + homoPos) :: homoIdxBuf[k] == old(homoIdxBuf[k])
      {
        homoIdxBuf[idxBuf + homoPos] := lemmaArr[start + homoPos].idxByHz;
      }
    }

    /** A first-layer node for one group, with its homophones copied. */
    method FillNodeLe0(v: nat, splIdxNode: uint16, start: nat, homoNum: nat)
      requires Valid()
      requires v < lmaNdsUsedNumLe0 && StillZero(Snapshot(), 0, v, v + 1)
      requires start == homoIdxNumEq1 + homoIdxNumGt1
      requires start + homoNum <= |lemmaArr| && homoNum <= HomoLimit(0)
      modifies this`homoIdxNumEq1, lmaNodesLe0, homoIdxBuf
      ensures Valid()
      ensures homoIdxNumEq1 == old(homoIdxNumEq1) + homoNum
      ensures NodeFilled(Snapshot(), v, 0, splIdxNode, start, homoNum)
      ensures OnlyChanged(old(Snapshot()), Snapshot(), 0, v, v + 1, lmaNodesGe1.Length)
    {
      assert lmaNodesLe0[..][v] == ZERO_LE0;
      lmaNodesLe0[v] := lmaNodesLe0[v].(splIdx := splIdxNode, homoIdxBufOff := homoIdxNumEq1 + homoIdxNumGt1, son1stOff := 0);
      homoIdxNumEq1 := homoIdxNumEq1 + homoNum;
      if homoNum > 0 {
        lmaNodesLe0[v] := lmaNodesLe0[v].(numOfHomo := homoNum);
        CopyIds(homoIdxNumEq1 + homoIdxNumGt1 - homoNum, start, homoNum);
      }
    }

    method StoreGe1(v: nat, splIdxNode: uint16, off: nat, homoNum: nat)
      requires v < lmaNodesGe1.Length && lmaNodesGe1[v] == ZERO_GE1 && homoNum <= HomoLimit(1) && off < OFFSET_LIMIT
      modifies lmaNodesGe1
      ensures lmaNodesGe1[v].splIdx == splIdxNode && lmaNodesGe1[v].numOfHomo == homoNum && lmaNodesGe1[v].numOfSon == 0
      ensures GetHomoIdxBufOffset(lmaNodesGe1[v]) == off && GetSonOffset(lmaNodesGe1[v]) == 0
      ensures forall k | 0 <= k < lmaNodesGe1.Length && k != v :: lmaNodesGe1[k] == old(lmaNodesGe1[k])
    {
      var node := lmaNodesGe1[v];
      lmaNodesGe1[v] := node.(splIdx := splIdxNode, numOfHomo := if homoNum > 0 then homoNum else node.numOfHomo);
      StoreHomoIdBufOffset(v, off);
      StoreSonOffset(v, 0);
    }

    /** A deeper node for one group, with its homophones copied. */
    method FillNodeGe1(v: nat, splIdxNode: uint16, start: nat, homoNum: nat, ghost level: nat)
      requires Valid() && level > 0
      requires v < lmaNdsUsedNumGe1 && StillZero(Snapshot(), level, v, v + 1)
      requires start == homoIdxNumEq1 + homoIdxNumGt1 < OFFSET_LIMIT
      requires start + homoNum <= |lemmaArr| && homoNum <= HomoLimit(level)
      modifies this`homoIdxNumGt1, lmaNodesGe1, homoIdxBuf
      ensures Valid()
      ensures homoIdxNumGt1 == old(homoIdxNumGt1) + homoNum
      ensures NodeFilled(Snapshot(), v, level, splIdxNode, start, homoNum)
      ensures OnlyChanged(old(Snapshot()), Snapshot(), level, v, v + 1, lmaNodesGe1.Length)
    {
      assert lmaNodesGe1[..][v] == ZERO_GE1;
      var off := homoIdxNumEq1 + homoIdxNumGt1;
      assert off == start;
      StoreGe1(v, splIdxNode, off, homoNum);
      homoIdxNumGt1 := homoIdxNumGt1 + homoNum;
      if homoNum > 0 {
        CopyIds(homoIdxNumEq1 + homoIdxNumGt1 - homoNum, start, homoNum);
      }
    }

    method FillNode(v: nat, splIdxNode: uint16, start: nat, homoNum: nat, level: nat)
      requires Valid()
      requires v < Used(level) && StillZero(Snapshot(), level, v, v + 1)
      requires start == homoIdxNumEq1 + homoIdxNumGt1 < OFFSET_LIMIT
      requires start + homoNum <= |lemmaArr| && homoNum <= HomoLimit(level)
      modifies this`homoIdxNumEq1, this`homoIdxNumGt1, lmaNodesLe0, lmaNodesGe1, homoIdxBuf
      ensures Valid()
      ensures homoIdxNumEq1 == old(homoIdxNumEq1) + if level == 0 then homoNum else 0
      ensures homoIdxNumGt1 == old(homoIdxNumGt1) + if level == 0 then 0 else homoNum
      ensures NodeFilled(Snapshot(), v, level, splIdxNode, start, homoNum)
      ensures OnlyChanged(old(Snapshot()), Snapshot(), level, v, v + 1, lmaNodesGe1.Length)
    {
      if level == 0 {
        FillNodeLe0(v, splIdxNode, start, homoNum);
      } else {
        FillNodeGe1(v, splIdxNode, start, homoNum, level);
      }
    }

    /** Third step: the node of the group `start..end`, and everything below it. */
    method ConstructSon(v: nat, start: nat, end: nat, homoNum: nat, level: nat)
      requires Valid()
      requires start < end <= |lemmaArr| && level < K_MAX_LEMMA_SIZE
      requires SharedPrefix(lemmaArr, start, end, level) && GroupEnd(lemmaArr, start, end, level) == end
      requires NodeFits(lemmaArr, start, end, level)
      requires homoNum == HomoEnd(lemmaArr, start, end, level) - start
      requires start == homoIdxNumEq1 + homoIdxNumGt1
      requires v < Used(level) && StillZero(Snapshot(), level, v, v + 1)
      requires lmaNdsUsedNumGe1 + Below(lemmaArr, start, end, level) <= lmaNodesGe1.Length
      modifies this, lmaNodesLe0, lmaNodesGe1, homoIdxBuf
      ensures Valid()
      ensures homoIdxNumEq1 + homoIdxNumGt1 == end
      ensures lmaNdsUsedNumLe0 == old(lmaNdsUsedNumLe0)
      ensures lmaNdsUsedNumGe1 == old(lmaNdsUsedNumGe1) + Below(lemmaArr, start, end, level)
      ensures RepNode(Snapshot(), lemmaArr, start, end, level, v, old(lmaNdsUsedNumGe1))
      ensures OnlyChanged(old(Snapshot()), Snapshot(), level, v, v + 1, old(lmaNdsUsedNumGe1))
      decreases K_MAX_LEMMA_SIZE - level, end - start, 0
    {
      hide OnlyChanged, ParentUpdated, NodeFilled, RepNode, BlockFits, GoesOn;
      ghost var t, u := Snapshot(), lmaNdsUsedNumGe1;
      FillNode(v, SplIdx(lemmaArr[start], level), start, homoNum, level);
      ghost var t' := Snapshot();
      GroupShares(lemmaArr, start, end, level, start, end);
      if end - start > homoNum {
        var h := start + homoNum;
        assert h == HomoEnd(lemmaArr, start, end, level);
        ghost var sons := GroupCount(lemmaArr, h, end, level + 1);
        ghost var u' := u + sons;
        var ok := ConstructSubset(v, h, end, level + 1, u');
        NodeBuilt(t', Snapshot(), lemmaArr, start, h, end, level, v, u, sons, u');
      } else {
        LeafBuilt(t', lemmaArr, start, end, level, v, u);
      }
      ChangesCompose(t, t', Snapshot(), level, v, v + 1, v, v + 1, lmaNodesGe1.Length, u);
    }

    /** The sons for `lo..s` are complete, and the counters say so. */
    ghost predicate BlockBuilt(t0: Nodes, lo: nat, s: nat, level: nat, first: nat, end: nat, u: nat, sonPos: nat)
      requires s <= |lemmaArr|
      reads this, lmaNodesLe0, lmaNodesGe1
    {
      && homoIdxNumEq1 + homoIdxNumGt1 == s
      && lmaNdsUsedNumGe1 == u + Descendants(lemmaArr, lo, s, level)
      && SonsBuilt(t0, Snapshot(), lemmaArr, lo, s, level, first, end, u, sonPos)
    }

    /** The block of the sons for `lo..start` grows by the son for `start..end`. */
    method ConstructNextSon(ghost t0: Nodes, ghost lo: nat, ghost hi: nat, first: nat, ghost last: nat, sonPos: nat, ghost u: nat,
                            start: nat, end: nat, homoNum: nat, level: nat)
      requires Valid()
      requires CanBuild(lo, hi, level, first, last, u)
      requires GroupOpen(lemmaArr, lo, start, end, hi, level, homoNum)
      requires end < hi ==> SplIdx(lemmaArr[end], level) != SplIdx(lemmaArr[start], level)
      requires BlockBuilt(t0, lo, start, level, first, last, u, sonPos)
      modifies this, lmaNodesLe0, lmaNodesGe1, homoIdxBuf
      ensures Valid() && lmaNdsUsedNumLe0 == old(lmaNdsUsedNumLe0)
      ensures BlockBuilt(t0, lo, end, level, first, last, u, sonPos + 1)
      decreases K_MAX_LEMMA_SIZE - level, end - start, 1
    {
      ghost var t, w := Snapshot(), lmaNdsUsedNumGe1;
      SubgroupReady(lemmaArr, lo, start, end, hi, level);
      var v := first + sonPos;
      ConstructSon(v, start, end, homoNum, level);
      BlockGrows(t0, t, Snapshot(), lemmaArr, lo, start, end, level, first, last, u, sonPos, v, w);
    }

    /** What all sons of `lo..hi` at `level` need: ids in common, counts that fit, and node space. */
    ghost predicate CanBuild(lo: nat, hi: nat, level: nat, first: nat, last: nat, u: nat)
      reads this
    {
      && lo < hi <= |lemmaArr| && level < K_MAX_LEMMA_SIZE
      && SharedPrefix(lemmaArr, lo, hi, level) && GroupsFit(lemmaArr, lo, hi, level)
      && last == first + GroupCount(lemmaArr, lo, hi, level) == (if level == 0 then lmaNdsUsedNumLe0 else u)
      && u + Descendants(lemmaArr, lo, hi, level) <= lmaNodesGe1.Length
    }

    /** One round of the scan: lemma `i` continues the open group or closes it. */
    method ScanItem(ghost t0: Nodes, ghost lo: nat, ghost hi: nat, first: nat, ghost last: nat, ghost u: nat, i: nat,
                    sonPos: nat, itemStartNext: nat, homoNum: nat, level: nat)
      returns (sonPos': nat, itemStartNext': nat, homoNum': nat)
      requires Valid() && CanBuild(lo, hi, level, first, last, u)
      requires GroupOpen(lemmaArr, lo, itemStartNext, i, hi, level, homoNum) && i < hi
      requires BlockBuilt(t0, lo, itemStartNext, level, first, last, u, sonPos)
      modifies this, lmaNodesLe0, lmaNodesGe1, homoIdxBuf
      ensures Valid() && lmaNdsUsedNumLe0 == old(lmaNdsUsedNumLe0)
      ensures GroupOpen(lemmaArr, lo, itemStartNext', i + 1, hi, level, homoNum')
      ensures BlockBuilt(t0, lo, itemStartNext', level, first, last, u, sonPos')
      decreases K_MAX_LEMMA_SIZE - level, i - itemStartNext, 2
    {
      GroupStep(lemmaArr, lo, itemStartNext, i, hi, level, homoNum);
      if SplIdx(lemmaArr[i], level) == SplIdx(lemmaArr[itemStartNext], level) {
        sonPos', itemStartNext', homoNum' := sonPos, itemStartNext, homoNum + One(SplIdx(lemmaArr[i], level + 1) == 0);
      } else {
        ConstructNextSon(t0, lo, hi, first, last, sonPos, u, itemStartNext, i, homoNum, level);
        sonPos', itemStartNext', homoNum' := sonPos + 1, i, One(SplIdx(lemmaArr[i], level + 1) == 0);
      }
    }

    /** The sons for all groups of `itemStart..itemEnd` but the last one, which is left open. */
    method ScanSons(first: nat, ghost last: nat, ghost u: nat, itemStart: nat, itemEnd: nat, level: nat)
      returns (sonPos: nat, itemStartNext: nat, homoNum: nat)
      requires Valid() && CanBuild(itemStart, itemEnd, level, first, last, u)
      requires BlockBuilt(Snapshot(), itemStart, itemStart, level, first, last, u, 0)
      modifies this, lmaNodesLe0, lmaNodesGe1, homoIdxBuf
      ensures Valid() && lmaNdsUsedNumLe0 == old(lmaNdsUsedNumLe0)
      ensures GroupOpen(lemmaArr, itemStart, itemStartNext, itemEnd, itemEnd, level, homoNum)
      ensures BlockBuilt(old(Snapshot()), itemStart, itemStartNext, level, first, last, u, sonPos)
      decreases K_MAX_LEMMA_SIZE - level, itemEnd - itemStart, 3
    {
      ghost var t0 := Snapshot();
      sonPos, itemStartNext, homoNum := 0, itemStart, One(SplIdx(lemmaArr[itemStart], level + 1) == 0);
      for i := itemStart + 1 to itemEnd
        invariant Valid() && lmaNdsUsedNumLe0 == old(lmaNdsUsedNumLe0)
        invariant GroupOpen(lemmaArr, itemStart, itemStartNext, i, itemEnd, level, homoNum)
        invariant BlockBuilt(t0, itemStart, itemStartNext, level, first, last, u, sonPos)
      {
        sonPos, itemStartNext, homoNum :=
          ScanItem(t0, itemStart, itemEnd, first, last, u, i, sonPos, itemStartNext, homoNum, level);
      }
    }

    /** Third and fourth step: the sons for all groups of `itemStart..itemEnd`. */
    method ConstructSons(first: nat, ghost last: nat, ghost u: nat, itemStart: nat, itemEnd: nat, level: nat) returns (sonNum: nat)
      requires Valid() && CanBuild(itemStart, itemEnd, level, first, last, u)
      requires BlockBuilt(Snapshot(), itemStart, itemStart, level, first, last, u, 0)
      modifies this, lmaNodesLe0, lmaNodesGe1, homoIdxBuf
      ensures Valid() && lmaNdsUsedNumLe0 == old(lmaNdsUsedNumLe0)
      ensures BlockBuilt(old(Snapshot()), itemStart, itemEnd, level, first, last, u, sonNum)
      decreases K_MAX_LEMMA_SIZE - level, itemEnd - itemStart, 4
    {
      ghost var t := Snapshot();
      var sonPos, itemStartNext, homoNum := ScanSons(first, last, u, itemStart, itemEnd, level);
      ConstructNextSon(t, itemStart, itemEnd, first, last, sonPos, u, itemStartNext, itemEnd, homoNum, level);
      sonNum := sonPos + 1;
    }

    /** `construct_subset`: the sons of `parent` for the lemmas `itemStart..itemEnd`. */
    method ConstructSubset(parent: nat, itemStart: nat, itemEnd: nat, level: nat, ghost u: nat) returns (ok: bool)
      requires Valid()
      requires itemEnd <= |lemmaArr|
      requires itemStart < itemEnd && level < K_MAX_LEMMA_SIZE ==>
        && SharedPrefix(lemmaArr, itemStart, itemEnd, level) && BlockFits(lemmaArr, itemStart, itemEnd, level)
        && itemStart == homoIdxNumEq1 + homoIdxNumGt1
        && parent < (if level <= 1 then lmaNdsUsedNumLe0 else lmaNdsUsedNumGe1)
        && var sons := GroupCount(lemmaArr, itemStart, itemEnd, level);
           && (level == 0 ==> lmaNdsUsedNumLe0 + sons <= lmaNodesLe0.Length)
           && u == lmaNdsUsedNumGe1 + (if level == 0 then 0 else sons)
           && u + Descendants(lemmaArr, itemStart, itemEnd, level) <= lmaNodesGe1.Length
      modifies this, lmaNodesLe0, lmaNodesGe1, homoIdxBuf
      ensures Valid()
      ensures ok == (itemStart < itemEnd && level < K_MAX_LEMMA_SIZE)
      ensures ok ==>
        var sons := GroupCount(lemmaArr, itemStart, itemEnd, level);
        && homoIdxNumEq1 + homoIdxNumGt1 == itemEnd
        && RepBlock(Snapshot(), lemmaArr, itemStart, itemEnd, level, old(Used(level)), u)
        && lmaNdsUsedNumLe0 == old(lmaNdsUsedNumLe0) + (if level == 0 then sons else 0)
        && lmaNdsUsedNumGe1 == u + Descendants(lemmaArr, itemStart, itemEnd, level)
        && ParentUpdated(old(Snapshot()), Snapshot(), parent, level, old(Used(level)), sons)
      ensures level > 0 ==> OnlyChanged(old(Snapshot()), Snapshot(), ParentLevel(level), parent, parent + 1, old(lmaNdsUsedNumGe1))
      decreases K_MAX_LEMMA_SIZE - level, itemEnd - itemStart, 5
    {
      if level >= K_MAX_LEMMA_SIZE || itemEnd <= itemStart {
        return false;
      }
      ghost var t, w := Snapshot(), lmaNdsUsedNumGe1;
      var parentSonNum := CountSons(itemStart, itemEnd, level);
      var first := AllocateSons(parent, parentSonNum, level);
      ghost var t', last := Snapshot(), first + parentSonNum;
      var sonNum := ConstructSons(first, last, u, itemStart, itemEnd, level);
      ParentStays(t, t', Snapshot(), parent, level, first, last, parentSonNum, u, w);
      assert sonNum == parentSonNum;
      return true;
    }

    /** `alloc_resource`: zeroed buffers for `lmaNum` lemmas. */
    constructor (lemmas: seq<LemmaEntry>, lmaNum: nat)
      requires ValidLemmas(lemmas) && |lemmas| <= lmaNum <= OFFSET_LIMIT
      ensures Valid() && lemmaArr == lemmas
      ensures lmaNodesLe0.Length == K_MAX_SPELLING_NUM + 1 && lmaNodesGe1.Length == lmaNum
      ensures fresh(lmaNodesLe0) && fresh(lmaNodesGe1) && fresh(homoIdxBuf)
      ensures lmaNdsUsedNumLe0 == 0 && lmaNdsUsedNumGe1 == 0 && homoIdxNumEq1 == 0 && homoIdxNumGt1 == 0
    {
      lemmaArr := lemmas;
      lmaNodesLe0 := new LmaNodeLE0[K_MAX_SPELLING_NUM + 1](_ => ZERO_LE0);
      lmaNodesGe1 := new LmaNodeGE1[lmaNum](_ => ZERO_GE1);
      homoIdxBuf := new nat[lmaNum](_ => 0);
      lmaNdsUsedNumLe0, lmaNdsUsedNumGe1, homoIdxNumEq1, homoIdxNumGt1 := 0, 0, 0, 0;
    }

    /** The construction proper of `build_dict`: one root node, then everything below it. */
    method BuildTrie() returns (trie: Nodes, ids: seq<nat>)
      requires Valid() && lemmaArr != []
      requires lmaNdsUsedNumLe0 == 0 && lmaNdsUsedNumGe1 == 0 && homoIdxNumEq1 == 0 && homoIdxNumGt1 == 0
      requires BlockFits(lemmaArr, 0, |lemmaArr|, 0)
      requires 1 + GroupCount(lemmaArr, 0, |lemmaArr|, 0) <= lmaNodesLe0.Length
      requires Descendants(lemmaArr, 0, |lemmaArr|, 0) <= lmaNodesGe1.Length
      modifies this, lmaNodesLe0, lmaNodesGe1, homoIdxBuf
      ensures Packed(trie, lemmaArr)
      ensures |ids| == |lemmaArr| && forall k | 0 <= k < |ids| :: ids[k] == lemmaArr[k].idxByHz
    {
      lmaNdsUsedNumLe0 := 1;
      AllShareNothing(lemmaArr);
      var ok := ConstructSubset(0, 0, |lemmaArr|, 0, 0);
      ghost var t := Snapshot();
      trie := Nodes(lmaNodesLe0[..lmaNdsUsedNumLe0], lmaNodesGe1[..lmaNdsUsedNumGe1]);
      ids := homoIdxBuf[..homoIdxNumEq1 + homoIdxNumGt1];
      BlockTrim(t, trie, lemmaArr, 0, |lemmaArr|, 0, 1, 0);
    }
  }
}
