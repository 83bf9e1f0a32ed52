/** The data layout shared by the dictionary builder and the dictionary trie. */
module DictDef {

  type uint8 = x: int | 0 <= x < 0x100
  type uint16 = x: int | 0 <= x < 0x1_0000

  /** Longest lemma, in Hanzis. */
  const K_MAX_LEMMA_SIZE: nat := 8
  /** Most full spellings that the first layer has to hold: 512 - 29 - 1. */
  const K_MAX_SPELLING_NUM: nat := 482
  /** Ids below this one are half spelling ids; 0 is no id at all. */
  const K_FULL_SPL_ID_START: nat := 30
  /** A lemma id occupies three bytes in the id buffer. */
  const K_LEMMA_ID_SIZE: nat := 3
  const OFFSET_LIMIT: nat := 0x100_0000

  /** Node of the root layer and of the first layer. */
  datatype LmaNodeLE0 = LmaNodeLE0(
    son1stOff: nat,
    homoIdxBufOff: nat,
    splIdx: uint16,
    numOfSon: uint16,
    numOfHomo: uint16)

  /** Node of every deeper layer; both offsets are split over a low half word and a high byte. */
  datatype LmaNodeGE1 = LmaNodeGE1(
    son1stOffL: uint16,
    homoIdxBufOffL: uint16,
    splIdx: uint16,
    numOfSon: uint8,
    numOfHomo: uint8,
    son1stOffH: uint8,
    homoIdxBufOffH: uint8)

  /** What memset leaves in a node buffer. */
  const ZERO_LE0 := LmaNodeLE0(0, 0, 0, 0, 0)
  const ZERO_GE1 := LmaNodeGE1(0, 0, 0, 0, 0, 0, 0)

  /** The cast `static_cast<uint16>(offset)`. */
  function LowHalf(offset: nat): uint16 { offset % 0x1_0000 }

  /** The cast `static_cast<unsigned char>(offset >> 16)`. */
  function HighByte(offset: nat): uint8 { offset / 0x1_0000 % 0x100 }

  function SetSonOffset(node: LmaNodeGE1, offset: nat): LmaNodeGE1 {
    node.(son1stOffL := LowHalf(offset), son1stOffH := HighByte(offset))
  }

  function SetHomoIdBufOffset(node: LmaNodeGE1, offset: nat): LmaNodeGE1 {
    node.(homoIdxBufOffL := LowHalf(offset), homoIdxBufOffH := HighByte(offset))
  }

  /** `l + (h << 16)`, the sum of `l` and `h` times 65536. */
  function PlusHigh(l: nat, h: nat): nat {
    if h == 0 then l else 0x1_0000 + PlusHigh(l, h - 1)
  }

  lemma {:induction false} PlusHighValue(l: nat, h: nat)
    ensures PlusHigh(l, h) == l + h * 0x1_0000
  {
    if h > 0 {
      PlusHighValue(l, h - 1);
    }
  }

  function GetSonOffset(node: LmaNodeGE1): nat {
    PlusHigh(node.son1stOffL, node.son1stOffH)
  }

  function GetHomoIdxBufOffset(node: LmaNodeGE1): nat {
    PlusHigh(node.homoIdxBufOffL, node.homoIdxBufOffH)
  }

  /** A stored offset is read back, and the other offset stays, exactly when it fits in 24 bits. */
  lemma OffsetRoundTrip(node: LmaNodeGE1, offset: nat)
    ensures GetSonOffset(SetSonOffset(node, offset)) == offset <==> offset < OFFSET_LIMIT
    ensures GetHomoIdxBufOffset(SetHomoIdBufOffset(node, offset)) == offset <==> offset < OFFSET_LIMIT
    ensures GetHomoIdxBufOffset(SetSonOffset(node, offset)) == GetHomoIdxBufOffset(node)
    ensures GetSonOffset(SetHomoIdBufOffset(node, offset)) == GetSonOffset(node)
  {
    assert offset == offset % 0x1_0000 + 0x1_0000 * (offset / 0x1_0000);
    PlusHighValue(LowHalf(offset), HighByte(offset));
  }

  /** Two nodes that differ in the sons only. */
  ghost predicate SameButSons(n: LmaNodeGE1, n': LmaNodeGE1) {
    n'.splIdx == n.splIdx && n'.numOfHomo == n.numOfHomo && GetHomoIdxBufOffset(n') == GetHomoIdxBufOffset(n)
  }

  /** One raw dictionary entry: its spelling ids, one per Hanzi, its frequency, its id and its Hanzis. */
  datatype LemmaEntry = LemmaEntry(spls: seq<uint16>, freq: nat, idxByHz: nat, hanzis: seq<uint16>)

  /** `spl_idx_arr[k]`: the array has room for a terminator and is zero behind the last id. */
  function SplIdx(l: LemmaEntry, k: nat): uint16 {
    if k < |l.spls| then l.spls[k] else 0
  }

  ghost predicate ValidEntry(l: LemmaEntry) {
    && 1 <= |l.spls| <= K_MAX_LEMMA_SIZE
    && (forall k | 0 <= k < |l.spls| :: l.spls[k] != 0)
  }

  /** Character `k` of a string whose array is zero behind its end. */
  function CharAt(s: seq<uint16>, k: nat): uint16 {
    if k < |s| then s[k] else 0
  }

  /** `utf16_strcmp` from position `pos` on. */
  function StrCmp(a: seq<uint16>, b: seq<uint16>, pos: nat): int
    decreases |a| - pos
  {
    if CharAt(a, pos) == CharAt(b, pos) && CharAt(a, pos) != 0
    then StrCmp(a, b, pos + 1)
    else CharAt(a, pos) - CharAt(b, pos)
  }

  /** `compare_py`: spelling ids first, then the higher frequency first. */
  function ComparePy(a: LemmaEntry, b: LemmaEntry): int {
    var ret := StrCmp(a.spls, b.spls, 0);
    if ret != 0 then ret else b.freq - a.freq
  }

  /** `cmp_lemma_entry_hzs`: fewer Hanzis first, then by the Hanzis. */
  function CompareHzs(a: LemmaEntry, b: LemmaEntry): int {
    if |a.hanzis| != |b.hanzis| then |a.hanzis| - |b.hanzis| else StrCmp(a.hanzis, b.hanzis, 0)
  }

  /** What `myqsort(lemma_arr_, lemma_num_, sizeof(LemmaEntry), compare_py)` leaves. */
  ghost predicate SortedByPy(ls: seq<LemmaEntry>) {
    forall i, j | 0 <= i < j < |ls| :: InPyOrder(ls, i, j)
  }

  ghost predicate InPyOrder(ls: seq<LemmaEntry>, i: nat, j: nat)
    requires i < |ls| && j < |ls|
  {
    ComparePy(ls[i], ls[j]) <= 0
  }

  ghost predicate ValidLemmas(ls: seq<LemmaEntry>) {
    && (forall i | 0 <= i < |ls| :: ValidEntry(ls[i]))
    && SortedByPy(ls)
  }

  /** `a` and `b` have the same first `k` spelling ids, none of them the terminator. */
  ghost predicate SamePrefix(a: LemmaEntry, b: LemmaEntry, k: nat) {
    k <= |a.spls| && k <= |b.spls| && a.spls[..k] == b.spls[..k]
  }

  lemma {:induction false} StrCmpSkip(a: LemmaEntry, b: LemmaEntry, pos: nat, k: nat)
    requires ValidEntry(a) && ValidEntry(b) && SamePrefix(a, b, k) && pos <= k
    ensures StrCmp(a.spls, b.spls, pos) == StrCmp(a.spls, b.spls, k)
    decreases k - pos
  {
    if pos < k {
      assert a.spls[pos] == a.spls[..k][pos] == b.spls[pos];
      StrCmpSkip(a, b, pos + 1, k);
    }
  }

  /** Behind a shared prefix the next spelling ids of a sorted list ascend; 0 comes first. */
  lemma NextSplAscends(ls: seq<LemmaEntry>, i: nat, j: nat, k: nat)
    requires ValidLemmas(ls) && i <= j < |ls| && SamePrefix(ls[i], ls[j], k)
    ensures SplIdx(ls[i], k) <= SplIdx(ls[j], k)
  {
    if i < j {
      assert InPyOrder(ls, i, j);
      StrCmpSkip(ls[i], ls[j], 0, k);
    }
  }

  lemma {:induction false} StrCmpAntisymmetric(a: seq<uint16>, b: seq<uint16>, pos: nat)
    ensures StrCmp(a, b, pos) == -StrCmp(b, a, pos)
    decreases |a| - pos
  {
    if CharAt(a, pos) == CharAt(b, pos) && CharAt(a, pos) != 0 {
      StrCmpAntisymmetric(a, b, pos + 1);
    }
  }

  lemma {:induction false} StrCmpTransitive(a: seq<uint16>, b: seq<uint16>, c: seq<uint16>, pos: nat)
    requires StrCmp(a, b, pos) <= 0 && StrCmp(b, c, pos) <= 0
    ensures StrCmp(a, c, pos) <= 0
    ensures StrCmp(a, b, pos) < 0 || StrCmp(b, c, pos) < 0 ==> StrCmp(a, c, pos) < 0
    decreases |a| - pos
  {
    if CharAt(a, pos) == CharAt(b, pos) == CharAt(c, pos) && CharAt(a, pos) != 0 {
      StrCmpTransitive(a, b, c, pos + 1);
    }
  }

  /** The orders that `qsort` is given are total preorders. */
  lemma ComparePyTotal(a: LemmaEntry, b: LemmaEntry)
    ensures ComparePy(a, b) <= 0 || ComparePy(b, a) <= 0
  {
    StrCmpAntisymmetric(a.spls, b.spls, 0);
  }

  lemma ComparePyTransitive(a: LemmaEntry, b: LemmaEntry, c: LemmaEntry)
    requires ComparePy(a, b) <= 0 && ComparePy(b, c) <= 0
    ensures ComparePy(a, c) <= 0
  {
    StrCmpTransitive(a.spls, b.spls, c.spls, 0);
  }

  lemma CompareHzsTotal(a: LemmaEntry, b: LemmaEntry)
    ensures CompareHzs(a, b) <= 0 || CompareHzs(b, a) <= 0
  {
    StrCmpAntisymmetric(a.hanzis, b.hanzis, 0);
  }

  lemma CompareHzsTransitive(a: LemmaEntry, b: LemmaEntry, c: LemmaEntry)
    requires CompareHzs(a, b) <= 0 && CompareHzs(b, c) <= 0
    ensures CompareHzs(a, c) <= 0
  {
    if |a.hanzis| == |b.hanzis| == |c.hanzis| {
      StrCmpTransitive(a.hanzis, b.hanzis, c.hanzis, 0);
    }
  }

  // ----- what the orders mean -----

  /** `a` comes before `b` in the order of a dictionary: where they first differ, `a` ends or has the smaller element. */
  ghost predicate LexBefore(a: seq<uint16>, b: seq<uint16>) {
    exists p: nat :: FirstDifference(a, b, p)
  }

  ghost predicate FirstDifference(a: seq<uint16>, b: seq<uint16>, p: nat) {
    p <= |a| && p < |b| && a[..p] == b[..p] && (p < |a| ==> a[p] < b[p])
  }

  ghost predicate NoTerminator(s: seq<uint16>) {
    forall k | 0 <= k < |s| :: s[k] != 0
  }

  lemma {:induction false} StrCmpMeansFrom(a: seq<uint16>, b: seq<uint16>, pos: nat)
    requires NoTerminator(a) && NoTerminator(b) && pos <= |a| && pos <= |b| && a[..pos] == b[..pos]
    ensures StrCmp(a, b, pos) < 0 ==> LexBefore(a, b)
    ensures StrCmp(a, b, pos) == 0 ==> a == b
    ensures StrCmp(a, b, pos) > 0 ==> LexBefore(b, a)
    decreases |a| - pos
  {
    if CharAt(a, pos) == CharAt(b, pos) && CharAt(a, pos) != 0 {
      assert a[..pos + 1] == a[..pos] + [a[pos]] == b[..pos + 1];
      StrCmpMeansFrom(a, b, pos + 1);
    } else if CharAt(a, pos) == CharAt(b, pos) {
      assert a == a[..pos] && b == b[..pos];
    } else {
      assert FirstDifference(a, b, pos) || FirstDifference(b, a, pos);
    }
  }

  lemma AgreeBelow(a: seq<uint16>, b: seq<uint16>, p: nat, m: nat)
    requires m < p <= |a| && p <= |b| && a[..p] == b[..p]
    ensures a[m] == b[m]
  {
    assert a[..p][m] == b[..p][m];
  }

  lemma LexExclusive(a: seq<uint16>, b: seq<uint16>)
    ensures !(LexBefore(a, b) && LexBefore(b, a))
  {
    if LexBefore(a, b) && LexBefore(b, a) {
      var p: nat :| FirstDifference(a, b, p);
      var q: nat :| FirstDifference(b, a, q);
      if p < q {
        AgreeBelow(b, a, q, p);
      } else if q < p {
        AgreeBelow(a, b, p, q);
      }
    }
  }

  /** The comparison of strings that have no terminator inside is the order of a dictionary. */
  lemma StrCmpMeans(a: seq<uint16>, b: seq<uint16>)
    requires NoTerminator(a) && NoTerminator(b)
    ensures StrCmp(a, b, 0) < 0 <==> LexBefore(a, b)
    ensures StrCmp(a, b, 0) == 0 <==> a == b
  {
    StrCmpMeansFrom(a, b, 0);
    LexExclusive(a, b);
    if a == b {
      StrCmpAntisymmetric(a, b, 0);
    }
  }

  /** The first order is by spelling; of the same spelling the more frequent lemma comes first. */
  lemma ComparePyMeans(a: LemmaEntry, b: LemmaEntry)
    requires ValidEntry(a) && ValidEntry(b)
    ensures ComparePy(a, b) <= 0 <==> LexBefore(a.spls, b.spls) || (a.spls == b.spls && a.freq >= b.freq)
  {
    StrCmpMeans(a.spls, b.spls);
    LexExclusive(a.spls, b.spls);
  }

  /** The second order is by length, and then that of a dictionary. */
  lemma CompareHzsMeans(a: LemmaEntry, b: LemmaEntry)
    requires NoTerminator(a.hanzis) && NoTerminator(b.hanzis)
    ensures CompareHzs(a, b) <= 0 <==>
      |a.hanzis| < |b.hanzis| || (|a.hanzis| == |b.hanzis| && (a.hanzis == b.hanzis || LexBefore(a.hanzis, b.hanzis)))
  {
    StrCmpMeans(a.hanzis, b.hanzis);
  }
}
