/** Looking up words in the packed list by how they begin: the words that a history of Hanzis may go on with. */
module DictPredict {
  import opened DictDef
  import opened MyStdlib
  import opened DictLists

  type Word = seq<uint16>

  /** `cmp_hanzis_n` */
  function CmpHanzis(a: Word, b: Word, n: nat): int
    requires n <= |a| && n <= |b|
  {
    StrCmp(a[..n], b[..n], 0)
  }

  /** The words of one length ascend, and no Hanzi is the terminator. */
  ghost predicate WordsSorted(hs: seq<LemmaEntry>) {
    && (forall i: nat, j: nat | i < j < |hs| && |hs[i].hanzis| == |hs[j].hanzis| :: StrCmp(hs[i].hanzis, hs[j].hanzis, 0) <= 0)
    && forall i: nat | i < |hs| :: NoZero(hs[i].hanzis)
  }

  /** Sorting by `cmp_lemma_entry_hzs` makes it so. */
  lemma SortedWords(hs: seq<LemmaEntry>)
    requires Sorted(hs, CompareHzs) && forall i: nat | i < |hs| :: NoZero(hs[i].hanzis)
    ensures WordsSorted(hs)
  {
    forall i: nat, j: nat | i < j < |hs| && |hs[i].hanzis| == |hs[j].hanzis| ensures StrCmp(hs[i].hanzis, hs[j].hanzis, 0) <= 0 {
      assert InOrder(hs, CompareHzs, i, j);
    }
  }

  ghost predicate NoZero(s: Word) { forall k: nat | k < |s| :: s[k] != 0 }

  lemma {:induction false} CmpZero(a: Word, b: Word, pos: nat)
    requires NoZero(a) && NoZero(b) && pos <= |a| == |b|
    ensures StrCmp(a, b, pos) == 0 <==> a[pos..] == b[pos..]
    decreases |a| - pos
  {
    if pos < |a| {
      assert a[pos..] == [a[pos]] + a[pos + 1..];
      assert b[pos..] == [b[pos]] + b[pos + 1..];
      if a[pos] == b[pos] {
        CmpZero(a, b, pos + 1);
      }
    }
  }

  /** Shorter beginnings come in the same order, or are equal. */
  lemma {:induction false} PrefixOrder(a: Word, b: Word, n: nat, pos: nat)
    requires n <= |a| && n <= |b| && StrCmp(a, b, pos) <= 0
    ensures StrCmp(a[..n], b[..n], pos) <= 0
    decreases |a| - pos
  {
    if pos < n && a[pos] == b[pos] != 0 {
      PrefixOrder(a, b, n, pos + 1);
    }
  }

  // ----- the words of one length -----

  /** The list position of the first word of at least this length. */
  ghost function First(hs: seq<LemmaEntry>, len: nat): nat
    requires len > 0
  {
    FirstLonger(hs, len - 1, 0)
  }

  lemma FirstOrder(hs: seq<LemmaEntry>, len: nat, k: nat)
    requires ValidList(hs) && len > 0 && k < |hs|
    ensures First(hs, len) <= k < First(hs, len + 1) <==> |hs[k].hanzis| == len
    ensures First(hs, len) <= First(hs, len + 1) <= |hs|
  {
    FirstLongerBetween(hs, len - 1, k);
    FirstLongerBetween(hs, len, k);
  }

  lemma FirstAscends(hs: seq<LemmaEntry>, len: nat)
    requires ValidList(hs) && len > 0
    ensures First(hs, len) <= First(hs, len + 1) <= |hs|
  {
    hide FirstLonger;
    FirstOrder(hs, len, 0);
  }

  lemma LongestLast(hs: seq<LemmaEntry>, k: nat)
    requires ValidList(hs) && k < |hs|
    ensures |hs[k].hanzis| <= MaxLen(hs)
  {
    assert k < |hs| - 1 ==> LengthsAscend(hs, k, |hs| - 1);
  }

  /** Where the tables say that the words of a length lie. */
  lemma StartIsFirst(hs: seq<LemmaEntry>, len: nat)
    requires ValidList(hs) && NoMissingLength(hs) && 1 <= len
    ensures StartPos(hs, len - 1) == PosOf(hs, First(hs, len))
  {
    if len - 1 < MaxLen(hs) {
      assert Present(hs, len);
    } else if First(hs, len) < |hs| {
      LongestLast(hs, First(hs, len));
    }
  }

  /** The words of one length, cut out of the packed list. */
  lemma WordsOfLength(hs: seq<LemmaEntry>, len: nat, i: nat, from: nat)
    requires ValidList(hs) && len > 0 && First(hs, len) + i < First(hs, len + 1) && from == PosOf(hs, First(hs, len)) + i * len
    ensures from + len <= PosOf(hs, |hs|) && AllHanzis(hs, |hs|)[from..from + len] == hs[First(hs, len) + i].hanzis
    ensures from == PosOf(hs, First(hs, len) + i)
  {
    var a := First(hs, len);
    FirstOrder(hs, len, a + i);
    forall k | a <= k < a + i ensures |hs[k].hanzis| == len {
      FirstOrder(hs, len, k);
    }
    PosOfRun(hs, a, a + i, len);
    AllHanzisAt(hs, a + i, |hs|);
  }

  /** The word begins like this. */
  predicate StartsWith(w: Word, history: Word) { |history| <= |w| && w[..|history|] == history }

  /** The word at list position `k` has this length and begins like this. */
  ghost predicate Hit(hs: seq<LemmaEntry>, len: nat, history: Word, k: nat) {
    k < |hs| && |hs[k].hanzis| == len && StartsWith(hs[k].hanzis, history)
  }

  /** The words that begin like this are neighbours among those of their length. */
  lemma HitsTogether(hs: seq<LemmaEntry>, len: nat, history: Word, i: nat, j: nat, k: nat)
    requires ValidList(hs) && WordsSorted(hs) && NoZero(history) && i <= j <= k && Hit(hs, len, history, i) && Hit(hs, len, history, k)
    ensures Hit(hs, len, history, j)
  {
    if i < j < k {
      assert LengthsAscend(hs, i, j) && LengthsAscend(hs, j, k);
      var n, u, v, w := |history|, hs[i].hanzis, hs[j].hanzis, hs[k].hanzis;
      PrefixOrder(u, v, n, 0);
      PrefixOrder(v, w, n, 0);
      CmpZero(u[..n], v[..n], 0);
      StrCmpAntisymmetric(v[..n], w[..n], 0);
      CmpZero(v[..n], history, 0);
    }
  }

  // ----- finding the first one -----

  /** The words of one length, as `bsearch` sees them. */
  function CutWords(block: seq<uint16>, len: nat): seq<Word>
    requires len > 0
  {
    if |block| < len then [] else [block[..len]] + CutWords(block[len..], len)
  }

  lemma {:induction false} CutWordsAre(hs: seq<LemmaEntry>, a: nat, b: nat, len: nat, block: seq<uint16>)
    requires a <= b <= |hs| && len > 0 && forall k: nat | a <= k < b :: |hs[k].hanzis| == len
    requires PosOf(hs, a) <= PosOf(hs, b) && block == AllHanzis(hs, b)[PosOf(hs, a)..PosOf(hs, b)]
    ensures |CutWords(block, len)| == b - a && forall i: nat | i < b - a :: CutWords(block, len)[i] == hs[a + i].hanzis
    decreases b - a
  {
    if a < b {
      AllHanzisAt(hs, a, b);
      assert block[..len] == hs[a].hanzis;
      CutWordsAre(hs, a + 1, b, len, block[len..]);
    }
  }

  /** What `find_pos_startedbyhzs` finds: the first word of this length that begins like this. */
  ghost predicate FoundFirst(hs: seq<LemmaEntry>, len: nat, history: Word, found: bool, k: nat) {
    if found then Hit(hs, len, history, k) && forall j: nat | j < k :: !Hit(hs, len, history, j)
    else forall j: nat :: !Hit(hs, len, history, j)
  }

  /** How a word compares with the history. */
  function Side(history: Word, w: Word): int {
    if |history| <= |w| then CmpHanzis(w, history, |history|) else 0
  }

  ghost predicate IsBlock(hs: seq<LemmaEntry>, len: nat, words: seq<Word>)
    requires len > 0
  {
    && First(hs, len) <= First(hs, len + 1) <= |hs|
    && |words| == First(hs, len + 1) - First(hs, len)
    && forall i: nat | i < |words| :: words[i] == hs[First(hs, len) + i].hanzis && |words[i]| == len
  }

  lemma BlockWords(hs: seq<LemmaEntry>, len: nat, all: seq<uint16>)
    requires ValidList(hs) && len > 0 && all == AllHanzis(hs, |hs|)
    ensures var a, b := First(hs, len), First(hs, len + 1);
      PosOf(hs, a) <= PosOf(hs, b) <= |all| && IsBlock(hs, len, CutWords(all[PosOf(hs, a)..PosOf(hs, b)], len))
  {
    hide First, CutWords, AllHanzis, ValidList;
    var a, b := First(hs, len), First(hs, len + 1);
    FirstAscends(hs, len);
    AllBefore(hs, a, b);
    AllBefore(hs, b, |hs|);
    forall k | a <= k < b ensures |hs[k].hanzis| == len {
      FirstOrder(hs, len, k);
    }
    assert all[PosOf(hs, a)..PosOf(hs, b)] == all[..PosOf(hs, b)][PosOf(hs, a)..PosOf(hs, b)];
    CutWordsAre(hs, a, b, len, all[PosOf(hs, a)..PosOf(hs, b)]);
  }

  lemma {:induction false} AllBefore(hs: seq<LemmaEntry>, k: nat, n: nat)
    requires k <= n <= |hs|
    ensures PosOf(hs, k) <= PosOf(hs, n) && AllHanzis(hs, n)[..PosOf(hs, k)] == AllHanzis(hs, k)
    decreases n
  {
    if k < n {
      AllBefore(hs, k, n - 1);
      assert AllHanzis(hs, n)[..PosOf(hs, k)] == AllHanzis(hs, n - 1)[..PosOf(hs, k)];
    }
  }

  /** A word of the block compares equal if it is a hit. */
  lemma SideZero(hs: seq<LemmaEntry>, len: nat, words: seq<Word>, history: Word, i: nat)
    requires len > 0 && IsBlock(hs, len, words) && WordsSorted(hs) && NoZero(history) && |history| <= len && i < |words|
    ensures Side(history, words[i]) == 0 <==> Hit(hs, len, history, First(hs, len) + i)
    ensures Side(history, words[i]) == 0 <==> StartsWith(words[i], history)
  {
    var w := words[i];
    assert NoZero(hs[First(hs, len) + i].hanzis);
    assert history[..|history|] == history;
    CmpZero(w[..|history|], history, 0);
  }

  lemma WordsPartitioned(hs: seq<LemmaEntry>, len: nat, words: seq<Word>, history: Word, side: Word -> int)
    requires len > 0 && IsBlock(hs, len, words) && WordsSorted(hs) && |history| <= len && forall w :: side(w) == Side(history, w)
    ensures Partitioned(words, side)
  {
    var a, n := First(hs, len), |history|;
    forall i, j | 0 <= i < j < |words|
      ensures (side(words[j]) < 0 ==> side(words[i]) < 0) && (side(words[i]) > 0 ==> side(words[j]) > 0)
    {
      var p: nat, q: nat := i, j;
      assert words[p] == hs[a + p].hanzis && words[q] == hs[a + q].hanzis && |words[p]| == |words[q]|;
      SortedAt(hs, a + p, a + q);
      SideOrder(words[i], words[j], history);
    }
  }

  lemma SortedAt(hs: seq<LemmaEntry>, i: nat, j: nat)
    requires WordsSorted(hs) && i < j < |hs| && |hs[i].hanzis| == |hs[j].hanzis|
    ensures StrCmp(hs[i].hanzis, hs[j].hanzis, 0) <= 0
  {
  }

  lemma SideOrder(u: Word, v: Word, history: Word)
    requires |history| <= |u| && |history| <= |v| && StrCmp(u, v, 0) <= 0
    ensures Side(history, v) < 0 ==> Side(history, u) < 0
    ensures Side(history, u) > 0 ==> Side(history, v) > 0
  {
    var n := |history|;
    assert history[..n] == history;
    PrefixOrder(u, v, n, 0);
    if StrCmp(v[..n], history, 0) < 0 {
      StrCmpTransitive(u[..n], v[..n], history, 0);
    }
    if StrCmp(v[..n], history, 0) <= 0 {
      StrCmpTransitive(u[..n], v[..n], history, 0);
    }
  }

  /** All hits lie in the block. */
  lemma HitInBlock(hs: seq<LemmaEntry>, len: nat, words: seq<Word>, history: Word, k: nat)
    requires ValidList(hs) && len > 0 && IsBlock(hs, len, words) && Hit(hs, len, history, k)
    ensures First(hs, len) <= k < First(hs, len) + |words|
  {
    FirstOrder(hs, len, k);
  }

  lemma NoHit(hs: seq<LemmaEntry>, len: nat, words: seq<Word>, history: Word)
    requires ValidList(hs) && len > 0 && IsBlock(hs, len, words) && WordsSorted(hs) && NoZero(history) && |history| <= len
    requires forall i: nat | i < |words| :: Side(history, words[i]) != 0
    ensures forall k: nat :: !Hit(hs, len, history, k)
  {
    forall k: nat ensures !Hit(hs, len, history, k) {
      if Hit(hs, len, history, k) {
        HitInBlock(hs, len, words, history, k);
        SideZero(hs, len, words, history, k - First(hs, len));
      }
    }
  }

  lemma FirstHit(hs: seq<LemmaEntry>, len: nat, words: seq<Word>, history: Word, i: nat)
    requires ValidList(hs) && len > 0 && IsBlock(hs, len, words) && WordsSorted(hs) && NoZero(history) && |history| <= len
    requires i < |words| && Side(history, words[i]) == 0
    requires i > 0 ==> CmpHanzis(words[i], words[i - 1], |history|) != 0
    ensures FoundFirst(hs, len, history, true, First(hs, len) + i)
  {
    var k := First(hs, len) + i;
    SideZero(hs, len, words, history, i);
    forall j: nat | j < k ensures !Hit(hs, len, history, j) {
      if Hit(hs, len, history, j) {
        HitInBlock(hs, len, words, history, j);
        HitsTogether(hs, len, history, j, k - 1, k);
        SameBeginning(words[i], words[i - 1], history);
      }
    }
  }

  lemma SameBeginning(u: Word, v: Word, history: Word)
    requires StartsWith(u, history) && StartsWith(v, history) && NoZero(history)
    ensures CmpHanzis(u, v, |history|) == 0
  {
    CmpZero(history, history, 0);
  }

  lemma OneBack(u: Word, v: Word, history: Word)
    requires StartsWith(u, history) && |history| <= |v| && NoZero(history) && NoZero(v) && CmpHanzis(u, v, |history|) == 0
    ensures StartsWith(v, history)
  {
    CmpZero(history, v[..|history|], 0);
  }

  /** The words of one length, and where they lie. */
  method Block(list: DictList, wordLen: nat) returns (start: nat, words: seq<Word>)
    requires list.Valid() && 1 <= wordLen <= K_MAX_LEMMA_SIZE
    ensures IsBlock(list.lemmas, wordLen, words) && start == PosOf(list.lemmas, First(list.lemmas, wordLen))
  {
    hide CutWords, ValidList, NoMissingLength, First;
    StartIsFirst(list.lemmas, wordLen);
    StartIsFirst(list.lemmas, wordLen + 1);
    BlockWords(list.lemmas, wordLen, list.buf[..]);
    start := list.startPos[wordLen - 1];
    var end := list.startPos[wordLen];
    assert list.buf[start..end] == list.buf[..][start..end];
    words := CutWords(list.buf[start..end], wordLen);
  }

  /** Back to the first word with the same beginning. */
  method WalkBack(ghost hs: seq<LemmaEntry>, words: seq<Word>, len: nat, history: Word, at: nat) returns (i: nat)
    requires ValidList(hs) && len > 0 && IsBlock(hs, len, words) && WordsSorted(hs) && NoZero(history) && |history| <= len
    requires at < |words| && Side(history, words[at]) == 0
    ensures i < |words| && FoundFirst(hs, len, history, true, First(hs, len) + i)
  {
    hide FoundFirst, Hit, StartsWith, Side, ValidList, First;
    i := at;
    while i > 0 && CmpHanzis(words[i], words[i - 1], |history|) == 0
      invariant i < |words| && Side(history, words[i]) == 0
    {
      SideZero(hs, len, words, history, i);
      SideZero(hs, len, words, history, i - 1);
      var p: nat := i - 1;
      assert words[p] == hs[First(hs, len) + p].hanzis;
      OneBack(words[i], words[p], history);
      i := i - 1;
    }
    FirstHit(hs, len, words, history, i);
  }

  /** `find_pos_startedbyhzs` */
  method FindPosStartedByHzs(list: DictList, lastHzs: Word, wordLen: nat) returns (found: bool, pos: nat, ghost k: nat)
    requires list.Valid() && WordsSorted(list.lemmas) && NoZero(lastHzs) && 1 <= |lastHzs| <= wordLen <= K_MAX_LEMMA_SIZE
    ensures FoundFirst(list.lemmas, wordLen, lastHzs, found, k) && (found ==> pos == PosOf(list.lemmas, k))
  {
    hide FoundFirst, Hit, Side, ValidList, NoMissingLength, First, WordsSorted, CmpHanzis;
    ghost var hs := list.lemmas;
    var start, words := Block(list, wordLen);
    var side := (w: Word) => Side(lastHzs, w);
    WordsPartitioned(hs, wordLen, words, lastHzs, side);
    var at;
    found, at := MyBsearch(words, side);
    if found {
      var i := WalkBack(hs, words, wordLen, lastHzs, at);
      pos, k := start + i * wordLen, First(hs, wordLen) + i;
      WordsOfLength(hs, wordLen, i, pos);
    } else {
      assert forall j: nat | j < |words| :: Side(lastHzs, words[j]) == side(words[j]);
      NoHit(hs, wordLen, words, lastHzs);
      NotFound(hs, wordLen, lastHzs);
      pos, k := 0, 0;
    }
  }

  lemma NotFound(hs: seq<LemmaEntry>, len: nat, history: Word)
    requires forall k: nat :: !Hit(hs, len, history, k)
    ensures FoundFirst(hs, len, history, false, 0)
  {
  }

  // ----- prediction -----

  datatype NPredictItem = NPredictItem(preHzs: Word, psb: real, hisLen: nat)

  ghost predicate LongerHit(hs: seq<LemmaEntry>, history: Word, k: nat) {
    k < |hs| && |history| < |hs[k].hanzis| && StartsWith(hs[k].hanzis, history)
  }

  /** The linear scan: the first `n` words, those of them that go on where the history ends. */
  ghost function Scan(hs: seq<LemmaEntry>, history: Word, n: nat): seq<nat> {
    if n == 0 then [] else Scan(hs, history, n - 1) + if LongerHit(hs, history, n - 1) then [n - 1] else []
  }

  ghost function Take(s: seq<nat>, n: nat): seq<nat> { if |s| <= n then s else s[..n] }

  /** What is predicted for a word: how it goes on, and what is known of its id. */
  ghost function ItemOf(hs: seq<LemmaEntry>, history: Word, uniPsb: nat -> real, k: nat): NPredictItem {
    NPredictItem(if k < |hs| && |history| <= |hs[k].hanzis| then hs[k].hanzis[|history|..] else [], uniPsb(k + 1), |history|)
  }

  ghost function Items(hs: seq<LemmaEntry>, history: Word, uniPsb: nat -> real, ks: seq<nat>): seq<NPredictItem> {
    seq(|ks|, i requires 0 <= i < |ks| => ItemOf(hs, history, uniPsb, ks[i]))
  }

  lemma {:induction false} ScanNoHits(hs: seq<LemmaEntry>, history: Word, a: nat, b: nat)
    requires a <= b && forall k: nat | a <= k < b :: !LongerHit(hs, history, k)
    ensures Scan(hs, history, a) == Scan(hs, history, b)
    decreases b
  {
    if a < b {
      ScanNoHits(hs, history, a, b - 1);
    }
  }

  lemma {:induction false} ScanGrows(hs: seq<LemmaEntry>, history: Word, a: nat, b: nat)
    requires a <= b
    ensures Scan(hs, history, a) <= Scan(hs, history, b)
    decreases b
  {
    if a < b {
      ScanGrows(hs, history, a, b - 1);
    }
  }

  /** Once there is no more room further words change nothing. */
  lemma TakeFull(hs: seq<LemmaEntry>, history: Word, a: nat, b: nat, n: nat)
    requires a <= b && |Take(Scan(hs, history, a), n)| == n
    ensures Take(Scan(hs, history, b), n) == Take(Scan(hs, history, a), n)
  {
    ScanGrows(hs, history, a, b);
  }

  /** Behind the last hit of a length comes the next length. */
  lemma NextLength(hs: seq<LemmaEntry>, history: Word, len: nat, first: nat, k: nat)
    requires ValidList(hs) && WordsSorted(hs) && NoZero(history) && |history| < len
    requires FoundFirst(hs, len, history, true, first) && first < k <= First(hs, len + 1) && Hit(hs, len, history, k - 1)
    requires k < First(hs, len + 1) ==> !Hit(hs, len, history, k)
    ensures Scan(hs, history, k) == Scan(hs, history, First(hs, len + 1))
  {
    hide First, StartsWith;
    forall j: nat | k <= j < First(hs, len + 1) ensures !LongerHit(hs, history, j) {
      OfLength(hs, len, first, j);
      HitIs(hs, len, history, j);
      if Hit(hs, len, history, j) {
        HitsTogether(hs, len, history, k - 1, k, j);
      }
    }
    ScanNoHits(hs, history, k, First(hs, len + 1));
  }

  lemma OfLength(hs: seq<LemmaEntry>, len: nat, first: nat, j: nat)
    requires ValidList(hs) && len > 0 && first < |hs| && |hs[first].hanzis| == len && first <= j < First(hs, len + 1)
    ensures First(hs, len) <= first && j < |hs| && |hs[j].hanzis| == len
  {
    FirstOrder(hs, len, first);
    FirstOrder(hs, len, j);
  }

  lemma HitIs(hs: seq<LemmaEntry>, len: nat, history: Word, j: nat)
    requires j < |hs| && |hs[j].hanzis| == len && |history| < len
    ensures Hit(hs, len, history, j) <==> LongerHit(hs, history, j)
  {
  }

  /** Without hits in a stretch of words of one length the scan is where it was. */
  lemma NoneBetween(hs: seq<LemmaEntry>, history: Word, len: nat, a: nat, b: nat)
    requires ValidList(hs) && |history| < len && First(hs, len) <= a <= b <= First(hs, len + 1)
    requires forall j: nat | a <= j < b :: !Hit(hs, len, history, j)
    ensures Scan(hs, history, a) == Scan(hs, history, b)
  {
    hide First, StartsWith;
    FirstAscends(hs, len);
    forall j: nat | a <= j < b ensures !LongerHit(hs, history, j) {
      FirstOrder(hs, len, j);
      HitIs(hs, len, history, j);
    }
    ScanNoHits(hs, history, a, b);
  }

  /** The id of a word is computed from where it lies. */
  lemma IdOfPos(hs: seq<LemmaEntry>, len: nat, k: nat)
    requires ValidList(hs) && NoMissingLength(hs) && k < |hs| && |hs[k].hanzis| == len
    ensures len > 0 && StartPos(hs, len - 1) <= PosOf(hs, k)
    ensures (PosOf(hs, k) - StartPos(hs, len - 1)) / len + StartId(hs, len - 1) == k + 1
  {
    hide First, Present;
    StartIsFirst(hs, len);
    StartIdIs(hs, len, k);
    FirstOrder(hs, len, k);
    var a := First(hs, len);
    forall j | a <= j < k ensures |hs[j].hanzis| == len {
      FirstOrder(hs, len, j);
    }
    PosOfRun(hs, a, k, len);
    DivExact(k - a, len);
  }

  lemma StartIdIs(hs: seq<LemmaEntry>, len: nat, k: nat)
    requires ValidList(hs) && k < |hs| && |hs[k].hanzis| == len
    ensures len > 0 && StartId(hs, len - 1) == First(hs, len) + 1
  {
    LongestLast(hs, k);
    assert Present(hs, len);
  }

  lemma DivExact(q: nat, d: nat)
    requires d > 0
    ensures q * d / d == q
  {
    var r := q * d - q * d / d * d;
    assert (q - q * d / d) * d == r;
    if q > q * d / d {
      AtLeastOnce(q - q * d / d, d);
    }
  }

  lemma AtLeastOnce(n: nat, d: nat)
    requires n > 0
    ensures n * d >= d
  {
  }

  /** The words in front of list position `k` have been looked at. */
  ghost predicate Collected(items: seq<NPredictItem>, hs: seq<LemmaEntry>, history: Word, uniPsb: nat -> real, k: nat, max: nat) {
    items == Items(hs, history, uniPsb, Take(Scan(hs, history, k), max))
  }

  lemma CollectedOne(items: seq<NPredictItem>, hs: seq<LemmaEntry>, history: Word, uniPsb: nat -> real, k: nat, max: nat)
    requires Collected(items, hs, history, uniPsb, k, max) && |items| < max && LongerHit(hs, history, k)
    ensures Collected(items + [ItemOf(hs, history, uniPsb, k)], hs, history, uniPsb, k + 1, max)
  {
  }

  lemma CollectedFull(items: seq<NPredictItem>, hs: seq<LemmaEntry>, history: Word, uniPsb: nat -> real, a: nat, b: nat, max: nat)
    requires Collected(items, hs, history, uniPsb, a, max) && |items| >= max && a <= b
    ensures Collected(items, hs, history, uniPsb, b, max)
  {
    TakeFull(hs, history, a, b, max);
  }

  lemma CollectedSame(items: seq<NPredictItem>, hs: seq<LemmaEntry>, history: Word, uniPsb: nat -> real, a: nat, b: nat, max: nat)
    requires Collected(items, hs, history, uniPsb, a, max) && Scan(hs, history, a) == Scan(hs, history, b)
    ensures Collected(items, hs, history, uniPsb, b, max)
  {
  }

  /** The word at a place of the packed list. */
  lemma WordHere(hs: seq<LemmaEntry>, all: seq<uint16>, len: nat, first: nat, k: nat)
    requires ValidList(hs) && all == AllHanzis(hs, |hs|) && len > 0
    requires first < |hs| && |hs[first].hanzis| == len && first <= k <= First(hs, len + 1)
    ensures First(hs, len + 1) <= |hs| && (PosOf(hs, k) < PosOf(hs, First(hs, len + 1)) <==> k < First(hs, len + 1))
    ensures k < First(hs, len + 1) ==> k < |hs| && |hs[k].hanzis| == len && PosOf(hs, k + 1) == PosOf(hs, k) + len
    ensures k < First(hs, len + 1) ==> PosOf(hs, k) + len <= |all| && all[PosOf(hs, k)..PosOf(hs, k) + len] == hs[k].hanzis
  {
    hide First;
    FirstAscends(hs, len);
    if k < First(hs, len + 1) {
      OfLength(hs, len, first, k);
      AllHanzisAt(hs, k, First(hs, len + 1));
      AllHanzisAt(hs, k, |hs|);
    }
  }

  lemma CmpIsHit(hs: seq<LemmaEntry>, len: nat, history: Word, k: nat)
    requires WordsSorted(hs) && NoZero(history) && k < |hs| && |hs[k].hanzis| == len && |history| <= len
    ensures CmpHanzis(hs[k].hanzis, history, |history|) == 0 <==> Hit(hs, len, history, k)
  {
    assert history[..|history|] == history;
    CmpZero(hs[k].hanzis[..|history|], history, 0);
  }

  lemma NothingFound(hs: seq<LemmaEntry>, history: Word, len: nat, first: nat)
    requires ValidList(hs) && |history| < len && FoundFirst(hs, len, history, false, first)
    ensures Scan(hs, history, First(hs, len)) == Scan(hs, history, First(hs, len + 1))
  {
    hide First, Hit;
    FirstAscends(hs, len);
    NoneBetween(hs, history, len, First(hs, len), First(hs, len + 1));
  }

  lemma UpToFirst(hs: seq<LemmaEntry>, history: Word, len: nat, first: nat)
    requires ValidList(hs) && |history| < len && FoundFirst(hs, len, history, true, first)
    ensures first < |hs| && |hs[first].hanzis| == len && First(hs, len) <= first < First(hs, len + 1)
    ensures Scan(hs, history, First(hs, len)) == Scan(hs, history, first)
  {
    hide First, StartsWith;
    FirstOrder(hs, len, first);
    NoneBetween(hs, history, len, First(hs, len), first);
  }

  /** One round of the loop that collects words. */
  method PredictWord(list: DictList, lastHzs: Word, wordLen: nat, items: array<NPredictItem>, base: nat, num: nat, npreMax: nat, uniPsb: nat -> real,
                     w: nat, ghost first: nat, ghost k: nat)
    requires list.Valid() && WordsSorted(list.lemmas) && NoZero(lastHzs) && 1 <= |lastHzs| < wordLen <= K_MAX_LEMMA_SIZE
    requires base + npreMax <= items.Length && num < npreMax
    requires first < |list.lemmas| && |list.lemmas[first].hanzis| == wordLen && first <= k < First(list.lemmas, wordLen + 1) <= |list.lemmas|
    requires |list.lemmas[k].hanzis| == wordLen
    requires w == PosOf(list.lemmas, k) && w + wordLen <= list.buf.Length && CmpHanzis(list.buf[w..w + wordLen], lastHzs, |lastHzs|) == 0
    requires Collected(items[base..base + num], list.lemmas, lastHzs, uniPsb, k, npreMax)
    modifies items
    ensures Collected(items[base..base + num + 1], list.lemmas, lastHzs, uniPsb, k + 1, npreMax) && Hit(list.lemmas, wordLen, lastHzs, k)
    ensures PosOf(list.lemmas, k + 1) == w + wordLen
    ensures items[..base] == old(items[..base])
  {
    hide Collected, First, Hit, LongerHit, ValidList, NoMissingLength, CmpHanzis, WordsSorted, PosOf, AllHanzis, Scan;
    ghost var hs, all := list.lemmas, list.buf[..];
    var word := list.buf[w..w + wordLen];
    assert word == all[w..w + wordLen];
    var id := IdAt(list, wordLen, w, k);
    WordIs(hs, all, wordLen, first, k, lastHzs, w, uniPsb);
    CollectedOne(items[base..base + num], hs, lastHzs, uniPsb, k, npreMax);
    PutItem(items, base, num, NPredictItem(word[|lastHzs|..], uniPsb(id), |lastHzs|));
  }

  /** The id that belongs to a place. */
  method IdAt(list: DictList, wordLen: nat, pos: nat, ghost k: nat) returns (id: nat)
    requires list.Valid() && k < |list.lemmas| && |list.lemmas[k].hanzis| == wordLen <= K_MAX_LEMMA_SIZE && pos == PosOf(list.lemmas, k)
    ensures id == k + 1
  {
    hide ValidList, NoMissingLength, PosOf, AllHanzis, StartPos, StartId;
    IdOfPos(list.lemmas, wordLen, k);
    id := (pos - list.startPos[wordLen - 1]) / wordLen + list.startId[wordLen - 1];
  }

  /** The word at a place of the packed list is the hit that is predicted. */
  lemma WordIs(hs: seq<LemmaEntry>, all: seq<uint16>, len: nat, first: nat, k: nat, history: Word, w: nat, uniPsb: nat -> real)
    requires ValidList(hs) && WordsSorted(hs) && all == AllHanzis(hs, |hs|) && |history| < len && NoZero(history)
    requires first < |hs| && |hs[first].hanzis| == len && first <= k < First(hs, len + 1) && w == PosOf(hs, k)
    requires w + len <= |all| && CmpHanzis(all[w..w + len], history, |history|) == 0
    ensures Hit(hs, len, history, k) && LongerHit(hs, history, k) && PosOf(hs, k + 1) == w + len
    ensures NPredictItem(all[w..w + len][|history|..], uniPsb(k + 1), |history|) == ItemOf(hs, history, uniPsb, k)
  {
    hide First, ValidList, WordsSorted, AllHanzis, CmpHanzis;
    WordHere(hs, all, len, first, k);
    CmpIsHit(hs, len, history, k);
  }

  /** `predict` for the words of one length. */
  method PredictLength(list: DictList, lastHzs: Word, wordLen: nat, items: array<NPredictItem>, base: nat, itemNum: nat, npreMax: nat, uniPsb: nat -> real)
    returns (num: nat)
    requires list.Valid() && WordsSorted(list.lemmas) && NoZero(lastHzs) && 1 <= |lastHzs| < wordLen <= K_MAX_LEMMA_SIZE
    requires base + npreMax <= items.Length && itemNum <= npreMax
    requires Collected(items[base..base + itemNum], list.lemmas, lastHzs, uniPsb, First(list.lemmas, wordLen), npreMax)
    modifies items
    ensures num <= npreMax && Collected(items[base..base + num], list.lemmas, lastHzs, uniPsb, First(list.lemmas, wordLen + 1), npreMax)
    ensures items[..base] == old(items[..base])
  {
    hide Collected, First, Hit, LongerHit, ValidList, NoMissingLength, CmpHanzis, WordsSorted, PosOf, AllHanzis, Scan;
    ghost var hs, all := list.lemmas, list.buf[..];
    ghost var end := First(hs, wordLen + 1);
    num := itemNum;
    FirstAscends(hs, wordLen);
    var found, w;
    ghost var first: nat;
    found, w, first := FindPosStartedByHzs(list, lastHzs, wordLen);
    if !found {
      NothingFound(hs, lastHzs, wordLen, first);
      CollectedSame(items[base..base + num], hs, lastHzs, uniPsb, First(hs, wordLen), end, npreMax);
      return;
    }
    UpToFirst(hs, lastHzs, wordLen, first);
    CollectedSame(items[base..base + num], hs, lastHzs, uniPsb, First(hs, wordLen), first, npreMax);
    StartIsFirst(hs, wordLen + 1);
    ghost var k: nat := first;
    WordHere(hs, all, wordLen, first, k);
    while w < list.startPos[wordLen] && CmpHanzis(list.buf[w..w + wordLen], lastHzs, |lastHzs|) == 0 && num < npreMax
      invariant first <= k <= end && w == PosOf(hs, k) && num <= npreMax
      invariant k > first ==> Hit(hs, wordLen, lastHzs, k - 1)
      invariant w < list.startPos[wordLen] ==> w + wordLen <= list.buf.Length
      invariant Collected(items[base..base + num], hs, lastHzs, uniPsb, k, npreMax)
      invariant items[..base] == old(items[..base]) && list.Valid()
      decreases npreMax - num
    {
      WordHere(hs, all, wordLen, first, k);
      PredictWord(list, lastHzs, wordLen, items, base, num, npreMax, uniPsb, w, first, k);
      num := num + 1;
      w := w + wordLen;
      k := k + 1;
      WordHere(hs, all, wordLen, first, k);
    }
    if num == npreMax {
      CollectedFull(items[base..base + num], hs, lastHzs, uniPsb, k, end, npreMax);
    } else {
      WordHere(hs, all, wordLen, first, k);
      if k < end {
        CmpIsHit(hs, wordLen, lastHzs, k);
      }
      NextLength(hs, lastHzs, wordLen, first, k);
      CollectedSame(items[base..base + num], hs, lastHzs, uniPsb, k, end, npreMax);
    }
  }

  method PutItem(items: array<NPredictItem>, base: nat, num: nat, item: NPredictItem)
    requires base + num < items.Length
    modifies items
    ensures items[base..base + num + 1] == old(items[base..base + num]) + [item] && items[..base] == old(items[..base])
  {
    items[base + num] := item;
  }

  lemma NothingShort(hs: seq<LemmaEntry>, history: Word, uniPsb: nat -> real, max: nat)
    requires ValidList(hs)
    ensures Collected([], hs, history, uniPsb, First(hs, |history| + 1), max)
  {
    hide First, StartsWith;
    FirstAscends(hs, |history| + 1);
    forall k: nat | k < First(hs, |history| + 1) ensures !LongerHit(hs, history, k) {
      FirstOrder(hs, |history| + 1, k);
      ShortBefore(hs, |history|, k);
    }
    ScanNoHits(hs, history, 0, First(hs, |history| + 1));
  }

  lemma ShortBefore(hs: seq<LemmaEntry>, len: nat, k: nat)
    requires ValidList(hs) && k < First(hs, len + 1) && k < |hs|
    ensures |hs[k].hanzis| <= len
  {
  }

  lemma NothingLonger(hs: seq<LemmaEntry>)
    requires ValidList(hs)
    ensures First(hs, K_MAX_LEMMA_SIZE + 1) == |hs|
  {
  }

  /** The items that say something new. */
  ghost function Fresh(items: seq<NPredictItem>, used: seq<NPredictItem>): seq<NPredictItem> {
    if items == [] then []
    else
      var n := |items| - 1;
      Fresh(items[..n], used) + if Known(items[n], used) then [] else [items[n]]
  }

  ghost predicate Known(item: NPredictItem, used: seq<NPredictItem>) {
    exists i: nat :: i < |used| && used[i].preHzs == item.preHzs
  }

  lemma FreshNone(used: seq<NPredictItem>)
    ensures Fresh([], used) == []
  {
  }

  lemma FreshStep(was: seq<NPredictItem>, used: seq<NPredictItem>, base: nat, i: nat)
    requires base + i < |was|
    ensures Fresh(was[base..base + i + 1], used) == Fresh(was[base..base + i], used) + if Known(was[base + i], used) then [] else [was[base + i]]
  {
    assert was[base..base + i + 1][..i] == was[base..base + i];
  }

  method IsKnown(items: array<NPredictItem>, base: nat, item: NPredictItem) returns (known: bool)
    requires base <= items.Length
    ensures known <==> Known(item, items[..base])
  {
    ghost var used := items[..base];
    var e := 1;
    while e <= base
      invariant 1 <= e <= base + 1 && forall i: nat | base - e < i < base :: used[i].preHzs != item.preHzs
      decreases base - e
    {
      if items[base - e].preHzs == item.preHzs {
        assert used[base - e].preHzs == item.preHzs;
        return true;
      }
      e := e + 1;
    }
    known := false;
  }

  /** Drops what is already known, in place. */
  method DropKnown(items: array<NPredictItem>, base: nat, num: nat) returns (newNum: nat)
    requires base + num <= items.Length
    modifies items
    ensures newNum <= num && items[base..base + newNum] == Fresh(old(items[base..base + num]), old(items[..base]))
    ensures items[..base] == old(items[..base])
  {
    hide Fresh, Known;
    ghost var was := items[..];
    newNum := 0;
    FreshNone(was[..base]);
    for i := 0 to num
      invariant newNum <= i && items[base..base + newNum] == Fresh(was[base..base + i], was[..base])
      invariant items[..base] == was[..base] && items[base + i..] == was[base + i..]
    {
      newNum := DropOne(items, base, newNum, i, was);
      FreshStep(was, was[..base], base, i);
    }
  }

  /** Keeps or drops the item at place `i`. */
  method DropOne(items: array<NPredictItem>, base: nat, newNum: nat, i: nat, ghost was: seq<NPredictItem>) returns (n: nat)
    requires newNum <= i && base + i < items.Length == |was|
    requires items[..base] == was[..base] && items[base + i..] == was[base + i..]
    modifies items
    ensures n <= newNum + 1 && items[..base] == was[..base] && items[base + i + 1..] == was[base + i + 1..]
    ensures items[base..base + n] == old(items[base..base + newNum]) + if Known(was[base + i], was[..base]) then [] else [was[base + i]]
  {
    hide Known;
    assert items[base + i] == items[base + i..][0] == was[base + i];
    assert items[base + i + 1..] == items[base + i..][1..];
    n := newNum;
    var known := IsKnown(items, base, items[base + i]);
    if !known {
      items[base + n] := items[base + i];
      n := n + 1;
    }
  }

  /**
   * `predict`: of the first `npreMax` words, in the order of their ids, that go on where the history ends, those that
   * the items in front of the buffer do not already say.
   */
  method Predict(list: DictList, lastHzs: Word, items: array<NPredictItem>, npreMax: nat, b4Used: nat, uniPsb: nat -> real) returns (newNum: nat)
    requires list.Valid() && WordsSorted(list.lemmas) && NoZero(lastHzs) && 1 <= |lastHzs| < K_MAX_LEMMA_SIZE
    requires b4Used + npreMax <= items.Length
    modifies items
    ensures newNum <= npreMax && items[..b4Used] == old(items[..b4Used])
    ensures items[b4Used..b4Used + newNum]
      == Fresh(Items(list.lemmas, lastHzs, uniPsb, Take(Scan(list.lemmas, lastHzs, |list.lemmas|), npreMax)), old(items[..b4Used]))
    ensures Predicts(list.lemmas, lastHzs, uniPsb, npreMax, old(items[..b4Used]), items[b4Used..b4Used + newNum])
  {
    hide First, Scan, Items, Take, Fresh, ValidList, NoMissingLength, WordsSorted, Predicts;
    PredictionSays(list.lemmas, lastHzs, uniPsb, npreMax, items[..b4Used]);
    ghost var hs := list.lemmas;
    var num: nat, wordLen: nat := 0, |lastHzs| + 1;
    NothingShort(hs, lastHzs, uniPsb, npreMax);
    assert items[b4Used..b4Used] == [];
    while wordLen <= K_MAX_LEMMA_SIZE
      invariant |lastHzs| < wordLen <= K_MAX_LEMMA_SIZE + 1 && num <= npreMax && list.Valid()
      invariant Collected(items[b4Used..b4Used + num], hs, lastHzs, uniPsb, First(hs, wordLen), npreMax)
      invariant items[..b4Used] == old(items[..b4Used])
    {
      num := PredictLength(list, lastHzs, wordLen, items, b4Used, num, npreMax, uniPsb);
      wordLen := wordLen + 1;
    }
    NothingLonger(hs);
    newNum := DropKnown(items, b4Used, num);
  }

  /** The scan picks exactly the words that go on where the history ends, each once and in order. */
  lemma {:induction false} ScanPicks(hs: seq<LemmaEntry>, history: Word, n: nat)
    ensures forall k: nat :: k in Scan(hs, history, n) <==> k < n && LongerHit(hs, history, k)
    ensures forall i: nat, j: nat | i < j < |Scan(hs, history, n)| :: Scan(hs, history, n)[i] < Scan(hs, history, n)[j]
  {
    if n > 0 {
      ScanPicks(hs, history, n - 1);
      var before := Scan(hs, history, n - 1);
      forall i: nat | i < |before| ensures before[i] < n - 1 {
        assert before[i] in before;
      }
    }
  }

  // ----- what is predicted, told from the words and the items alone -----

  /** Word `k` goes on where the history ends. */
  ghost predicate GoesOn(hs: seq<LemmaEntry>, history: Word, k: nat) {
    k < |hs| && |history| < |hs[k].hanzis| && hs[k].hanzis[..|history|] == history
  }

  /** The words in front of word `k` that go on where the history ends. */
  ghost function Ahead(hs: seq<LemmaEntry>, history: Word, k: nat): set<nat> {
    set j: nat | j < k && GoesOn(hs, history, j)
  }

  /** Word `k` is one of the first `max` words that go on, and no item says yet how. */
  ghost predicate IsPredicted(hs: seq<LemmaEntry>, history: Word, max: nat, used: seq<NPredictItem>, k: nat) {
    && GoesOn(hs, history, k) && |Ahead(hs, history, k)| < max
    && forall i | 0 <= i < |used| :: used[i].preHzs != hs[k].hanzis[|history|..]
  }

  /** The items say how these words go on, one item a word and in their order. */
  ghost predicate Says(hs: seq<LemmaEntry>, history: Word, uniPsb: nat -> real, max: nat, used: seq<NPredictItem>, items: seq<NPredictItem>, at: seq<nat>) {
    && |at| == |items| && (forall i, j | 0 <= i < j < |at| :: at[i] < at[j])
    && (forall k: nat :: k in at <==> IsPredicted(hs, history, max, used, k))
    && forall i | 0 <= i < |at| :: IsPredicted(hs, history, max, used, at[i]) &&
         items[i] == NPredictItem(hs[at[i]].hanzis[|history|..], uniPsb(at[i] + 1), |history|)
  }

  ghost predicate Predicts(hs: seq<LemmaEntry>, history: Word, uniPsb: nat -> real, max: nat, used: seq<NPredictItem>, items: seq<NPredictItem>) {
    exists at :: Says(hs, history, uniPsb, max, used, items, at)
  }

  lemma {:induction false} AheadCounted(hs: seq<LemmaEntry>, history: Word, n: nat)
    ensures |Scan(hs, history, n)| == |Ahead(hs, history, n)|
    ensures forall k: nat :: k in Scan(hs, history, n) <==> k in Ahead(hs, history, n)
  {
    hide Ahead, GoesOn, LongerHit;
    AheadStep(hs, history, n);
    if n > 0 {
      AheadCounted(hs, history, n - 1);
      HitGoesOn(hs, history, n - 1);
    }
  }

  lemma HitGoesOn(hs: seq<LemmaEntry>, history: Word, k: nat)
    ensures LongerHit(hs, history, k) <==> GoesOn(hs, history, k)
  {
  }

  lemma AheadStep(hs: seq<LemmaEntry>, history: Word, n: nat)
    ensures n == 0 ==> Ahead(hs, history, n) == {}
    ensures n > 0 ==>
      && n - 1 !in Ahead(hs, history, n - 1)
      && Ahead(hs, history, n) == Ahead(hs, history, n - 1) + if GoesOn(hs, history, n - 1) then {n - 1} else {}
  {
    hide GoesOn;
  }

  /** A word that the scan picks stands behind as many as are ahead of it. */
  lemma PlaceInScan(hs: seq<LemmaEntry>, history: Word, n: nat, k: nat)
    requires k < n && GoesOn(hs, history, k)
    ensures var j := |Ahead(hs, history, k)|; j < |Scan(hs, history, n)| && Scan(hs, history, n)[j] == k
  {
    AheadCounted(hs, history, k);
    ScanGrows(hs, history, k + 1, n);
    assert Scan(hs, history, k + 1) == Scan(hs, history, k) + [k];
    assert Scan(hs, history, n)[|Scan(hs, history, k)|] == Scan(hs, history, k + 1)[|Scan(hs, history, k)|];
  }

  lemma ScanPlace(hs: seq<LemmaEntry>, history: Word, n: nat, j: nat)
    requires j < |Scan(hs, history, n)|
    ensures var k := Scan(hs, history, n)[j]; k < n && GoesOn(hs, history, k) && |Ahead(hs, history, k)| == j
  {
    var k := Scan(hs, history, n)[j];
    assert k in Scan(hs, history, n);
    AheadCounted(hs, history, n);
    PlaceInScan(hs, history, n, k);
    ScanPicks(hs, history, n);
  }

  /** The fresh ones of the items for the first `n` picked words. */
  ghost predicate Picked(hs: seq<LemmaEntry>, history: Word, uniPsb: nat -> real, used: seq<NPredictItem>, ks: seq<nat>, items: seq<NPredictItem>, at: seq<nat>) {
    && |at| == |items| && (forall i, j | 0 <= i < j < |at| :: at[i] < at[j])
    && (forall k: nat :: k in at <==> k in ks && New(hs, history, used, k))
    && forall i | 0 <= i < |at| :: items[i] == ItemOf(hs, history, uniPsb, at[i])
  }

  ghost predicate New(hs: seq<LemmaEntry>, history: Word, used: seq<NPredictItem>, k: nat) {
    GoesOn(hs, history, k) && forall i | 0 <= i < |used| :: used[i].preHzs != hs[k].hanzis[|history|..]
  }

  lemma KnownIff(hs: seq<LemmaEntry>, history: Word, uniPsb: nat -> real, used: seq<NPredictItem>, k: nat)
    requires GoesOn(hs, history, k)
    ensures Known(ItemOf(hs, history, uniPsb, k), used) <==> !New(hs, history, used, k)
  {
  }

  lemma {:induction false} FreshPicks(hs: seq<LemmaEntry>, history: Word, uniPsb: nat -> real, used: seq<NPredictItem>, ks: seq<nat>) returns (at: seq<nat>)
    requires forall i, j | 0 <= i < j < |ks| :: ks[i] < ks[j]
    requires forall i | 0 <= i < |ks| :: GoesOn(hs, history, ks[i])
    ensures Picked(hs, history, uniPsb, used, ks, Fresh(Items(hs, history, uniPsb, ks), used), at)
  {
    hide Known, New, GoesOn, ItemOf;
    if ks == [] {
      at := [];
    } else {
      var n := |ks| - 1;
      var before := FreshPicks(hs, history, uniPsb, used, ks[..n]);
      var items := Items(hs, history, uniPsb, ks);
      assert items[..n] == Items(hs, history, uniPsb, ks[..n]);
      KnownIff(hs, history, uniPsb, used, ks[n]);
      at := before + if New(hs, history, used, ks[n]) then [ks[n]] else [];
      PickOne(hs, history, uniPsb, used, ks, n, Fresh(items[..n], used), before);
    }
  }

  lemma PickOne(hs: seq<LemmaEntry>, history: Word, uniPsb: nat -> real, used: seq<NPredictItem>, ks: seq<nat>, n: nat, items: seq<NPredictItem>, at: seq<nat>)
    requires n + 1 == |ks| && (forall i, j | 0 <= i < j < |ks| :: ks[i] < ks[j]) && Picked(hs, history, uniPsb, used, ks[..n], items, at)
    ensures New(hs, history, used, ks[n]) ==> Picked(hs, history, uniPsb, used, ks, items + [ItemOf(hs, history, uniPsb, ks[n])], at + [ks[n]])
    ensures !New(hs, history, used, ks[n]) ==> Picked(hs, history, uniPsb, used, ks, items, at)
  {
    hide New, ItemOf;
    assert ks == ks[..n] + [ks[n]];
    forall i | 0 <= i < |at| ensures at[i] < ks[n] {
      assert at[i] in at;
      var j :| 0 <= j < n && ks[..n][j] == at[i];
      assert ks[j] < ks[n];
    }
  }

  /** Of the first `max` words that go on where the history ends, the prediction says those that no item says yet. */
  lemma PredictionSays(hs: seq<LemmaEntry>, history: Word, uniPsb: nat -> real, max: nat, used: seq<NPredictItem>)
    ensures Predicts(hs, history, uniPsb, max, used, Fresh(Items(hs, history, uniPsb, Take(Scan(hs, history, |hs|), max)), used))
  {
    hide Scan, Fresh, Known, Items, GoesOn, LongerHit, Ahead, New, IsPredicted;
    var all := Scan(hs, history, |hs|);
    var ks := Take(all, max);
    ScanPicks(hs, history, |hs|);
    forall j | 0 <= j < |all| ensures GoesOn(hs, history, all[j]) && |Ahead(hs, history, all[j])| == j {
      ScanPlace(hs, history, |hs|, j);
    }
    var at := FreshPicks(hs, history, uniPsb, used, ks);
    forall k: nat ensures k in ks && New(hs, history, used, k) <==> IsPredicted(hs, history, max, used, k) {
      TakenIff(hs, history, max, k);
      NewIs(hs, history, max, used, k);
    }
    var items := Fresh(Items(hs, history, uniPsb, ks), used);
    forall i | 0 <= i < |at| ensures IsPredicted(hs, history, max, used, at[i]) && GoesOn(hs, history, at[i]) {
      assert at[i] in at;
      NewIs(hs, history, max, used, at[i]);
    }
    ItemsAre(hs, history, uniPsb, items, at);
    assert Says(hs, history, uniPsb, max, used, items, at);
  }

  lemma NewIs(hs: seq<LemmaEntry>, history: Word, max: nat, used: seq<NPredictItem>, k: nat)
    ensures IsPredicted(hs, history, max, used, k) <==> New(hs, history, used, k) && |Ahead(hs, history, k)| < max
    ensures New(hs, history, used, k) ==> GoesOn(hs, history, k)
  {
  }

  lemma TakenIff(hs: seq<LemmaEntry>, history: Word, max: nat, k: nat)
    ensures k in Take(Scan(hs, history, |hs|), max) <==> GoesOn(hs, history, k) && |Ahead(hs, history, k)| < max
  {
    hide Scan, Ahead;
    var all := Scan(hs, history, |hs|);
    if GoesOn(hs, history, k) {
      PlaceInScan(hs, history, |hs|, k);
      if |Ahead(hs, history, k)| < max {
        assert Take(all, max)[|Ahead(hs, history, k)|] == k;
      }
    }
    if k in Take(all, max) {
      var j :| 0 <= j < |Take(all, max)| && Take(all, max)[j] == k;
      ScanPlace(hs, history, |hs|, j);
    }
  }

  lemma ItemsAre(hs: seq<LemmaEntry>, history: Word, uniPsb: nat -> real, items: seq<NPredictItem>, at: seq<nat>)
    requires |items| == |at| && forall i | 0 <= i < |at| :: GoesOn(hs, history, at[i]) && items[i] == ItemOf(hs, history, uniPsb, at[i])
    ensures forall i | 0 <= i < |at| ::
      at[i] < |hs| && |history| <= |hs[at[i]].hanzis| && items[i] == NPredictItem(hs[at[i]].hanzis[|history|..], uniPsb(at[i] + 1), |history|)
  {
  }

  // ----- the id of a word -----

  /** `get_lemma_id`; an assertion of it excludes the first word of the list. */
  method GetLemmaId(list: DictList, str: Word) returns (id: nat)
    requires list.Valid() && WordsSorted(list.lemmas) && NoZero(str) && 1 <= |str| && str != list.lemmas[0].hanzis
    ensures id == 0 ==> |str| > K_MAX_LEMMA_SIZE || forall k: nat | k < |list.lemmas| :: list.lemmas[k].hanzis != str
    ensures id != 0 ==> id <= |list.lemmas| && list.lemmas[id - 1].hanzis == str && forall k: nat | k < id - 1 :: list.lemmas[k].hanzis != str
  {
    if |str| > K_MAX_LEMMA_SIZE {
      return 0;
    }
    var found, pos;
    ghost var k: nat;
    found, pos, k := FindPosStartedByHzs(list, str, |str|);
    WholeWordHit(list.lemmas, str);
    if !found {
      return 0;
    }
    id := IdAt(list, |str|, pos, k);
  }

  lemma WholeWordHit(hs: seq<LemmaEntry>, str: Word)
    ensures forall k: nat | k < |hs| :: Hit(hs, |str|, str, k) <==> hs[k].hanzis == str
  {
    forall k: nat | k < |hs| ensures Hit(hs, |str|, str, k) <==> hs[k].hanzis == str {
      if |hs[k].hanzis| == |str| {
        assert hs[k].hanzis[..|str|] == hs[k].hanzis;
      }
    }
  }
}
