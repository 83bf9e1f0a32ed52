/**
 * The table that collects spellings and how often they occur: open addressing with a fixed stride in a table of
 * prime size. What it holds as a map, and for which sizes a new spelling finds every free slot.
 */
module SpellingTables {
  import opened Primes
  import opened FiniteSets

  datatype RawSpelling = RawSpelling(str: string, freq: real)

  const STRIDE: nat := 123
  const NOT_SUPPORT: set<string> := {"HM", "HNG", "NG"}

  // ----- the probe sequence -----

  function Probe(h: nat, j: nat, p: nat): (pos: nat)
    requires p > 0
    ensures pos < p
  {
    (h + STRIDE * j) % p
  }

  lemma ModStep(x: nat, d: nat, p: nat)
    requires p > 0
    ensures (x % p + d) % p == (x + d) % p
  {
    var q, r := (x % p + d) / p, (x % p + d) % p;
    assert x + d == (x / p + q) * p + r by {
      assert x == (x / p) * p + x % p;
      assert x % p + d == q * p + r;
    }
    ModOfMultiple(x / p + q, r, p);
  }

  lemma NextProbe(h: nat, j: nat, p: nat)
    requires p > 0
    ensures Probe(h, j + 1, p) == (Probe(h, j, p) + STRIDE) % p
  {
    ModStep(h + STRIDE * j, STRIDE, p);
    assert STRIDE * (j + 1) == STRIDE * j + STRIDE;
  }

  /** Once the walk is back where it began it goes round and round. */
  lemma {:induction false} Periodic(h: nat, c: nat, j: nat, p: nat)
    requires p > 0 && Probe(h, c, p) == Probe(h, 0, p)
    ensures Probe(h, c + j, p) == Probe(h, j, p)
  {
    if j > 0 {
      Periodic(h, c, j - 1, p);
      NextProbe(h, c + j - 1, p);
      NextProbe(h, j - 1, p);
    }
  }

  lemma {:induction false} FoldBack(h: nat, c: nat, j: nat, p: nat) returns (i: nat)
    requires p > 0 && 0 < c && Probe(h, c, p) == Probe(h, 0, p)
    ensures i < c && Probe(h, i, p) == Probe(h, j, p)
  {
    if j < c {
      i := j;
    } else {
      Periodic(h, c, j - c, p);
      i := FoldBack(h, c, j - c, p);
    }
  }

  lemma BackAtStart(h: nat, p: nat)
    requires 0 < p
    ensures Probe(h, p, p) == Probe(h, 0, p)
  {
    ModOfMultiple(STRIDE, 0, p);
    ModStep(STRIDE * p, h, p);
    assert STRIDE * p % p == 0;
    assert (0 + h) % p == (STRIDE * p + h) % p;
  }

  lemma SameRemainder(x: nat, y: nat, p: nat)
    requires p > 0 && x <= y && x % p == y % p
    ensures Divides(p, y - x)
  {
    var q := y / p - x / p;
    assert y - x == q * p;
    ModOfMultiple(q, 0, p);
  }

  /** Before it is back the walk comes to no slot twice, unless the size divides the stride. */
  lemma NoSlotTwice(h: nat, a: nat, b: nat, p: nat)
    requires IsPrime(p) && !Divides(p, STRIDE) && a < b < p
    ensures Probe(h, a, p) != Probe(h, b, p)
  {
    assert !Divides(p, b - a);
    if Probe(h, a, p) == Probe(h, b, p) {
      SameRemainder(h + STRIDE * a, h + STRIDE * b, p);
      assert STRIDE * b - STRIDE * a == STRIDE * (b - a);
      EuclidsLemma(p, STRIDE, b - a);
    }
  }

  ghost function Visited(h: nat, n: nat, p: nat): set<nat>
    requires p > 0
  {
    if n == 0 then {} else Visited(h, n - 1, p) + {Probe(h, n - 1, p)}
  }

  lemma {:induction false} VisitedWhen(h: nat, n: nat, p: nat, x: nat) returns (j: nat)
    requires p > 0 && x in Visited(h, n, p)
    ensures j < n && x == Probe(h, j, p) < p
  {
    if x == Probe(h, n - 1, p) {
      j := n - 1;
    } else {
      j := VisitedWhen(h, n - 1, p, x);
    }
  }

  lemma {:induction false} VisitedSize(h: nat, n: nat, p: nat)
    requires IsPrime(p) && !Divides(p, STRIDE) && n <= p
    ensures |Visited(h, n, p)| == n
  {
    hide Probe, IsPrime, Divides;
    if n > 0 {
      VisitedSize(h, n - 1, p);
      NotVisitedYet(h, n - 1, p);
    }
  }

  lemma NotVisitedYet(h: nat, n: nat, p: nat)
    requires IsPrime(p) && !Divides(p, STRIDE) && n < p
    ensures Probe(h, n, p) !in Visited(h, n, p)
  {
    hide Probe, IsPrime, Divides;
    if Probe(h, n, p) in Visited(h, n, p) {
      var j := VisitedWhen(h, n, p, Probe(h, n, p));
      NoSlotTwice(h, j, n, p);
    }
  }

  lemma {:induction false} SameSize(a: set<nat>, b: set<nat>)
    requires a <= b && |a| == |b|
    ensures a == b
  {
    if b != {} {
      if x :| x in b && x !in a {
        assert a <= b - {x};
        SubsetSize(a, b - {x});
      }
    }
  }

  ghost predicate Reaches(h: nat, p: nat, i: nat)
    requires p > 0
  {
    exists j: nat :: Probe(h, j, p) == i
  }

  ghost predicate ReachesAll(h: nat, p: nat)
    requires p > 0
  {
    forall i: nat | i < p :: Reaches(h, p, i)
  }

  /** In a table of prime size the walk comes to every slot if and only if the size does not divide the stride. */
  lemma ReachesAllIff(h: nat, p: nat)
    requires IsPrime(p)
    ensures ReachesAll(h, p) <==> !Divides(p, STRIDE)
  {
    if Divides(p, STRIDE) {
      var other := if h % p == 0 then 1 else 0;
      forall j: nat ensures Probe(h, j, p) != other {
        StaysInPlace(h, j, p);
      }
      assert !Reaches(h, p, other);
    } else {
      VisitedSize(h, p, p);
      forall x | x in Visited(h, p, p) ensures x in UpTo(p) {
        var j := VisitedWhen(h, p, p, x);
      }
      SameSize(Visited(h, p, p), UpTo(p));
      forall i: nat | i < p ensures Reaches(h, p, i) {
        var j := VisitedWhen(h, p, p, i);
      }
    }
  }

  lemma StaysInPlace(h: nat, j: nat, p: nat)
    requires p > 0 && Divides(p, STRIDE)
    ensures Probe(h, j, p) == h % p
  {
    var q := QuotientOf(p, STRIDE);
    assert h + STRIDE * j == (q * j + h / p) * p + h % p by {
      assert (q * p) * j == (q * j) * p;
      assert (q * j + h / p) * p == (q * j) * p + (h / p) * p;
    }
    ModOfMultiple(q * j + h / p, h % p, p);
  }

  /** The stride is 3 * 41, so these are the sizes at which it fails. */
  lemma BadSizes(p: nat)
    requires IsPrime(p)
    ensures Divides(p, STRIDE) <==> p == 3 || p == 41
  {
    if Divides(p, STRIDE) {
      assert STRIDE == 3 * 41;
      EuclidsLemma(p, 3, 41);
      if Divides(p, 41) {
        var q := QuotientOf(p, 41);
        Divisors41(p, q);
      } else {
        var q := QuotientOf(p, 3);
      }
    }
  }

  lemma Divisors41(p: nat, q: nat)
    requires q * p == 41 && p >= 2
    ensures p == 41
  {
  }

  // ----- the table as a map -----

  /** `strncpy` and `strncmp` look at this much of a spelling. */
  function Key(s: string, size: nat): string
    requires size > 0
  {
    if |s| < size then s else s[..size - 1]
  }

  /** The sum of the first characters, and of one more than a key has. */
  function HashSum(s: string, size: nat): nat {
    if size == 0 || s == "" then 0 else s[0] as nat + HashSum(s[1..], size - 1)
  }

  ghost predicate Distinct(raw: seq<RawSpelling>) {
    forall i, j | 0 <= i < j < |raw| && raw[i].str == raw[j].str :: raw[i].str == ""
  }

  /** The slot at place `j` of the walk from `h`. */
  function At(raw: seq<RawSpelling>, h: nat, j: nat): RawSpelling
    requires |raw| > 0
  {
    raw[Probe(h, j, |raw|)]
  }

  /** The first `j` slots of the walk are taken, and not by `key`. */
  ghost predicate Passed(raw: seq<RawSpelling>, h: nat, j: nat, key: string)
    requires |raw| > 0
  {
    forall t: nat | t < j :: At(raw, h, t).str != "" && At(raw, h, t).str != key
  }

  /** The walk for a stored key comes to it before it comes to a free slot. */
  ghost predicate Found(raw: seq<RawSpelling>, size: nat, i: nat)
    requires i < |raw|
  {
    exists j: nat :: Probe(HashSum(raw[i].str, size), j, |raw|) == i && Passed(raw, HashSum(raw[i].str, size), j, "")
  }

  ghost predicate Findable(raw: seq<RawSpelling>, size: nat) {
    && Distinct(raw)
    && forall i: nat | i < |raw| && raw[i].str != "" :: |raw[i].str| < size && Found(raw, size, i)
  }

  ghost predicate Stores(raw: seq<RawSpelling>, key: string) {
    exists i: nat :: i < |raw| && raw[i].str == key
  }

  /** What the table stands for. */
  ghost function View(raw: seq<RawSpelling>): map<string, real> {
    if raw == [] then map[]
    else
      var n := |raw| - 1;
      if raw[n].str == "" then View(raw[..n]) else View(raw[..n])[raw[n].str := raw[n].freq]
  }

  lemma {:induction false} ViewKeys(raw: seq<RawSpelling>, key: string)
    ensures key in View(raw) <==> key != "" && Stores(raw, key)
  {
    if raw != [] {
      var n := |raw| - 1;
      ViewKeys(raw[..n], key);
      if Stores(raw[..n], key) {
        var i: nat :| i < n && raw[..n][i].str == key;
        assert raw[i].str == key;
      }
      if Stores(raw, key) {
        var i: nat :| i < |raw| && raw[i].str == key;
        assert i < n ==> raw[..n][i].str == key;
      }
    }
  }

  lemma {:induction false} ViewAt(raw: seq<RawSpelling>, i: nat)
    requires i < |raw| && Distinct(raw) && raw[i].str != ""
    ensures raw[i].str in View(raw) && View(raw)[raw[i].str] == raw[i].freq
  {
    var n := |raw| - 1;
    if i < n {
      assert Distinct(raw[..n]);
      ViewAt(raw[..n], i);
    }
  }

  /** Free slots have no frequency. */
  ghost predicate Clean(raw: seq<RawSpelling>) {
    forall i: nat | i < |raw| && raw[i].str == "" :: raw[i].freq == 0.0
  }

  ghost function Taken(raw: seq<RawSpelling>): (n: nat)
    ensures n <= |raw|
    ensures n == |raw| <==> forall i: nat | i < |raw| :: raw[i].str != ""
  {
    if raw == [] then 0 else Taken(raw[..|raw| - 1]) + if raw[|raw| - 1].str != "" then 1 else 0
  }

  lemma {:induction false} TakenUpdate(raw: seq<RawSpelling>, i: nat, r: RawSpelling)
    requires i < |raw|
    ensures Taken(raw[i := r]) == Taken(raw) + (if r.str != "" then 1 else 0) - (if raw[i].str != "" then 1 else 0)
  {
    var n := |raw| - 1;
    if i < n {
      assert raw[i := r][..n] == raw[..n][i := r];
      TakenUpdate(raw[..n], i, r);
    } else {
      assert raw[i := r][..n] == raw[..n];
    }
  }

  lemma PassedAt(raw: seq<RawSpelling>, h: nat, j: nat, key: string, t: nat)
    requires |raw| > 0 && Passed(raw, h, j, key) && t < j
    ensures At(raw, h, t).str != "" && At(raw, h, t).str != key
  {
  }

  /** Behind a free slot of its walk a key is not stored. */
  lemma AbsentBehindFree(raw: seq<RawSpelling>, size: nat, key: string, h: nat, j: nat)
    requires |raw| > 0 && Findable(raw, size) && key != "" && h == HashSum(key, size)
    requires Passed(raw, h, j, key) && At(raw, h, j).str == ""
    ensures !Stores(raw, key) && key !in View(raw)
  {
    hide HashSum, View;
    if Stores(raw, key) {
      var i: nat :| i < |raw| && raw[i].str == key;
      assert Found(raw, size, i);
      var t: nat :| Probe(h, t, |raw|) == i && Passed(raw, h, t, "");
      if t < j {
        PassedAt(raw, h, j, key, t);
      } else if t > j {
        PassedAt(raw, h, t, "", j);
      }
    }
    ViewKeys(raw, key);
  }

  /** A key that a whole round of its walk has not met is not stored. */
  lemma AbsentInRound(raw: seq<RawSpelling>, size: nat, key: string, h: nat, c: nat)
    requires |raw| > 0 && Findable(raw, size) && key != "" && h == HashSum(key, size)
    requires 0 < c && Probe(h, c, |raw|) == Probe(h, 0, |raw|) && Passed(raw, h, c, key)
    ensures !Stores(raw, key) && key !in View(raw)
  {
    hide HashSum, View;
    if Stores(raw, key) {
      var i: nat :| i < |raw| && raw[i].str == key;
      assert Found(raw, size, i);
      var t: nat :| Probe(h, t, |raw|) == i && Passed(raw, h, t, "");
      var u := FoldBack(h, c, t, |raw|);
      PassedAt(raw, h, c, key, u);
    }
    ViewKeys(raw, key);
  }

  /** If the walk comes to every slot, a round of taken slots means that the table is full. */
  lemma RoundIsFull(raw: seq<RawSpelling>, h: nat, c: nat, key: string)
    requires |raw| > 0 && 0 < c && Probe(h, c, |raw|) == Probe(h, 0, |raw|) && Passed(raw, h, c, key)
    requires ReachesAll(h, |raw|)
    ensures Taken(raw) == |raw|
  {
    forall i: nat | i < |raw| ensures raw[i].str != "" {
      assert Reaches(h, |raw|, i);
      var j: nat :| Probe(h, j, |raw|) == i;
      var u := FoldBack(h, c, j, |raw|);
      assert At(raw, h, u).str != "";
    }
  }

  lemma StillPassed(raw: seq<RawSpelling>, i: nat, r: RawSpelling, h: nat, j: nat)
    requires i < |raw| && r.str != "" && Passed(raw, h, j, "")
    ensures Passed(raw[i := r], h, j, "")
  {
    var raw' := raw[i := r];
    forall t: nat | t < j ensures At(raw', h, t).str != "" {
      assert At(raw, h, t).str != "";
    }
  }

  /** A new key goes to the first free slot of its walk, an old one stays where it is. */
  lemma StoreKeeps(raw: seq<RawSpelling>, size: nat, key: string, h: nat, j: nat, i: nat, f: real)
    requires |raw| > 0 && Findable(raw, size) && key != "" && |key| < size && h == HashSum(key, size)
    requires i == Probe(h, j, |raw|) && Passed(raw, h, j, key)
    requires raw[i].str == key || raw[i].str == ""
    ensures Findable(raw[i := RawSpelling(key, f)], size)
    ensures View(raw[i := RawSpelling(key, f)]) == View(raw)[key := f]
    ensures key in View(raw) <==> raw[i].str == key
  {
    hide HashSum, View, Found, Passed;
    var raw' := raw[i := RawSpelling(key, f)];
    ViewKeys(raw, key);
    if raw[i].str == "" {
      AbsentBehindFree(raw, size, key, h, j);
    }
    assert forall k: nat | k < |raw| && k != i :: raw[k].str != key;
    forall k: nat | k < |raw'| && raw'[k].str != "" ensures |raw'[k].str| < size && Found(raw', size, k) {
      StillFound(raw, size, key, h, j, i, f, k);
    }
    StoredView(raw, i, key, f);
  }

  lemma StillFound(raw: seq<RawSpelling>, size: nat, key: string, h: nat, j: nat, i: nat, f: real, k: nat)
    requires |raw| > 0 && key != "" && h == HashSum(key, size)
    requires i == Probe(h, j, |raw|) && Passed(raw, h, j, key) && k < |raw|
    requires k == i || Found(raw, size, k)
    ensures Found(raw[i := RawSpelling(key, f)], size, k)
  {
    hide HashSum;
    if k == i {
      assert Passed(raw, h, j, "");
      StillPassed(raw, i, RawSpelling(key, f), h, j);
      assert raw[i := RawSpelling(key, f)][k].str == key;
    } else {
      var g := HashSum(raw[k].str, size);
      var t: nat :| Probe(g, t, |raw|) == k && Passed(raw, g, t, "");
      StillPassed(raw, i, RawSpelling(key, f), g, t);
      assert raw[i := RawSpelling(key, f)][k] == raw[k];
    }
  }

  lemma StoredView(raw: seq<RawSpelling>, i: nat, key: string, f: real)
    requires i < |raw| && Distinct(raw) && key != "" && (raw[i].str == key || raw[i].str == "")
    requires forall k: nat | k < |raw| && k != i :: raw[k].str != key
    ensures Distinct(raw[i := RawSpelling(key, f)])
    ensures View(raw[i := RawSpelling(key, f)]) == View(raw)[key := f]
  {
    hide View;
    var raw' := raw[i := RawSpelling(key, f)];
    var a, b := View(raw'), View(raw)[key := f];
    assert Distinct(raw');
    forall x ensures (x in a <==> x in b) && (x in a ==> a[x] == b[x]) {
      StoredViewAt(raw, i, key, f, x);
    }
  }

  lemma StoredViewAt(raw: seq<RawSpelling>, i: nat, key: string, f: real, x: string)
    requires i < |raw| && Distinct(raw) && key != "" && (raw[i].str == key || raw[i].str == "")
    requires forall k: nat | k < |raw| && k != i :: raw[k].str != key
    requires Distinct(raw[i := RawSpelling(key, f)])
    ensures x in View(raw[i := RawSpelling(key, f)]) <==> x in View(raw)[key := f]
    ensures x in View(raw)[key := f] ==> View(raw[i := RawSpelling(key, f)])[x] == View(raw)[key := f][x]
  {
    hide View;
    var raw' := raw[i := RawSpelling(key, f)];
    ViewKeys(raw', x);
    ViewKeys(raw, x);
    if x == key {
      assert raw'[i].str == x;
      ViewAt(raw', i);
    } else if x != "" {
      if Stores(raw, x) {
        var k: nat :| k < |raw| && raw[k].str == x;
        assert k != i;
        assert raw'[k] == raw[k];
        ViewAt(raw, k);
        ViewAt(raw', k);
      } else {
        assert !Stores(raw', x);
      }
    }
  }

  // ----- what putting a spelling means -----

  /**
   * For a spelling that is not empty and not longer than a key: it is added to the map, or its frequency to what is
   * there. It is refused only if it is new, and, if its walk comes to every slot, only if the table is full.
   */
  ghost predicate PutMeans(raw: seq<RawSpelling>, raw': seq<RawSpelling>, size: nat, s: string, freq: real, ok: bool)
    requires |raw| == |raw'| > 0
  {
    s != "" && |s| < size && Findable(raw, size) ==>
      && Findable(raw', size)
      && (!ok ==> s !in View(raw) && raw' == raw)
      && (ok && s in View(raw) ==> View(raw') == View(raw)[s := View(raw)[s] + freq])
      && (ok && s !in View(raw) && Clean(raw) ==> View(raw') == View(raw)[s := freq])
      && (Clean(raw) ==> Clean(raw'))
      && (ReachesAll(HashSum(s, size), |raw|) ==> (ok <==> s in View(raw) || Taken(raw) < |raw|))
  }

  lemma PutStores(raw: seq<RawSpelling>, size: nat, s: string, j: nat, i: nat, freq: real)
    requires |raw| > 0 && size >= 2 && i == Probe(HashSum(s, size), j, |raw|)
    requires Passed(raw, HashSum(s, size), j, Key(s, size))
    requires raw[i].str == Key(s, size) || raw[i].str == ""
    ensures PutMeans(raw, raw[i := RawSpelling(Key(s, size), raw[i].freq + freq)], size, s, freq, true)
  {
    hide HashSum, View, Findable, Passed, ReachesAll;
    if s != "" && |s| < size && Findable(raw, size) {
      StoreKeeps(raw, size, s, HashSum(s, size), j, i, raw[i].freq + freq);
      if raw[i].str == s {
        assert Distinct(raw) by { FindableDistinct(raw, size); }
        ViewAt(raw, i);
      } else {
        assert Taken(raw) < |raw|;
      }
    }
  }

  lemma FindableDistinct(raw: seq<RawSpelling>, size: nat)
    requires Findable(raw, size)
    ensures Distinct(raw)
  {
  }

  lemma PutRefuses(raw: seq<RawSpelling>, size: nat, s: string, c: nat, freq: real)
    requires |raw| > 0 && size >= 2 && c > 0 && Probe(HashSum(s, size), c, |raw|) == Probe(HashSum(s, size), 0, |raw|)
    requires Passed(raw, HashSum(s, size), c, Key(s, size))
    ensures PutMeans(raw, raw, size, s, freq, false)
  {
    hide HashSum, View, Findable, Passed, ReachesAll;
    if s != "" && |s| < size && Findable(raw, size) {
      AbsentInRound(raw, size, s, HashSum(s, size), c);
      if ReachesAll(HashSum(s, size), |raw|) {
        RoundIsFull(raw, HashSum(s, size), c, s);
      }
    }
  }

  lemma PutHere(raw: seq<RawSpelling>, size: nat, s: string, i: nat, freq: real)
    requires size > 0 && EndsAt(raw, HashSum(s, size), Key(s, size), i)
    ensures Put(raw, raw[i := RawSpelling(Key(s, size), raw[i].freq + freq)], size, s, freq, true)
  {
    hide HashSum, Passed, Probe;
    assert raw[i := RawSpelling(Key(s, size), raw[i].freq + freq)] == PutAt(raw, i, Key(s, size), freq);
  }

  lemma NotPut(raw: seq<RawSpelling>, size: nat, s: string, freq: real)
    requires size > 0 && !Ends(raw, HashSum(s, size), Key(s, size))
    ensures Put(raw, raw, size, s, freq, false)
  {
  }

  lemma PassedOn(raw: seq<RawSpelling>, h: nat, j: nat, key: string)
    requires |raw| > 0 && Passed(raw, h, j, key) && At(raw, h, j).str != "" && At(raw, h, j).str != key
    ensures Passed(raw, h, j + 1, key)
  {
  }

  // ----- every spelling: empty ones, and those that are longer than a key -----

  /** The walk from `h` for a key ends at slot `i`, the first one that is free or holds the key. */
  ghost predicate EndsAt(raw: seq<RawSpelling>, h: nat, key: string, i: nat) {
    && i < |raw| && (raw[i].str == "" || raw[i].str == key)
    && exists j: nat :: Probe(h, j, |raw|) == i && Passed(raw, h, j, key)
  }

  ghost predicate Ends(raw: seq<RawSpelling>, h: nat, key: string) {
    exists i: nat :: EndsAt(raw, h, key, i)
  }

  /** What putting does to the table, for every spelling. */
  ghost predicate Put(raw: seq<RawSpelling>, raw': seq<RawSpelling>, size: nat, s: string, freq: real, ok: bool)
    requires size > 0
  {
    && (ok <==> Ends(raw, HashSum(s, size), Key(s, size)))
    && (!ok ==> raw' == raw)
    && (ok ==> exists i: nat :: EndsAt(raw, HashSum(s, size), Key(s, size), i) && raw' == PutAt(raw, i, Key(s, size), freq))
  }

  ghost function PutAt(raw: seq<RawSpelling>, i: nat, key: string, freq: real): (raw': seq<RawSpelling>)
    requires i < |raw|
  {
    raw[i := RawSpelling(key, raw[i].freq + freq)]
  }

  lemma EndsHere(raw: seq<RawSpelling>, h: nat, key: string, j: nat, i: nat)
    requires |raw| > 0 && i == Probe(h, j, |raw|) && Passed(raw, h, j, key) && (raw[i].str == "" || raw[i].str == key)
    ensures EndsAt(raw, h, key, i) && Ends(raw, h, key)
  {
    hide Probe, Passed;
    assert EndsAt(raw, h, key, i);
  }

  /** A round of slots that are taken by others: the walk has no end. */
  lemma NeverEnds(raw: seq<RawSpelling>, h: nat, key: string, c: nat)
    requires |raw| > 0 && c > 0 && Probe(h, c, |raw|) == Probe(h, 0, |raw|) && Passed(raw, h, c, key)
    ensures !Ends(raw, h, key)
  {
    hide Probe;
    if i: nat :| EndsAt(raw, h, key, i) {
      var j: nat :| Probe(h, j, |raw|) == i && Passed(raw, h, j, key);
      var u := FoldBack(h, c, j, |raw|);
      PassedAt(raw, h, c, key, u);
    }
  }

  lemma OneEnd(raw: seq<RawSpelling>, h: nat, key: string, a: nat, b: nat)
    requires EndsAt(raw, h, key, a) && EndsAt(raw, h, key, b)
    ensures a == b
  {
    hide Probe;
    var j: nat :| Probe(h, j, |raw|) == a && Passed(raw, h, j, key);
    var k: nat :| Probe(h, k, |raw|) == b && Passed(raw, h, k, key);
    if j < k {
      PassedAt(raw, h, k, key, j);
    } else if k < j {
      PassedAt(raw, h, j, key, k);
    }
  }

  lemma {:induction false} FirstVisit(h: nat, j: nat, p: nat) returns (first: nat)
    requires p > 0
    ensures first <= j && Probe(h, first, p) == Probe(h, j, p)
    ensures forall t: nat | t < first :: Probe(h, t, p) != Probe(h, j, p)
  {
    hide Probe;
    if t: nat :| t < j && Probe(h, t, p) == Probe(h, j, p) {
      first := FirstVisit(h, t, p);
    } else {
      first := j;
    }
  }

  /** If the table with a key at slot `i` is findable, the walk for that key ended there before. */
  lemma FindableEndsThere(raw: seq<RawSpelling>, size: nat, key: string, i: nat, f: real)
    requires i < |raw| && key != "" && (raw[i].str == "" || raw[i].str == key)
    requires Findable(raw[i := RawSpelling(key, f)], size)
    ensures EndsAt(raw, HashSum(key, size), key, i)
  {
    hide Probe, HashSum;
    var raw', h := raw[i := RawSpelling(key, f)], HashSum(key, size);
    assert raw'[i].str == key;
    assert Found(raw', size, i);
    var j: nat :| Probe(h, j, |raw|) == i && Passed(raw', h, j, "");
    var first := FirstVisit(h, j, |raw|);
    forall t: nat | t < first ensures At(raw, h, t).str != "" && At(raw, h, t).str != key {
      PassedAt(raw', h, j, "", t);
      assert At(raw, h, t) == At(raw', h, t);
    }
    assert Passed(raw, h, first, key);
  }

  /**
   * What putting any spelling means for the map. The empty one changes nothing in it. Every other one, also one that is
   * cut, is stored as its key so that the table stays findable exactly if the walk for the key alone ends
   * at the same slot: at the same free one, or where the key is already.
   */
  lemma PutIs(raw: seq<RawSpelling>, size: nat, s: string, i: nat, freq: real)
    requires size >= 2 && Findable(raw, size) && EndsAt(raw, HashSum(s, size), Key(s, size), i)
    ensures var key, raw' := Key(s, size), PutAt(raw, i, Key(s, size), freq);
      && (s == "" ==> Findable(raw', size) && View(raw') == View(raw))
      && (s != "" ==> (Findable(raw', size) <==> EndsAt(raw, HashSum(key, size), key, i)))
      && (s != "" && Findable(raw', size) ==> View(raw') == View(raw)[key := raw[i].freq + freq])
      && raw'[i].str == key && EndsAt(raw', HashSum(s, size), key, i)
  {
    hide Probe, HashSum, View, Findable, Passed;
    var key, f := Key(s, size), raw[i].freq + freq;
    StillEnds(raw, HashSum(s, size), key, i, f);
    if s == "" {
      FreeSlotStays(raw, size, i, f);
    } else {
      if EndsAt(raw, HashSum(key, size), key, i) {
        var j: nat :| Probe(HashSum(key, size), j, |raw|) == i && Passed(raw, HashSum(key, size), j, key);
        StoreKeeps(raw, size, key, HashSum(key, size), j, i, f);
      }
      if Findable(PutAt(raw, i, key, freq), size) {
        FindableEndsThere(raw, size, key, i, f);
      }
    }
  }

  lemma StillEnds(raw: seq<RawSpelling>, h: nat, key: string, i: nat, f: real)
    requires EndsAt(raw, h, key, i)
    ensures EndsAt(raw[i := RawSpelling(key, f)], h, key, i)
  {
    hide Probe;
    var raw' := raw[i := RawSpelling(key, f)];
    var j: nat :| Probe(h, j, |raw|) == i && Passed(raw, h, j, key);
    forall t: nat | t < j ensures At(raw', h, t).str != "" && At(raw', h, t).str != key {
      PassedAt(raw, h, j, key, t);
    }
    assert Passed(raw', h, j, key);
  }

  /** The frequency of a free slot is no part of the map. */
  lemma FreeSlotStays(raw: seq<RawSpelling>, size: nat, i: nat, f: real)
    requires i < |raw| && raw[i].str == "" && Findable(raw, size)
    ensures Findable(raw[i := RawSpelling("", f)], size) && View(raw[i := RawSpelling("", f)]) == View(raw)
  {
    hide Probe, HashSum;
    var raw' := raw[i := RawSpelling("", f)];
    forall k: nat | k < |raw'| && raw'[k].str != "" ensures |raw'[k].str| < size && Found(raw', size, k) {
      assert Found(raw, size, k);
      var h := HashSum(raw[k].str, size);
      var j: nat :| Probe(h, j, |raw|) == k && Passed(raw, h, j, "");
      assert forall t: nat | t < j :: At(raw', h, t).str == At(raw, h, t).str;
      assert Passed(raw', h, j, "");
    }
    FreeSlotView(raw, i, f);
  }

  lemma {:induction false} FreeSlotView(raw: seq<RawSpelling>, i: nat, f: real)
    requires i < |raw| && raw[i].str == ""
    ensures View(raw[i := RawSpelling("", f)]) == View(raw)
  {
    var n := |raw| - 1;
    if i < n {
      assert raw[i := RawSpelling("", f)][..n] == raw[..n][i := RawSpelling("", f)];
      FreeSlotView(raw[..n], i, f);
    } else {
      assert raw[i := RawSpelling("", f)][..n] == raw[..n];
    }
  }

  /** The place of a spelling that is cut is chosen by one character more than its key has. */
  lemma {:induction false} HashOfLong(s: string, size: nat)
    requires 0 < size <= |s|
    ensures HashSum(s, size) == HashSum(Key(s, size), size) + s[size - 1] as nat
  {
    if size > 1 {
      HashOfLong(s[1..], size - 1);
      assert Key(s, size)[1..] == Key(s[1..], size - 1);
      LessOfShort(Key(s, size)[1..], size - 1);
    } else {
      assert HashSum(s[1..], 0) == 0;
    }
  }

  lemma {:induction false} LessOfShort(s: string, size: nat)
    requires |s| <= size
    ensures HashSum(s, size) == HashSum(s, size + 1)
  {
    if s != "" {
      LessOfShort(s[1..], size - 1);
    }
  }

  /** If that character's code is a multiple of the table's size the table stays findable, whatever is in it. */
  lemma CutButFindable(raw: seq<RawSpelling>, size: nat, s: string, i: nat, freq: real, q: nat)
    requires size >= 2 && Findable(raw, size) && |s| >= size && EndsAt(raw, HashSum(s, size), Key(s, size), i)
    requires s[size - 1] as nat == q * |raw|
    ensures Findable(PutAt(raw, i, Key(s, size), freq), size)
    ensures View(PutAt(raw, i, Key(s, size), freq)) == View(raw)[Key(s, size) := raw[i].freq + freq]
  {
    hide HashSum, View, Findable, Probe, Passed, Key;
    var key := Key(s, size);
    var h, g := HashSum(s, size), HashSum(key, size);
    HashOfLong(s, size);
    var j: nat :| Probe(h, j, |raw|) == i && Passed(raw, h, j, key);
    SamePassed(raw, g, h, j, key, q);
    EndsHere(raw, g, key, j, i);
    PutIs(raw, size, s, i, freq);
  }

  lemma SamePassed(raw: seq<RawSpelling>, g: nat, h: nat, j: nat, key: string, q: nat)
    requires |raw| > 0 && h == g + q * |raw| && Passed(raw, h, j, key)
    ensures Passed(raw, g, j, key) && Probe(g, j, |raw|) == Probe(h, j, |raw|)
  {
    hide Probe;
    SameProbe(g, h, j, |raw|, q);
    forall t: nat | t < j ensures At(raw, g, t).str != "" && At(raw, g, t).str != key {
      SameProbe(g, h, t, |raw|, q);
      PassedAt(raw, h, j, key, t);
    }
  }

  lemma SameProbe(g: nat, h: nat, j: nat, p: nat, q: nat)
    requires p > 0 && h == g + q * p
    ensures Probe(g, j, p) == Probe(h, j, p)
  {
    ModOfMultiple(q, 0, p);
    ModStep(q * p, g + STRIDE * j, p);
  }

  /** The walk from `h` meets the key before a free slot. */
  ghost predicate Meets(raw: seq<RawSpelling>, h: nat, key: string) {
    key != "" && exists i: nat :: EndsAt(raw, h, key, i) && raw[i].str == key
  }

  /** When a spelling has been put, whatever its length, its own walk meets it. */
  lemma PutIsMet(raw: seq<RawSpelling>, raw': seq<RawSpelling>, size: nat, s: string, freq: real)
    requires size >= 2 && s != "" && Put(raw, raw', size, s, freq, true)
    ensures Meets(raw', HashSum(s, size), Key(s, size))
  {
    hide HashSum, Passed, Probe;
    var key := Key(s, size);
    var i: nat :| EndsAt(raw, HashSum(s, size), key, i) && raw' == PutAt(raw, i, key, freq);
    StillEnds(raw, HashSum(s, size), key, i, raw[i].freq + freq);
    assert EndsAt(raw', HashSum(s, size), key, i);
  }

  lemma SameWalk(raw: seq<RawSpelling>, raw': seq<RawSpelling>, h: nat, key: string, i: nat, k: nat)
    requires |raw| == |raw'| && i < |raw| && (raw[i].str == "" || raw[i].str == key)
    requires EndsAt(raw, h, key, k) && (k == i || raw'[k] == raw[k]) && (raw'[i].str == "" || raw'[i].str == key)
    requires forall x: nat | x < |raw| && x != i :: raw'[x] == raw[x]
    ensures EndsAt(raw', h, key, k)
  {
    hide Probe;
    var j: nat :| Probe(h, j, |raw|) == k && Passed(raw, h, j, key);
    forall t: nat | t < j ensures At(raw', h, t).str != "" && At(raw', h, t).str != key {
      PassedAt(raw, h, j, key, t);
    }
    assert Passed(raw', h, j, key);
  }

  /**
   * The key of a spelling that was cut can be found by itself afterwards exactly if its own walk ends at the slot
   * the spelling went to, or met the key before: otherwise the key is in the table and is lost.
   */
  lemma KeyMetIff(raw: seq<RawSpelling>, size: nat, s: string, i: nat, freq: real)
    requires size >= 2 && s != "" && EndsAt(raw, HashSum(s, size), Key(s, size), i)
    ensures var key, h := Key(s, size), HashSum(Key(s, size), size);
      Meets(PutAt(raw, i, key, freq), h, key) <==> EndsAt(raw, h, key, i) || Meets(raw, h, key)
  {
    hide HashSum, Passed, Probe;
    var key, h := Key(s, size), HashSum(Key(s, size), size);
    var raw' := PutAt(raw, i, key, freq);
    if Meets(raw', h, key) {
      var k: nat :| EndsAt(raw', h, key, k) && raw'[k].str == key;
      SameWalk(raw', raw, h, key, i, k);
    }
    if EndsAt(raw, h, key, i) {
      SameWalk(raw, raw', h, key, i, i);
    } else if Meets(raw, h, key) {
      var k: nat :| EndsAt(raw, h, key, k) && raw[k].str == key;
      SameWalk(raw, raw', h, key, i, k);
    }
  }

  /**
   * A spelling that is longer than a key is stored as its key, but at the place for more of it: with two slots and
   * keys of one character "ac" goes to slot 0, and is met there; but the walk for "a" ends at the free slot 1.
   */
  lemma TooLongIsLost()
    ensures var raw := [RawSpelling("", 0.0), RawSpelling("", 0.0)][Probe(HashSum("ac", 2), 0, 2) := RawSpelling(Key("ac", 2), 1.0)];
      && "a" in View(raw) && !Findable(raw, 2)
      && Meets(raw, HashSum("ac", 2), Key("ac", 2)) && !Meets(raw, HashSum("a", 2), Key("a", 2))
  {
    assert HashSum("ac", 2) == 196 && HashSum("a", 2) == 97 by {
      assert "ac"[1..] == "c" && "c"[1..] == "" && "a"[1..] == "";
    }
    assert Key("ac", 2) == Key("a", 2) == "a";
    assert Probe(196, 0, 2) == 0 && Probe(97, 0, 2) == 1;
    var raw := [RawSpelling("", 0.0), RawSpelling("", 0.0)][0 := RawSpelling("a", 1.0)];
    LostKey(raw, 196, 97);
  }

  lemma LostKey(raw: seq<RawSpelling>, h: nat, g: nat)
    requires |raw| == 2 && raw[0].str == "a" && raw[1].str == "" && Probe(h, 0, 2) == 0 && Probe(g, 0, 2) == 1
    requires g == HashSum("a", 2) && Key("a", 2) == "a"
    ensures "a" in View(raw) && !Findable(raw, 2) && Meets(raw, h, "a") && !Meets(raw, g, "a")
  {
    hide HashSum, Probe, View, Findable, Meets;
    assert Passed(raw, h, 0, "a") && Passed(raw, g, 0, "a") && At(raw, g, 0) == raw[1];
    ViewKeys(raw, "a");
    EndsHere(raw, h, "a", 0, 0);
    MetAt(raw, h, "a", 0);
    NotThere(raw, 2, "a", 0);
    NotFindable(raw, 2, "a", g, 0);
  }

  lemma NotFindable(raw: seq<RawSpelling>, size: nat, key: string, h: nat, j: nat)
    requires |raw| > 0 && key != "" && h == HashSum(key, size)
    requires Passed(raw, h, j, key) && At(raw, h, j).str == "" && key in View(raw)
    ensures !Findable(raw, size)
  {
    hide HashSum, View, Findable, Passed, Probe;
    if Findable(raw, size) {
      AbsentBehindFree(raw, size, key, h, j);
    }
  }

  lemma MetAt(raw: seq<RawSpelling>, h: nat, key: string, i: nat)
    requires key != "" && EndsAt(raw, h, key, i) && raw[i].str == key
    ensures Meets(raw, h, key)
  {
  }

  // ----- refusal -----

  /** A walk that comes to a free slot has an end. */
  lemma {:induction false} EndsBy(raw: seq<RawSpelling>, h: nat, key: string, j: nat)
    requires |raw| > 0 && (At(raw, h, j).str == "" || At(raw, h, j).str == key)
    ensures Ends(raw, h, key)
  {
    hide Probe;
    if Passed(raw, h, j, key) {
      EndsHere(raw, h, key, j, Probe(h, j, |raw|));
    } else {
      var t: nat :| t < j && (At(raw, h, t).str == "" || At(raw, h, t).str == key);
      EndsBy(raw, h, key, t);
    }
  }

  lemma FreeThenEnds(raw: seq<RawSpelling>, h: nat, key: string)
    requires |raw| > 0 && ReachesAll(h, |raw|) && Taken(raw) < |raw|
    ensures Ends(raw, h, key)
  {
    hide Probe;
    var i: nat :| i < |raw| && raw[i].str == "";
    assert Reaches(h, |raw|, i);
    var j: nat :| Probe(h, j, |raw|) == i;
    EndsBy(raw, h, key, j);
  }

  /** A table of `p` slots, whatever it holds, refuses a spelling only when it is full. */
  ghost predicate RefusesOnlyFull(p: nat) {
    forall raw, size, s | |raw| == p && size >= 2 && Findable(raw, size) && !Ends(raw, HashSum(s, size), Key(s, size)) :: Taken(raw) == p
  }

  /** A table that holds "a" only. */
  ghost function OnlyA(p: nat): (raw: seq<RawSpelling>)
    requires p > 0
    ensures |raw| == p && forall i | 0 <= i < p :: raw[i] == if i == 97 % p then RawSpelling("a", 1.0) else RawSpelling("", 0.0)
  {
    seq(p, i => if i == 97 % p then RawSpelling("a", 1.0) else RawSpelling("", 0.0))
  }

  /** The spelling of one character, `p` codes behind "a": for 3 slots it is "d". */
  function Behind(p: nat): string
    requires p < 1000
  {
    [(97 + p) as char]
  }

  lemma OnlyAFindable(p: nat)
    requires p > 1
    ensures Findable(OnlyA(p), 2) && Taken(OnlyA(p)) < p
  {
    var raw, r: nat := OnlyA(p), 97 % p;
    assert HashSum("a", 2) == 97 by {
      assert "a"[1..] == "";
    }
    assert raw[r].str == "a" && Probe(97, 0, p) == r && Passed(raw, 97, 0, "");
    assert Found(raw, 2, r);
    var other: nat := if r == 0 then 1 else 0;
    assert raw[other].str == "";
  }

  /** If the size divides the stride the walk stays where it begins: a spelling is refused by a table that is all but empty. */
  lemma RefusedThoughFree(p: nat)
    requires IsPrime(p) && Divides(p, STRIDE)
    ensures p < 1000 && Findable(OnlyA(p), 2) && Taken(OnlyA(p)) < p
    ensures Behind(p) !in View(OnlyA(p)) && !Ends(OnlyA(p), HashSum(Behind(p), 2), Key(Behind(p), 2))
  {
    hide View, Findable, Taken;
    BadSizes(p);
    OnlyAFindable(p);
    var raw, s, h := OnlyA(p), Behind(p), 97 + p;
    assert HashSum(s, 2) == h by {
      assert s[1..] == "";
    }
    assert Key(s, 2) == s != "a" && s != "";
    ViewKeys(raw, s);
    if i: nat :| EndsAt(raw, h, s, i) {
      var j: nat :| Probe(h, j, p) == i && Passed(raw, h, j, s);
      StaysInPlace(h, j, p);
      ModOfMultiple(1, 97 % p, p);
      ModStep(97, p, p);
    }
  }

  /** Exactly the tables whose size does not divide the stride refuse nothing before they are full. */
  lemma RefusesOnlyFullIff(p: nat)
    requires IsPrime(p)
    ensures RefusesOnlyFull(p) <==> !Divides(p, STRIDE)
  {
    hide HashSum, Key, Findable, Ends, Divides;
    if Divides(p, STRIDE) {
      RefusedThoughFree(p);
    } else {
      forall raw, size, s | |raw| == p && size >= 2 && Findable(raw, size) && !Ends(raw, HashSum(s, size), Key(s, size))
        ensures Taken(raw) == p
      {
        ReachesAllIff(HashSum(s, size), p);
        if Taken(raw) < p {
          FreeThenEnds(raw, HashSum(s, size), Key(s, size));
        }
      }
    }
  }

  // ----- the table -----

  class SpellingTable {
    var raw: array<RawSpelling>
    var size: nat
    var num: nat
    var total: real
    var frozen: bool

    /** Between `init_table` and `arrange`. */
    ghost predicate Valid()
      reads this, raw
    {
      raw.Length > 0 && size >= 2 && !frozen && num == Taken(raw[..])
    }

    /** `init_table` with sizes that it accepts. */
    constructor (pureSplSize: nat, splMaxNum: nat, needScore: bool)
      requires pureSplSize > 0 && splMaxNum > 0
      ensures Valid() && fresh(raw) && Findable(raw[..], size) && Clean(raw[..]) && View(raw[..]) == map[] && num == 0
      ensures size == pureSplSize + (if needScore then 2 else 1)
      ensures raw.Length >= splMaxNum && (splMaxNum > 1 ==> IsPrime(raw.Length)) && (splMaxNum == 1 ==> raw.Length == 1)
    {
      size := pureSplSize + if needScore then 2 else 1;
      var n := GetOddNext(splMaxNum);
      raw := new RawSpelling[n](_ => RawSpelling("", 0.0));
      num, total, frozen := 0, 0.0, false;
      new;
      EmptyTable(raw[..]);
    }

    method GetHashPos(s: string) returns (pos: nat)
      requires raw.Length > 0
      ensures pos == Probe(HashSum(s, size), 0, raw.Length)
    {
      pos := 0;
      var i := 0;
      while i < size && i < |s|
        invariant i <= size && i <= |s| && pos + HashSum(s[i..], size - i) == HashSum(s, size)
      {
        pos := pos + s[i] as nat;
        assert s[i..][1..] == s[i + 1..];
        i := i + 1;
      }
      pos := pos % raw.Length;
    }

    method HashPosNext(pos: nat) returns (next: nat)
      requires raw.Length > 0
      ensures next == (pos + STRIDE) % raw.Length
    {
      next := (pos + STRIDE) % raw.Length;
    }

    /**
     * Adds to the frequency of a spelling, or stores it. What the map then is, and when it is refused: only if a whole
     * round of its walk is taken by others.
     */
    method PutSpelling(s: string, freq: real) returns (ok: bool)
      requires Valid()
      modifies this`num, this`total, raw
      ensures Valid() && total == old(total) + if s in NOT_SUPPORT then 0.0 else freq
      ensures s in NOT_SUPPORT ==> !ok && raw[..] == old(raw[..])
      ensures s !in NOT_SUPPORT ==> Put(old(raw[..]), raw[..], size, s, freq, ok)
      ensures s !in NOT_SUPPORT ==> PutMeans(old(raw[..]), raw[..], size, s, freq, ok)
    {
      hide PutMeans, Put, Taken, HashSum, Key, Probe;
      if s in NOT_SUPPORT {
        return false;
      }
      total := total + freq;
      var key := Key(s, size);
      ghost var h, j, before := HashSum(s, size), 0, raw[..];
      var pos := GetHashPos(s);
      if raw[pos].str == key {
        Store(pos, key, freq, s, j);
        return true;
      }
      var start := pos;
      while true
        invariant pos == Probe(h, j, raw.Length) && raw[..] == before && j < raw.Length
        invariant total == old(total) + freq && num == old(num)
        invariant Passed(before, h, j, key)
        decreases raw.Length - j
      {
        if raw[pos].str == key {
          Store(pos, key, freq, s, j);
          return true;
        }
        if raw[pos].str == "" {
          num := num + 1;
          Store(pos, key, freq, s, j);
          return true;
        }
        PassedOn(before, h, j, key);
        NextProbe(h, j, raw.Length);
        pos := HashPosNext(pos);
        j := j + 1;
        if pos == start {
          PutRefuses(before, size, s, j, freq);
          NeverEnds(before, h, key, j);
          NotPut(before, size, s, freq);
          return false;
        }
        if j == raw.Length {
          BackAtStart(h, raw.Length);
        }
      }
    }

    method Store(pos: nat, key: string, freq: real, ghost s: string, ghost j: nat)
      requires raw.Length > 0 && size >= 2 && key == Key(s, size) && pos == Probe(HashSum(s, size), j, raw.Length)
      requires Passed(raw[..], HashSum(s, size), j, key) && (raw[pos].str == key || raw[pos].str == "")
      modifies raw
      ensures raw[..] == old(raw[..])[pos := RawSpelling(key, old(raw[pos].freq) + freq)]
      ensures Put(old(raw[..]), raw[..], size, s, freq, true)
      ensures PutMeans(old(raw[..]), raw[..], size, s, freq, true)
      ensures Taken(raw[..]) == Taken(old(raw[..])) + if old(raw[pos].str) == "" && key != "" then 1 else 0
    {
      hide PutMeans, Put, Taken, HashSum, Key, Probe, Passed;
      EndsHere(raw[..], HashSum(s, size), key, j, pos);
      PutHere(raw[..], size, s, pos, freq);
      PutStores(raw[..], size, s, j, pos, freq);
      TakenUpdate(raw[..], pos, RawSpelling(key, raw[pos].freq + freq));
      raw[pos] := RawSpelling(key, raw[pos].freq + freq);
    }

    /** Whether a spelling is stored. */
    method Contain(s: string) returns (r: bool)
      requires Valid()
      ensures r <==> Meets(raw[..], HashSum(s, size), Key(s, size))
      ensures s != "" && |s| < size && Findable(raw[..], size) ==> (r <==> s in View(raw[..]))
    {
      var key := Key(s, size);
      ghost var h, j, now := HashSum(s, size), 0, raw[..];
      var pos := GetHashPos(s);
      if raw[pos].str == "" {
        NotThere(now, size, s, j);
        return false;
      }
      if raw[pos].str == key {
        There(now, size, s, j, pos);
        return true;
      }
      PassedOn(now, h, j, key);
      var start := pos;
      while true
        invariant pos == Probe(h, j, raw.Length) && j < raw.Length
        invariant Passed(now, h, j + 1, key)
        decreases raw.Length - j
      {
        NextProbe(h, j, raw.Length);
        pos := HashPosNext(pos);
        j := j + 1;
        if pos == start {
          PutRefuses(now, size, s, j, 0.0);
          NeverEnds(now, h, key, j);
          return false;
        }
        if j == raw.Length {
          BackAtStart(h, raw.Length);
        }
        if raw[pos].str == "" {
          NotThere(now, size, s, j);
          return false;
        }
        if raw[pos].str == key {
          There(now, size, s, j, pos);
          return true;
        }
        PassedOn(now, h, j, key);
      }
    }
  }

  lemma NotThere(raw: seq<RawSpelling>, size: nat, s: string, j: nat)
    requires |raw| > 0 && size >= 2 && Passed(raw, HashSum(s, size), j, Key(s, size)) && At(raw, HashSum(s, size), j).str == ""
    ensures !Meets(raw, HashSum(s, size), Key(s, size))
    ensures s != "" && |s| < size && Findable(raw, size) ==> s !in View(raw)
  {
    hide HashSum, View, Probe, Passed, Findable;
    var h, key, i := HashSum(s, size), Key(s, size), Probe(HashSum(s, size), j, |raw|);
    EndsHere(raw, h, key, j, i);
    if k: nat :| EndsAt(raw, h, key, k) && raw[k].str == key && key != "" {
      OneEnd(raw, h, key, i, k);
    }
    if s != "" && |s| < size && Findable(raw, size) {
      AbsentBehindFree(raw, size, s, HashSum(s, size), j);
    }
  }

  lemma There(raw: seq<RawSpelling>, size: nat, s: string, j: nat, i: nat)
    requires size >= 2 && |raw| > 0 && i == Probe(HashSum(s, size), j, |raw|) && Passed(raw, HashSum(s, size), j, Key(s, size))
    requires raw[i].str == Key(s, size) != ""
    ensures Meets(raw, HashSum(s, size), Key(s, size))
    ensures s != "" && |s| < size ==> s in View(raw)
  {
    hide View, HashSum, Probe, Passed;
    EndsHere(raw, HashSum(s, size), Key(s, size), j, i);
    ViewKeys(raw, s);
  }

  lemma {:induction false} EmptyTable(raw: seq<RawSpelling>)
    requires forall i: nat | i < |raw| :: raw[i] == RawSpelling("", 0.0)
    ensures View(raw) == map[] && Taken(raw) == 0
  {
    if raw != [] {
      EmptyTable(raw[..|raw| - 1]);
    }
  }
}
