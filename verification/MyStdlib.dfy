/** The sorting and searching that the dictionary code calls. */
module MyStdlib {

  /** An order that `qsort` may be given: total and transitive, with ties allowed. */
  ghost predicate TotalPreorder<T(!new)>(cmp: (T, T) -> int) {
    && (forall a, b :: cmp(a, b) <= 0 || cmp(b, a) <= 0)
    && (forall a, b, c :: cmp(a, b) <= 0 && cmp(b, c) <= 0 ==> cmp(a, c) <= 0)
  }

  ghost predicate Sorted<T>(s: seq<T>, cmp: (T, T) -> int) {
    forall i, j | 0 <= i < j < |s| :: InOrder(s, cmp, i, j)
  }

  ghost predicate InOrder<T>(s: seq<T>, cmp: (T, T) -> int, i: nat, j: nat)
    requires i < |s| && j < |s|
  {
    cmp(s[i], s[j]) <= 0
  }

  /** The first position of a sorted list in front of which `x` may be put. */
  method FindPlace<T(!new)>(s: seq<T>, x: T, cmp: (T, T) -> int) returns (p: nat)
    requires TotalPreorder(cmp) && Sorted(s, cmp)
    ensures p <= |s|
    ensures forall i | 0 <= i < p :: cmp(s[i], x) <= 0
    ensures forall i | p <= i < |s| :: cmp(x, s[i]) <= 0
  {
    p := |s|;
    while p > 0 && cmp(s[p - 1], x) > 0
      invariant p <= |s|
      invariant forall i | p <= i < |s| :: cmp(x, s[i]) <= 0
    {
      p := p - 1;
    }
    forall i | 0 <= i < p ensures cmp(s[i], x) <= 0 {
      assert i < p - 1 ==> InOrder(s, cmp, i, p - 1);
    }
  }

  lemma InsertKeepsOrder<T(!new)>(s: seq<T>, x: T, p: nat, cmp: (T, T) -> int)
    requires Sorted(s, cmp) && p <= |s|
    requires forall i | 0 <= i < p :: cmp(s[i], x) <= 0
    requires forall i | p <= i < |s| :: cmp(x, s[i]) <= 0
    ensures Sorted(s[..p] + [x] + s[p..], cmp)
    ensures multiset(s[..p] + [x] + s[p..]) == multiset(s) + multiset{x}
  {
    var r := s[..p] + [x] + s[p..];
    assert s == s[..p] + s[p..];
    forall i, j | 0 <= i < j < |r| ensures InOrder(r, cmp, i, j) {
      var i', j' := if i < p then i else i - 1, if j < p then j else j - 1;
      assert i != p && j != p ==> InOrder(s, cmp, i', j');
    }
  }

  /** `myqsort` */
  method MyQsort<T(!new)>(s: seq<T>, cmp: (T, T) -> int) returns (r: seq<T>)
    requires TotalPreorder(cmp)
    ensures Sorted(r, cmp) && multiset(r) == multiset(s)
  {
    r := [];
    for n := 0 to |s|
      invariant Sorted(r, cmp) && multiset(r) == multiset(s[..n])
    {
      var p := FindPlace(r, s[n], cmp);
      InsertKeepsOrder(r, s[n], p, cmp);
      r := r[..p] + [s[n]] + r[p..];
      assert s[..n + 1] == s[..n] + [s[n]];
    }
    assert s[..|s|] == s;
  }

  /** The elements come in the order that `bsearch` relies on: too small, equal, too large. */
  ghost predicate Partitioned<T>(s: seq<T>, side: T -> int) {
    forall i, j | 0 <= i < j < |s| :: (side(s[j]) < 0 ==> side(s[i]) < 0) && (side(s[i]) > 0 ==> side(s[j]) > 0)
  }

  /** `mybsearch`: a position of the key, wherever it is; `side` is negative for what comes before the key. */
  method MyBsearch<T>(s: seq<T>, side: T -> int) returns (found: bool, pos: nat)
    requires Partitioned(s, side)
    ensures found ==> pos < |s| && side(s[pos]) == 0
    ensures !found ==> forall i | 0 <= i < |s| :: side(s[i]) != 0
  {
    var lo, hi := 0, |s|;
    while lo < hi
      invariant 0 <= lo <= hi <= |s|
      invariant forall i | 0 <= i < lo :: side(s[i]) < 0
      invariant forall i | hi <= i < |s| :: side(s[i]) > 0
    {
      var mid := (lo + hi) / 2;
      if side(s[mid]) < 0 {
        lo := mid + 1;
      } else if side(s[mid]) > 0 {
        hi := mid;
      } else {
        return true, mid;
      }
    }
    return false, 0;
  }
}
