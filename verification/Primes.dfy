/**
 * The size of a spelling table is a prime: the search for the next one, and what primes do to a walk with a fixed stride.
 */
module Primes {

  ghost predicate Divides(d: nat, n: nat)
    requires d > 0
  {
    n % d == 0
  }

  /** Besides 1 and itself nothing divides it. */
  ghost predicate IsPrime(n: nat) {
    n >= 2 && forall d: nat | 2 <= d < n :: !Divides(d, n)
  }

  // ----- arithmetic modulo a number -----

  lemma MultipleDivides(d: nat, k: nat)
    requires d > 0
    ensures Divides(d, d * k)
  {
    assert d * k == k * d;
    ModOfMultiple(k, 0, d);
  }

  lemma ModOfMultiple(k: nat, r: nat, d: nat)
    requires r < d
    ensures (k * d + r) % d == r
  {
    var n := k * d + r;
    var q, r' := n / d, n % d;
    Difference(q, k, d, r' - r);
    NearMultiple(k - q, d, r' - r);
  }

  lemma Difference(q: nat, k: nat, d: nat, n: int)
    requires q * d + n == k * d
    ensures (k - q) * d == n
  {
  }

  lemma NotNegative(a: nat, b: nat)
    ensures a * b >= 0
  {
  }

  /** A multiple that is nearer to 0 than the modulus is 0. */
  lemma NearMultiple(k: int, d: nat, n: int)
    requires n < d && n + d > 0 && k * d == n
    ensures n == 0
  {
    if k > 0 {
      NotNegative(k - 1, d);
    } else if k < 0 {
      NotNegative(-k - 1, d);
    }
  }

  lemma QuotientOf(d: nat, n: nat) returns (q: nat)
    requires d > 0 && Divides(d, n)
    ensures n == q * d
  {
    q := n / d;
  }

  lemma DividesSum(d: nat, a: nat, b: nat)
    requires d > 0 && Divides(d, a)
    ensures Divides(d, a + b) <==> Divides(d, b)
  {
    var q := QuotientOf(d, a);
    var r := b % d;
    assert b == (b / d) * d + r;
    assert a + b == (q + b / d) * d + r;
    ModOfMultiple(q + b / d, r, d);
  }

  // ----- Euclid's lemma -----

  /** The least positive number by which `a` has to be multiplied to become a multiple of `p`. */
  ghost function LeastFactor(p: nat, a: nat, from: nat): (m: nat)
    requires 0 < from <= p
    ensures from <= m <= p && Divides(p, a * m)
    ensures forall k: nat | from <= k < m :: !Divides(p, a * k)
    decreases p - from
  {
    if from == p then MultipleDivides(p, a); p
    else if Divides(p, a * from) then from
    else LeastFactor(p, a, from + 1)
  }

  lemma BelowLeast(p: nat, a: nat, k: nat)
    requires 0 < k < p && k < LeastFactor(p, a, 1)
    ensures !Divides(p, a * k)
  {
  }

  /** All other such numbers are multiples of it. */
  lemma LeastDivides(p: nat, a: nat, k: nat)
    requires p > 0 && Divides(p, a * k)
    ensures Divides(LeastFactor(p, a, 1), k)
  {
    var m := LeastFactor(p, a, 1);
    var q, r := k / m, k % m;
    var t := QuotientOf(p, a * m);
    Regroup(a, k, m, q, r, t, p);
    MultipleDivides(p, t * q);
    DividesSum(p, p * (t * q), a * r);
    if r > 0 {
      BelowLeast(p, a, r);
    }
  }

  lemma Regroup(a: nat, k: nat, m: nat, q: nat, r: nat, t: nat, p: nat)
    requires k == q * m + r && a * m == t * p
    ensures a * k == p * (t * q) + a * r
  {
    calc {
      a * k;
      a * (q * m + r);
      a * (q * m) + a * r;
      { assert a * (q * m) == (a * m) * q; }
      (t * p) * q + a * r;
      p * (t * q) + a * r;
    }
  }

  lemma EuclidsLemma(p: nat, a: nat, b: nat)
    requires IsPrime(p) && Divides(p, a * b)
    ensures Divides(p, a) || Divides(p, b)
  {
    var m := LeastFactor(p, a, 1);
    MultipleDivides(p, a);
    LeastDivides(p, a, b);
    assert a * p == p * a;
    LeastDivides(p, a, p);
    if m == 1 {
      assert a * m == a;
    }
  }

  // ----- there is always a next prime -----

  ghost function Factorial(n: nat): (f: nat)
    ensures f > 0
  {
    if n == 0 then 1 else n * Factorial(n - 1)
  }

  lemma {:induction false} DividesFactorial(d: nat, n: nat)
    requires 0 < d <= n
    ensures Divides(d, Factorial(n))
  {
    if d == n {
      MultipleDivides(d, Factorial(n - 1));
    } else {
      DividesFactorial(d, n - 1);
      var q := QuotientOf(d, Factorial(n - 1));
      assert Factorial(n) == d * (n * q);
      MultipleDivides(d, n * q);
    }
  }

  /** The least divisor from 2 on is a prime. */
  lemma {:induction false} PrimeDivisor(n: nat, from: nat) returns (p: nat)
    requires 2 <= from <= n && forall d: nat | 2 <= d < from :: !Divides(d, n)
    ensures IsPrime(p) && Divides(p, n)
    decreases n - from
  {
    if Divides(from, n) {
      p := from;
      forall d: nat | 2 <= d < p ensures !Divides(d, p) {
        if Divides(d, p) {
          var q := QuotientOf(d, p);
          var t := QuotientOf(p, n);
          assert n == d * (t * q);
          MultipleDivides(d, t * q);
        }
      }
    } else {
      assert from < n by { assert n % n == 0; }
      p := PrimeDivisor(n, from + 1);
    }
  }

  lemma NextPrime(n: nat) returns (p: nat)
    ensures IsPrime(p) && p > n
  {
    var f := Factorial(n) + 1;
    p := PrimeDivisor(f, 2);
    if p <= n {
      DividesFactorial(p, n);
      DividesSum(p, Factorial(n), 1);
    }
  }

  // ----- get_odd_next -----

  /** `sqrt`, rounded down. */
  method ISqrt(n: nat) returns (r: nat)
    ensures r * r <= n < (r + 1) * (r + 1)
  {
    r := 0;
    while (r + 1) * (r + 1) <= n
      invariant r * r <= n
      decreases n - r
    {
      r := r + 1;
    }
  }

  /** A divisor beyond the square root has its partner below it. */
  lemma SmallDivisor(n: nat, r: nat, d: nat)
    requires n < (r + 1) * (r + 1) && 2 <= d < n && Divides(d, n)
    ensures exists k: nat :: 2 <= k <= r && Divides(k, n)
  {
    if d > r {
      var q := QuotientOf(d, n);
      PartnerBelow(n, r, d, q);
      MultipleDivides(q, d);
      assert Divides(q, n);
    }
  }

  lemma PartnerBelow(n: nat, r: nat, d: nat, q: nat)
    requires n < (r + 1) * (r + 1) && r < d < n && n == q * d
    ensures 2 <= q <= r
  {
    if q > r {
      NotNegative(q - (r + 1), d);
      NotNegative(r + 1, d - (r + 1));
    }
  }

  /** From 2 on this is the least prime that is not below its argument; 0 and 1 are returned as they are. */
  method GetOddNext(value: nat) returns (next: nat)
    ensures value < 2 ==> next == value
    ensures value >= 2 ==> IsPrime(next) && next >= value && forall k: nat | value <= k < next :: !IsPrime(k)
  {
    ghost var p := NextPrime(value);
    next := value;
    while true
      invariant value <= next && (value < 2 ==> next == value)
      invariant next <= p
      invariant forall k: nat | value <= k < next :: !IsPrime(k)
      decreases p - next
    {
      var isOdd := HasNoDivisor(next);
      if isOdd {
        return;
      }
      next := next + 1;
    }
  }

  method HasNoDivisor(n: nat) returns (isOdd: bool)
    ensures isOdd <==> n < 2 || IsPrime(n)
  {
    var root := ISqrt(n);
    isOdd := true;
    var dv := 2;
    while dv < root + 1
      invariant 2 <= dv
      invariant forall k: nat | 2 <= k < dv && k <= root :: !Divides(k, n)
    {
      if n % dv == 0 {
        Smaller(n, root, dv);
        assert Divides(dv, n);
        return false;
      }
      dv := dv + 1;
    }
    forall d: nat | 2 <= d < n ensures !Divides(d, n) {
      if Divides(d, n) {
        SmallDivisor(n, root, d);
      }
    }
  }

  lemma Smaller(n: nat, r: nat, d: nat)
    requires r * r <= n && 2 <= d <= r
    ensures d < n
  {
    assert d * (d - 2) >= 0 && (r - d) * r >= 0 && (r - d) * d >= 0;
  }
}
