/** Counting through all combinations of digits with different radices, lowest digit first. */
module MixedRadix {

  /** `radices[0] * .. * radices[k - 1]`, multiplied up from the left. */
  function Product(radices: seq<nat>, k: nat): nat
    requires k <= |radices|
  {
    if k == 0 then 1 else Product(radices, k - 1) * radices[k - 1]
  }

  ghost predicate AllPositive(radices: seq<nat>) {
    forall i | 0 <= i < |radices| :: radices[i] > 0
  }

  /** `t` divided by the first `j` radices, one after the other. */
  ghost function Quotient(t: nat, radices: seq<nat>, j: nat): nat
    requires AllPositive(radices) && j <= |radices|
  {
    if j == 0 then t else Quotient(t, radices, j - 1) / radices[j - 1]
  }

  lemma TwoDivisions(t: nat, a: nat, b: nat, q: nat, s: nat, r: nat, w: nat)
    requires t == a * q + s && s < a && q == b * r + w && w < b
    ensures t == (a * b) * r + (a * w + s) && a * w + s < a * b
  {
    assert a * q == a * (b * r) + a * w;
    assert a * (b * r) == (a * b) * r;
    TimesMonotone(a, w, b - 1);
    assert a * (b - 1) == a * b - a;
  }

  lemma DivDiv(t: nat, a: nat, b: nat)
    requires a > 0 && b > 0
    ensures a * b > 0 && t / (a * b) == t / a / b
  {
    var q, s := t / a, t % a;
    var r, w := q / b, q % b;
    TwoDivisions(t, a, b, q, s, r, w);
    QuotientIs(t, a * b, r, a * w + s);
  }

  lemma TimesMonotone(a: nat, x: nat, y: nat)
    requires x <= y
    ensures a * x <= a * y
  {
  }

  lemma QuotientIs(t: nat, m: nat, q: nat, rest: nat)
    requires m > 0 && rest < m && t == m * q + rest
    ensures t / m == q && t % m == rest
  {
    var d := t / m - q;
    assert t == m * (t / m) + t % m;
    assert m * d == m * (t / m) - m * q == rest - t % m;
    if d >= 1 {
      TimesMonotone(m, 1, d);
    } else if d <= -1 {
      TimesMonotone(m, 1, -d);
    }
  }

  lemma {:induction false} DividedByProduct(t: nat, radices: seq<nat>, j: nat)
    requires AllPositive(radices) && j <= |radices|
    ensures Product(radices, j) > 0 && t / Product(radices, j) == Quotient(t, radices, j)
  {
    if j > 0 {
      DividedByProduct(t, radices, j - 1);
      DivDiv(t, Product(radices, j - 1), radices[j - 1]);
    }
  }

  /** The number whose digits from position `j` on are `digits[j..]`. */
  ghost function Number(digits: seq<nat>, radices: seq<nat>, j: nat): nat
    requires |digits| == |radices| && j <= |radices|
    decreases |radices| - j
  {
    if j == |radices| then 0 else digits[j] + radices[j] * Number(digits, radices, j + 1)
  }

  ghost predicate AreDigits(digits: seq<nat>, radices: seq<nat>) {
    |digits| == |radices| && forall i | 0 <= i < |digits| :: digits[i] < radices[i]
  }

  /** The number fits below the product of the radices. */
  lemma {:induction false} NumberFits(digits: seq<nat>, radices: seq<nat>, j: nat)
    requires AreDigits(digits, radices) && AllPositive(radices) && j <= |radices|
    ensures Product(radices, j) * Number(digits, radices, j) + Product(radices, j) <= Product(radices, |radices|)
    decreases |radices| - j
  {
    if j < |radices| {
      NumberFits(digits, radices, j + 1);
      var p, r, n := Product(radices, j), radices[j], Number(digits, radices, j + 1);
      assert p * r * n == p * (r * n);
      assert p * (digits[j] + r * n) == p * digits[j] + p * (r * n);
      TimesMonotone(p, digits[j], r - 1);
      assert p * (r - 1) == p * r - p;
    }
  }

  lemma {:induction false} NumberQuotient(digits: seq<nat>, radices: seq<nat>, j: nat)
    requires AreDigits(digits, radices) && AllPositive(radices) && j <= |radices|
    ensures Quotient(Number(digits, radices, 0), radices, j) == Number(digits, radices, j)
  {
    if j > 0 {
      NumberQuotient(digits, radices, j - 1);
      QuotientIs(Number(digits, radices, j - 1), radices[j - 1], Number(digits, radices, j), digits[j - 1]);
    }
  }

  /** `t / mod % radix`, where `mod` is the product of the radices in front. */
  ghost function Digit(t: nat, radices: seq<nat>, j: nat): (d: nat)
    requires AllPositive(radices) && j < |radices|
    ensures d < radices[j]
  {
    Quotient(t, radices, j) % radices[j]
  }

  /** Every combination of digits is met: it belongs to a number below the product of the radices. */
  lemma EveryCombination(digits: seq<nat>, radices: seq<nat>) returns (t: nat)
    requires AreDigits(digits, radices) && AllPositive(radices)
    ensures t < Product(radices, |radices|)
    ensures forall j | 0 <= j < |radices| :: Digit(t, radices, j) == digits[j]
  {
    t := Number(digits, radices, 0);
    NumberFits(digits, radices, 0);
    assert Product(radices, 0) == 1;
    forall j | 0 <= j < |radices| ensures Digit(t, radices, j) == digits[j] {
      NumberQuotient(digits, radices, j);
      QuotientIs(Number(digits, radices, j), radices[j], Number(digits, radices, j + 1), digits[j]);
    }
  }

  /** And it is met only once: a number below the product is determined by its digits. */
  lemma {:induction false} OnlyOnce(t: nat, u: nat, radices: seq<nat>, j: nat)
    requires AllPositive(radices) && j <= |radices|
    requires forall i | j <= i < |radices| :: Digit(t, radices, i) == Digit(u, radices, i)
    requires Quotient(t, radices, |radices|) == Quotient(u, radices, |radices|)
    ensures Quotient(t, radices, j) == Quotient(u, radices, j)
    decreases |radices| - j
  {
    if j < |radices| {
      OnlyOnce(t, u, radices, j + 1);
      var a, b, r := Quotient(t, radices, j), Quotient(u, radices, j), radices[j];
      assert Digit(t, radices, j) == a % r && Digit(u, radices, j) == b % r;
      assert a == r * (a / r) + a % r && b == r * (b / r) + b % r;
      assert a / r == Quotient(t, radices, j + 1) && b / r == Quotient(u, radices, j + 1);
    }
  }

  lemma DigitsDetermine(t: nat, u: nat, radices: seq<nat>)
    requires AllPositive(radices) && t < Product(radices, |radices|) && u < Product(radices, |radices|)
    requires forall i | 0 <= i < |radices| :: Digit(t, radices, i) == Digit(u, radices, i)
    ensures t == u
  {
    var n := |radices|;
    DividedByProduct(t, radices, n);
    DividedByProduct(u, radices, n);
    QuotientIs(t, Product(radices, n), 0, t);
    QuotientIs(u, Product(radices, n), 0, u);
    OnlyOnce(t, u, radices, 0);
  }
}
