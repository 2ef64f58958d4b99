/** Greatest common divisors and least common multiples: the two Euclid loops, and the checked product. */
module Euclid {
  import opened Words

  ghost predicate Divides(d: int, n: int) {
    exists k: int :: Times(k, d) == n
  }

  ghost function Times(k: int, d: int): int {
    k * d
  }

  ghost predicate IsGcd(g: nat, a: nat, b: nat) {
    Divides(g, a) && Divides(g, b) && forall d: int :: Divides(d, a) && Divides(d, b) ==> Divides(d, g)
  }

  ghost predicate IsLcm(m: nat, a: nat, b: nat) {
    Divides(a, m) && Divides(b, m) && forall n: int :: Divides(a, n) && Divides(b, n) ==> Divides(m, n)
  }

  function Gcd(a: nat, b: nat): (g: nat)
    ensures a > 0 || b > 0 ==> g > 0
    decreases b
  {
    if b == 0 then a else Gcd(b, a % b)
  }

  lemma DividesCombination(d: int, x: int, y: int, s: int, t: int)
    requires Divides(d, x) && Divides(d, y)
    ensures Divides(d, x * s + y * t)
  {
    var k :| Times(k, d) == x;
    var l :| Times(l, d) == y;
    assert (k * d) * s + (l * d) * t == (k * s + l * t) * d;
    assert Times(k * s + l * t, d) == x * s + y * t;
  }

  /** The divisor Euclid ends with is a combination of the two numbers. */
  lemma {:induction false} Bezout(a: nat, b: nat) returns (s: int, t: int)
    ensures a * s + b * t == Gcd(a, b)
    decreases b
  {
    if b == 0 {
      s, t := 1, 0;
    } else {
      var s', t' := Bezout(b, a % b);
      var q := a / b;
      assert a == q * b + a % b;
      s, t := t', s' - q * t';
      assert a * t' + b * (s' - q * t') == b * s' + (a - q * b) * t';
    }
  }

  lemma {:induction false} GcdDividesBoth(a: nat, b: nat)
    ensures Divides(Gcd(a, b), a) && Divides(Gcd(a, b), b)
    decreases b
  {
    var g := Gcd(a, b);
    if b == 0 {
      assert Times(1, a) == a && Times(0, a) == 0;
    } else {
      GcdDividesBoth(b, a % b);
      hide Divides;
      DividesCombination(g, b, a % b, a / b, 1);
      DivisionLaw(a, b);
    }
  }

  lemma DivisionLaw(a: nat, b: nat)
    requires b > 0
    ensures b * (a / b) + a % b * 1 == a
  {
  }

  lemma GcdCorrect(a: nat, b: nat)
    ensures IsGcd(Gcd(a, b), a, b)
  {
    GcdDividesBoth(a, b);
    var s, t := Bezout(a, b);
    forall d: int | Divides(d, a) && Divides(d, b) ensures Divides(d, Gcd(a, b)) {
      DividesCombination(d, a, b, s, t);
    }
  }

  /** The loop of `GreatestCommonDivisor64`, and of `HFLeastCommonMultiple`. */
  method GreatestCommonDivisor(A: Word64, B: Word64) returns (g: Word64)
    ensures g == Gcd(A, B) && IsGcd(g, A, B)
  {
    var a, b := A, B;
    while b != 0
      invariant Gcd(a, b) == Gcd(A, B)
      decreases b
    {
      a, b := b, a % b;
    }
    g := a;
    GcdCorrect(A, B);
  }

  // ---- The checked product

  /** `HFProductInt`: nothing stands for the failed overflow assertion. */
  function ProductInt(a: Word64, b: Word64): Option<Word64> {
    var result := a * b % TWO64;
    if a == 0 || result / a == b then Some(result) else None
  }

  /** The assertion fails exactly when the true product does not fit. */
  lemma ProductChecked(a: Word64, b: Word64)
    ensures ProductInt(a, b) == if a * b < TWO64 then Some(a * b) else None
  {
    var p := a * b;
    var r := p % TWO64;
    assert p >= 0;
    if p >= TWO64 {
      DivFloor(r, a);
      assert (r / a) * a < b * a;
    } else if a != 0 {
      DivUnique(p, a, b, 0);
    }
  }

  lemma DivFloor(r: nat, a: nat)
    requires a > 0
    ensures (r / a) * a <= r
  {
  }

  // ---- Least common multiple

  method LeastCommonMultiple(a: Word64, b: Word64) returns (r: Option<Word64>)
    requires a > 0 && b > 0
    ensures r.Some? ==> IsLcm(r.value, a, b)
    ensures r.None? <==> a / Gcd(a, b) * b >= TWO64
    ensures IsLcm(a / Gcd(a, b) * b, a, b)
  {
    var u := GreatestCommonDivisor(a, b);
    ProductChecked(a / u, b);
    LcmCorrect(a, b);
    r := ProductInt(a / u, b);
  }

  lemma LcmCorrect(a: nat, b: nat)
    requires a > 0 && b > 0
    ensures IsLcm(a / Gcd(a, b) * b, a, b)
  {
    GcdDividesBoth(a, b);
    var g := Gcd(a, b);
    var x :| Times(x, g) == a;
    var y :| Times(y, g) == b;
    Quotient(x, g, a);
    var m := x * b;
    assert Times(x, b) == m;
    assert x * (y * g) == y * (x * g);
    assert Times(y, a) == m;
    var s, t := Bezout(a, b);
    forall n: int | Divides(a, n) && Divides(b, n) ensures Divides(m, n) {
      var k :| Times(k, a) == n;
      var l :| Times(l, b) == n;
      MultipleOfBoth(a, b, g, x, s, t, k, l, n);
      assert Times(l * s + k * t, m) == n;
    }
  }

  lemma Quotient(x: int, g: nat, a: nat)
    requires x * g == a && a > 0 && g > 0
    ensures x > 0 && a / g == x
  {
    assert x <= 0 ==> x * g <= 0;
    DivUnique(a, g, x, 0);
  }

  /** A common multiple is the quotient's multiple: n g = n (a s + b t) = x b g (l s + k t). */
  lemma MultipleOfBoth(a: int, b: int, g: int, x: int, s: int, t: int, k: int, l: int, n: int)
    requires g > 0 && x * g == a && a * s + b * t == g && k * a == n && l * b == n
    ensures (l * s + k * t) * (x * b) == n
  {
    var w := l * s + k * t;
    Regroup(w, x, b, g);
    Distribute(l, s, k, t, a, b);
    assert n * (a * s) + n * (b * t) == n * (a * s + b * t);
    CancelFactor(w * (x * b), n, g);
  }

  lemma Regroup(w: int, x: int, b: int, g: int)
    ensures w * (x * b) * g == w * b * (x * g)
  {
  }

  lemma Distribute(l: int, s: int, k: int, t: int, a: int, b: int)
    ensures (l * s + k * t) * b * a == (l * b) * (a * s) + (k * a) * (b * t)
  {
  }

  lemma CancelFactor(x: int, y: int, g: int)
    requires g > 0 && x * g == y * g
    ensures x == y
  {
    assert (x - y) * g == 0;
  }
}
