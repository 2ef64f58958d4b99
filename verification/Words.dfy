/** Machine words as bounded integers, with the width written out wherever the
    sources rely on it, and the bitwise operators on naturals that they use. */
module Words {
  const TWO16: nat := 0x1_0000
  const TWO32: nat := 0x1_0000_0000
  const TWO64: nat := 0x1_0000_0000_0000_0000

  type Byte = b: int | 0 <= b < 256
  type Word16 = w: int | 0 <= w < 0x1_0000
  type Word32 = w: int | 0 <= w < 0x1_0000_0000
  type Word64 = w: int | 0 <= w < 0x1_0000_0000_0000_0000

  /** A value or nothing. Nothing stands for `nil`, for a NULL result, and for
      `fatalError` and out-of-range reads in the Swift sources. */
  datatype Option<+T> = None | Some(value: T) {
    predicate IsFailure() {
      None?
    }
    function PropagateFailure<U>(): Option<U>
      requires None?
    {
      None
    }
    function Extract(): T
      requires Some?
    {
      value
    }
  }

  /** UTF-8 decoding is a parameter: the text of some bytes, or nothing. */
  type Utf8 = seq<Byte> -> Option<string>

  function Min(a: nat, b: nat): nat {
    if a < b then a else b
  }

  function Pow2(k: nat): (p: nat)
    ensures p > 0
  {
    if k == 0 then 1 else 2 * Pow2(k - 1)
  }

  function And(x: nat, y: nat): nat
    decreases x
  {
    if x == 0 then 0 else (if x % 2 == 1 && y % 2 == 1 then 1 else 0) + 2 * And(x / 2, y / 2)
  }

  function Or(x: nat, y: nat): nat
    decreases x + y
  {
    if x == 0 && y == 0 then 0 else (if x % 2 == 1 || y % 2 == 1 then 1 else 0) + 2 * Or(x / 2, y / 2)
  }

  function Xor(x: nat, y: nat): nat
    decreases x + y
  {
    if x == 0 && y == 0 then 0 else (if x % 2 != y % 2 then 1 else 0) + 2 * Xor(x / 2, y / 2)
  }

  /** Swift's `<<` on UInt64: bits past the top are dropped, and a shift of 64 or more gives zero. */
  function ShiftLeft64(x: Word64, s: nat): Word64 {
    if s >= 64 then 0 else x * Pow2(s) % TWO64
  }

  lemma Pow2Add(a: nat, b: nat)
    ensures Pow2(a + b) == Pow2(a) * Pow2(b)
  {
    if a > 0 {
      Pow2Add(a - 1, b);
    }
  }

  lemma Pow2At4()
    ensures Pow2(4) == 16
  {
  }

  lemma Pow2At64()
    ensures Pow2(64) == TWO64
  {
    hide Pow2;
    Pow2At4();
    Pow2Add(4, 4);
    Pow2Add(8, 8);
    Pow2Add(16, 16);
    Pow2Add(32, 32);
  }

  lemma OrZero(x: nat)
    ensures Or(x, 0) == x && Or(0, x) == x
    decreases x
  {
    if x > 0 {
      OrZero(x / 2);
    }
  }

  /** Bit groups that do not overlap combine under `|` as they do under `+`. */
  lemma {:induction false} OrDisjoint(x: nat, y: nat, k: nat)
    requires x < Pow2(k)
    ensures Or(x, y * Pow2(k)) == x + y * Pow2(k)
    decreases k
  {
    if k == 0 {
      OrZero(y);
    } else {
      var z := y * Pow2(k - 1);
      assert y * Pow2(k) == 2 * z;
      OrDisjoint(x / 2, y, k - 1);
    }
  }

  /** A sum is its carries plus its carry-less sum. */
  lemma {:induction false} SumFromAndXor(x: nat, y: nat)
    ensures x + y == 2 * And(x, y) + Xor(x, y)
    decreases x + y
  {
    if x > 0 || y > 0 {
      SumFromAndXor(x / 2, y / 2);
      assert x == 2 * (x / 2) + x % 2 && y == 2 * (y / 2) + y % 2;
    }
  }

  /** `x & (1 << k)` is nonzero exactly when bit k of x is set. */
  lemma {:induction false} AndWithBit(x: nat, k: nat)
    ensures And(x, Pow2(k)) != 0 <==> x / Pow2(k) % 2 == 1
    decreases k
  {
    if x == 0 {
      assert 0 / Pow2(k) == 0;
    } else if k == 0 {
      AndZero(x / 2);
    } else {
      assert Pow2(k) / 2 == Pow2(k - 1);
      AndWithBit(x / 2, k - 1);
      DivTwice(x, Pow2(k - 1));
    }
  }

  /** Masking with k ones keeps the remainder modulo 2^k. */
  lemma {:induction false} AndMask(x: nat, k: nat)
    ensures And(x, Pow2(k) - 1) == x % Pow2(k)
    decreases k
  {
    if k == 0 {
      AndZero(x);
    } else if x > 0 {
      AndMask(x / 2, k - 1);
      assert (Pow2(k) - 1) / 2 == Pow2(k - 1) - 1 && (Pow2(k) - 1) % 2 == 1;
      ModTwice(x, Pow2(k - 1));
    } else {
      assert 0 % Pow2(k) == 0;
    }
  }

  /** A mask without its low bits leaves the low bits out. */
  lemma AndEven(x: nat, y: nat, mask: nat)
    requires mask == 2 * y
    ensures And(x, mask) == 2 * And(x / 2, y)
  {
    assert mask % 2 == 0 && mask / 2 == y;
  }

  lemma AndSixteen(x: nat, y: nat)
    ensures And(x, 16 * y) == 16 * And(x / 16, y)
  {
    hide And;
    var a := x / 2;
    var b := a / 2;
    var c := b / 2;
    AndEven(x, 8 * y, 16 * y);
    AndEven(a, 4 * y, 8 * y);
    AndEven(b, 2 * y, 4 * y);
    AndEven(c, y, 2 * y);
    assert c / 2 == x / 16;
  }

  lemma AndUpper(x: nat, y: nat)
    ensures And(x, 256 * y) == 256 * And(x / 256, y)
  {
    hide And;
    AndSixteen(x, 16 * y);
    AndSixteen(x / 16, y);
  }

  lemma ModTwice(x: nat, p: nat)
    requires p > 0
    ensures x % (2 * p) == x % 2 + 2 * (x / 2 % p)
  {
    var q, r := x / 2 / p, x / 2 % p;
    assert x / 2 == q * p + r;
    assert x == q * (2 * p) + (2 * r + x % 2);
    DivUnique(x, 2 * p, q, 2 * r + x % 2);
  }

  lemma AndZero(x: nat)
    ensures And(x, 0) == 0
  {
    if x > 0 {
      AndZero(x / 2);
    }
  }

  lemma DivTwice(x: nat, p: nat)
    requires p > 0
    ensures x / 2 / p == x / (2 * p)
  {
    var q, r := x / 2 / p, x / 2 % p;
    assert x / 2 == q * p + r;
    assert x == q * (2 * p) + (2 * r + x % 2);
    DivUnique(x, 2 * p, q, 2 * r + x % 2);
  }

  lemma DivUnique(x: nat, d: nat, q: nat, r: nat)
    requires d > 0 && r < d && x == q * d + r
    ensures x / d == q && x % d == r
  {
    var q', r' := x / d, x % d;
    assert x == q' * d + r';
    if q' < q {
      assert (q' + 1) * d <= q * d by { MulMono(q' + 1, q, d); }
    } else if q < q' {
      assert (q + 1) * d <= q' * d by { MulMono(q + 1, q', d); }
    }
  }

  /** What is added at twice p and above does not change the bit that p counts. */
  lemma HigherBits(x: nat, q: nat, p: nat)
    requires p > 0
    ensures (x + 2 * (q * p)) / p % 2 == x / p % 2
  {
    var a, r := x / p, x % p;
    assert x == a * p + r;
    assert x + 2 * (q * p) == (a + 2 * q) * p + r;
    DivUnique(x + 2 * (q * p), p, a + 2 * q, r);
  }

  lemma DivDiv(x: nat, p: nat, q: nat)
    requires p > 0 && q > 0
    ensures p * q > 0 && x / p / q == x / (p * q)
  {
    var a := x / p;
    Nested(p, q, a, a / q, a % q, x % p);
    DivUnique(x, p * q, a / q, a % q * p + x % p);
  }

  /** Two divisions with remainder, one inside the other, are one. */
  lemma Nested(p: nat, q: nat, a: nat, c: nat, m: nat, s: nat)
    requires a == c * q + m && s < p && m < q
    ensures a * p + s == c * (p * q) + (m * p + s) && 0 <= m * p + s < p * q
  {
    MulMono(m, q - 1, p);
    var b := c * q;
    assert (b + m) * p == b * p + m * p;
    assert b * p == c * (p * q);
  }

  lemma MulMono(a: nat, b: nat, c: nat)
    requires a <= b
    ensures a * c <= b * c
  {
  }

  /** Adding a multiple of the modulus changes nothing modulo it. */
  lemma ModDropMultiple(x: nat, q: nat, m: nat)
    requires m > 0
    ensures (x + q * m) % m == x % m
  {
    DivUnique(x + q * m, m, x / m + q, x % m);
  }

  lemma ModAddMod(x: nat, y: nat, m: nat)
    requires m > 0
    ensures (x % m + y % m) % m == (x + y) % m
  {
    var a, b := x / m, y / m;
    assert x == a * m + x % m && y == b * m + y % m;
    assert x + y == (x % m + y % m) + (a + b) * m;
    ModDropMultiple(x % m + y % m, a + b, m);
  }

  /** Reduction modulo a product of powers, seen through the lower power. */
  lemma ModScale(y: nat, q: nat, p: nat)
    requires q > 0 && p > 0
    ensures q * p > 0 && y * p % (q * p) == y % q * p
  {
    var a, r := y / q, y % q;
    assert y == a * q + r;
    assert y * p == a * (q * p) + r * p;
    assert r * p < q * p;
    DivUnique(y * p, q * p, a, r * p);
  }
}
