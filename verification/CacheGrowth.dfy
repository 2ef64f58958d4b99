/** How `cs_disasm` grows its output array: by 8/5, in 32-bit unsigned arithmetic that wraps. */
module CacheGrowth {
  import opened Words

  /** What a quotient of a 32-bit word by 5 can be at most. */
  const LARGEST: nat := 858993459

  function GrowCache(cacheSize: nat): nat {
    cacheSize * 8 % TWO32 / 5
  }

  /** Every size from which growing leads to zero is one of these: zero itself, 2^29 before it, and residue
      classes before that, each three binary digits shorter than the one it may lead to. Not all of these sizes
      lead to zero. */
  predicate Doomed(x: nat) {
    || x == 0 || x == 0x2000_0000 || x == 0x1400_0000
    || x % 0x2000_0000 == 209715200
    || x % 0x400_0000 == 63963136
    || x % 0x80_0000 == 6422528
    || x % 0x10_0000 == 868352
    || x % 0x2_0000 == 18432
    || x % 0x4000 == 11520
    || x % 0x800 == 1056
    || x % 0x100 == 148
    || x % 0x20 == 29
  }

  predicate Growable(x: nat) {
    x <= LARGEST && !Doomed(x)
  }

  /** The division written out: what wraps and what remains. */
  lemma GrownFrom(x: nat) returns (r: nat, w: nat)
    requires x <= LARGEST
    ensures 8 * x == 5 * GrowCache(x) + r + w * TWO32 && r < 5 && w < 2 && GrowCache(x) <= LARGEST
  {
    w := x * 8 / TWO32;
    r := x * 8 % TWO32 % 5;
  }

  /** A size that grows into the class of c modulo 8n lies in the class of b = (5c + s) / 8 modulo n. */
  lemma ClassBefore(x: nat, y: nat, r: nat, w: nat, n: nat, k: nat, c: nat, s: nat, b: nat)
    requires 8 * x == 5 * y + r + w * TWO32 && r < 5 && s < 5
    requires n > 0 && 8 * n * k == TWO32 && y % (8 * n) == c && 5 * c + s == 8 * b
    ensures x % n == b % n
  {
    var q := y / (8 * n);
    Products(y, q, w, n, k, c);
    Eighth(x, y, r, w * TWO32, q * n, w * (k * n), c, s, b);
    ModDropMultiple(b, 5 * q + w * k, n);
  }

  lemma Products(y: nat, q: nat, w: nat, n: nat, k: nat, c: nat)
    requires n > 0 && 8 * n * k == TWO32 && q == y / (8 * n) && c == y % (8 * n)
    ensures y == 8 * (q * n) + c && w * TWO32 == 8 * (w * (k * n))
    ensures 5 * (q * n) + w * (k * n) == (5 * q + w * k) * n
  {
    var m := 8 * n;
    assert y == m * q + c;
    assert w * TWO32 == w * (8 * (k * n));
  }

  lemma Eighth(x: nat, y: nat, r: nat, over: nat, small: nat, wrapped: nat, c: nat, s: nat, b: nat)
    requires 8 * x == 5 * y + r + over && r < 5 && s < 5
    requires y == 8 * small + c && over == 8 * wrapped && 5 * c + s == 8 * b
    ensures x == 5 * small + wrapped + b
  {
  }

  /** Nothing grows into the last class. */
  lemma LastClass(x: nat, y: nat, r: nat, w: nat)
    requires 8 * x == 5 * y + r + w * TWO32 && r < 5
    ensures y % 0x20 != 29
  {
    var q := y / 0x20;
    assert 8 * x == 8 * (20 * q + w * 0x2000_0000) + 5 * (y % 0x20) + r;
  }

  lemma FirstClasses(x: nat, y: nat, r: nat, w: nat)
    requires 8 * x == 5 * y + r + w * TWO32 && r < 5 && w < 2 && x <= LARGEST
    ensures y == 0 ==> x == 0 || x == 0x2000_0000
    ensures y == 0x2000_0000 ==> x == 0x1400_0000
    ensures y == 0x1400_0000 ==> x % 0x2000_0000 == 209715200
  {
  }

  /** Nothing outside the doomed sizes grows into them. */
  lemma DoomedBefore(x: nat)
    requires x <= LARGEST && Doomed(GrowCache(x))
    ensures Doomed(x)
  {
    hide GrowCache;
    var y := GrowCache(x);
    var r, w := GrownFrom(x);
    FirstClasses(x, y, r, w);
    LastClass(x, y, r, w);
    if y % 0x2000_0000 == 209715200 {
      ClassBefore(x, y, r, w, 0x400_0000, 8, 209715200, 0, 131072000);
    } else if y % 0x400_0000 == 63963136 {
      ClassBefore(x, y, r, w, 0x80_0000, 64, 63963136, 0, 39976960);
    } else if y % 0x80_0000 == 6422528 {
      ClassBefore(x, y, r, w, 0x10_0000, 512, 6422528, 0, 4014080);
    } else if y % 0x10_0000 == 868352 {
      ClassBefore(x, y, r, w, 0x2_0000, 4096, 868352, 0, 542720);
    } else if y % 0x2_0000 == 18432 {
      ClassBefore(x, y, r, w, 0x4000, 0x8000, 18432, 0, 11520);
    } else if y % 0x4000 == 11520 {
      ClassBefore(x, y, r, w, 0x800, 0x4_0000, 11520, 0, 7200);
    } else if y % 0x800 == 1056 {
      ClassBefore(x, y, r, w, 0x100, 0x20_0000, 1056, 0, 660);
    } else if y % 0x100 == 148 {
      ClassBefore(x, y, r, w, 0x20, 0x100_0000, 148, 4, 93);
    }
  }

  /** Growing keeps a size growable, and a growable size is not zero. */
  lemma GrowableGrows(x: nat)
    requires Growable(x)
    ensures x > 0 && Growable(GrowCache(x)) && GrowCache(x) > 0
  {
    hide GrowCache;
    var r, w := GrownFrom(x);
    if Doomed(GrowCache(x)) {
      DoomedBefore(x);
    }
  }

  /** The cache size after n growths. */
  function Grown(start: nat, n: nat): nat {
    if n == 0 then start else GrowCache(Grown(start, n - 1))
  }

  lemma {:induction false} GrowableStays(x: nat, n: nat)
    requires Growable(x)
    ensures Growable(Grown(x, n)) && Grown(x, n) > 0
    decreases n
  {
    hide GrowCache;
    if n > 0 {
      GrowableStays(x, n - 1);
      GrowableGrows(Grown(x, n - 1));
    } else {
      GrowableGrows(x);
    }
  }

  /** A size that some number of growths turns into zero is doomed. */
  lemma ZeroOnlyFromDoomed(x: nat, n: nat)
    requires x <= LARGEST && Grown(x, n) == 0
    ensures Doomed(x)
  {
    hide GrowCache, Grown;
    if !Doomed(x) {
      GrowableStays(x, n);
    }
  }

  /** From both values of INSN_CACHE_SIZE, no number of growths leads to zero, however often the 32-bit
      product wraps. */
  lemma NeverZero(start: nat, n: nat)
    requires start == 8 || start == 32
    ensures Growable(Grown(start, n)) && Grown(start, n) > 0
  {
    GrowableStays(start, n);
  }
}
