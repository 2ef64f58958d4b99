/** HexFiend's ranges of file offsets: 64-bit arithmetic that wraps,
    compared with the ranges over unbounded integers that it stands for. */
module Ranges {
  import opened Words

  datatype Range = Range(location: Word64, length: Word64)

  function Add64(a: Word64, b: Word64): Word64 {
    (a + b) % TWO64
  }

  function Sub64(a: Word64, b: Word64): Word64 {
    (a - b) % TWO64
  }

  // ---- Comparing sums

  function SumIsLargerThanSum(a: Word64, b: Word64, c: Word64, d: Word64): bool {
    var rem1, rem2 := a % 2 + b % 2, c % 2 + d % 2;
    var sum1 := Add64(Add64(a / 2, b / 2), rem1 / 2);
    var sum2 := Add64(Add64(c / 2, d / 2), rem2 / 2);
    if sum1 > sum2 then true
    else if sum1 < sum2 then false
    else rem1 % 2 > rem2 % 2
  }

  /** The comparison is the one over unbounded integers. */
  lemma SumComparisonExact(a: Word64, b: Word64, c: Word64, d: Word64)
    ensures SumIsLargerThanSum(a, b, c, d) <==> a + b > c + d
  {
    HalfSum(a, b);
    HalfSum(c, d);
  }

  lemma HalfSum(a: Word64, b: Word64)
    ensures Add64(Add64(a / 2, b / 2), (a % 2 + b % 2) / 2) == (a + b) / 2
    ensures (a % 2 + b % 2) % 2 == (a + b) % 2
  {
    var x, y, r := a / 2, b / 2, a % 2 + b % 2;
    assert a + b == 2 * (x + y) + r && r <= 2;
    assert Add64(x, y) == x + y;
    assert Add64(x + y, r / 2) == x + y + r / 2;
  }

  /** The disabled form: averages by carries and carry-less sums, the answer in the lowest bit. */
  function SumIsLargerByXor(a: Word64, b: Word64, c: Word64, d: Word64): bool {
    var xor1, xor2 := Xor(a, b), Xor(c, d);
    var avg1, avg2 := (And(a, b) + xor1 / 2) % TWO64, (And(c, d) + xor2 / 2) % TWO64;
    var larger: nat, equal: nat := if avg1 > avg2 then 1 else 0, if avg1 == avg2 then 1 else 0;
    XorBound(c, d);
    Or(larger, And(And(xor1, TWO64 - 1 - xor2), equal)) != 0
  }

  lemma XorBound(a: Word64, b: Word64)
    ensures Xor(a, b) < TWO64
  {
    Pow2At64();
    XorBelow(a, b, 64);
  }

  lemma {:induction false} XorBelow(x: nat, y: nat, k: nat)
    requires x < Pow2(k) && y < Pow2(k)
    ensures Xor(x, y) < Pow2(k)
    decreases k
  {
    if k > 0 {
      XorBelow(x / 2, y / 2, k - 1);
    }
  }

  lemma AndOne(x: nat)
    ensures And(x, 1) == x % 2 && And(x, 0) == 0
  {
    AndZero(x);
    AndZero(x / 2);
  }

  lemma AverageExact(a: Word64, b: Word64)
    ensures (And(a, b) + Xor(a, b) / 2) % TWO64 == (a + b) / 2
    ensures Xor(a, b) % 2 == (a + b) % 2
  {
    hide And, Xor;
    SumFromAndXor(a, b);
  }

  /** Both forms give the same answer on every input. */
  lemma XorFormAgrees(a: Word64, b: Word64, c: Word64, d: Word64)
    ensures SumIsLargerByXor(a, b, c, d) == SumIsLargerThanSum(a, b, c, d)
  {
    SumComparisonExact(a, b, c, d);
    hide SumIsLargerByXor, SumIsLargerThanSum;
    XorFormByHalves(a, b, c, d);
  }

  lemma XorFormByHalves(a: Word64, b: Word64, c: Word64, d: Word64)
    ensures SumIsLargerByXor(a, b, c, d) <==>
              (a + b) / 2 > (c + d) / 2 || ((a + b) / 2 == (c + d) / 2 && (a + b) % 2 == 1 && (c + d) % 2 == 0)
  {
    hide And, Or, Xor;
    AverageExact(a, b);
    AverageExact(c, d);
    XorBound(c, d);
    var xor1: nat, xor2: nat := Xor(a, b), Xor(c, d);
    AndParity(xor1, TWO64 - 1 - xor2);
    var half1, half2 := (a + b) / 2, (c + d) / 2;
    LowestBit(if half1 > half2 then 1 else 0, And(xor1, TWO64 - 1 - xor2), if half1 == half2 then 1 else 0);
  }

  lemma {:induction false} AndParity(x: nat, y: nat)
    ensures And(x, y) % 2 == 1 <==> x % 2 == 1 && y % 2 == 1
  {
    if x != 0 {
      var rest := And(x / 2, y / 2);
      assert And(x, y) == (if x % 2 == 1 && y % 2 == 1 then 1 else 0) + 2 * rest;
    }
  }

  lemma LowestBit(larger: nat, mask: nat, equal: nat)
    requires larger < 2 && equal < 2
    ensures Or(larger, And(mask, equal)) != 0 <==> larger == 1 || (equal == 1 && mask % 2 == 1)
  {
    AndOne(mask);
    OrZero(And(mask, equal));
  }

  // ---- Ranges as sets of indexes

  /** Membership over unbounded integers: a range may end past 2^64. */
  predicate Has(r: Range, i: int) {
    r.location <= i < r.location + r.length
  }

  predicate IntersectsRange(a: Range, b: Range) {
    if a.length == 0 || b.length == 0 then false else
    var clause1 := a.location >= b.location && a.location - b.location >= b.length;
    var clause2 := b.location >= a.location && b.location - a.location >= a.length;
    !(clause1 || clause2)
  }

  predicate RangeExtendsPastRange(a: Range, b: Range) {
    SumIsLargerThanSum(a.location, a.length, b.location, b.length)
  }

  function IntersectionRange(a: Range, b: Range): Range {
    var minend := if RangeExtendsPastRange(b, a) then Add64(a.location, a.length) else Add64(b.location, b.length);
    if b.location <= a.location && a.location - b.location < b.length then
      Range(a.location, Sub64(minend, a.location))
    else if a.location <= b.location && b.location - a.location < a.length then
      Range(b.location, Sub64(minend, b.location))
    else
      Range(0, 0)
  }

  /** The intersection has exactly the common indexes, even where an end wraps past 2^64. */
  lemma IntersectionExact(a: Range, b: Range, i: int)
    ensures Has(IntersectionRange(a, b), i) <==> Has(a, i) && Has(b, i)
  {
    var end1, end2 := a.location + a.length, b.location + b.length;
    SumComparisonExact(b.location, b.length, a.location, a.length);
    hide SumIsLargerThanSum;
    var end := if end2 > end1 then end1 else end2;
    if b.location <= a.location && a.location - b.location < b.length {
      WrappedLength(a.location, end);
    } else if a.location <= b.location && b.location - a.location < a.length {
      WrappedLength(b.location, end);
    }
  }

  /** The wrapped difference of a wrapped end is the true length. */
  lemma WrappedLength(location: Word64, end: nat)
    requires location <= end < location + TWO64
    ensures end % TWO64 < TWO64 && Sub64(end % TWO64, location) == end - location
  {
  }

  /** The intersection is nonempty exactly when the ranges are said to intersect, which is when they share an index. */
  lemma IntersectsWhenShared(a: Range, b: Range)
    ensures IntersectsRange(a, b) <==> IntersectionRange(a, b).length != 0
    ensures IntersectsRange(a, b) <==> exists i :: Has(a, i) && Has(b, i)
  {
    var r := IntersectionRange(a, b);
    IntersectionExact(a, b, r.location);
    var later := if a.location > b.location then a.location else b.location;
    IntersectionExact(a, b, later);
    if IntersectsRange(a, b) {
      assert Has(a, later) && Has(b, later);
    }
    if exists i :: Has(a, i) && Has(b, i) {
      var i :| Has(a, i) && Has(b, i);
      assert Has(a, later) && Has(b, later);
    }
  }

  /** Without a common index the intersection is empty but not always {0, 0}: it is exactly
      unless one range is empty, lies inside the other and is not at 0; then it is that range. */
  lemma EmptyIntersection(a: Range, b: Range)
    requires forall i :: !(Has(a, i) && Has(b, i))
    ensures IntersectionRange(a, b) == Range(0, 0) <==>
              && !(a.length == 0 && Has(b, a.location) && a.location != 0)
              && !(b.length == 0 && Has(a, b.location) && b.location != 0)
    ensures IntersectionRange(a, b) ==
              if a.length == 0 && Has(b, a.location) then a
              else if b.length == 0 && Has(a, b.location) then b
              else Range(0, 0)
  {
    SumComparisonExact(b.location, b.length, a.location, a.length);
    hide SumIsLargerThanSum;
    WrappedLength(a.location, a.location);
    WrappedLength(b.location, b.location);
    assert !(Has(a, a.location) && Has(b, a.location));
    assert !(Has(a, b.location) && Has(b, b.location));
  }
}
