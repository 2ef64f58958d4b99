/** The LEB128 readers: the C one that adds its bit groups, the Swift one that ors them,
    and the format they share (section 7.6 of DWARF version 4). */
module Leb128 {
  import opened Words

  datatype Leb = Leb(value: Word64, byteCount: nat)

  // ---- The format

  /** The number that a group of bytes encodes, least significant seven bits first. */
  function Uleb(bs: seq<Byte>): nat {
    if bs == [] then 0 else bs[0] % 128 + 128 * Uleb(bs[1..])
  }

  /** n bytes from an offset on form one encoding: the high bit marks every byte but the last. */
  predicate EncodingAt(data: seq<Byte>, off: nat, n: nat) {
    0 < n <= |data| - off && data[off + n - 1] < 128 && forall i :: off <= i < off + n - 1 ==> data[i] >= 128
  }

  predicate Terminated(bs: seq<Byte>) {
    EncodingAt(bs, 0, |bs|)
  }

  /** The shortest encoding of a number. */
  function Encode(v: nat): (bs: seq<Byte>)
    ensures Terminated(bs) && Uleb(bs) == v
  {
    if v < 128 then [v] else
    var tail := Encode(v / 128);
    var bs := [128 + v % 128] + tail;
    assert bs[1..] == tail;
    bs
  }

  /** The length of the encoding that starts at an offset, or 0 when it runs off the data. */
  function EncodingLength(data: seq<Byte>, off: nat): (n: nat)
    requires off <= |data|
    ensures n > 0 ==> EncodingAt(data, off, n)
    ensures forall m :: EncodingAt(data, off, m) ==> m == n
    ensures n == 0 ==> forall i :: off <= i < |data| ==> data[i] >= 128
    decreases |data| - off
  {
    if off == |data| then 0
    else if data[off] < 128 then 1
    else
      var n := EncodingLength(data, off + 1);
      assert forall m :: m > 1 ==> (EncodingAt(data, off, m) <==> EncodingAt(data, off + 1, m - 1));
      if n == 0 then 0 else n + 1
  }

  /** An encoding is the same bytes wherever it lies. */
  lemma EncodingMoves(before: seq<Byte>, bs: seq<Byte>, after: seq<Byte>, n: nat)
    ensures EncodingAt(before + bs + after, |before|, n) && n <= |bs| <==> EncodingAt(bs, 0, n)
  {
    var data := before + bs + after;
    assert forall i :: 0 <= i < |bs| ==> data[|before| + i] == bs[i];
    if EncodingAt(data, |before|, n) && n <= |bs| {
      assert forall i :: 0 <= i < n - 1 ==> bs[i] == data[|before| + i];
    }
  }

  lemma {:induction false} UlebSnoc(bs: seq<Byte>, b: Byte)
    ensures Uleb(bs + [b]) == Uleb(bs) + b % 128 * Pow2(7 * |bs|)
    decreases |bs|
  {
    if bs == [] {
      assert Uleb([b]) == b % 128;
      assert [] + [b] == [b];
    } else {
      assert (bs + [b])[1..] == bs[1..] + [b];
      UlebSnoc(bs[1..], b);
      Pow2Add(7, 7 * |bs[1..]|);
      var p := Pow2(7 * |bs[1..]|);
      assert Pow2(7) == 128;
      assert 128 * (b % 128 * p) == b % 128 * (128 * p);
    }
  }

  lemma {:induction false} UlebBound(bs: seq<Byte>)
    ensures Uleb(bs) < Pow2(7 * |bs|)
    decreases |bs|
  {
    if bs != [] {
      UlebBound(bs[1..]);
      Pow2Add(7, 7 * |bs[1..]|);
      assert Pow2(7) == 128;
    }
  }

  /** No encoding of a number is shorter than the one Encode gives. */
  lemma {:induction false} EncodeIsShortest(v: nat, bs: seq<Byte>)
    requires Terminated(bs) && Uleb(bs) == v
    ensures |Encode(v)| <= |bs|
    decreases |bs|
  {
    if v >= 128 {
      assert bs[1..] == [] ==> v < 128;
      assert v / 128 == Uleb(bs[1..]);
      EncodeIsShortest(v / 128, bs[1..]);
    }
  }

  lemma EncodeLength64(v: Word64)
    ensures |Encode(v)| <= 10
  {
    Pow2At64();
    Pow2Add(64, 6);
    assert Pow2(6) >= 1;
    EncodeLength(v, 10);
  }

  lemma EncodeLength(v: nat, n: nat)
    requires n > 0 && v < Pow2(7 * n)
    ensures |Encode(v)| <= n
    decreases n
  {
    if v >= 128 {
      Pow2Add(7, 7 * (n - 1));
      assert Pow2(7) == 128;
      EncodeLength(v / 128, n - 1);
    }
  }

  // ---- One more group of seven bits

  /** Adding the next group, as the C loop does, is exact modulo 2^64. */
  lemma PlusGroup(v: nat, y: nat, s: nat)
    requires y < 128 && s < 64
    ensures (v % TWO64 + ShiftLeft64(y, s)) % TWO64 == (v + y * Pow2(s)) % TWO64
  {
    ModAddMod(v, y * Pow2(s), TWO64);
  }

  /** Or-ing the next group in, as the Swift loops do, gives the same: the bit groups are disjoint. */
  lemma OrGroup(v: nat, y: nat, s: nat)
    requires y < 128 && v < Pow2(s)
    ensures Or(v % TWO64, ShiftLeft64(y, s)) == (v + y * Pow2(s)) % TWO64
  {
    hide Pow2, Or;
    Pow2At64();
    if s < 64 {
      var p, q := Pow2(s), Pow2(64 - s);
      Pow2Add(64 - s, s);
      ModScale(y, q, p);
      assert v < TWO64 by { MulMono(1, q, p); }
      assert v % TWO64 == v;
      OrDisjoint(v, y % q, s);
      ModScaleAdd(v, y, q, p);
    } else {
      Pow2Add(s - 64, 64);
      var h := Pow2(s - 64);
      assert y * Pow2(s) == (y * h) * TWO64;
      ModDropMultiple(v, y * h, TWO64);
      OrZero(v % TWO64);
    }
  }

  lemma ModScaleAdd(v: nat, y: nat, q: nat, p: nat)
    requires v < p && q > 0
    ensures q * p > 0 && (v + y * p) % (q * p) == v + y % q * p
  {
    var a, r := y / q, y % q;
    assert y == a * q + r;
    assert v + y * p == a * (q * p) + (v + r * p);
    assert (r + 1) * p <= q * p by { MulMono(r + 1, q, p); }
    DivUnique(v + y * p, q * p, a, v + r * p);
  }

  lemma PrefixSnoc(data: seq<Byte>, off: nat, i: nat)
    requires off <= i < |data|
    ensures data[off..i + 1] == data[off..i] + [data[i]]
  {
  }

  function OrWord(x: Word64, y: Word64): (r: Word64)
    ensures r == Or(x, y)
  {
    Pow2At64();
    OrBound(x, y, 64);
    Or(x, y)
  }

  lemma {:induction false} OrBound(x: nat, y: nat, k: nat)
    requires x < Pow2(k) && y < Pow2(k)
    ensures Or(x, y) < Pow2(k)
    decreases k
  {
    if k > 0 {
      OrBound(x / 2, y / 2, k - 1);
    }
  }

  /** The seven bits of a byte that carry the number. */
  function LowSeven(b: Byte): (r: nat)
    ensures r == b % 128
  {
    assert Pow2(7) == 128;
    AndMask(b, 7);
    And(b, 0x7f)
  }

  // ---- decodeULEB128 (C)

  /** The C reader. Nothing stands for undefined behaviour: a read past the data,
      or a shift by 64 or more. */
  method DecodeULEB128(p: seq<Byte>) returns (r: Option<Leb>)
    ensures var n := EncodingLength(p, 0);
            r == if 0 < n <= 10 then Some(Leb(Uleb(p[..n]) % TWO64, n)) else None
  {
    var value: Word64, shift, i := 0, 0, 0;
    while true
      invariant i <= |p| && i <= 10 && shift == 7 * i
      invariant forall k :: 0 <= k < i ==> p[k] >= 128
      invariant value == Uleb(p[0..i]) % TWO64
      decreases |p| - i
    {
      if i == |p| || shift >= 64 {
        ghost var n := EncodingLength(p, 0);
        assert 0 < n ==> EncodingAt(p, 0, n);
        return None;
      }
      PlusGroup(Uleb(p[0..i]), p[i] % 128, shift);
      UlebSnoc(p[0..i], p[i]);
      PrefixSnoc(p, 0, i);
      value := (value + ShiftLeft64(LowSeven(p[i]), shift)) % TWO64;
      shift := shift + 7;
      i := i + 1;
      if p[i - 1] < 128 {
        assert EncodingAt(p, 0, i);
        assert p[0..i] == p[..i];
        return Some(Leb(value, i));
      }
    }
  }

  // ---- _readULEB128, readULEB128, readSLEB128 (Swift)

  /** What the Swift reader returns: nothing when it leaves the data, or when seven times the length no
      longer fits its 32-bit shift counter. */
  function ReadUleb(data: seq<Byte>, off: nat): (r: Option<Leb>)
    requires off <= |data|
    ensures r.Some? ==> 0 < r.value.byteCount <= |data| - off
  {
    var n := EncodingLength(data, off);
    if n == 0 || 7 * n >= TWO32 then None else Some(Leb(Uleb(data[off..off + n]) % TWO64, n))
  }

  method ReadULEB128(data: seq<Byte>, off: nat) returns (r: Option<Leb>, shift: Word32)
    requires off <= |data|
    ensures r == ReadUleb(data, off)
    ensures r.Some? ==> shift == 7 * r.value.byteCount
  {
    var index, delta: Word64 := off, 0;
    shift := 0;
    while true
      invariant off <= index <= |data| && shift == 7 * (index - off)
      invariant forall k :: off <= k < index ==> data[k] >= 128
      invariant delta == Uleb(data[off..index]) % TWO64
      decreases |data| - index
    {
      ghost var n := EncodingLength(data, off);
      assert 0 < n ==> EncodingAt(data, off, n);
      if index == |data| {
        return None, shift;
      }
      var byte := data[index];
      NextGroup(data, off, index);
      delta := OrWord(delta, ShiftLeft64(LowSeven(byte), shift));
      index := index + 1;
      if shift + 7 >= TWO32 {
        return None, shift;
      }
      shift := shift + 7;
      if byte < 128 {
        assert EncodingAt(data, off, index - off);
        return Some(Leb(delta, index - off)), shift;
      }
    }
  }

  /** The value of one more byte, as the Swift loops accumulate it. */
  lemma NextGroup(data: seq<Byte>, off: nat, index: nat)
    requires off <= index < |data|
    ensures Or(Uleb(data[off..index]) % TWO64, ShiftLeft64(data[index] % 128, 7 * (index - off)))
            == Uleb(data[off..index + 1]) % TWO64
  {
    UlebBound(data[off..index]);
    OrGroup(Uleb(data[off..index]), data[index] % 128, 7 * (index - off));
    UlebSnoc(data[off..index], data[index]);
    PrefixSnoc(data, off, index);
  }

  /** Every encoding of every 64-bit value, padded ones included, reads back as that value. */
  lemma ReadsEveryEncoding(before: seq<Byte>, bs: seq<Byte>, after: seq<Byte>)
    requires Terminated(bs) && Uleb(bs) < TWO64 && 7 * |bs| < TWO32
    ensures ReadUleb(before + bs + after, |before|) == Some(Leb(Uleb(bs), |bs|))
  {
    hide Uleb, ReadUleb;
    var data := before + bs + after;
    EncodingMoves(before, bs, after, |bs|);
    ReadUlebAt(data, |before|, |bs|);
    assert data[|before|..|before| + |bs|] == bs;
  }

  lemma ReadUlebAt(data: seq<Byte>, off: nat, n: nat)
    requires off <= |data| && EncodingAt(data, off, n) && 7 * n < TWO32
    ensures off + n <= |data| && ReadUleb(data, off) == Some(Leb(Uleb(data[off..off + n]) % TWO64, n))
  {
    hide Uleb;
  }

  /** The C and the Swift reader agree on value and length for every encoding of at most ten bytes. */
  method ReadersAgree(data: seq<Byte>, off: nat) returns (c: Option<Leb>, swift: Option<Leb>)
    requires off <= |data|
    ensures swift == ReadUleb(data, off)
    ensures swift.Some? && swift.value.byteCount <= 10 <==> c.Some?
    ensures c.Some? ==> c == swift
  {
    c := DecodeULEB128(data[off..]);
    var shift;
    swift, shift := ReadULEB128(data, off);
    SuffixLength(data, off);
    ghost var n := EncodingLength(data, off);
    assert n > 0 ==> EncodingAt(data, off, n) && data[off..][..n] == data[off..off + n];
  }

  lemma SuffixLength(data: seq<Byte>, off: nat)
    requires off <= |data|
    ensures EncodingLength(data[off..], 0) == EncodingLength(data, off)
  {
    assert data == data[..off] + data[off..] + [];
    forall n {
      EncodingMoves(data[..off], data[off..], [], n);
    }
    var n, m := EncodingLength(data, off), EncodingLength(data[off..], 0);
    assert n > 0 ==> EncodingAt(data, off, n);
    assert m > 0 ==> EncodingAt(data[off..], 0, m);
  }

  // ---- Signed reading

  /** The signed number of section 7.6: bit 6 of the last byte is the sign. */
  function Sleb(bs: seq<Byte>): int
    requires bs != []
  {
    Uleb(bs) - if bs[|bs| - 1] % 128 >= 64 then Pow2(7 * |bs|) else 0
  }

  /** `readSLEB128` ors the sign mask in without looking at the sign: every number is read as if it were
      negative. That is the signed number modulo 2^64 exactly when the number is negative, or when the
      encoding is so long that the mask is shifted out. */
  method ReadSLEB128(data: seq<Byte>, off: nat) returns (r: Option<Leb>)
    requires off <= |data|
    ensures r.Some? <==> ReadUleb(data, off).Some?
    ensures r.Some? ==>
              var n := r.value.byteCount;
              && n == ReadUleb(data, off).value.byteCount
              && r.value.value == (Uleb(data[off..off + n]) - Pow2(7 * n)) % TWO64
              && (r.value.value == Sleb(data[off..off + n]) % TWO64 <==> data[off + n - 1] % 128 >= 64 || n >= 10)
  {
    hide Pow2, Or, Uleb;
    var u, shift := ReadULEB128(data, off);
    if u.None? {
      return None;
    }
    var n := u.value.byteCount;
    MaskApplied(data[off..off + n]);
    r := Some(Leb(OrWord(u.value.value, ShiftLeft64(TWO64 - 1, shift)), n));
  }

  lemma MaskValue(s: nat)
    requires s < 64
    ensures ShiftLeft64(TWO64 - 1, s) == (Pow2(64 - s) - 1) * Pow2(s) == TWO64 - Pow2(s)
  {
    hide Pow2;
    Pow2At64();
    var p, q := Pow2(s), Pow2(64 - s);
    Pow2Add(64 - s, s);
    assert (TWO64 - 1) * p == (p - 1) * TWO64 + (TWO64 - p);
    DivUnique((TWO64 - 1) * p, TWO64, p - 1, TWO64 - p);
  }

  lemma MaskApplied(bs: seq<Byte>)
    requires bs != []
    ensures Or(Uleb(bs) % TWO64, ShiftLeft64(TWO64 - 1, 7 * |bs|)) == (Uleb(bs) - Pow2(7 * |bs|)) % TWO64
    ensures (Uleb(bs) - Pow2(7 * |bs|)) % TWO64 == Sleb(bs) % TWO64 <==> bs[|bs| - 1] % 128 >= 64 || |bs| >= 10
  {
    hide Pow2, Or, Uleb;
    UlebBound(bs);
    if |bs| >= 10 {
      Pow2At64();
      Pow2Add(7 * |bs| - 64, 64);
      OrZero(Uleb(bs) % TWO64);
      ModSubMultiple(Uleb(bs), Pow2(7 * |bs| - 64), TWO64);
    } else {
      SmallPow(|bs|);
      MaskedShort(Uleb(bs), 7 * |bs|);
    }
  }

  lemma MaskedShort(v: nat, s: nat)
    requires v < Pow2(s) < TWO64 && s < 64
    ensures Or(v % TWO64, ShiftLeft64(TWO64 - 1, s)) == (v - Pow2(s)) % TWO64 != v % TWO64
  {
    MaskValue(s);
    OrDisjoint(v, Pow2(64 - s) - 1, s);
    MinusOnce(v, Pow2(s));
  }

  lemma MinusOnce(v: nat, p: nat)
    requires v < p < TWO64
    ensures (v - p) % TWO64 == v - p + TWO64 && v % TWO64 == v
  {
  }

  lemma SmallPow(n: nat)
    requires n < 10
    ensures Pow2(7 * n) < TWO64
  {
    Pow2At64();
    Pow2Add(64 - 7 * n, 7 * n);
    assert Pow2(64 - 7 * n) >= 2;
    MulMono(2, Pow2(64 - 7 * n), Pow2(7 * n));
  }

  lemma ModSubMultiple(x: nat, q: nat, m: nat)
    requires m > 0
    ensures (x - q * m) % m == x % m
  {
    var y := x - q * m;
    var d := x / m - q;
    assert y == d * m + x % m;
    ModUnique(y, m, d, x % m);
  }

  lemma ModUnique(y: int, m: nat, d: int, r: nat)
    requires r < m && y == d * m + r
    ensures y % m == r
  {
    var d', r' := y / m, y % m;
    assert y == d' * m + r';
    if d' < d {
      MulMono(1, d - d', m);
    } else if d < d' {
      MulMono(1, d' - d, m);
    }
  }
}
