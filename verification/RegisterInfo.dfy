/** Register tables of the back ends: sub- and super-register lists stored as 16-bit
    differences, searched through an iterator, and register classes stored as bit sets. */
module RegisterInfo {
  import opened Words

  datatype Desc = Desc(subRegs: nat, superRegs: nat, subRegIndices: nat)

  datatype RegisterClass = RegisterClass(regSet: seq<Byte>)

  // ---- Lists of differences

  /** A list that starts here is closed by a zero. */
  predicate ListEnds(diffs: seq<Word16>, pos: nat)
    decreases |diffs| - pos
  {
    pos < |diffs| && (diffs[pos] == 0 || ListEnds(diffs, pos + 1))
  }

  /** The registers of a list: running sums modulo 2^16 up to the zero. */
  function Decode(diffs: seq<Word16>, pos: nat, val: Word16): seq<Word16>
    requires ListEnds(diffs, pos)
    decreases |diffs| - pos
  {
    if diffs[pos] == 0 then [] else
    var next := (val + diffs[pos]) % TWO16;
    [next] + Decode(diffs, pos + 1, next)
  }

  /** The differences for a list of registers, and the closing zero. */
  function Encode(val: Word16, regs: seq<Word16>): seq<Word16>
    decreases |regs|
  {
    if regs == [] then [0] else [(regs[0] - val) % TWO16] + Encode(regs[0], regs[1..])
  }

  predicate NoRepeats(val: Word16, regs: seq<Word16>)
    decreases |regs|
  {
    regs == [] || (regs[0] != val && NoRepeats(regs[0], regs[1..]))
  }

  /** A list reads back exactly when no register follows itself: its difference would be the closing zero. */
  lemma {:induction false} DecodeEncode(before: seq<Word16>, val: Word16, regs: seq<Word16>)
    ensures var diffs := before + Encode(val, regs);
            ListEnds(diffs, |before|) && (Decode(diffs, |before|, val) == regs <==> NoRepeats(val, regs))
    decreases |regs|
  {
    var diffs := before + Encode(val, regs);
    if regs != [] {
      var d := (regs[0] - val) % TWO16;
      DecodeEncode(before + [d], regs[0], regs[1..]);
      assert diffs == before + [d] + Encode(regs[0], regs[1..]);
      assert (val + d) % TWO16 == regs[0];
      assert d == 0 <==> regs[0] == val;
      if d != 0 {
        var tail := Decode(diffs, |before| + 1, regs[0]);
        assert ([regs[0]] + tail)[1..] == tail;
        assert Decode(diffs, |before|, val) == [regs[0]] + tail;
        assert regs == [regs[0]] + regs[1..];
      }
    }
  }

  class DiffListIterator {
    const diffs: seq<Word16>
    var val: Word16
    var list: Option<nat>

    constructor (diffs: seq<Word16>, val: Word16, pos: nat)
      ensures this.diffs == diffs && this.val == val && list == Some(pos)
      ensures ListEnds(diffs, pos) ==> Valid() && Rest() == Decode(diffs, pos, val)
    {
      this.diffs, this.val, list := diffs, val, Some(pos);
    }

    ghost predicate Valid()
      reads this
    {
      list.Some? ==> ListEnds(diffs, list.value)
    }

    predicate IsValid()
      reads this
    {
      list.Some?
    }

    /** The registers still to come. */
    ghost function Rest(): seq<Word16>
      requires Valid()
      reads this
    {
      if list.Some? then Decode(diffs, list.value, val) else []
    }

    method Next() returns (more: bool)
      requires Valid()
      modifies this
      ensures Valid() && (more <==> old(Rest()) != []) && more == IsValid()
      ensures more ==> val == old(Rest())[0] && Rest() == old(Rest())[1..]
      ensures !more ==> Rest() == []
    {
      if list.None? {
        return false;
      }
      var d := diffs[list.value];
      val := (val + d) % TWO16;
      list := if d == 0 then None else Some(list.value + 1);
      more := d != 0;
    }
  }

  // ---- The tables

  datatype RegisterInfo = RegisterInfo(desc: seq<Desc>, diffs: seq<Word16>, subRegIndices: seq<Word16>) {
    /** Lists are closed and hold only registers of the table; every sub-register has its index. */
    ghost predicate Valid() {
      |desc| <= TWO16 && forall r :: 0 <= r < |desc| ==> ValidDesc(r)
    }

    ghost predicate ValidDesc(r: nat)
      requires r < |desc| <= TWO16
    {
      && ListEnds(diffs, desc[r].subRegs)
      && ListEnds(diffs, desc[r].superRegs)
      && InTable(Decode(diffs, desc[r].subRegs, r))
      && InTable(Decode(diffs, desc[r].superRegs, r))
      && desc[r].subRegIndices + |Decode(diffs, desc[r].subRegs, r)| <= |subRegIndices|
    }

    ghost predicate InTable(regs: seq<Word16>) {
      forall i :: 0 <= i < |regs| ==> 0 < regs[i] < |desc|
    }

    ghost function SubRegs(r: nat): seq<Word16>
      requires Valid() && r < |desc|
    {
      assert ValidDesc(r);
      Decode(diffs, desc[r].subRegs, r)
    }

    ghost function SuperRegs(r: nat): seq<Word16>
      requires Valid() && r < |desc|
    {
      assert ValidDesc(r);
      Decode(diffs, desc[r].superRegs, r)
    }

    /** The index that goes with the i-th sub-register. */
    ghost function IndexAt(r: nat, i: nat): Word16
      requires Valid() && r < |desc| && i < |SubRegs(r)|
    {
      assert ValidDesc(r);
      subRegIndices[desc[r].subRegIndices + i]
    }

    /** x is the first sub-register of r with this index, or 0 when none has it. */
    ghost predicate IsSubReg(r: nat, idx: nat, x: nat)
      requires Valid() && r < |desc|
    {
      if x == 0 then forall i :: 0 <= i < |SubRegs(r)| ==> IndexAt(r, i) != idx
      else exists i :: 0 <= i < |SubRegs(r)| && SubRegs(r)[i] == x && IndexAt(r, i) == idx
                       && forall j :: 0 <= j < i ==> IndexAt(r, j) != idx
    }

    /** A super-register that lies in the class and has r as its sub-register with this index. */
    ghost predicate Matches(r: nat, idx: nat, rc: RegisterClass, s: Word16)
      requires Valid() && r < |desc| && s < |desc|
    {
      Contains(rc, s) && IsSubReg(s, idx, r)
    }

    ghost predicate IsMatchingSuperReg(r: nat, idx: nat, rc: RegisterClass, x: nat)
      requires Valid() && r < |desc|
    {
      assert ValidDesc(r);
      var supers := SuperRegs(r);
      if x == 0 then forall i :: 0 <= i < |supers| ==> !Matches(r, idx, rc, supers[i])
      else exists i :: 0 <= i < |supers| && supers[i] == x && Matches(r, idx, rc, supers[i])
                       && forall j :: 0 <= j < i ==> !Matches(r, idx, rc, supers[j])
    }
  }

  /** The answer is unique: registers are never 0. */
  lemma SubRegUnique(ri: RegisterInfo, r: nat, idx: nat, x: nat, y: nat)
    requires ri.Valid() && r < |ri.desc| && ri.IsSubReg(r, idx, x) && ri.IsSubReg(r, idx, y)
    ensures x == y
  {
    assert ri.ValidDesc(r);
  }

  method GetSubReg(ri: RegisterInfo, reg: nat, idx: nat) returns (r: nat)
    requires ri.Valid() && reg < |ri.desc|
    ensures ri.IsSubReg(reg, idx, r)
  {
    hide Decode, ListEnds, RegisterInfo.Valid, RegisterInfo.ValidDesc, RegisterInfo.SubRegs, RegisterInfo.IndexAt,
         RegisterInfo.IsSubReg, DiffListIterator.Valid, DiffListIterator.Rest;
    SubRegList(ri, reg);
    var sri := ri.desc[reg].subRegIndices;
    var iter := new DiffListIterator(ri.diffs, reg, ri.desc[reg].subRegs);
    ghost var subs := ri.SubRegs(reg);
    ghost var k := 0;
    var more := iter.Next();
    while iter.IsValid()
      invariant iter.Valid() && k <= |subs| && sri == ri.desc[reg].subRegIndices + k
      invariant iter.IsValid() ==> k < |subs| && iter.val == subs[k] && iter.Rest() == subs[k + 1..]
      invariant !iter.IsValid() ==> k == |subs|
      invariant forall j :: 0 <= j < k ==> ri.IndexAt(reg, j) != idx
      decreases |subs| - k
    {
      assert ri.IndexAt(reg, k) == ri.subRegIndices[sri];
      if ri.subRegIndices[sri] == idx {
        SubRegDecided(ri, reg, idx, k);
        return iter.val;
      }
      more := iter.Next();
      sri := sri + 1;
      k := k + 1;
    }
    SubRegDecided(ri, reg, idx, k);
    return 0;
  }

  lemma SubRegDecided(ri: RegisterInfo, reg: nat, idx: nat, k: nat)
    requires ri.Valid() && reg < |ri.desc| && k <= |ri.SubRegs(reg)|
    requires forall j :: 0 <= j < k ==> ri.IndexAt(reg, j) != idx
    requires k < |ri.SubRegs(reg)| ==> ri.IndexAt(reg, k) == idx
    ensures ri.IsSubReg(reg, idx, if k < |ri.SubRegs(reg)| then ri.SubRegs(reg)[k] else 0)
  {
    hide RegisterInfo.Valid, RegisterInfo.IndexAt, RegisterInfo.SubRegs;
    SubRegList(ri, reg);
  }

  lemma SubRegList(ri: RegisterInfo, reg: nat)
    requires ri.Valid() && reg < |ri.desc|
    ensures reg < TWO16 && ListEnds(ri.diffs, ri.desc[reg].subRegs)
    ensures var subs, first := ri.SubRegs(reg), ri.desc[reg].subRegIndices;
            && subs == Decode(ri.diffs, ri.desc[reg].subRegs, reg)
            && first + |subs| <= |ri.subRegIndices|
            && (forall i :: 0 <= i < |subs| ==> subs[i] > 0 && ri.IndexAt(reg, i) == ri.subRegIndices[first + i])
  {
    hide Decode, ListEnds;
    assert ri.ValidDesc(reg);
  }

  /** The condition inside the search. */
  method Test(ri: RegisterInfo, reg: nat, idx: nat, rc: RegisterClass, val: Word16) returns (found: bool)
    requires ri.Valid() && reg < |ri.desc| && val < |ri.desc|
    ensures found == ri.Matches(reg, idx, rc, val)
  {
    hide Decode, ListEnds, Contains, RegisterInfo.IsSubReg;
    found := false;
    if Contains(rc, val) {
      var sub := GetSubReg(ri, val, idx);
      found := reg == sub;
      if ri.IsSubReg(val, idx, reg) {
        SubRegUnique(ri, val, idx, reg, sub);
      }
    }
  }

  method GetMatchingSuperReg(ri: RegisterInfo, reg: nat, idx: nat, rc: RegisterClass) returns (r: nat)
    requires ri.Valid()
    ensures if reg < |ri.desc| then ri.IsMatchingSuperReg(reg, idx, rc, r) else r == 0
  {
    if reg >= |ri.desc| {
      return 0;
    }
    hide Decode, ListEnds, RegisterInfo.Matches;
    assert ri.ValidDesc(reg);
    var iter := new DiffListIterator(ri.diffs, reg, ri.desc[reg].superRegs);
    ghost var supers := ri.SuperRegs(reg);
    ghost var k := 0;
    var more := iter.Next();
    while iter.IsValid()
      invariant iter.Valid() && k <= |supers|
      invariant iter.IsValid() ==> k < |supers| && iter.val == supers[k] && iter.Rest() == supers[k + 1..]
      invariant !iter.IsValid() ==> k == |supers|
      invariant forall j :: 0 <= j < k ==> !ri.Matches(reg, idx, rc, supers[j])
      decreases |supers| - k
    {
      var val := iter.val;
      var found := Test(ri, reg, idx, rc, val);
      if found {
        return val;
      }
      more := iter.Next();
      k := k + 1;
    }
    return 0;
  }

  // ---- Register classes as bit sets

  predicate Contains(c: RegisterClass, reg: nat) {
    var inByte, byte := reg % 8, reg / 8;
    byte < |c.regSet| && And(c.regSet[byte], Pow2(inByte)) != 0
  }

  /** The number whose bits are the members of a set, from a first register on. */
  function SetBits(s: set<nat>, first: nat, k: nat): (n: nat)
    ensures n < Pow2(k)
  {
    if k == 0 then 0 else SetBits(s, first, k - 1) + if first + k - 1 in s then Pow2(k - 1) else 0
  }

  function ClassOf(s: set<nat>, size: nat): RegisterClass {
    RegisterClass(seq(size, i requires 0 <= i < size => SetByte(s, 8 * i)))
  }

  function SetByte(s: set<nat>, first: nat): Byte {
    assert Pow2(8) == 256 by { Pow2Add(4, 4); }
    SetBits(s, first, 8)
  }

  lemma {:induction false} SetBitsBit(s: set<nat>, first: nat, k: nat, j: nat)
    requires j < k
    ensures SetBits(s, first, k) / Pow2(j) % 2 == 1 <==> first + j in s
    decreases k
  {
    var rest, p := SetBits(s, first, k - 1), Pow2(j);
    if j == k - 1 {
      DivUnique(SetBits(s, first, k), p, if first + j in s then 1 else 0, rest);
    } else {
      SetBitsBit(s, first, k - 1, j);
      Pow2Add(k - 2 - j, j);
      HigherBits(rest, Pow2(k - 2 - j), p);
    }
  }

  /** The bit test finds exactly the members of the set that was packed. */
  lemma ContainsIsMembership(s: set<nat>, size: nat, reg: nat)
    ensures Contains(ClassOf(s, size), reg) <==> reg in s && reg < 8 * size
  {
    if reg / 8 < size {
      AndWithBit(SetByte(s, 8 * (reg / 8)), reg % 8);
      SetBitsBit(s, 8 * (reg / 8), 8, reg % 8);
    }
  }
}
