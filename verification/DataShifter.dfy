/** The cursor through which the Mach-O structures are read. */
module DataShifter {
  import opened Words

  /** A little-endian number, as the host reads it. */
  function LittleEndian(bs: seq<Byte>): nat {
    if bs == [] then 0 else bs[0] + 256 * LittleEndian(bs[1..])
  }

  /** The number stored in n bytes at an offset. */
  function Field(data: seq<Byte>, off: nat, n: nat): nat
    requires off + n <= |data|
  {
    LittleEndian(data[off..off + n])
  }

  /** Reads move the cursor forward; nothing stands for `fatalError`. */
  class Shifter {
    const data: seq<Byte>
    var shifted: nat

    constructor (data: seq<Byte>)
      ensures this.data == data && shifted == 0
    {
      this.data, shifted := data, 0;
    }

    predicate Shiftable()
      reads this
    {
      |data| > shifted
    }

    method Shift(num: nat) returns (r: Option<seq<Byte>>)
      modifies this
      ensures r.Some? <==> num > 0 && old(shifted) + num <= |data|
      ensures r.Some? ==> shifted == old(shifted) + num && r.value == data[old(shifted)..shifted]
      ensures r.None? ==> shifted == old(shifted)
    {
      if num == 0 || shifted + num > |data| {
        return None;
      }
      r := Some(data[shifted..shifted + num]);
      shifted := shifted + num;
    }

    method Skip(num: nat)
      modifies this
      ensures shifted == old(shifted) + num
    {
      shifted := shifted + num;
    }

    method Back(num: nat) returns (r: Option<()>)
      modifies this
      ensures r.Some? <==> old(shifted) >= num
      ensures shifted == if r.Some? then old(shifted) - num else old(shifted)
    {
      if shifted < num {
        return None;
      }
      shifted := shifted - num;
      r := Some(());
    }

    /** A number of n bytes: the readers of 32-bit and 64-bit words. */
    method ShiftNumber(n: nat) returns (r: Option<nat>)
      requires n == 4 || n == 8
      modifies this
      ensures r.Some? <==> old(shifted) + n <= |data|
      ensures r.Some? ==> shifted == old(shifted) + n && r.value == Field(data, old(shifted), n)
      ensures r.None? ==> shifted == old(shifted)
    {
      var bs :- Shift(n);
      r := Some(LittleEndian(bs));
    }
  }
}
