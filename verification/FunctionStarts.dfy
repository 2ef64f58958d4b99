/** The LC_FUNCTION_STARTS table: ULEB128 deltas decoded in one pass into addresses. */
module FunctionStarts {
  import opened Words
  import opened Leb128

  datatype FunctionStart = FunctionStart(startOffset: nat, byteLength: nat, address: Word64)

  /** The table from an offset on, given the last address. Nothing stands for a trap: an encoding that
      runs off the data, or an address past 64 bits. */
  function Starts(data: seq<Byte>, index: nat, address: Word64): Option<seq<FunctionStart>>
    requires index <= |data|
    decreases |data| - index
  {
    if index == |data| then Some([]) else
    var leb :- ReadUleb(data, index);
    if address + leb.value >= TWO64 then None else
    var rest :- Starts(data, index + leb.byteCount, address + leb.value);
    Some([FunctionStart(index, leb.byteCount, address + leb.value)] + rest)
  }

  /** The decoding loop, with the inlined reader. */
  method Decode(data: seq<Byte>) returns (r: Option<seq<FunctionStart>>)
    ensures r == Starts(data, 0, 0)
  {
    hide Starts, ReadUleb, Or, And, ShiftLeft64;
    var functionStarts: seq<FunctionStart> := [];
    var address: Word64, index := 0, 0;
    PrefixedNone(Starts(data, 0, 0));
    while index < |data|
      invariant index <= |data|
      invariant Starts(data, 0, 0) == Prefixed(functionStarts, Starts(data, index, address))
    {
      var delta: Word64, shift, more, startIndex := 0, 0, true, index;
      while more
        invariant startIndex <= index <= |data| && 7 * (index - startIndex) == shift < TWO32
        invariant more ==> forall k :: startIndex <= k < index ==> data[k] >= 128
        invariant delta == Uleb(data[startIndex..index]) % TWO64
        invariant more ==> Starts(data, 0, 0) == Prefixed(functionStarts, Starts(data, startIndex, address))
        invariant !more ==> startIndex < index
        invariant !more ==> Starts(data, 0, 0) == Prefixed(functionStarts, Starts(data, index, address))
        decreases more, |data| - index
      {
        if index == |data| {
          Unfinished(data, startIndex, index, address);
          return None;
        }
        var byte := data[index];
        NextGroup(data, startIndex, index);
        delta := OrWord(delta, ShiftLeft64(LowSeven(byte), shift));
        index := index + 1;
        if shift + 7 >= TWO32 {
          Unfinished(data, startIndex, index - 1, address);
          return None;
        }
        shift := shift + 7;
        if byte < 128 {
          Finished(data, startIndex, index, address);
          if address + delta >= TWO64 {
            return None;
          }
          address := address + delta;
          var start := FunctionStart(startIndex, index - startIndex, address);
          PrefixedAppend(functionStarts, start, Starts(data, index, address));
          functionStarts := functionStarts + [start];
          more := false;
        }
      }
    }
    AtEnd(data, address);
    assert functionStarts + [] == functionStarts;
    return Some(functionStarts);
  }

  lemma AtEnd(data: seq<Byte>, address: Word64)
    ensures Starts(data, |data|, address) == Some([])
  {
  }

  lemma Unfinished(data: seq<Byte>, start: nat, index: nat, address: Word64)
    requires start < |data| && start <= index <= |data|
    requires forall k :: start <= k < index ==> data[k] >= 128
    requires index == |data| || 7 * (index - start) + 7 >= TWO32
    ensures Starts(data, start, address).None?
  {
    assert forall n :: EncodingAt(data, start, n) ==> data[start + n - 1] < 128;
  }

  lemma Finished(data: seq<Byte>, start: nat, index: nat, address: Word64)
    requires start < index <= |data| && EncodingAt(data, start, index - start) && 7 * (index - start) < TWO32
    ensures var address' := address + Uleb(data[start..index]) % TWO64;
            Starts(data, start, address) ==
              if address' >= TWO64 then None
              else Prefixed([FunctionStart(start, index - start, address')], Starts(data, index, address'))
  {
    hide Uleb;
    assert EncodingLength(data, start) == index - start;
    assert ReadUleb(data, start) == Some(Leb(Uleb(data[start..index]) % TWO64, index - start));
  }

  lemma PrefixedNone(rest: Option<seq<FunctionStart>>)
    ensures Prefixed([], rest) == rest
  {
    if rest.Some? {
      assert [] + rest.value == rest.value;
    }
  }

  ghost function Prefixed(done: seq<FunctionStart>, rest: Option<seq<FunctionStart>>): Option<seq<FunctionStart>> {
    if rest.None? then None else Some(done + rest.value)
  }

  lemma PrefixedAppend(done: seq<FunctionStart>, s: FunctionStart, rest: Option<seq<FunctionStart>>)
    ensures Prefixed(done + [s], rest) == Prefixed(done, Prefixed([s], rest))
  {
    if rest.Some? {
      assert done + [s] + rest.value == done + ([s] + rest.value);
    }
  }

  // ---- What the table says

  /** Where entry i starts, and the address before it. */
  function StartOf(es: seq<FunctionStart>, index: nat, i: nat): nat
    requires i <= |es|
  {
    if i == 0 then index else es[i - 1].startOffset + es[i - 1].byteLength
  }

  function AddressBefore(es: seq<FunctionStart>, address: Word64, i: nat): Word64
    requires i <= |es|
  {
    if i == 0 then address else es[i - 1].address
  }

  /** One entry: where it should start, and what the number encoded there makes of the address before. */
  ghost predicate IsEntry(data: seq<Byte>, start: nat, before: Word64, e: FunctionStart) {
    && e.startOffset == start <= |data|
    && before <= e.address
    && ReadUleb(data, start) == Some(Leb(e.address - before, e.byteLength))
  }

  /** The entries cut the data into adjacent encodings that end with it, and each address
      is the one before it plus the number encoded at the entry. */
  ghost predicate IsTable(data: seq<Byte>, index: nat, address: Word64, es: seq<FunctionStart>) {
    && StartOf(es, index, |es|) == |data|
    && (forall i :: 0 <= i < |es| ==> IsEntry(data, StartOf(es, index, i), AddressBefore(es, address, i), es[i]))
  }

  lemma IsTableCons(data: seq<Byte>, index: nat, address: Word64, e: FunctionStart, rest: seq<FunctionStart>)
    ensures IsTable(data, index, address, [e] + rest) <==>
              IsEntry(data, index, address, e) && IsTable(data, e.startOffset + e.byteLength, e.address, rest)
  {
    hide IsEntry;
    var es, next := [e] + rest, e.startOffset + e.byteLength;
    assert forall i :: 0 <= i < |rest| ==> rest[i] == es[i + 1];
    assert StartOf(rest, next, |rest|) == StartOf(es, index, |es|);
    forall i | 0 <= i < |rest|
      ensures IsEntry(data, StartOf(rest, next, i), AddressBefore(rest, e.address, i), rest[i])
          <==> IsEntry(data, StartOf(es, index, i + 1), AddressBefore(es, address, i + 1), es[i + 1])
    {
    }
    if IsEntry(data, index, address, e) && IsTable(data, next, e.address, rest) {
      forall i | 0 <= i < |es| ensures IsEntry(data, StartOf(es, index, i), AddressBefore(es, address, i), es[i]) {
        assert i > 0 ==> es[i] == rest[i - 1];
      }
    }
    if IsTable(data, index, address, es) {
      assert es[0] == e;
    }
  }

  /** The decoder finds a table exactly when there is one, and finds that one. */
  lemma {:induction false} StartsIsTheTable(data: seq<Byte>, index: nat, address: Word64, es: seq<FunctionStart>)
    requires index <= |data|
    ensures Starts(data, index, address) == Some(es) <==> IsTable(data, index, address, es)
    decreases |data| - index
  {
    hide IsTable, Starts, IsEntry;
    if es == [] {
      NoEntries(data, index, address);
    } else {
      EntryBounds(data, index, address, es[0]);
      var e, rest := es[0], es[1..];
      assert es == [e] + rest;
      IsTableCons(data, index, address, e, rest);
      StartsCons(data, index, address, e, rest);
      if IsEntry(data, index, address, e) {
        StartsIsTheTable(data, index + e.byteLength, e.address, rest);
      }
    }
  }

  lemma NoEntries(data: seq<Byte>, index: nat, address: Word64)
    requires index <= |data|
    ensures Starts(data, index, address) == Some([]) <==> IsTable(data, index, address, [])
  {
    hide ReadUleb;
  }

  lemma EntryBounds(data: seq<Byte>, start: nat, before: Word64, e: FunctionStart)
    ensures IsEntry(data, start, before, e) ==> e.startOffset == start && 0 < e.byteLength <= |data| - start
  {
    hide ReadUleb;
  }

  lemma ReadAtEnd(data: seq<Byte>)
    ensures ReadUleb(data, |data|).None?
  {
  }

  lemma StartsCons(data: seq<Byte>, index: nat, address: Word64, e: FunctionStart, rest: seq<FunctionStart>)
    requires index <= |data|
    ensures Starts(data, index, address) == Some([e] + rest) <==>
              && IsEntry(data, index, address, e)
              && Starts(data, index + e.byteLength, e.address) == Some(rest)
  {
    hide ReadUleb;
    ReadAtEnd(data);
    if Starts(data, index, address) == Some([e] + rest) {
      var leb := ReadUleb(data, index).value;
      var tail := Starts(data, index + leb.byteCount, address + leb.value).value;
      assert [FunctionStart(index, leb.byteCount, address + leb.value)] + tail == [e] + rest;
      assert e == ([e] + rest)[0] && rest == ([e] + rest)[1..];
      assert tail == rest;
    }
  }

  // ---- The encoder's side

  predicate Nondecreasing(address: Word64, addresses: seq<Word64>)
    decreases |addresses|
  {
    addresses == [] || (address <= addresses[0] && Nondecreasing(addresses[0], addresses[1..]))
  }

  /** The data for a list of addresses: the shortest encodings of its differences. */
  function EncodeStarts(address: Word64, addresses: seq<Word64>): seq<Byte>
    requires Nondecreasing(address, addresses)
    decreases |addresses|
  {
    if addresses == [] then []
    else Encode(addresses[0] - address) + EncodeStarts(addresses[0], addresses[1..])
  }

  function Addresses(es: seq<FunctionStart>): seq<Word64> {
    seq(|es|, i requires 0 <= i < |es| => es[i].address)
  }

  /** Decoding what was encoded gives back every address, after any bytes already read. */
  lemma {:induction false} RoundTrip(before: seq<Byte>, address: Word64, addresses: seq<Word64>)
    requires Nondecreasing(address, addresses)
    ensures var r := Starts(before + EncodeStarts(address, addresses), |before|, address);
            r.Some? && Addresses(r.value) == addresses
    decreases |addresses|
  {
    hide Starts, ReadUleb, Encode, EncodingAt;
    var data := before + EncodeStarts(address, addresses);
    if addresses == [] {
      assert data == before;
      AtEnd(data, address);
    } else {
      var delta, a, rest := addresses[0] - address, addresses[0], addresses[1..];
      var head, tail := Encode(delta), EncodeStarts(a, rest);
      RoundTrip(before + head, a, rest);
      assert data == before + head + tail;
      EncodeLength64(delta);
      ReadsEveryEncoding(before, head, tail);
      var es := Starts(data, |before + head|, a).value;
      var e := FunctionStart(|before|, |head|, a);
      StartsCons(data, |before|, address, e, es);
      assert Addresses([e] + es) == [a] + Addresses(es) == addresses;
    }
  }

  /** No table ends inside an encoding. */
  lemma {:induction false} UnterminatedTraps(data: seq<Byte>, index: nat, address: Word64)
    requires index < |data| && data[|data| - 1] >= 128
    ensures Starts(data, index, address).None?
    decreases |data| - index
  {
    var leb := ReadUleb(data, index);
    if leb.Some? {
      assert EncodingAt(data, index, leb.value.byteCount);
      if address + leb.value.value < TWO64 {
        UnterminatedTraps(data, index + leb.value.byteCount, address + leb.value.value);
      }
    }
  }

  /** The sum of the encoded differences, over unbounded integers. */
  function DeltaSum(data: seq<Byte>, index: nat): nat
    requires index <= |data|
    decreases |data| - index
  {
    if index == |data| then 0 else
    var leb := ReadUleb(data, index);
    if leb.None? then 0 else leb.value.value + DeltaSum(data, index + leb.value.byteCount)
  }

  /** No encoding is so long that its shift count leaves 32 bits: data below 613 million bytes always qualifies. */
  ghost predicate EncodingsShort(data: seq<Byte>) {
    forall i :: 0 <= i < |data| ==> 7 * EncodingLength(data, i) < TWO32
  }

  lemma ReadTerminated(data: seq<Byte>, index: nat)
    requires index < |data| && EncodingsShort(data) && data[|data| - 1] < 128
    ensures ReadUleb(data, index).Some?
  {
    assert EncodingLength(data, index) > 0;
  }

  /** Terminated data decodes exactly when its differences stay below 2^64 in sum. */
  lemma {:induction false} DecodesWhenSumFits(data: seq<Byte>, index: nat, address: Word64)
    requires index <= |data| && EncodingsShort(data)
    requires index < |data| ==> data[|data| - 1] < 128
    ensures Starts(data, index, address).Some? <==> address + DeltaSum(data, index) < TWO64
    decreases |data| - index
  {
    hide ReadUleb, EncodingsShort;
    if index < |data| {
      ReadTerminated(data, index);
      var leb := ReadUleb(data, index).value;
      if address + leb.value < TWO64 {
        DecodesWhenSumFits(data, index + leb.byteCount, address + leb.value);
      }
    }
  }
}
