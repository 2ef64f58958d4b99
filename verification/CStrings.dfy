/** The C-string section: split once into entries with an index by offset, and looked up by
    offset or virtual address; compared with the direct reader `readUTF8String`. */
module CStrings {
  import opened Words

  datatype CStringModel = CStringModel(startOffset: nat, length: nat, content: Option<string>)

  // ---- The entries

  function ZerosEnd(data: seq<Byte>, i: nat): (e: nat)
    requires i <= |data|
    ensures i <= e <= |data|
    ensures forall k :: i <= k < e ==> data[k] == 0
    ensures e < |data| ==> data[e] != 0
    decreases |data| - i
  {
    if i < |data| && data[i] == 0 then ZerosEnd(data, i + 1) else i
  }

  /** The first NUL from i on, or the end of the data. */
  function NulIndex(data: seq<Byte>, i: nat): (e: nat)
    requires i <= |data|
    ensures i <= e <= |data|
    ensures forall k :: i <= k < e ==> data[k] != 0
    ensures e < |data| ==> data[e] == 0
    decreases |data| - i
  {
    if i < |data| && data[i] != 0 then NulIndex(data, i + 1) else i
  }

  /** One past the string that starts at i: past its NUL, if it has one. */
  function StringEnd(data: seq<Byte>, i: nat): (e: nat)
    requires i <= |data|
    ensures i <= e <= |data|
  {
    Min(NulIndex(data, i) + 1, |data|)
  }

  /** A run of NULs is one entry with empty text, a string runs through its own NUL. */
  function EntryAt(utf8: Utf8, data: seq<Byte>, i: nat): (m: CStringModel)
    requires i < |data|
    ensures m.startOffset == i && 0 < m.length <= |data| - i
  {
    if data[i] == 0 then CStringModel(i, ZerosEnd(data, i) - i, Some(""))
    else CStringModel(i, StringEnd(data, i) - i, utf8(data[i..StringEnd(data, i)]))
  }

  function Split(utf8: Utf8, data: seq<Byte>, i: nat): seq<CStringModel>
    requires i <= |data|
    decreases |data| - i
  {
    if i == |data| then [] else
    var m := EntryAt(utf8, data, i);
    [m] + Split(utf8, data, i + m.length)
  }

  // ---- The component

  class CStringComponent {
    const data: seq<Byte>
    const utf8: Utf8
    var cStrings: seq<CStringModel>
    var cStringOffsetIndexMap: map<int, nat>

    constructor (data: seq<Byte>, utf8: Utf8)
      ensures this.data == data && this.utf8 == utf8 && cStrings == [] && cStringOffsetIndexMap == map[]
    {
      this.data, this.utf8, cStrings, cStringOffsetIndexMap := data, utf8, [], map[];
    }

    /** The state after initialisation. */
    ghost predicate Ready()
      reads this
    {
      && cStrings == Split(utf8, data, 0)
      && cStringOffsetIndexMap == IndexOf(cStrings)
    }

    /** The inner loop over a run of NULs. */
    method SkipZeros(start: nat) returns (currentIndex: nat)
      requires start < |data| && data[start] == 0
      ensures currentIndex == ZerosEnd(data, start) > start
    {
      currentIndex := start + 1;
      while currentIndex < |data|
        invariant start < currentIndex <= |data|
        invariant ZerosEnd(data, start) == ZerosEnd(data, currentIndex)
      {
        if data[currentIndex] != 0 {
          return;
        }
        currentIndex := currentIndex + 1;
      }
    }

    /** The inner loop over a string: it reads the first byte again and takes the NUL in. */
    method SkipString(start: nat) returns (currentIndex: nat)
      requires start < |data| && data[start] != 0
      ensures currentIndex == StringEnd(data, start) > start
    {
      currentIndex := start;
      var byte := data[start];
      while byte != 0 && currentIndex < |data|
        invariant start <= currentIndex <= |data|
        invariant byte != 0 ==> NulIndex(data, start) == NulIndex(data, currentIndex)
        invariant byte == 0 ==> NulIndex(data, start) + 1 == currentIndex
        decreases |data| - currentIndex
      {
        byte := data[currentIndex];
        currentIndex := currentIndex + 1;
      }
    }

    method RunInitializing()
      requires cStrings == [] && cStringOffsetIndexMap == map[]
      modifies this
      ensures Ready()
    {
      SplitData();
      for index := 0 to |cStrings|
        invariant cStrings == Split(utf8, data, 0)
        invariant cStringOffsetIndexMap == IndexOf(cStrings[..index])
      {
        cStringOffsetIndexMap := cStringOffsetIndexMap[cStrings[index].startOffset := index];
        assert cStrings[..index + 1][..index] == cStrings[..index];
      }
      assert cStrings[..|cStrings|] == cStrings;
    }

    /** The outer loop: one entry a turn. */
    method SplitData()
      requires cStrings == []
      modifies this`cStrings
      ensures cStrings == Split(utf8, data, 0)
    {
      hide Split;
      var currentIndex := 0;
      assert [] + Split(utf8, data, 0) == Split(utf8, data, 0);
      while currentIndex < |data|
        invariant currentIndex <= |data|
        invariant Split(utf8, data, 0) == cStrings + Split(utf8, data, currentIndex)
      {
        var start := currentIndex;
        var content;
        if data[start] == 0 {
          currentIndex := SkipZeros(start);
          content := Some("");
        } else {
          currentIndex := SkipString(start);
          content := utf8(data[start..currentIndex]);
        }
        var model := CStringModel(start, currentIndex - start, content);
        SplitAppend(utf8, data, cStrings, start);
        cStrings := cStrings + [model];
      }
      SplitEnd(utf8, data);
      assert cStrings + [] == cStrings;
    }

    method FindString(offset: int) returns (r: Option<string>)
      requires Ready()
      ensures r == Found(utf8, data, offset)
    {
      FoundByIndex(utf8, data, offset);
      if offset in cStringOffsetIndexMap {
        r := cStrings[cStringOffsetIndexMap[offset]].content;
      } else {
        r := None;
      }
    }

    /** Lookup by virtual address; nothing at all, not even nil, when the end of the section overflows. */
    method FindStringAtAddress(baseAddress: Word64, address: Word64) returns (r: Option<Option<string>>)
      requires Ready()
      ensures r.None? <==> baseAddress + |data| >= TWO64
      ensures r.Some? ==> r.value == Found(utf8, data, address - baseAddress)
    {
      if baseAddress + |data| >= TWO64 {
        return None;
      }
      var end := baseAddress + |data|;
      if address < baseAddress || address >= end {
        return Some(None);
      }
      var s := FindString(address - baseAddress);
      r := Some(s);
    }
  }

  lemma SplitEnd(utf8: Utf8, data: seq<Byte>)
    ensures Split(utf8, data, |data|) == []
  {
  }

  lemma SplitAppend(utf8: Utf8, data: seq<Byte>, done: seq<CStringModel>, i: nat)
    requires i < |data|
    ensures var m := EntryAt(utf8, data, i);
            done + Split(utf8, data, i) == done + [m] + Split(utf8, data, i + m.length)
  {
  }

  /** The index built by walking the entries: the last entry at an offset wins. */
  function IndexOf(ms: seq<CStringModel>): map<int, nat> {
    if ms == [] then map[] else IndexOf(ms[..|ms| - 1])[ms[|ms| - 1].startOffset := |ms| - 1]
  }

  // ---- What a lookup finds, in terms of the data alone

  /** A string starts at a byte that is not NUL and has no such byte before it. */
  predicate StringStart(data: seq<Byte>, i: int) {
    0 <= i < |data| && data[i] != 0 && (i == 0 || data[i - 1] == 0)
  }

  /** A run of NULs starts at the beginning of the data or after the NUL that ends a string. */
  predicate ZerosStart(data: seq<Byte>, i: int) {
    0 <= i < |data| && data[i] == 0 && (i == 0 || (i >= 2 && data[i - 1] == 0 && data[i - 2] != 0))
  }

  function Found(utf8: Utf8, data: seq<Byte>, i: int): Option<string> {
    if StringStart(data, i) then utf8(data[i..StringEnd(data, i)])
    else if ZerosStart(data, i) then Some("")
    else None
  }

  /** A place where the splitter may stand: no string is cut, and no run of NULs follows another. */
  predicate Boundary(data: seq<Byte>, i: nat) {
    && i <= |data|
    && (i < |data| && data[i] != 0 ==> i == 0 || data[i - 1] == 0)
    && (i < |data| && data[i] == 0 ==> i == 0 || (i >= 2 && data[i - 1] == 0 && data[i - 2] != 0))
  }

  ghost predicate HasStart(ms: seq<CStringModel>, i: int) {
    exists k :: 0 <= k < |ms| && ms[k].startOffset == i
  }

  lemma HasStartCons(m: CStringModel, rest: seq<CStringModel>, j: int)
    ensures HasStart([m] + rest, j) <==> j == m.startOffset || HasStart(rest, j)
  {
    var all := [m] + rest;
    assert all[0] == m;
    if HasStart(rest, j) {
      var k :| 0 <= k < |rest| && rest[k].startOffset == j;
      assert all[k + 1].startOffset == j;
    }
    if HasStart(all, j) && j != m.startOffset {
      var k :| 0 <= k < |all| && all[k].startOffset == j;
      assert rest[k - 1].startOffset == j;
    }
  }

  /** The entry at a boundary ends at one, with no start in between. */
  lemma NextBoundary(utf8: Utf8, data: seq<Byte>, i: nat)
    requires i < |data| && Boundary(data, i)
    ensures Boundary(data, i + EntryAt(utf8, data, i).length)
    ensures forall j :: i < j < i + EntryAt(utf8, data, i).length ==> !StringStart(data, j) && !ZerosStart(data, j)
  {
    if data[i] == 0 {
      assert ZerosEnd(data, i) > i;
    } else {
      assert NulIndex(data, i) > i;
    }
  }

  /** From a boundary on, an entry starts exactly where a string or a run of NULs does. */
  lemma {:induction false} StartsCharacterised(utf8: Utf8, data: seq<Byte>, i: nat, j: int)
    requires Boundary(data, i)
    ensures HasStart(Split(utf8, data, i), j) <==> j >= i && (StringStart(data, j) || ZerosStart(data, j))
    decreases |data| - i
  {
    if i < |data| {
      var m := EntryAt(utf8, data, i);
      NextBoundary(utf8, data, i);
      StartsCharacterised(utf8, data, i + m.length, j);
      HasStartCons(m, Split(utf8, data, i + m.length), j);
    }
  }

  lemma {:induction false} EntriesAreEntryAt(utf8: Utf8, data: seq<Byte>, i: nat, k: nat)
    requires i <= |data| && k < |Split(utf8, data, i)|
    ensures var m := Split(utf8, data, i)[k];
            i <= m.startOffset < |data| && m == EntryAt(utf8, data, m.startOffset) && (k > 0 ==> i < m.startOffset)
    decreases |data| - i
  {
    hide EntryAt;
    if k > 0 {
      EntriesAreEntryAt(utf8, data, i + EntryAt(utf8, data, i).length, k - 1);
    }
  }

  /** Entry k ends where entry k + 1 starts, the first starts at 0 and the last ends with the data. */
  lemma {:induction false} EntriesTile(utf8: Utf8, data: seq<Byte>, i: nat, k: nat)
    requires i <= |data| && k < |Split(utf8, data, i)|
    ensures var ms := Split(utf8, data, i);
            && ms[0].startOffset == i
            && ms[k].length > 0
            && ms[k].startOffset + ms[k].length == if k + 1 < |ms| then ms[k + 1].startOffset else |data|
    decreases |data| - i
  {
    hide EntryAt;
    var next := i + EntryAt(utf8, data, i).length;
    var rest := Split(utf8, data, next);
    if k > 0 {
      EntriesTile(utf8, data, next, k - 1);
    } else if rest != [] {
      assert rest[0] == EntryAt(utf8, data, next);
    }
  }

  lemma IndexOfCorrect(ms: seq<CStringModel>, off: int)
    ensures off in IndexOf(ms) <==> HasStart(ms, off)
    ensures off in IndexOf(ms) ==> IndexOf(ms)[off] < |ms| && ms[IndexOf(ms)[off]].startOffset == off
  {
    if ms != [] {
      var init, last := ms[..|ms| - 1], ms[|ms| - 1];
      IndexOfCorrect(init, off);
      if HasStart(ms, off) && off != last.startOffset {
        var k :| 0 <= k < |ms| && ms[k].startOffset == off;
        assert init[k].startOffset == off;
      }
      if HasStart(init, off) {
        var k :| 0 <= k < |init| && init[k].startOffset == off;
        assert ms[k].startOffset == off;
      }
    }
  }

  /** Going through the index gives what the data says. */
  lemma FoundByIndex(utf8: Utf8, data: seq<Byte>, off: int)
    ensures var ms := Split(utf8, data, 0);
            && (off in IndexOf(ms) ==> IndexOf(ms)[off] < |ms|)
            && Found(utf8, data, off) == if off in IndexOf(ms) then ms[IndexOf(ms)[off]].content else None
  {
    var ms := Split(utf8, data, 0);
    IndexOfCorrect(ms, off);
    StartsCharacterised(utf8, data, 0, off);
    if off in IndexOf(ms) {
      EntriesAreEntryAt(utf8, data, 0, IndexOf(ms)[off]);
    }
  }

  // ---- The direct reader

  /** `readUTF8String`: nothing stands for a trap, on a missing NUL or on invalid UTF-8. */
  function ReadString(utf8: Utf8, data: seq<Byte>, off: nat): Option<string>
    requires off <= |data|
  {
    var e := NulIndex(data, off);
    if e == |data| then None else utf8(data[off..e + 1])
  }

  method ReadUTF8String(utf8: Utf8, data: seq<Byte>, off: nat) returns (r: Option<string>, byteCount: nat)
    requires off <= |data|
    ensures r == ReadString(utf8, data, off)
    ensures r.Some? ==> off + byteCount == NulIndex(data, off) + 1
  {
    var i := off;
    while i < |data| && data[i] != 0
      invariant off <= i <= |data| && NulIndex(data, i) == NulIndex(data, off)
    {
      i := i + 1;
    }
    if i == |data| {
      return None, 0;
    }
    byteCount := i - off + 1;
    r := utf8(data[off..off + byteCount]);
  }

  /** Wherever the direct reader finds a string, the index finds the same one
      exactly at the offsets where a string starts. */
  lemma FindAgreesWithRead(utf8: Utf8, data: seq<Byte>, off: nat)
    requires off < |data| && ReadString(utf8, data, off).Some?
    requires utf8([0]) == Some("\0")
    ensures Found(utf8, data, off) == ReadString(utf8, data, off) <==> StringStart(data, off)
  {
    if data[off] == 0 {
      assert data[off..off + 1] == [0];
    }
  }
}
