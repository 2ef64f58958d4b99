/** The texts by which the viewer shows protections, flags, section types and section attributes. */
module Labels {
  import opened Words
  import opened DataShifter

  // ---- What the viewer writes

  function Joined(names: seq<string>, separator: char): string {
    if names == [] then ""
    else if |names| == 1 then names[0]
    else names[0] + [separator] + Joined(names[1..], separator)
  }

  /** The names whose mask has a bit in common with the word, tested one after the other. */
  function Chosen(masks: seq<(nat, string)>, word: nat): seq<string> {
    if masks == [] then []
    else (if And(word, masks[0].0) != 0 then [masks[0].1] else []) + Chosen(masks[1..], word)
  }

  function SegmentFlagMasks(): (r: seq<(nat, string)>)
    ensures |r| == 5
  {
    [(0x1, "SG_HIGHVM"), (0x2, "SG_FVMLIB"), (0x4, "SG_NORELOC"), (0x8, "SG_PROTECTED_VERSION_1"),
     (0x10, "SG_READ_ONLY")]
  }

  function AttributeMasks(): (r: seq<(nat, string)>)
    ensures |r| == 10
  {
    [(0x8000_0000, "S_ATTR_PURE_INSTRUCTIONS"), (0x4000_0000, "S_ATTR_NO_TOC"),
     (0x2000_0000, "S_ATTR_STRIP_STATIC_SYMS"), (0x1000_0000, "S_ATTR_NO_DEAD_STRIP"),
     (0x0800_0000, "S_ATTR_LIVE_SUPPORT"), (0x0400_0000, "S_ATTR_SELF_MODIFYING_CODE"),
     (0x0200_0000, "S_ATTR_DEBUG"), (0x0000_0400, "S_ATTR_SOME_INSTRUCTIONS"),
     (0x0000_0200, "S_ATTR_EXT_RELOC"), (0x0000_0100, "S_ATTR_LOC_RELOC")]
  }

  function SegmentFlagsText(flags: nat): string {
    Joined(Chosen(SegmentFlagMasks(), flags), '\n')
  }

  /** `raw` is the flags word without its low byte. */
  function AttributesText(raw: nat): string {
    var names := Chosen(AttributeMasks(), raw);
    Joined(if names == [] then ["NONE"] else names, '\n')
  }

  function ProtectionText(raw: nat): string {
    ProtectionOf(And(raw, 1) != 0, And(raw, 2) != 0, And(raw, 4) != 0)
  }

  function ProtectionOf(readable: bool, writable: bool, executable: bool): string {
    if readable && writable && executable then "VM_PROT_ALL"
    else if readable && writable then "VM_PROT_DEFAULT"
    else
      var ret := (if readable then ["VM_PROT_READ"] else []) + (if writable then ["VM_PROT_WRITE"] else [])
                 + (if executable then ["VM_PROT_EXECUTE"] else []);
      Joined(if ret == [] then ["VM_PROT_NONE"] else ret, ',')
  }

  /** The section types by name. Their places in the list are the values stored for them. */
  function SectionTypes(): (r: seq<string>)
    ensures |r| == 23
  {
    ["S_REGULAR", "S_ZEROFILL", "S_CSTRING_LITERALS", "S_4BYTE_LITERALS", "S_8BYTE_LITERALS", "S_LITERAL_POINTERS",
     "S_NON_LAZY_SYMBOL_POINTERS", "S_LAZY_SYMBOL_POINTERS", "S_SYMBOL_STUBS", "S_MOD_INIT_FUNC_POINTERS",
     "S_MOD_TERM_FUNC_POINTERS", "S_COALESCED", "S_GB_ZEROFILL", "S_INTERPOSING", "S_16BYTE_LITERALS", "S_DTRACE_DOF",
     "S_LAZY_DYLIB_SYMBOL_POINTERS", "S_THREAD_LOCAL_REGULAR", "S_THREAD_LOCAL_ZEROFILL", "S_THREAD_LOCAL_VARIABLES",
     "S_THREAD_LOCAL_VARIABLE_POINTERS", "S_THREAD_LOCAL_INIT_FUNCTION_POINTERS", "S_INIT_FUNC_OFFSETS"]
  }

  // ---- What the texts mean

  /** The section types, each with the value stored for it. */
  predicate IsTypeName(value: nat, name: string) {
    || (value == 0x0 && name == "S_REGULAR")
    || (value == 0x1 && name == "S_ZEROFILL")
    || (value == 0x2 && name == "S_CSTRING_LITERALS")
    || (value == 0x3 && name == "S_4BYTE_LITERALS")
    || (value == 0x4 && name == "S_8BYTE_LITERALS")
    || (value == 0x5 && name == "S_LITERAL_POINTERS")
    || (value == 0x6 && name == "S_NON_LAZY_SYMBOL_POINTERS")
    || (value == 0x7 && name == "S_LAZY_SYMBOL_POINTERS")
    || (value == 0x8 && name == "S_SYMBOL_STUBS")
    || (value == 0x9 && name == "S_MOD_INIT_FUNC_POINTERS")
    || (value == 0xa && name == "S_MOD_TERM_FUNC_POINTERS")
    || (value == 0xb && name == "S_COALESCED")
    || (value == 0xc && name == "S_GB_ZEROFILL")
    || (value == 0xd && name == "S_INTERPOSING")
    || (value == 0xe && name == "S_16BYTE_LITERALS")
    || (value == 0xf && name == "S_DTRACE_DOF")
    || (value == 0x10 && name == "S_LAZY_DYLIB_SYMBOL_POINTERS")
    || (value == 0x11 && name == "S_THREAD_LOCAL_REGULAR")
    || (value == 0x12 && name == "S_THREAD_LOCAL_ZEROFILL")
    || (value == 0x13 && name == "S_THREAD_LOCAL_VARIABLES")
    || (value == 0x14 && name == "S_THREAD_LOCAL_VARIABLE_POINTERS")
    || (value == 0x15 && name == "S_THREAD_LOCAL_INIT_FUNCTION_POINTERS")
    || (value == 0x16 && name == "S_INIT_FUNC_OFFSETS")
  }

  /** Bit k of the bytes from an offset on, in the order of a little-endian number. */
  predicate BitAt(data: seq<Byte>, off: nat, k: nat)
    requires off + k / 8 < |data|
  {
    data[off + k / 8] / Pow2(k % 8) % 2 == 1
  }

  /** The bits of the four bytes of a segment's flags that have a name. */
  function SegmentFlagBits(): (r: seq<(nat, string)>)
    ensures |r| == 5
  {
    [(0, "SG_HIGHVM"), (1, "SG_FVMLIB"), (2, "SG_NORELOC"), (3, "SG_PROTECTED_VERSION_1"), (4, "SG_READ_ONLY")]
  }

  /** The bits of the three bytes of a section's attributes that have a name. */
  function AttributeBits(): (r: seq<(nat, string)>)
    ensures |r| == 10
  {
    [(23, "S_ATTR_PURE_INSTRUCTIONS"), (22, "S_ATTR_NO_TOC"), (21, "S_ATTR_STRIP_STATIC_SYMS"),
     (20, "S_ATTR_NO_DEAD_STRIP"), (19, "S_ATTR_LIVE_SUPPORT"), (18, "S_ATTR_SELF_MODIFYING_CODE"),
     (17, "S_ATTR_DEBUG"), (2, "S_ATTR_SOME_INSTRUCTIONS"), (1, "S_ATTR_EXT_RELOC"), (0, "S_ATTR_LOC_RELOC")]
  }

  /** The text for each value of the three protection bits, execution being the highest. */
  function ProtectionTexts(): (r: seq<string>)
    ensures |r| == 8
  {
    ["VM_PROT_NONE", "VM_PROT_READ", "VM_PROT_WRITE", "VM_PROT_DEFAULT",
     "VM_PROT_EXECUTE", "VM_PROT_READ,VM_PROT_EXECUTE", "VM_PROT_WRITE,VM_PROT_EXECUTE", "VM_PROT_ALL"]
  }

  predicate OneLine(text: string) {
    '\n' !in text
  }

  /** The lines of a text. */
  function Lines(text: string): (lines: seq<string>)
    ensures lines != []
  {
    if text == [] then [""] else
    var rest := Lines(text[1..]);
    if text[0] == '\n' then [""] + rest else [[text[0]] + rest[0]] + rest[1..]
  }

  predicate BitsWithin(bits: seq<(nat, string)>, n: nat) {
    forall i :: 0 <= i < |bits| ==> bits[i].0 < 8 * n
  }

  /** The names of the bits that are set in n bytes, in the order of the table. */
  function NamesSet(bits: seq<(nat, string)>, data: seq<Byte>, off: nat, n: nat): seq<string>
    requires off + n <= |data| && BitsWithin(bits, n)
  {
    if bits == [] then [] else
    (if BitAt(data, off, bits[0].0) then [bits[0].1] else []) + NamesSet(bits[1..], data, off, n)
  }

  /** The lines of the text are the names of the bits that are set, or one other line when none is. */
  predicate ShowsBits(bits: seq<(nat, string)>, none: string, data: seq<Byte>, off: nat, n: nat, text: string)
    requires off + n <= |data| && BitsWithin(bits, n)
  {
    var names := NamesSet(bits, data, off, n);
    Lines(text) == if names == [] then [none] else names
  }

  predicate ShowsSegmentFlags(data: seq<Byte>, off: nat, text: string)
    requires off + 4 <= |data|
  {
    ShowsBits(SegmentFlagBits(), "", data, off, 4, text)
  }

  predicate ShowsAttributes(data: seq<Byte>, off: nat, text: string)
    requires off + 3 <= |data|
  {
    ShowsBits(AttributeBits(), "NONE", data, off, 3, text)
  }

  predicate ShowsProtection(data: seq<Byte>, off: nat, text: string)
    requires off + 4 <= |data|
  {
    text == ProtectionTexts()[data[off] % 8]
  }

  // ---- The texts mean what they should

  lemma {:induction false} LinesAfter(a: string, text: string)
    requires OneLine(a)
    ensures Lines(a + text) == [a + Lines(text)[0]] + Lines(text)[1..]
  {
    if a == [] {
      assert a + text == text && [] + Lines(text)[0] == Lines(text)[0];
    } else {
      assert (a + text)[1..] == a[1..] + text;
      LinesAfter(a[1..], text);
      assert [a[0]] + (a[1..] + Lines(text)[0]) == a + Lines(text)[0];
    }
  }

  /** Taking a text apart into lines undoes joining them. */
  lemma {:induction false} LinesOfJoined(names: seq<string>)
    requires names != [] && forall name :: name in names ==> OneLine(name)
    ensures Lines(Joined(names, '\n')) == names
    decreases |names|
  {
    var first := names[0];
    if |names| == 1 {
      LinesAfter(first, []);
      assert first + [] == first;
    } else {
      LinesOfJoined(names[1..]);
      var rest := Joined(names[1..], '\n');
      var broken := ['\n'] + rest;
      assert first + ['\n'] + rest == first + broken;
      assert broken[1..] == rest;
      LinesAfter(first, broken);
      assert first + [] == first;
    }
  }

  /** Bit k of a stored number is bit k of the bytes that store it. */
  lemma {:induction false} FieldBit(data: seq<Byte>, off: nat, n: nat, k: nat)
    requires off + n <= |data| && k < 8 * n
    ensures Field(data, off, n) / Pow2(k) % 2 == 1 <==> BitAt(data, off, k)
    decreases n
  {
    hide Pow2;
    var low, high := data[off], Field(data, off + 1, n - 1);
    FieldCons(data, off, n);
    if k < 8 {
      LowBit(low, high, k);
    } else {
      FieldBit(data, off + 1, n - 1, k - 8);
      EightBits();
      Pow2Add(8, k - 8);
      DivDiv(low + 256 * high, 256, Pow2(k - 8));
      assert (low + 256 * high) / 256 == high;
    }
  }

  lemma LowBit(low: nat, high: nat, k: nat)
    requires k < 8
    ensures (low + 256 * high) / Pow2(k) % 2 == low / Pow2(k) % 2
  {
    hide Pow2;
    var p, q := Pow2(k), Pow2(7 - k);
    EightBits();
    Pow2Add(7 - k, k);
    HigherBits(low, high * q, p);
    assert 2 * (high * q * p) == 2 * (q * p) * high;
  }

  lemma FieldCons(data: seq<Byte>, off: nat, n: nat)
    requires off + n <= |data| && n > 0
    ensures Field(data, off, n) == data[off] + 256 * Field(data, off + 1, n - 1)
  {
    assert data[off..off + n][1..] == data[off + 1..off + n];
  }

  lemma EightBits()
    ensures Pow2(7) == 128 && Pow2(8) == 256
  {
  }

  /** The masks and the bits of a table name the same things, the masks being `shift` places higher. */
  predicate SameTable(masks: seq<(nat, string)>, bits: seq<(nat, string)>, shift: nat) {
    && |masks| == |bits|
    && forall i :: 0 <= i < |bits| ==> masks[i] == (Pow2(bits[i].0 + shift), bits[i].1)
  }

  lemma TablesAgree()
    ensures SameTable(SegmentFlagMasks(), SegmentFlagBits(), 0)
    ensures SameTable(AttributeMasks(), AttributeBits(), 8)
  {
    hide Pow2;
    MaskPowers();
  }

  lemma MaskPowers()
    ensures Pow2(0) == 1 && Pow2(1) == 2 && Pow2(2) == 4 && Pow2(3) == 8 && Pow2(4) == 16
    ensures Pow2(8) == 0x100 && Pow2(9) == 0x200 && Pow2(10) == 0x400
    ensures Pow2(25) == 0x200_0000 && Pow2(26) == 0x400_0000 && Pow2(27) == 0x800_0000
    ensures Pow2(28) == 0x1000_0000 && Pow2(29) == 0x2000_0000 && Pow2(30) == 0x4000_0000
    ensures Pow2(31) == 0x8000_0000
  {
    assert Pow2(9) == 0x200;
    Pow2Add(9, 16);
    Pow2Add(8, 8);
  }

  /** Testing masks on a word chooses the names of the bits that are set in the bytes it was read from. */
  lemma {:induction false} ChosenAreSet(masks: seq<(nat, string)>, bits: seq<(nat, string)>, shift: nat, word: nat,
                                        data: seq<Byte>, off: nat, n: nat)
    requires off + n <= |data| && BitsWithin(bits, n) && SameTable(masks, bits, shift)
    requires word / Pow2(shift) == Field(data, off, n)
    ensures Chosen(masks, word) == NamesSet(bits, data, off, n)
    decreases |bits|
  {
    hide Pow2, And, Field, BitAt;
    if bits != [] {
      var k := bits[0].0;
      AndWithBit(word, k + shift);
      Pow2Add(shift, k);
      DivDiv(word, Pow2(shift), Pow2(k));
      FieldBit(data, off, n, k);
      ChosenAreSet(masks[1..], bits[1..], shift, word, data, off, n);
    }
  }

  lemma NoBreaks()
    ensures forall i :: 0 <= i < |SegmentFlagBits()| ==> OneLine(SegmentFlagBits()[i].1)
    ensures forall i :: 0 <= i < |AttributeBits()| ==> OneLine(AttributeBits()[i].1)
  {
  }

  lemma {:induction false} NamesSetPlain(bits: seq<(nat, string)>, data: seq<Byte>, off: nat, n: nat)
    requires off + n <= |data| && BitsWithin(bits, n)
    requires forall i :: 0 <= i < |bits| ==> OneLine(bits[i].1)
    ensures forall name :: name in NamesSet(bits, data, off, n) ==> OneLine(name)
    decreases |bits|
  {
    hide BitAt;
    if bits != [] {
      NamesSetPlain(bits[1..], data, off, n);
    }
  }

  /** The flags text shows the named bits of the bytes that the flags were read from. */
  lemma SegmentFlagsShown(data: seq<Byte>, off: nat)
    requires off + 4 <= |data|
    ensures ShowsSegmentFlags(data, off, SegmentFlagsText(Field(data, off, 4)))
  {
    hide Chosen, NamesSet, Joined, Lines, Field, SameTable;
    TablesAgree();
    NoBreaks();
    ChosenAreSet(SegmentFlagMasks(), SegmentFlagBits(), 0, Field(data, off, 4), data, off, 4);
    TextShown(SegmentFlagBits(), "", data, off, 4);
    NothingJoined();
  }

  lemma NothingJoined()
    ensures Joined([], '\n') == Joined([""], '\n')
  {
  }

  lemma TextShown(bits: seq<(nat, string)>, none: string, data: seq<Byte>, off: nat, n: nat)
    requires off + n <= |data| && BitsWithin(bits, n) && OneLine(none)
    requires forall i :: 0 <= i < |bits| ==> OneLine(bits[i].1)
    ensures var names := NamesSet(bits, data, off, n);
            ShowsBits(bits, none, data, off, n, Joined(if names == [] then [none] else names, '\n'))
  {
    hide NamesSet, Joined, Lines;
    NamesSetPlain(bits, data, off, n);
    var names := NamesSet(bits, data, off, n);
    LinesOfJoined(if names == [] then [none] else names);
  }

  /** The attributes text shows the named bits of the three bytes above the section type, although its masks
      are tested on the whole word. */
  lemma AttributesShown(data: seq<Byte>, off: nat)
    requires off + 4 <= |data|
    ensures var flags := Field(data, off, 4);
            ShowsAttributes(data, off + 1, AttributesText(flags - flags % 256))
  {
    hide Chosen, NamesSet, Joined, Lines, Field, SameTable;
    TablesAgree();
    NoBreaks();
    FieldCons(data, off, 4);
    EightBits();
    var raw := Field(data, off, 4) - Field(data, off, 4) % 256;
    ChosenAreSet(AttributeMasks(), AttributeBits(), 8, raw, data, off + 1, 3);
    TextShown(AttributeBits(), "NONE", data, off + 1, 3);
  }

  /** The protection text is the one for the low three bits. */
  lemma ProtectionShown(data: seq<Byte>, off: nat)
    requires off + 4 <= |data|
    ensures ShowsProtection(data, off, ProtectionText(Field(data, off, 4)))
  {
    hide Field, ProtectionText;
    ProtectionByBits(Field(data, off, 4));
    FieldCons(data, off, 4);
  }

  lemma ProtectionByBits(raw: nat)
    ensures ProtectionText(raw) == ProtectionTexts()[raw % 8]
  {
    hide And, ProtectionOf;
    LowBits(raw);
    ProtectionTable(raw % 2 == 1, raw / 2 % 2 == 1, raw / 4 % 2 == 1);
  }

  lemma LowBits(raw: nat)
    ensures And(raw, 1) != 0 <==> raw % 2 == 1
    ensures And(raw, 2) != 0 <==> raw / 2 % 2 == 1
    ensures And(raw, 4) != 0 <==> raw / 4 % 2 == 1
    ensures raw % 8 == raw % 2 + 2 * (raw / 2 % 2) + 4 * (raw / 4 % 2)
  {
    hide And, Pow2;
    AndWithBit(raw, 0);
    AndWithBit(raw, 1);
    AndWithBit(raw, 2);
    MaskPowers();
    EighthsOf(raw);
  }

  lemma EighthsOf(x: nat)
    ensures x % 8 == x % 2 + 2 * (x / 2 % 2) + 4 * (x / 4 % 2)
  {
    assert x == 8 * (x / 8) + x % 8;
  }

  lemma ProtectionTable(r: bool, w: bool, x: bool)
    ensures var value := (if r then 1 else 0) + (if w then 2 else 0) + if x then 4 else 0;
            ProtectionOf(r, w, x) == ProtectionTexts()[value]
  {
    hide Joined;
    var none, read, write, execute := "VM_PROT_NONE", "VM_PROT_READ", "VM_PROT_WRITE", "VM_PROT_EXECUTE";
    FewJoined(none, none);
    FewJoined(read, execute);
    FewJoined(write, execute);
    assert [read] + [] + [execute] == [read, execute] && [] + [write] + [execute] == [write, execute];
    assert [read] + [] + [] == [read] && [] + [write] + [] == [write] && [] + [] + [execute] == [execute];
    assert read + [','] + execute == "VM_PROT_READ,VM_PROT_EXECUTE";
    assert write + [','] + execute == "VM_PROT_WRITE,VM_PROT_EXECUTE";
  }

  lemma FewJoined(a: string, b: string)
    ensures Joined([a], ',') == a && Joined([b], ',') == b && Joined([a, b], ',') == a + [','] + b
  {
    assert [a, b][1..] == [b];
  }

  /** A protection text decides the three bits. */
  lemma ProtectionDecides(a: nat, b: nat)
    ensures ProtectionText(a) == ProtectionText(b) <==> a % 8 == b % 8
  {
    ProtectionByBits(a);
    ProtectionByBits(b);
    hide ProtectionText;
  }

  predicate DistinctNames(bits: seq<(nat, string)>) {
    forall i, j :: 0 <= i < j < |bits| ==> bits[i].1 != bits[j].1
  }

  /** A name is a line of the text exactly when its bit is set. */
  lemma LineWhenSet(bits: seq<(nat, string)>, none: string, data: seq<Byte>, off: nat, n: nat, text: string, i: nat)
    requires off + n <= |data| && BitsWithin(bits, n) && DistinctNames(bits)
    requires ShowsBits(bits, none, data, off, n, text) && i < |bits| && bits[i].1 != none
    ensures bits[i].1 in Lines(text) <==> BitAt(data, off, bits[i].0)
  {
    SetWhenNamed(bits, data, off, n, i);
  }

  lemma {:induction false} SetWhenNamed(bits: seq<(nat, string)>, data: seq<Byte>, off: nat, n: nat, i: nat)
    requires off + n <= |data| && BitsWithin(bits, n) && DistinctNames(bits) && i < |bits|
    ensures bits[i].1 in NamesSet(bits, data, off, n) <==> BitAt(data, off, bits[i].0)
    decreases |bits|
  {
    hide BitAt;
    if i > 0 {
      SetWhenNamed(bits[1..], data, off, n, i - 1);
    } else {
      NamedInTable(bits[1..], data, off, n);
    }
  }

  lemma {:induction false} NamedInTable(bits: seq<(nat, string)>, data: seq<Byte>, off: nat, n: nat)
    requires off + n <= |data| && BitsWithin(bits, n)
    ensures forall name :: name in NamesSet(bits, data, off, n) ==> exists j :: 0 <= j < |bits| && bits[j].1 == name
    decreases |bits|
  {
    hide BitAt;
    if bits != [] {
      NamedInTable(bits[1..], data, off, n);
      forall name | name in NamesSet(bits[1..], data, off, n) ensures exists j :: 0 <= j < |bits| && bits[j].1 == name {
        var j :| 0 <= j < |bits[1..]| && bits[1..][j].1 == name;
        assert bits[j + 1].1 == name;
      }
    }
  }

  /** Which attributes are shown: exactly those whose mask meets the stored flags word. */
  lemma AttributeDecides(data: seq<Byte>, off: nat, text: string, i: nat)
    requires off + 4 <= |data| && i < |AttributeMasks()| && ShowsAttributes(data, off + 1, text)
    ensures AttributeMasks()[i].1 in Lines(text) <==> And(Field(data, off, 4), AttributeMasks()[i].0) != 0
  {
    hide Lines, Field, And, BitAt, NamesSet, Pow2;
    TablesAgree();
    NamesDistinct();
    LineWhenSet(AttributeBits(), "NONE", data, off + 1, 3, text, i);
    FieldBit(data, off, 4, AttributeBits()[i].0 + 8);
    AndWithBit(Field(data, off, 4), AttributeBits()[i].0 + 8);
    SameBit(data, off, AttributeBits()[i].0);
  }

  lemma SameBit(data: seq<Byte>, off: nat, k: nat)
    requires off + 1 + k / 8 < |data|
    ensures BitAt(data, off, k + 8) <==> BitAt(data, off + 1, k)
  {
  }

  lemma NamesDistinct()
    ensures DistinctNames(SegmentFlagBits()) && DistinctNames(AttributeBits())
    ensures forall i :: 0 <= i < |SegmentFlagBits()| ==> SegmentFlagBits()[i].1 != ""
    ensures forall i :: 0 <= i < |AttributeBits()| ==> AttributeBits()[i].1 != "NONE"
  {
  }

  /** Which segment flags are shown. */
  lemma SegmentFlagDecides(data: seq<Byte>, off: nat, text: string, i: nat)
    requires off + 4 <= |data| && i < |SegmentFlagMasks()| && ShowsSegmentFlags(data, off, text)
    ensures SegmentFlagMasks()[i].1 in Lines(text) <==> And(Field(data, off, 4), SegmentFlagMasks()[i].0) != 0
  {
    hide Lines, Field, And, BitAt, NamesSet, Pow2;
    TablesAgree();
    NamesDistinct();
    LineWhenSet(SegmentFlagBits(), "", data, off, 4, text, i);
    FieldBit(data, off, 4, SegmentFlagBits()[i].0);
    AndWithBit(Field(data, off, 4), SegmentFlagBits()[i].0);
  }

  lemma SectionTypeNamed(value: nat)
    requires value < |SectionTypes()|
    ensures IsTypeName(value, SectionTypes()[value])
  {
  }

  /** A section type's name decides its value. */
  lemma SectionTypeDecides(a: nat, b: nat)
    requires a < |SectionTypes()| && b < |SectionTypes()|
    ensures SectionTypes()[a] == SectionTypes()[b] <==> a == b
  {
  }
}
