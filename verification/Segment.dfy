/** The segment load command: its header, its section headers, the rows shown for its bytes,
    and the relocation table that its sections describe. */
module Segment {
  import opened Words
  import opened DataShifter
  import opened Labels

  const LC_SEGMENT: nat := 0x1
  const LC_SEGMENT_64: nat := 0x19

  /** The raw values of `SectionType`. */
  type SectionType = t: int | 0 <= t <= 22

  const LAST_SECTION_TYPE: SectionType := 22

  /** `attributes` is the flags word with the byte of the type cleared. */
  datatype SectionHeader = SectionHeader(
    section: string, segment: string, addr: nat, size: nat, offset: nat, align: nat,
    relocationOffset: nat, relocationCount: nat, sectionType: SectionType, attributes: nat,
    reserved1: nat, reserved2: nat, reserved3: Option<nat>)

  datatype LCSegment = LCSegment(
    is64: bool, name: string, vmaddr: nat, vmsize: nat, fileOffset: nat, fileSize: nat,
    maxprot: nat, initprot: nat, numberOfSections: nat, flags: nat, sections: seq<SectionHeader>)

  // ---- Names

  /** Foundation's `.whitespaces`: the space separators and the tab. */
  predicate IsWhitespace(c: char) {
    || c == ' ' || c == '\t' || c == '\U{00A0}' || c == '\U{1680}' || '\U{2000}' <= c <= '\U{200A}'
    || c == '\U{202F}' || c == '\U{205F}' || c == '\U{3000}'
  }

  function TrimLeft(s: string): string {
    if s != [] && IsWhitespace(s[0]) then TrimLeft(s[1..]) else s
  }

  function TrimRight(s: string): string {
    if s != [] && IsWhitespace(s[|s| - 1]) then TrimRight(s[..|s| - 1]) else s
  }

  function WithoutNul(s: string): string {
    if s == [] then [] else (if s[0] == '\0' then [] else [s[0]]) + WithoutNul(s[1..])
  }

  /** `spaceRemoved`: whitespace off both ends first, then every NUL. */
  function SpaceRemoved(s: string): string {
    WithoutNul(TrimRight(TrimLeft(s)))
  }

  /** The name in a field of bytes. */
  function NameIn(utf8: Utf8, bytes: seq<Byte>): Option<string> {
    var text :- utf8(bytes);
    Some(SpaceRemoved(text))
  }

  /** The space separators and the tab, one by one. */
  function Blanks(): set<char> {
    {'\t', ' ', '\U{00A0}', '\U{1680}', '\U{2000}', '\U{2001}', '\U{2002}', '\U{2003}', '\U{2004}', '\U{2005}',
     '\U{2006}', '\U{2007}', '\U{2008}', '\U{2009}', '\U{200A}', '\U{202F}', '\U{205F}', '\U{3000}'}
  }

  lemma WhitespaceIsBlank(c: char)
    ensures IsWhitespace(c) <==> c in Blanks()
  {
  }

  /** Of the decoded text, the blanks at the ends go, however many, and nothing else but the NULs of what is between. */
  lemma NameTrimmed(utf8: Utf8, bytes: seq<Byte>, left: string, core: string, right: string)
    requires utf8(bytes) == Some(left + core + right)
    requires (forall c :: c in left ==> c in Blanks()) && (forall c :: c in right ==> c in Blanks())
    requires core != [] ==> core[0] !in Blanks() && core[|core| - 1] !in Blanks()
    ensures NameIn(utf8, bytes) == Some(WithoutNul(core))
  {
    hide *;
    if core == [] {
      assert left + core + right == left + right;
      OnlyBlanks(left + right);
    } else {
      assert left + core + right == left + (core + right);
      CoreTrimmed(left, core, right);
    }
    TrimsThenRemoves(utf8, bytes);
  }

  lemma TrimsThenRemoves(utf8: Utf8, bytes: seq<Byte>)
    ensures NameIn(utf8, bytes) ==
              if utf8(bytes).None? then None else Some(WithoutNul(TrimRight(TrimLeft(utf8(bytes).value))))
  {
  }

  lemma CoreTrimmed(left: string, core: string, right: string)
    requires (forall c :: c in left ==> c in Blanks()) && (forall c :: c in right ==> c in Blanks())
    requires core != [] && core[0] !in Blanks() && core[|core| - 1] !in Blanks()
    ensures TrimRight(TrimLeft(left + (core + right))) == core
  {
    hide *;
    assert (core + right)[0] == core[0];
    TrimmedLeft(left, core + right);
    TrimmedRight(core, right);
  }

  lemma OnlyBlanks(text: string)
    requires forall c :: c in text ==> c in Blanks()
    ensures TrimRight(TrimLeft(text)) == []
  {
    hide Blanks;
    TrimmedLeft(text, []);
    assert text + [] == text;
  }

  lemma {:induction false} TrimmedLeft(left: string, rest: string)
    requires forall c :: c in left ==> c in Blanks()
    ensures TrimLeft(left + rest) == TrimLeft(rest)
    ensures rest != [] && rest[0] !in Blanks() ==> TrimLeft(rest) == rest
    decreases |left|
  {
    hide IsWhitespace, Blanks;
    if left == [] {
      assert left + rest == rest;
    } else {
      WhitespaceIsBlank(left[0]);
      assert (left + rest)[1..] == left[1..] + rest;
      TrimmedLeft(left[1..], rest);
    }
    if rest != [] {
      WhitespaceIsBlank(rest[0]);
    }
  }

  lemma {:induction false} TrimmedRight(core: string, right: string)
    requires forall c :: c in right ==> c in Blanks()
    requires core != [] && core[|core| - 1] !in Blanks()
    ensures TrimRight(core + right) == core
    decreases |right|
  {
    hide IsWhitespace, Blanks;
    WhitespaceIsBlank((core + right)[|core + right| - 1]);
    if right == [] {
      assert core + right == core;
    } else {
      assert (core + right)[..|core + right| - 1] == core + right[..|right| - 1];
      TrimmedRight(core, right[..|right| - 1]);
    }
  }

  /** Removing NULs keeps everything else in order. */
  lemma {:induction false} NulsRemoved(a: string, b: string)
    ensures WithoutNul(a + ['\0'] + b) == WithoutNul(a) + WithoutNul(b)
    ensures '\0' !in a ==> WithoutNul(a) == a
    decreases |a|
  {
    var text := a + ['\0'] + b;
    if a == [] {
      assert text[0] == '\0' && text[1..] == b;
    } else {
      assert text[0] == a[0] && text[1..] == a[1..] + ['\0'] + b;
      NulsRemoved(a[1..], b);
      var first := if a[0] == '\0' then [] else [a[0]];
      assert WithoutNul(text) == first + (WithoutNul(a[1..]) + WithoutNul(b));
      assert first + (WithoutNul(a[1..]) + WithoutNul(b)) == first + WithoutNul(a[1..]) + WithoutNul(b);
    }
  }

  /** A name padded with NULs comes back as it was. */
  lemma PaddedNameReads(utf8: Utf8, bytes: seq<Byte>, name: string, k: nat)
    requires utf8(bytes) == Some(name + seq(k, _ => '\0'))
    requires forall i :: 0 <= i < |name| ==> name[i] != '\0'
    requires name != [] ==> !IsWhitespace(name[0]) && !IsWhitespace(name[|name| - 1])
    ensures NameIn(utf8, bytes) == Some(name)
  {
    var s := name + seq(k, _ => '\0');
    assert TrimLeft(s) == s && TrimRight(s) == s;
    NulsDropped(name, k);
  }

  lemma {:induction false} NulsDropped(name: string, k: nat)
    requires forall i :: 0 <= i < |name| ==> name[i] != '\0'
    ensures WithoutNul(name + seq(k, _ => '\0')) == name
    decreases |name| + k
  {
    var s := name + seq(k, _ => '\0');
    if name != [] {
      assert s[1..] == name[1..] + seq(k, _ => '\0');
      NulsDropped(name[1..], k);
    } else if k > 0 {
      assert s[1..] == [] + seq(k - 1, _ => '\0');
      NulsDropped([], k - 1);
    }
  }

  // ---- Layout

  function WordSize(is64: bool): nat {
    if is64 then 8 else 4
  }

  function HeaderSize(is64: bool): nat {
    if is64 then 72 else 56
  }

  function SectionSize(is64: bool): nat {
    if is64 then 80 else 68
  }

  /** The length of a command with k section headers: 56 + 68k, or 72 + 80k for 64 bits. */
  function Extent(is64: bool, k: nat): nat {
    if is64 then 72 + 80 * k else 56 + 68 * k
  }

  /** The section header at the start of some bytes, read field by field from its layout. */
  function SectionIn(is64: bool, utf8: Utf8, d: seq<Byte>): Option<SectionHeader> {
    if |d| < SectionSize(is64) then None else
    var w := WordSize(is64);
    var section, segment := NameIn(utf8, d[0..16]), NameIn(utf8, d[16..32]);
    var flags := Field(d, 48 + 2 * w, 4);
    if section.None? || segment.None? || flags % 256 > LAST_SECTION_TYPE then None
    else Some(SectionHeader(
      section.value, segment.value, Field(d, 32, w), Field(d, 32 + w, w), Field(d, 32 + 2 * w, 4),
      Field(d, 36 + 2 * w, 4), Field(d, 40 + 2 * w, 4), Field(d, 44 + 2 * w, 4), flags % 256, flags - flags % 256,
      Field(d, 52 + 2 * w, 4), Field(d, 56 + 2 * w, 4), if is64 then Some(Field(d, 76, 4)) else None))
  }

  function SectionBytes(is64: bool, data: seq<Byte>, i: nat): seq<Byte>
    requires Extent(is64, i + 1) <= |data|
  {
    var start := Extent(is64, i);
    data[start..start + SectionSize(is64)]
  }

  /** The first k section headers. */
  function SectionsIn(is64: bool, utf8: Utf8, data: seq<Byte>, k: nat): (r: Option<seq<SectionHeader>>)
    requires Extent(is64, k) <= |data|
    ensures r.Some? ==> |r.value| == k
  {
    if k == 0 then Some([]) else
    var init :- SectionsIn(is64, utf8, data, k - 1);
    var last :- SectionIn(is64, utf8, SectionBytes(is64, data, k - 1));
    Some(init + [last])
  }

  /** The whole command. It parses exactly when its length is the header plus as many section headers as the
      header announces, its name is UTF-8 and each section header parses. */
  function SegmentIn(is64: bool, utf8: Utf8, data: seq<Byte>): Option<LCSegment> {
    var w, h := WordSize(is64), HeaderSize(is64);
    if |data| < h then None else
    var n := Field(data, 32 + 4 * w, 4);
    if |data| != Extent(is64, n) then None else
    var name :- NameIn(utf8, data[8..24]);
    var sections :- SectionsIn(is64, utf8, data, n);
    Some(LCSegment(is64, name, Field(data, 24, w), Field(data, 24 + w, w), Field(data, 24 + 2 * w, w),
                   Field(data, 24 + 3 * w, w), Field(data, 24 + 4 * w, 4), Field(data, 28 + 4 * w, 4), n,
                   Field(data, 36 + 4 * w, 4), sections))
  }

  // ---- Reading through the cursor

  method ShiftName(s: Shifter, utf8: Utf8) returns (r: Option<string>)
    modifies s
    ensures old(s.shifted) + 16 > |s.data| ==> r.None?
    ensures old(s.shifted) + 16 <= |s.data| ==> r == NameIn(utf8, s.data[old(s.shifted)..old(s.shifted) + 16])
    ensures r.Some? ==> s.shifted == old(s.shifted) + 16
  {
    var bytes :- s.Shift(16);
    r := NameIn(utf8, bytes);
  }

  /** Two numbers in a row. */
  method ShiftTwo(s: Shifter, n: nat) returns (r: Option<(nat, nat)>)
    requires n == 4 || n == 8
    modifies s
    ensures r.Some? <==> old(s.shifted) + 2 * n <= |s.data|
    ensures r.Some? ==> s.shifted == old(s.shifted) + 2 * n
                        && r.value == (Field(s.data, old(s.shifted), n), Field(s.data, old(s.shifted) + n, n))
  {
    var a :- s.ShiftNumber(n);
    var b :- s.ShiftNumber(n);
    r := Some((a, b));
  }

  method ParseSection(is64: bool, utf8: Utf8, d: seq<Byte>) returns (r: Option<SectionHeader>)
    ensures r == SectionIn(is64, utf8, d)
  {
    hide Field, NameIn, And;
    var s := new Shifter(d);
    var section :- ShiftName(s, utf8);
    var segment :- ShiftName(s, utf8);
    var place :- ShiftTwo(s, WordSize(is64));
    var file :- ShiftTwo(s, 4);
    var relocations :- ShiftTwo(s, 4);
    var flags :- s.ShiftNumber(4);
    MaskedFlags(d, s.shifted - 4);
    var sectionType, attributes := And(flags, 0xff), And(flags, 0xffff_ff00);
    if sectionType > LAST_SECTION_TYPE {
      return None;
    }
    var reserved :- ShiftTwo(s, 4);
    var reserved3 := None;
    if is64 {
      var last :- s.ShiftNumber(4);
      reserved3 := Some(last);
    }
    r := Some(SectionHeader(section, segment, place.0, place.1, file.0, file.1, relocations.0, relocations.1,
                            sectionType, attributes, reserved.0, reserved.1, reserved3));
  }

  /** The two masks split the flags word into the byte of the type and the rest. */
  lemma MaskedFlags(d: seq<Byte>, off: nat)
    requires off + 4 <= |d|
    ensures var flags := Field(d, off, 4);
            And(flags, 0xff) == flags % 256 && And(flags, 0xffff_ff00) == flags - flags % 256
  {
    hide And, Pow2, Field;
    var flags := Field(d, off, 4);
    FieldCons(d, off, 4);
    FieldCons(d, off + 1, 3);
    FieldCons(d, off + 2, 2);
    FieldCons(d, off + 3, 1);
    assert Field(d, off + 4, 0) == 0 by { NoField(d, off + 4); }
    EightBits();
    Pow2Add(8, 8);
    Pow2Add(8, 16);
    AndMask(flags, 8);
    AndMask(flags / 256, 24);
    AndUpper(flags, 0xff_ffff);
  }

  lemma NoField(d: seq<Byte>, off: nat)
    requires off <= |d|
    ensures Field(d, off, 0) == 0
  {
  }

  /** The loop over section headers runs until the data is used up; only then is the count compared. */
  method ParseSections(is64: bool, utf8: Utf8, s: Shifter, n: nat) returns (r: Option<seq<SectionHeader>>)
    requires s.shifted == HeaderSize(is64) <= |s.data|
    modifies s
    ensures r == if |s.data| == Extent(is64, n) then SectionsIn(is64, utf8, s.data, n) else None
  {
    hide SectionIn;
    var sections: seq<SectionHeader> := [];
    while s.Shiftable()
      invariant s.shifted == Extent(is64, |sections|) <= |s.data|
      invariant SectionsIn(is64, utf8, s.data, |sections|) == Some(sections)
      decreases |s.data| - s.shifted
    {
      ghost var k := |sections|;
      var bytes := s.Shift(SectionSize(is64));
      if bytes.None? {
        NotAMultiple(is64, |s.data|, k, n);
        return None;
      }
      var section := ParseSection(is64, utf8, bytes.value);
      assert bytes.value == SectionBytes(is64, s.data, k);
      if section.None? {
        assert SectionsIn(is64, utf8, s.data, k + 1).None?;
        if |s.data| == Extent(is64, n) {
          NoneStays(is64, utf8, s.data, k + 1, n);
        }
        return None;
      }
      sections := sections + [section.value];
    }
    if |sections| != n {
      return None;
    }
    r := Some(sections);
  }

  lemma NotAMultiple(is64: bool, length: nat, k: nat, n: nat)
    requires Extent(is64, k) < length < Extent(is64, k + 1)
    ensures length != Extent(is64, n)
  {
  }

  lemma {:induction false} NoneStays(is64: bool, utf8: Utf8, data: seq<Byte>, k: nat, n: nat)
    requires k <= n && Extent(is64, n) <= |data|
    requires SectionsIn(is64, utf8, data, k).None?
    ensures SectionsIn(is64, utf8, data, n).None?
    decreases n
  {
    hide SectionIn;
    if k < n {
      NoneStays(is64, utf8, data, k, n - 1);
    }
  }

  method ParseSegment(is64: bool, utf8: Utf8, data: seq<Byte>) returns (r: Option<LCSegment>)
    ensures r == SegmentIn(is64, utf8, data)
  {
    hide SectionsIn, Field, NameIn;
    var s := new Shifter(data);
    s.Skip(8);
    var name :- ShiftName(s, utf8);
    var memory :- ShiftTwo(s, WordSize(is64));
    var file :- ShiftTwo(s, WordSize(is64));
    var protection :- ShiftTwo(s, 4);
    var rest :- ShiftTwo(s, 4);
    var sections :- ParseSections(is64, utf8, s, rest.0);
    r := Some(LCSegment(is64, name, memory.0, memory.1, file.0, file.1, protection.0, protection.1,
                        rest.0, rest.1, sections));
  }

  // ---- The rows shown for the command

  /** The fields that are shown by a name of their value or by names of their bits. */
  datatype Style = CommandType | Protection | SegmentFlags | SectionKind | Attributes

  /** The text of a name field, a number, or the text that a style gives a field. */
  datatype Shown = Text(text: string) | Number(number: nat) | Label(style: Style, caption: string)

  /** One row of the viewer: what it shows and how many bytes it stands for. */
  datatype Translation = Translation(shown: Shown, bytesCount: nat)

  /** Two rows for fields that follow each other. */
  function Pair(a: Shown, m: nat, b: Shown, n: nat): seq<Translation> {
    [Translation(a, m), Translation(b, n)]
  }

  function Numbers(a: nat, m: nat, b: nat, n: nat): seq<Translation> {
    Pair(Number(a), m, Number(b), n)
  }

  /** The rows for names, placement and relocations. */
  function FrontRows(is64: bool, h: SectionHeader): seq<Translation> {
    var w := WordSize(is64);
    [Translation(Text(h.section), 16), Translation(Text(h.segment), 16)]
    + Numbers(h.addr, w, h.size, w)
    + Numbers(h.offset, 4, h.align, 4)
    + Numbers(h.relocationOffset, 4, h.relocationCount, 4)
  }

  /** The rows for the flags and the reserved words. */
  function BackRows(h: SectionHeader): seq<Translation> {
    Pair(Label(SectionKind, SectionTypes()[h.sectionType]), 1, Label(Attributes, AttributesText(h.attributes)), 3)
    + Numbers(h.reserved1, 4, h.reserved2, 4)
    + (if h.reserved3.Some? then [Translation(Number(h.reserved3.value), 4)] else [])
  }

  function SectionTranslations(is64: bool, h: SectionHeader): seq<Translation> {
    FrontRows(is64, h) + BackRows(h)
  }

  function AllSectionTranslations(is64: bool, hs: seq<SectionHeader>): seq<Translation> {
    if hs == [] then [] else AllSectionTranslations(is64, hs[..|hs| - 1]) + SectionTranslations(is64, hs[|hs| - 1])
  }

  function CommandName(is64: bool): string {
    if is64 then "LC_SEGMENT_64" else "LC_SEGMENT"
  }

  /** `runTranslating`: the type and the size of the command, then the rows of the segment. */
  function HeaderTranslations(length: nat, s: LCSegment): seq<Translation> {
    var w := WordSize(s.is64);
    Pair(Label(CommandType, CommandName(s.is64)), 4, Number(length), 4)
    + [Translation(Text(s.name), 16)]
    + Numbers(s.vmaddr, w, s.vmsize, w)
    + Numbers(s.fileOffset, w, s.fileSize, w)
    + Pair(Label(Protection, ProtectionText(s.maxprot)), 4, Label(Protection, ProtectionText(s.initprot)), 4)
    + Pair(Number(s.numberOfSections), 4, Label(SegmentFlags, SegmentFlagsText(s.flags)), 4)
  }

  function Translations(length: nat, s: LCSegment): seq<Translation> {
    HeaderTranslations(length, s) + AllSectionTranslations(s.is64, s.sections)
  }

  /** A row shows what is stored in the bytes it stands for. */
  predicate Shows(utf8: Utf8, data: seq<Byte>, off: nat, t: Translation)
    requires off + t.bytesCount <= |data|
  {
    match t.shown
    case Text(text) => NameIn(utf8, data[off..off + t.bytesCount]) == Some(text)
    case Number(number) => Field(data, off, t.bytesCount) == number
    case Label(style, caption) => ShowsLabel(style, data, off, t.bytesCount, caption)
  }

  /** A label names the command or the section type that the bytes store, the protection in their low three bits,
      or the named bits that are set in them. */
  predicate ShowsLabel(style: Style, data: seq<Byte>, off: nat, n: nat, caption: string)
    requires off + n <= |data|
  {
    match style
    case CommandType =>
      n == 4 && (|| (Field(data, off, 4) == 0x1 && caption == "LC_SEGMENT")
                 || (Field(data, off, 4) == 0x19 && caption == "LC_SEGMENT_64"))
    case Protection => n == 4 && ShowsProtection(data, off, caption)
    case SegmentFlags => n == 4 && ShowsSegmentFlags(data, off, caption)
    case SectionKind => n == 1 && IsTypeName(data[off], caption)
    case Attributes => n == 3 && ShowsAttributes(data, off, caption)
  }

  /** The rows, in order, stand for exactly the bytes from one offset to another. */
  predicate Covers(utf8: Utf8, data: seq<Byte>, from: nat, to: nat, ts: seq<Translation>)
    requires to <= |data|
    decreases |ts|
  {
    if ts == [] then from == to
    else from + ts[0].bytesCount <= to && Shows(utf8, data, from, ts[0])
         && Covers(utf8, data, from + ts[0].bytesCount, to, ts[1..])
  }

  lemma {:induction false} CoversAppend(utf8: Utf8, data: seq<Byte>, a: nat, b: nat, c: nat,
                                        s: seq<Translation>, t: seq<Translation>)
    requires c <= |data| && b <= c
    requires Covers(utf8, data, a, b, s) && Covers(utf8, data, b, c, t)
    ensures Covers(utf8, data, a, c, s + t)
    decreases |s|
  {
    hide Shows;
    if s == [] {
      assert s + t == t;
    } else {
      CoversAppend(utf8, data, a + s[0].bytesCount, b, c, s[1..], t);
      assert (s + t)[1..] == s[1..] + t;
    }
  }

  function ByteSum(ts: seq<Translation>): nat {
    if ts == [] then 0 else ts[0].bytesCount + ByteSum(ts[1..])
  }

  lemma {:induction false} CoversByteSum(utf8: Utf8, data: seq<Byte>, from: nat, to: nat, ts: seq<Translation>)
    requires to <= |data| && Covers(utf8, data, from, to, ts)
    ensures from + ByteSum(ts) == to
    decreases |ts|
  {
    hide Shows;
    if ts != [] {
      CoversByteSum(utf8, data, from + ts[0].bytesCount, to, ts[1..]);
    }
  }

  lemma NumbersCovered(utf8: Utf8, data: seq<Byte>, from: nat, a: nat, m: nat, b: nat, n: nat)
    requires from + m + n <= |data| && Field(data, from, m) == a && Field(data, from + m, n) == b
    ensures Covers(utf8, data, from, from + m + n, Numbers(a, m, b, n))
  {
    PairCovered(utf8, data, from, Number(a), m, Number(b), n);
  }

  lemma PairCovered(utf8: Utf8, data: seq<Byte>, from: nat, a: Shown, m: nat, b: Shown, n: nat)
    requires from + m + n <= |data|
    requires Shows(utf8, data, from, Translation(a, m)) && Shows(utf8, data, from + m, Translation(b, n))
    ensures Covers(utf8, data, from, from + m + n, Pair(a, m, b, n))
  {
    hide Shows;
    OneCovered(utf8, data, from + m, Translation(b, n));
    assert Pair(a, m, b, n)[1..] == [Translation(b, n)];
  }

  lemma OneCovered(utf8: Utf8, data: seq<Byte>, from: nat, t: Translation)
    requires from + t.bytesCount <= |data| && Shows(utf8, data, from, t)
    ensures Covers(utf8, data, from, from + t.bytesCount, [t])
  {
    assert [t][1..] == [];
  }

  lemma NameCovered(utf8: Utf8, data: seq<Byte>, from: nat, a: string)
    requires from + 16 <= |data| && NameIn(utf8, data[from..from + 16]) == Some(a)
    ensures Covers(utf8, data, from, from + 16, [Translation(Text(a), 16)])
  {
    OneCovered(utf8, data, from, Translation(Text(a), 16));
  }

  lemma NamesCovered(utf8: Utf8, data: seq<Byte>, from: nat, a: string, b: string)
    requires from + 32 <= |data|
    requires NameIn(utf8, data[from..from + 16]) == Some(a) && NameIn(utf8, data[from + 16..from + 32]) == Some(b)
    ensures Covers(utf8, data, from, from + 32, [Translation(Text(a), 16), Translation(Text(b), 16)])
  {
    OneCovered(utf8, data, from + 16, Translation(Text(b), 16));
    assert [Translation(Text(a), 16), Translation(Text(b), 16)][1..] == [Translation(Text(b), 16)];
  }

  lemma FieldIn(data: seq<Byte>, start: nat, end: nat, off: nat, n: nat)
    requires start + off + n <= end <= |data|
    ensures data[start..end][off..off + n] == data[start + off..start + off + n]
    ensures Field(data[start..end], off, n) == Field(data, start + off, n)
  {
    var d := data[start..end];
    var x, y := d[off..off + n], data[start + off..start + off + n];
    assert |x| == |y|;
    forall i | 0 <= i < n ensures x[i] == y[i] {
      assert x[i] == d[off + i] && y[i] == data[start + off + i];
    }
    assert x == y;
  }

  /** A word of flags splits into its low byte and the three above it. */
  lemma FlagsSplit(data: seq<Byte>, off: nat)
    requires off + 4 <= |data|
    ensures Field(data, off, 1) == Field(data, off, 4) % 256 && Field(data, off + 1, 3) == Field(data, off, 4) / 256
  {
    assert data[off..off + 4][1..] == data[off + 1..off + 4];
    assert data[off..off + 1] == [data[off]] && LittleEndian([data[off]][1..]) == 0;
    assert Field(data, off, 1) == data[off];
    assert Field(data, off, 4) == data[off] + 256 * Field(data, off + 1, 3);
  }

  /** The fields of a section header, found in the whole data instead of in its own bytes. */
  lemma SectionFields(is64: bool, utf8: Utf8, data: seq<Byte>, start: nat, h: SectionHeader)
    requires start + SectionSize(is64) <= |data|
    requires SectionIn(is64, utf8, data[start..start + SectionSize(is64)]) == Some(h)
    ensures var w := WordSize(is64);
            && NameIn(utf8, data[start..start + 16]) == Some(h.section)
            && NameIn(utf8, data[start + 16..start + 32]) == Some(h.segment)
            && Field(data, start + 32, w) == h.addr
            && Field(data, start + 32 + w, w) == h.size
            && Field(data, start + 32 + 2 * w, 4) == h.offset
            && Field(data, start + 36 + 2 * w, 4) == h.align
            && Field(data, start + 40 + 2 * w, 4) == h.relocationOffset
            && Field(data, start + 44 + 2 * w, 4) == h.relocationCount
            && h.sectionType == Field(data, start + 48 + 2 * w, 4) % 256
            && h.attributes == Field(data, start + 48 + 2 * w, 4) - h.sectionType
            && Field(data, start + 52 + 2 * w, 4) == h.reserved1
            && Field(data, start + 56 + 2 * w, 4) == h.reserved2
            && h.reserved3 == if is64 then Some(Field(data, start + 76, 4)) else None
  {
    hide Field, LittleEndian, NameIn;
    var w, end := WordSize(is64), start + SectionSize(is64);
    FieldIn(data, start, end, 0, 16);
    FieldIn(data, start, end, 16, 16);
    FieldIn(data, start, end, 32, w);
    FieldIn(data, start, end, 32 + w, w);
    FieldIn(data, start, end, 32 + 2 * w, 4);
    FieldIn(data, start, end, 36 + 2 * w, 4);
    FieldIn(data, start, end, 40 + 2 * w, 4);
    FieldIn(data, start, end, 44 + 2 * w, 4);
    FieldIn(data, start, end, 48 + 2 * w, 4);
    FieldIn(data, start, end, 52 + 2 * w, 4);
    FieldIn(data, start, end, 56 + 2 * w, 4);
    if is64 {
      FieldIn(data, start, end, 76, 4);
    }
  }

  lemma SectionCovered(is64: bool, utf8: Utf8, data: seq<Byte>, start: nat, h: SectionHeader)
    requires start + SectionSize(is64) <= |data|
    requires SectionIn(is64, utf8, data[start..start + SectionSize(is64)]) == Some(h)
    ensures Covers(utf8, data, start, start + SectionSize(is64), SectionTranslations(is64, h))
  {
    hide Covers, FrontRows, BackRows, SectionIn;
    SectionFront(is64, utf8, data, start, h);
    SectionBack(is64, utf8, data, start, h);
    CoversAppend(utf8, data, start, start + 48 + 2 * WordSize(is64), start + SectionSize(is64),
                 FrontRows(is64, h), BackRows(h));
  }

  lemma SectionBack(is64: bool, utf8: Utf8, data: seq<Byte>, start: nat, h: SectionHeader)
    requires start + SectionSize(is64) <= |data|
    requires SectionIn(is64, utf8, data[start..start + SectionSize(is64)]) == Some(h)
    ensures Covers(utf8, data, start + 48 + 2 * WordSize(is64), start + SectionSize(is64), BackRows(h))
  {
    hide Covers, Shows, Numbers, Pair, SectionIn, Field, NameIn;
    SectionFields(is64, utf8, data, start, h);
    var at := start + 48 + 2 * WordSize(is64);
    var kind := Label(SectionKind, SectionTypes()[h.sectionType]);
    var attributes := Label(Attributes, AttributesText(h.attributes));
    FlagsShown(utf8, data, at, h);
    PairCovered(utf8, data, at, kind, 1, attributes, 3);
    NumbersCovered(utf8, data, at + 4, h.reserved1, 4, h.reserved2, 4);
    var flags, reserved := Pair(kind, 1, attributes, 3), Numbers(h.reserved1, 4, h.reserved2, 4);
    CoversAppend(utf8, data, at, at + 4, at + 12, flags, reserved);
    if is64 {
      LastNumber(utf8, data, at + 12, h.reserved3.value);
      CoversAppend(utf8, data, at, at + 12, at + 16, flags + reserved, [Translation(Number(h.reserved3.value), 4)]);
    } else {
      assert flags + reserved + [] == flags + reserved;
    }
  }

  lemma FlagsShown(utf8: Utf8, data: seq<Byte>, at: nat, h: SectionHeader)
    requires at + 4 <= |data|
    requires h.sectionType == Field(data, at, 4) % 256 && h.attributes == Field(data, at, 4) - h.sectionType
    ensures Shows(utf8, data, at, Translation(Label(SectionKind, SectionTypes()[h.sectionType]), 1))
    ensures Shows(utf8, data, at + 1, Translation(Label(Attributes, AttributesText(h.attributes)), 3))
  {
    hide Field, ShowsAttributes, AttributesText, SectionTypes;
    hide IsTypeName;
    FieldCons(data, at, 4);
    SectionTypeNamed(h.sectionType);
    AttributesShown(data, at);
  }

  lemma SectionFront(is64: bool, utf8: Utf8, data: seq<Byte>, start: nat, h: SectionHeader)
    requires start + SectionSize(is64) <= |data|
    requires SectionIn(is64, utf8, data[start..start + SectionSize(is64)]) == Some(h)
    ensures Covers(utf8, data, start, start + 48 + 2 * WordSize(is64), FrontRows(is64, h))
  {
    hide Covers, Shows, Numbers, Pair, SectionIn, Field, NameIn;
    SectionFields(is64, utf8, data, start, h);
    var w := WordSize(is64);
    var names := [Translation(Text(h.section), 16), Translation(Text(h.segment), 16)];
    var place, file := Numbers(h.addr, w, h.size, w), Numbers(h.offset, 4, h.align, 4);
    NamesCovered(utf8, data, start, h.section, h.segment);
    NumbersCovered(utf8, data, start + 32, h.addr, w, h.size, w);
    CoversAppend(utf8, data, start, start + 32, start + 32 + 2 * w, names, place);
    NumbersCovered(utf8, data, start + 32 + 2 * w, h.offset, 4, h.align, 4);
    CoversAppend(utf8, data, start, start + 32 + 2 * w, start + 40 + 2 * w, names + place, file);
    NumbersCovered(utf8, data, start + 40 + 2 * w, h.relocationOffset, 4, h.relocationCount, 4);
    CoversAppend(utf8, data, start, start + 40 + 2 * w, start + 48 + 2 * w, names + place + file,
                 Numbers(h.relocationOffset, 4, h.relocationCount, 4));
  }

  lemma LastNumber(utf8: Utf8, data: seq<Byte>, from: nat, v: nat)
    requires from + 4 <= |data| && Field(data, from, 4) == v
    ensures Covers(utf8, data, from, from + 4, [Translation(Number(v), 4)])
  {
    OneCovered(utf8, data, from, Translation(Number(v), 4));
  }

  lemma NothingCovered(utf8: Utf8, data: seq<Byte>, at: nat)
    requires at <= |data|
    ensures Covers(utf8, data, at, at, [])
  {
  }

  lemma {:induction false} SectionsCovered(is64: bool, utf8: Utf8, data: seq<Byte>, k: nat, hs: seq<SectionHeader>)
    requires Extent(is64, k) <= |data|
    requires SectionsIn(is64, utf8, data, k) == Some(hs)
    ensures Covers(utf8, data, HeaderSize(is64), Extent(is64, k), AllSectionTranslations(is64, hs))
    decreases k
  {
    hide SectionIn, SectionTranslations, Covers;
    if k == 0 {
      NothingCovered(utf8, data, HeaderSize(is64));
    } else {
      var start := Extent(is64, k - 1);
      assert hs == hs[..k - 1] + [hs[k - 1]];
      SectionsCovered(is64, utf8, data, k - 1, hs[..k - 1]);
      SectionCovered(is64, utf8, data, start, hs[k - 1]);
      CoversAppend(utf8, data, HeaderSize(is64), start, start + SectionSize(is64),
                   AllSectionTranslations(is64, hs[..k - 1]), SectionTranslations(is64, hs[k - 1]));
    }
  }

  /** The fields of a parsed segment, in the data it was parsed from. */
  lemma SegmentFields(utf8: Utf8, data: seq<Byte>, s: LCSegment)
    requires SegmentIn(s.is64, utf8, data) == Some(s)
    ensures var w := WordSize(s.is64);
            && |data| == Extent(s.is64, s.numberOfSections)
            && NameIn(utf8, data[8..24]) == Some(s.name)
            && Field(data, 24, w) == s.vmaddr
            && Field(data, 24 + w, w) == s.vmsize
            && Field(data, 24 + 2 * w, w) == s.fileOffset
            && Field(data, 24 + 3 * w, w) == s.fileSize
            && Field(data, 24 + 4 * w, 4) == s.maxprot
            && Field(data, 28 + 4 * w, 4) == s.initprot
            && Field(data, 32 + 4 * w, 4) == s.numberOfSections
            && Field(data, 36 + 4 * w, 4) == s.flags
            && SectionsIn(s.is64, utf8, data, s.numberOfSections) == Some(s.sections)
  {
    hide Field, SectionsIn, NameIn;
  }

  /** The rows of the header that are not a name or a plain pair of numbers. */
  lemma LabelsShown(utf8: Utf8, data: seq<Byte>, s: LCSegment)
    requires SegmentIn(s.is64, utf8, data) == Some(s)
    requires Field(data, 0, 4) == (if s.is64 then LC_SEGMENT_64 else LC_SEGMENT) && Field(data, 4, 4) == |data|
    ensures var w := WordSize(s.is64);
            && |data| >= 40 + 4 * w
            && Shows(utf8, data, 0, Translation(Label(CommandType, CommandName(s.is64)), 4))
            && Shows(utf8, data, 4, Translation(Number(|data|), 4))
            && Shows(utf8, data, 24 + 4 * w, Translation(Label(Protection, ProtectionText(s.maxprot)), 4))
            && Shows(utf8, data, 28 + 4 * w, Translation(Label(Protection, ProtectionText(s.initprot)), 4))
            && Shows(utf8, data, 32 + 4 * w, Translation(Number(s.numberOfSections), 4))
            && Shows(utf8, data, 36 + 4 * w, Translation(Label(SegmentFlags, SegmentFlagsText(s.flags)), 4))
  {
    hide SegmentIn, SectionsIn, Field, NameIn, ShowsProtection, ShowsSegmentFlags, ProtectionText, SegmentFlagsText;
    SegmentFields(utf8, data, s);
    var w := WordSize(s.is64);
    ProtectionShown(data, 24 + 4 * w);
    ProtectionShown(data, 28 + 4 * w);
    SegmentFlagsShown(data, 36 + 4 * w);
  }

  lemma HeaderCovered(utf8: Utf8, data: seq<Byte>, s: LCSegment)
    requires SegmentIn(s.is64, utf8, data) == Some(s)
    requires Field(data, 0, 4) == (if s.is64 then LC_SEGMENT_64 else LC_SEGMENT) && Field(data, 4, 4) == |data|
    ensures Covers(utf8, data, 0, HeaderSize(s.is64), HeaderTranslations(|data|, s))
  {
    hide Covers, Shows, Numbers, Pair, SegmentIn, SectionsIn, Field, NameIn;
    hide CommandName, ProtectionText, SegmentFlagsText;
    SegmentFields(utf8, data, s);
    var w := WordSize(s.is64);
    var kind, length := Label(CommandType, CommandName(s.is64)), Number(|data|);
    var command, name := Pair(kind, 4, length, 4), [Translation(Text(s.name), 16)];
    var memory, file := Numbers(s.vmaddr, w, s.vmsize, w), Numbers(s.fileOffset, w, s.fileSize, w);
    var maxprot := Label(Protection, ProtectionText(s.maxprot));
    var initprot := Label(Protection, ProtectionText(s.initprot));
    var count, flags := Number(s.numberOfSections), Label(SegmentFlags, SegmentFlagsText(s.flags));
    var protection, rest := Pair(maxprot, 4, initprot, 4), Pair(count, 4, flags, 4);
    LabelsShown(utf8, data, s);
    PairCovered(utf8, data, 0, kind, 4, length, 4);
    NameCovered(utf8, data, 8, s.name);
    CoversAppend(utf8, data, 0, 8, 24, command, name);
    NumbersCovered(utf8, data, 24, s.vmaddr, w, s.vmsize, w);
    CoversAppend(utf8, data, 0, 24, 24 + 2 * w, command + name, memory);
    NumbersCovered(utf8, data, 24 + 2 * w, s.fileOffset, w, s.fileSize, w);
    CoversAppend(utf8, data, 0, 24 + 2 * w, 24 + 4 * w, command + name + memory, file);
    PairCovered(utf8, data, 24 + 4 * w, maxprot, 4, initprot, 4);
    CoversAppend(utf8, data, 0, 24 + 4 * w, 32 + 4 * w, command + name + memory + file, protection);
    PairCovered(utf8, data, 32 + 4 * w, count, 4, flags, 4);
    CoversAppend(utf8, data, 0, 32 + 4 * w, 40 + 4 * w, command + name + memory + file + protection, rest);
  }

  /** The rows of a parsed segment command, with its type and size rows in front, stand for every byte of it
      once, and each shows what its bytes store; so their byte counts sum to its length. */
  lemma SegmentCovered(utf8: Utf8, data: seq<Byte>, s: LCSegment)
    requires SegmentIn(s.is64, utf8, data) == Some(s)
    requires Field(data, 0, 4) == (if s.is64 then LC_SEGMENT_64 else LC_SEGMENT) && Field(data, 4, 4) == |data|
    ensures Covers(utf8, data, 0, |data|, Translations(|data|, s))
    ensures ByteSum(Translations(|data|, s)) == |data|
  {
    hide Covers, HeaderTranslations, AllSectionTranslations, SectionsIn, SegmentIn, Field;
    SegmentFields(utf8, data, s);
    HeaderCovered(utf8, data, s);
    SectionsCovered(s.is64, utf8, data, s.numberOfSections, s.sections);
    CoversAppend(utf8, data, 0, HeaderSize(s.is64), |data|,
                 HeaderTranslations(|data|, s), AllSectionTranslations(s.is64, s.sections));
    CoversByteSum(utf8, data, 0, |data|, Translations(|data|, s));
  }

  // ---- When a segment parses

  lemma {:induction false} SectionsInWhen(is64: bool, utf8: Utf8, data: seq<Byte>, k: nat)
    requires Extent(is64, k) <= |data|
    ensures SectionsIn(is64, utf8, data, k).Some? <==>
              forall i :: 0 <= i < k ==> SectionIn(is64, utf8, SectionBytes(is64, data, i)).Some?
    ensures SectionsIn(is64, utf8, data, k).Some? ==>
              forall i :: 0 <= i < k ==>
                Some(SectionsIn(is64, utf8, data, k).value[i]) == SectionIn(is64, utf8, SectionBytes(is64, data, i))
    decreases k
  {
    hide SectionIn;
    if k > 0 {
      SectionsInWhen(is64, utf8, data, k - 1);
    }
  }

  /** Names that decode and a known section type: all that a section header of the right size needs. */
  predicate SectionReadable(is64: bool, utf8: Utf8, d: seq<Byte>)
    requires |d| == SectionSize(is64)
  {
    utf8(d[0..16]).Some? && utf8(d[16..32]).Some? && Field(d, if is64 then 64 else 56, 1) <= 22
  }

  /** With a readable name and readable sections, a command parses exactly when its length is
      56 + 68n, or 72 + 80n for 64 bits, with n the section count it stores. */
  lemma ParsesByLength(is64: bool, utf8: Utf8, data: seq<Byte>)
    requires |data| >= 24 ==> utf8(data[8..24]).Some?
    requires forall i :: 0 <= i && Extent(is64, i + 1) <= |data|
               ==> SectionReadable(is64, utf8, SectionBytes(is64, data, i))
    ensures SegmentIn(is64, utf8, data).Some? <==>
              if is64 then |data| >= 72 && |data| == 72 + 80 * Field(data, 64, 4)
              else |data| >= 56 && |data| == 56 + 68 * Field(data, 48, 4)
  {
    hide SectionIn, SectionsIn;
    if |data| >= HeaderSize(is64) {
      var n := Field(data, if is64 then 64 else 48, 4);
      if |data| == Extent(is64, n) {
        forall i | 0 <= i < n ensures SectionIn(is64, utf8, SectionBytes(is64, data, i)).Some? {
          ReadableParses(is64, utf8, SectionBytes(is64, data, i));
        }
        SectionsInWhen(is64, utf8, data, n);
      }
    }
  }

  lemma ReadableParses(is64: bool, utf8: Utf8, d: seq<Byte>)
    requires |d| == SectionSize(is64)
    ensures SectionIn(is64, utf8, d).Some? <==> SectionReadable(is64, utf8, d)
  {
    FlagsSplit(d, if is64 then 64 else 56);
  }

  // ---- Relocations

  const RELOCATION_SIZE: nat := 8

  datatype RelocationTable = RelocationTable(data: seq<Byte>, entries: seq<(nat, string)>)

  predicate HasRelocations(h: SectionHeader) {
    h.relocationOffset != 0 && h.relocationCount != 0
  }

  function End(h: SectionHeader): (e: nat)
    ensures h.relocationOffset <= e
  {
    h.relocationOffset + RELOCATION_SIZE * h.relocationCount
  }

  function Relocated(hs: seq<SectionHeader>): seq<SectionHeader> {
    if hs == [] then [] else
    Relocated(hs[..|hs| - 1]) + if HasRelocations(hs[|hs| - 1]) then [hs[|hs| - 1]] else []
  }

  /** Each section's relocations start where those of the section before end. */
  predicate Adjacent(hs: seq<SectionHeader>) {
    forall i :: 0 < i < |hs| ==> hs[i].relocationOffset == End(hs[i - 1])
  }

  function EntryCounts(hs: seq<SectionHeader>): seq<(nat, string)> {
    seq(|hs|, i requires 0 <= i < |hs| => (hs[i].relocationCount, hs[i].section))
  }

  /** The relocation bytes of the sections, one section after the other. */
  function RelocationBytes(macho: seq<Byte>, hs: seq<SectionHeader>): seq<Byte>
    requires forall i :: 0 <= i < |hs| ==> End(hs[i]) <= |macho|
  {
    if hs == [] then [] else
    var last := hs[|hs| - 1];
    assert last.relocationOffset <= End(last) <= |macho|;
    RelocationBytes(macho, hs[..|hs| - 1]) + macho[last.relocationOffset..End(last)]
  }

  /** Adjacent pieces within the data join into one slice of it. */
  lemma {:induction false} AdjacentJoin(macho: seq<Byte>, hs: seq<SectionHeader>)
    requires hs != [] && Adjacent(hs) && End(hs[|hs| - 1]) <= |macho|
    ensures forall i :: 0 <= i < |hs| ==> End(hs[i]) <= |macho|
    ensures hs[0].relocationOffset <= End(hs[|hs| - 1])
    ensures RelocationBytes(macho, hs) == macho[hs[0].relocationOffset..End(hs[|hs| - 1])]
    decreases |hs|
  {
    hide End;
    var init, last := hs[..|hs| - 1], hs[|hs| - 1];
    if init != [] {
      assert init[|init| - 1] == hs[|hs| - 2];
      AdjacentJoin(macho, init);
      JoinSlices(macho, hs[0].relocationOffset, last.relocationOffset, End(last));
    }
  }

  lemma JoinSlices(macho: seq<Byte>, a: nat, b: nat, c: nat)
    requires a <= b <= c <= |macho|
    ensures macho[a..b] + macho[b..c] == macho[a..c]
  {
  }

  /** The places of the sections with relocations, both of whose fields are not zero, in order. */
  ghost predicate ArePlaces(hs: seq<SectionHeader>, places: seq<nat>) {
    && (forall m :: 0 <= m < |places| ==> places[m] < |hs|)
    && (forall m, n :: 0 <= m < n < |places| ==> places[m] < places[n])
    && (forall p: nat :: p < |hs| ==> (p in places <==> hs[p].relocationOffset != 0 && hs[p].relocationCount != 0))
  }

  /** The sections picked are exactly those. */
  lemma {:induction false} RelocatedPlaces(hs: seq<SectionHeader>) returns (places: seq<nat>)
    ensures ArePlaces(hs, places) && |Relocated(hs)| == |places|
    ensures forall m :: 0 <= m < |places| ==> Relocated(hs)[m] == hs[places[m]]
    decreases |hs|
  {
    hide Relocated, ArePlaces;
    places := [];
    if hs == [] {
      RelocatedNone();
      NoPlaces();
    } else {
      var n := |hs| - 1;
      var before := RelocatedPlaces(hs[..n]);
      PlacesInRange(hs[..n], before);
      RelocatedNext(hs, n);
      assert hs[..n + 1] == hs;
      places := before + if HasRelocations(hs[n]) then [n] else [];
      PlacesGrow(hs, n, before, places);
    }
  }

  lemma NoPlaces()
    ensures ArePlaces([], [])
  {
  }

  lemma PlacesGrow(hs: seq<SectionHeader>, n: nat, before: seq<nat>, places: seq<nat>)
    requires n + 1 == |hs| && ArePlaces(hs[..n], before)
    requires places == before + if HasRelocations(hs[n]) then [n] else []
    ensures ArePlaces(hs, places)
  {
    assert forall m :: 0 <= m < |before| ==> before[m] in before;
    forall p: nat | p < |hs| ensures p in places <==> hs[p].relocationOffset != 0 && hs[p].relocationCount != 0 {
      if p < n {
        assert hs[..n][p] == hs[p];
      } else {
        assert n !in before;
      }
    }
  }

  /** How many relocations the first k sections have. */
  function Total(hs: seq<SectionHeader>, k: nat): nat
    requires k <= |hs|
  {
    if k == 0 then 0 else Total(hs, k - 1) + hs[k - 1].relocationCount
  }

  /** Relocation j of section i stands after those of the sections before it and is the eight bytes of the file at
      the section's offset plus 8j. */
  ghost predicate InPlace(macho: seq<Byte>, hs: seq<SectionHeader>, bytes: seq<Byte>, i: nat, j: nat)
    requires i < |hs|
  {
    var at, from := 8 * (Total(hs, i) + j), hs[i].relocationOffset + 8 * j;
    at + 8 <= |bytes| && from + 8 <= |macho| && bytes[at..at + 8] == macho[from..from + 8]
  }

  lemma {:induction false} RelocationsInOrder(macho: seq<Byte>, hs: seq<SectionHeader>, i: nat, j: nat)
    requires forall m :: 0 <= m < |hs| ==> End(hs[m]) <= |macho|
    requires i < |hs| && j < hs[i].relocationCount
    ensures InPlace(macho, hs, RelocationBytes(macho, hs), i, j)
    decreases |hs|
  {
    hide End, Total, InPlace;
    var n := |hs| - 1;
    var init, last := hs[..n], hs[n];
    var before, piece := RelocationBytes(macho, init), macho[last.relocationOffset..End(last)];
    TotalPrefix(hs, n, i);
    if i == n {
      JoinedLength(macho, init);
      PieceAt(macho, hs, before, piece, j);
    } else {
      RelocationsInOrder(macho, init, i, j);
      StaysInPlace(macho, hs, before, piece, i, j);
    }
  }

  /** The table in terms of the headers and the file: its entries are the number of relocations and the name of each
      section that has any, in order, and its bytes are theirs, eight for each. */
  ghost predicate IsTable(hs: seq<SectionHeader>, macho: seq<Byte>, places: seq<nat>, t: RelocationTable)
    requires ArePlaces(hs, places)
  {
    var picked := seq(|places|, m requires 0 <= m < |places| => hs[places[m]]);
    && |t.entries| == |places|
    && (forall m :: 0 <= m < |places| ==> t.entries[m] == (picked[m].relocationCount, picked[m].section))
    && |t.data| == 8 * Total(picked, |picked|)
    && forall m, j :: 0 <= m < |places| && 0 <= j < picked[m].relocationCount ==> InPlace(macho, picked, t.data, m, j)
  }

  /** What `MakeRelocationTable` returns is that table. */
  lemma TableMeaning(hs: seq<SectionHeader>, macho: seq<Byte>) returns (places: seq<nat>)
    requires forall i :: 0 <= i < |Relocated(hs)| ==> End(Relocated(hs)[i]) <= |macho|
    ensures ArePlaces(hs, places)
    ensures var rs := Relocated(hs);
            IsTable(hs, macho, places, RelocationTable(RelocationBytes(macho, rs), EntryCounts(rs)))
  {
    hide Relocated, RelocationBytes, InPlace, Total, End, ArePlaces;
    places := RelocatedPlaces(hs);
    var rs := Relocated(hs);
    PlacesInRange(hs, places);
    assert rs == seq(|places|, m requires 0 <= m < |places| => hs[places[m]]);
    JoinedLength(macho, rs);
    forall m, j | 0 <= m < |places| && 0 <= j < rs[m].relocationCount
      ensures InPlace(macho, rs, RelocationBytes(macho, rs), m, j)
    {
      RelocationsInOrder(macho, rs, m, j);
    }
  }

  lemma PlacesInRange(hs: seq<SectionHeader>, places: seq<nat>)
    requires ArePlaces(hs, places)
    ensures forall m :: 0 <= m < |places| ==> places[m] < |hs|
  {
  }

  lemma StaysInPlace(macho: seq<Byte>, hs: seq<SectionHeader>, before: seq<Byte>, piece: seq<Byte>, i: nat, j: nat)
    requires i + 1 < |hs| && InPlace(macho, hs[..|hs| - 1], before, i, j)
    ensures InPlace(macho, hs, before + piece, i, j)
  {
    hide Total;
    TotalPrefix(hs, |hs| - 1, i);
    var at := 8 * (Total(hs, i) + j);
    assert (before + piece)[at..at + 8] == before[at..at + 8];
  }

  lemma PieceAt(macho: seq<Byte>, hs: seq<SectionHeader>, before: seq<Byte>, piece: seq<Byte>, j: nat)
    requires hs != [] && |before| == 8 * Total(hs, |hs| - 1)
    requires var h := hs[|hs| - 1];
             End(h) <= |macho| && piece == macho[h.relocationOffset..End(h)] && j < h.relocationCount
    ensures InPlace(macho, hs, before + piece, |hs| - 1, j)
  {
    hide Total, End;
    assert 8 * (Total(hs, |hs| - 1) + j) == |before| + 8 * j;
    PieceSlice(macho, before, piece, hs[|hs| - 1], j);
  }

  lemma PieceSlice(macho: seq<Byte>, before: seq<Byte>, piece: seq<Byte>, h: SectionHeader, j: nat)
    requires End(h) <= |macho| && piece == macho[h.relocationOffset..End(h)] && j < h.relocationCount
    ensures var at, from := |before| + 8 * j, h.relocationOffset + 8 * j;
            from + 8 <= |macho| && at + 8 <= |before + piece| && (before + piece)[at..at + 8] == macho[from..from + 8]
  {
    AfterPrefix(before, piece, 8 * j, 8);
    FieldIn(macho, h.relocationOffset, End(h), 8 * j, 8);
  }

  lemma AfterPrefix(a: seq<Byte>, b: seq<Byte>, off: nat, n: nat)
    requires off + n <= |b|
    ensures (a + b)[|a| + off..|a| + off + n] == b[off..off + n]
  {
  }

  lemma {:induction false} JoinedLength(macho: seq<Byte>, hs: seq<SectionHeader>)
    requires forall m :: 0 <= m < |hs| ==> End(hs[m]) <= |macho|
    ensures |RelocationBytes(macho, hs)| == 8 * Total(hs, |hs|)
    decreases |hs|
  {
    if hs != [] {
      JoinedLength(macho, hs[..|hs| - 1]);
      TotalPrefix(hs, |hs| - 1, |hs| - 1);
    }
  }

  lemma {:induction false} TotalPrefix(hs: seq<SectionHeader>, n: nat, k: nat)
    requires k <= n <= |hs|
    ensures Total(hs[..n], k) == Total(hs, k)
    decreases k
  {
    if k > 0 {
      TotalPrefix(hs, n, k - 1);
    }
  }

  /** `relocationTable`: a trap when the pieces leave gaps or leave the file, nil when no section
      has relocations, and otherwise the one slice that holds the pieces in order. */
  method MakeRelocationTable(hs: seq<SectionHeader>, macho: seq<Byte>) returns (r: Option<Option<RelocationTable>>)
    ensures r == Some(None) <==> Relocated(hs) == []
    ensures r.None? <==> Relocated(hs) != [] &&
                         (!Adjacent(Relocated(hs)) || End(Relocated(hs)[|Relocated(hs)| - 1]) > |macho|)
    ensures r.Some? && r.value.Some? ==>
              && (forall i :: 0 <= i < |Relocated(hs)| ==> End(Relocated(hs)[i]) <= |macho|)
              && r.value.value == RelocationTable(RelocationBytes(macho, Relocated(hs)), EntryCounts(Relocated(hs)))
  {
    hide Adjacent, RelocationBytes, Relocated;
    AdjacentNone();
    RelocatedNone();
    var start, total := None, 0;
    var entries: seq<(nat, string)> := [];
    ghost var done: seq<SectionHeader> := [];
    for i := 0 to |hs|
      invariant done == Relocated(hs[..i]) && Adjacent(done)
      invariant entries == EntryCounts(done)
      invariant done == [] ==> start == None && total == 0
      invariant done != [] ==> start == Some(done[0].relocationOffset) && total > 0
                               && start.value + total * RELOCATION_SIZE == End(done[|done| - 1])
    {
      var h := hs[i];
      RelocatedNext(hs, i);
      if HasRelocations(h) {
        if start.Some? {
          if start.value + total * RELOCATION_SIZE != h.relocationOffset {
            ghost var with := done + [h];
            assert with == Relocated(hs[..i + 1]);
            AdjacentAppend(done, h);
            GapStays(hs, i + 1);
            return None;
          }
        } else {
          start := Some(h.relocationOffset);
        }
        total := total + h.relocationCount;
        entries := entries + [(h.relocationCount, h.section)];
        AdjacentAppend(done, h);
        done := done + [h];
      }
    }
    assert hs[..|hs|] == hs;
    if start.None? {
      return Some(None);
    }
    var end := start.value + total * RELOCATION_SIZE;
    if end > |macho| {
      return None;
    }
    AdjacentJoin(macho, done);
    r := Some(Some(RelocationTable(macho[start.value..end], entries)));
  }

  lemma RelocatedNone()
    ensures Relocated([]) == []
  {
  }

  lemma RelocatedNext(hs: seq<SectionHeader>, i: nat)
    requires i < |hs|
    ensures Relocated(hs[..i + 1]) == Relocated(hs[..i]) + if HasRelocations(hs[i]) then [hs[i]] else []
  {
    assert hs[..i + 1][..i] == hs[..i];
  }

  lemma AdjacentNone()
    ensures Adjacent([])
  {
  }

  lemma AdjacentAppend(hs: seq<SectionHeader>, h: SectionHeader)
    requires Adjacent(hs)
    ensures Adjacent(hs + [h]) <==> hs == [] || h.relocationOffset == End(hs[|hs| - 1])
  {
    var all := hs + [h];
    assert all[|hs|] == h && forall i :: 0 <= i < |hs| ==> all[i] == hs[i];
  }

  /** A gap among the first sections is a gap among all of them. */
  lemma {:induction false} GapStays(hs: seq<SectionHeader>, k: nat)
    requires k <= |hs| && !Adjacent(Relocated(hs[..k]))
    ensures !Adjacent(Relocated(hs)) && Relocated(hs) != []
    decreases |hs|
  {
    if k == |hs| {
      assert hs[..k] == hs;
    } else {
      assert hs[..|hs| - 1][..k] == hs[..k];
      GapStays(hs[..|hs| - 1], k);
      var init, all := Relocated(hs[..|hs| - 1]), Relocated(hs);
      var i :| 0 < i < |init| && init[i].relocationOffset != End(init[i - 1]);
      assert all[i] == init[i] && all[i - 1] == init[i - 1];
    }
  }
}
