/** What one run of the Capstone driver produces: the records of `cs_disasm` and of
    repeated `cs_disasm_iter` calls, as functions of the engine and the input. */
module Disassembly {
  import opened Words

  const BYTES_FIELD: nat := 24
  const MNEMONIC_FIELD: nat := 32
  const OPERANDS_FIELD: nat := 160

  /** What the architecture back end reports for one instruction: the bytes it consumed, the public
      id before and the x86 adjustment after printing, and the printed text. */
  datatype Decoded = Decoded(size: nat, id: Word32, popcodeAdjust: Byte, text: string)

  /** A `cs_insn` record without its detail pointer. */
  datatype Insn = Insn(id: Word32, address: Word64, size: Word16, bytes: seq<Byte>,
                       mnemonic: string, operands: string)

  /** One successful turn of the driver. `data` marks a skipped stretch of data. */
  datatype Step = Step(insn: Insn, consumed: nat, data: bool)

  /** How a turn ends: no further, with a record, or about to copy more skipped bytes
      into the record than its bytes field holds. */
  datatype Turn = Stop | Overflow | Take(step: Step)

  /** An opened handle. The back end and the skipdata callback are parameters; `custom` is the
      finite map kept by the list of customised mnemonics. */
  datatype Engine = Engine(
    decode: (seq<Byte>, Word64) -> Option<Decoded>,
    x86: bool,
    detail: bool,
    skipdata: bool,
    skipdataSize: nat,
    skipdataMnemonic: string,
    callback: Option<(seq<Byte>, nat) -> nat>,
    custom: map<Word32, string>)
  {
    /** The contract of the parts behind the handle. */
    ghost predicate Valid() {
      && (forall code: seq<Byte>, address: Word64 :: ValidDecoding(code, decode(code, address)))
      && (skipdata ==> 1 <= skipdataSize <= BYTES_FIELD)
    }
  }

  /** A decoder consumes between one byte and everything left, so it fails on empty input, and
      what it prints fits the record's mnemonic field. */
  predicate ValidDecoding(code: seq<Byte>, d: Option<Decoded>) {
    d.Some? ==> 1 <= d.value.size <= |code| && d.value.size < TWO16 && BlankIndex(d.value.text) < MNEMONIC_FIELD
  }

  // ---- Text of a record

  predicate IsBlank(ch: char) {
    ch == ' ' || ch == '\t'
  }

  function BlankIndex(s: string): (i: nat)
    ensures i <= |s|
    ensures i < |s| ==> IsBlank(s[i])
    ensures forall j :: 0 <= j < i ==> !IsBlank(s[j])
  {
    if s == [] || IsBlank(s[0]) then 0 else 1 + BlankIndex(s[1..])
  }

  function DropBlanks(s: string): string {
    if s != [] && IsBlank(s[0]) then DropBlanks(s[1..]) else s
  }

  function BarsToSpaces(s: string): string {
    seq(|s|, i requires 0 <= i < |s| => if s[i] == '|' then ' ' else s[i])
  }

  /** What `strncpy` leaves in a field of n characters whose last one is set to NUL. */
  function Truncate(s: string, n: nat): string
    requires n > 0
  {
    s[..Min(|s|, n - 1)]
  }

  function MnemonicText(custom: map<Word32, string>, id: Word32, text: string): string {
    if id in custom then Truncate(custom[id], MNEMONIC_FIELD) else BarsToSpaces(text[..BlankIndex(text)])
  }

  function OperandText(text: string): string {
    var i := BlankIndex(text);
    if i == |text| then "" else Truncate(DropBlanks(text[i + 1..]), OPERANDS_FIELD)
  }

  function HexDigit(n: nat): char
    requires n < 16
  {
    "0123456789abcdef"[n]
  }

  function HexByte(b: Byte): string {
    "0x" + [HexDigit(b / 16), HexDigit(b % 16)]
  }

  function DataOperands(bytes: seq<Byte>): string {
    if bytes == [] then "" else if |bytes| == 1 then HexByte(bytes[0])
    else HexByte(bytes[0]) + ", " + DataOperands(bytes[1..])
  }

  // ---- One turn of the driver

  function Advance(address: Word64, n: nat): Word64 {
    (address + n) % TWO64
  }

  /** `fill_insn` and the adjustment after it: the record keeps the last bytes of the instruction that
      fit, and the custom mnemonic is looked up under the id before the x86 adjustment. */
  function DecodedInsn(e: Engine, rest: seq<Byte>, address: Word64, d: Decoded): Insn
    requires ValidDecoding(rest, Some(d))
  {
    var kept := Min(BYTES_FIELD, d.size);
    Insn(if e.x86 then (d.id + d.popcodeAdjust) % TWO32 else d.id, address, kept, rest[d.size - kept..d.size],
         MnemonicText(e.custom, d.id, d.text), OperandText(d.text))
  }

  function DataInsn(e: Engine, rest: seq<Byte>, address: Word64, n: nat): Insn
    requires n <= |rest| && n <= BYTES_FIELD
  {
    Insn(0, address, n, rest[..n], Truncate(e.skipdataMnemonic, MNEMONIC_FIELD), DataOperands(rest[..n]))
  }

  /** What becomes of n bytes to skip: a callback may answer anything. */
  function SkipTurn(e: Engine, rest: seq<Byte>, address: Word64, n: nat): (r: Turn)
    ensures r.Take? ==> r.step.consumed == n && 1 <= n <= |rest| && r.step.insn.address == address
  {
    if n > |rest| || n == 0 then Stop
    else if n > BYTES_FIELD then Overflow
    else Take(Step(DataInsn(e, rest, address, n), n, true))
  }

  /** One turn of the loop in `cs_disasm`, at offset `pos` of the whole buffer. */
  function DisasmStep(e: Engine, code: seq<Byte>, pos: nat, address: Word64): (r: Turn)
    requires e.Valid() && pos <= |code|
    ensures r.Take? ==> 1 <= r.step.consumed <= |code| - pos && r.step.insn.address == address
  {
    var rest := code[pos..];
    if rest == [] then Stop else
    var d := e.decode(rest, address);
    assert ValidDecoding(rest, d);
    if d.Some? then
      Take(Step(DecodedInsn(e, rest, address, d.value), d.value.size, false))
    else if !e.skipdata || e.skipdataSize > |rest| then
      Stop
    else
      SkipTurn(e, rest, address, if e.callback.Some? then e.callback.value(code, pos) else e.skipdataSize)
  }

  /** One call of `cs_disasm_iter` on the bytes that are left. It tests no size first, and
      shows its callback only the bytes that are left, at offset 0. */
  function IterStep(e: Engine, rest: seq<Byte>, address: Word64): (r: Turn)
    requires e.Valid()
    ensures r.Take? ==> 1 <= r.step.consumed <= |rest|
  {
    var d := e.decode(rest, address);
    assert ValidDecoding(rest, d);
    if d.Some? then
      Take(Step(DecodedInsn(e, rest, address, d.value), d.value.size, false))
    else if !e.skipdata || e.skipdataSize > |rest| then
      Stop
    else
      SkipTurn(e, rest, address, if e.callback.Some? then e.callback.value(rest, 0) else e.skipdataSize)
  }

  // ---- What a record holds

  /** A printed text in its parts: the mnemonic up to the first blank, the blanks, and the operands. */
  ghost predicate Parts(text: string, mnemonic: string, blanks: string, operands: string) {
    && text == mnemonic + blanks + operands
    && (forall i :: 0 <= i < |mnemonic| ==> mnemonic[i] !in " \t")
    && (forall i :: 0 <= i < |blanks| ==> blanks[i] in " \t")
    && (operands != [] ==> blanks != [] && operands[0] !in " \t")
  }

  /** The same text with every bar replaced by a space. */
  ghost predicate WithoutBars(shown: string, printed: string) {
    |shown| == |printed| && forall i :: 0 <= i < |printed| ==> shown[i] == if printed[i] == '|' then ' ' else printed[i]
  }

  /** Printed text comes back as its two parts: what is before the blanks and what is after them. */
  lemma PrintedTextSplits(text: string, mnemonic: string, blanks: string, operands: string)
    requires Parts(text, mnemonic, blanks, operands)
    ensures WithoutBars(MnemonicText(map[], 0, text), mnemonic)
    ensures OperandText(text) == if |operands| < 160 then operands else operands[..159]
  {
    if blanks == [] {
      assert text == mnemonic && forall i :: 0 <= i < |text| ==> text[i] == mnemonic[i];
      assert BlankIndex(text) == |text|;
    } else {
      assert IsBlank(text[|mnemonic|]) && forall i :: 0 <= i < |mnemonic| ==> text[i] == mnemonic[i];
      assert BlankIndex(text) == |mnemonic|;
      assert text[..|mnemonic|] == mnemonic;
      assert text[|mnemonic| + 1..] == blanks[1..] + operands;
      DropBlanksDrops(blanks[1..], operands);
    }
  }

  /** Every text has such parts. */
  lemma {:induction false} PartsExist(text: string) returns (mnemonic: string, blanks: string, operands: string)
    ensures Parts(text, mnemonic, blanks, operands)
    decreases |text|
  {
    mnemonic, blanks, operands := [], [], [];
    if text != [] {
      var m, b, o := PartsExist(text[1..]);
      assert text == [text[0]] + (m + b + o);
      if text[0] !in " \t" {
        mnemonic, blanks, operands := [text[0]] + m, b, o;
      } else if m == [] {
        mnemonic, blanks, operands := [], [text[0]] + b, o;
      } else {
        mnemonic, blanks, operands := [], [text[0]], m + b + o;
      }
    }
  }

  /** A decoded instruction gives both entry points the same record: its id with the adjustment that only x86 has,
      the last 24 bytes at most, and the name set for the id or else the printed mnemonic, with the printed operands. */
  lemma DecodedRecord(e: Engine, code: seq<Byte>, pos: nat, address: Word64, d: Decoded,
                      mnemonic: string, blanks: string, operands: string)
    requires e.Valid() && pos <= |code| && e.decode(code[pos..], address) == Some(d)
    requires Parts(d.text, mnemonic, blanks, operands)
    ensures DisasmStep(e, code, pos, address) == IterStep(e, code[pos..], address)
    ensures var s := DisasmStep(e, code, pos, address);
            s.Take? && s.step.consumed == d.size && !s.step.data
            && var insn := s.step.insn;
               && insn.id == (if e.x86 then (d.id + d.popcodeAdjust) % 0x1_0000_0000 else d.id)
               && insn.address == address
               && insn.size == (if d.size < 24 then d.size else 24)
               && insn.bytes == code[pos + d.size - insn.size..pos + d.size]
               && insn.operands == (if |operands| < 160 then operands else operands[..159])
               && if d.id !in e.custom then WithoutBars(insn.mnemonic, mnemonic)
                  else var name := e.custom[d.id]; insn.mnemonic == if |name| < 32 then name else name[..31]
  {
    hide BlankIndex, BarsToSpaces, OperandText, WithoutBars;
    assert ValidDecoding(code[pos..], e.decode(code[pos..], address));
    PrintedTextSplits(d.text, mnemonic, blanks, operands);
    var kept := Min(BYTES_FIELD, d.size);
    assert code[pos..][d.size - kept..d.size] == code[pos + d.size - kept..pos + d.size];
  }

  /** The value of a hexadecimal digit. */
  function HexValue(c: char): int {
    if '0' <= c <= '9' then c as int - '0' as int else if 'a' <= c <= 'f' then c as int - 'a' as int + 10 else -1
  }

  /** The six characters for byte i: 0x, two digits, and a comma and a space unless it is the last. */
  ghost predicate ShowsByte(bytes: seq<Byte>, text: string, i: nat)
    requires i < |bytes|
  {
    var at := 6 * i;
    && at + 4 <= |text| && text[at] == '0' && text[at + 1] == 'x'
    && HexValue(text[at + 2]) >= 0 && HexValue(text[at + 3]) >= 0
    && 16 * HexValue(text[at + 2]) + HexValue(text[at + 3]) == bytes[i]
    && (i + 1 < |bytes| ==> at + 6 <= |text| && text[at + 4] == ',' && text[at + 5] == ' ')
  }

  /** The operands of a data record show its bytes in order and nothing else, and fit their field. */
  lemma {:induction false} DataOperandsShow(bytes: seq<Byte>)
    requires bytes != []
    ensures |DataOperands(bytes)| == 6 * |bytes| - 2
    ensures |bytes| <= 24 ==> |DataOperands(bytes)| < 160
    ensures forall i :: 0 <= i < |bytes| ==> ShowsByte(bytes, DataOperands(bytes), i)
    decreases |bytes|
  {
    hide HexByte, ShowsByte;
    var text := DataOperands(bytes);
    HexByteShown(bytes[0]);
    if |bytes| == 1 {
      FirstByteShown(bytes, text, []);
    } else {
      var rest := DataOperands(bytes[1..]);
      DataOperandsShow(bytes[1..]);
      assert text[6..] == rest;
      FirstByteShown(bytes, text, rest);
      forall i | 1 <= i < |bytes| ensures ShowsByte(bytes, text, i) {
        assert ShowsByte(bytes[1..], rest, i - 1);
        ShowsByteLater(bytes, text, i);
      }
    }
  }

  lemma HexByteShown(b: Byte)
    ensures var h := HexByte(b);
            |h| == 4 && h[0] == '0' && h[1] == 'x' && HexValue(h[2]) == b / 16 && HexValue(h[3]) == b % 16
  {
    HexDigitShown(b / 16);
    HexDigitShown(b % 16);
  }

  lemma HexDigitShown(n: nat)
    requires n < 16
    ensures HexValue(HexDigit(n)) == n
  {
  }

  lemma FirstByteShown(bytes: seq<Byte>, text: string, rest: string)
    requires bytes != [] && text == HexByte(bytes[0]) + if |bytes| == 1 then "" else ", " + rest
    ensures ShowsByte(bytes, text, 0)
  {
    hide HexByte;
    HexByteShown(bytes[0]);
  }

  lemma ShowsByteLater(bytes: seq<Byte>, text: string, i: nat)
    requires 1 <= i < |bytes| && |text| >= 6 && ShowsByte(bytes[1..], text[6..], i - 1)
    ensures ShowsByte(bytes, text, i)
  {
    var at := 6 * (i - 1);
    assert text[6..][at] == text[at + 6] && text[6..][at + 1] == text[at + 7];
    assert text[6..][at + 2] == text[at + 8] && text[6..][at + 3] == text[at + 9];
  }

  /** The record for n skipped bytes. */
  ghost predicate IsDataRecord(e: Engine, rest: seq<Byte>, address: Word64, n: nat, insn: Insn)
    requires 1 <= n <= |rest|
  {
    && insn.id == 0 && insn.address == address && insn.size == n && insn.bytes == rest[..n]
    && insn.mnemonic == (if |e.skipdataMnemonic| < 32 then e.skipdataMnemonic else e.skipdataMnemonic[..31])
    && |insn.operands| == 6 * n - 2
    && forall i :: 0 <= i < n ==> ShowsByte(rest[..n], insn.operands, i)
  }

  /** What happens to bytes that do not decode, when a callback answers n: they are skipped where skipdata is on, one
      skip fits, and n is neither 0 nor more than is left nor more than the field holds. */
  ghost predicate IsSkip(e: Engine, rest: seq<Byte>, address: Word64, n: nat, t: Turn) {
    var size := if e.callback.Some? then n else e.skipdataSize;
    if !e.skipdata || e.skipdataSize > |rest| || size == 0 || size > |rest| then t == Stop
    else if size > 24 then t == Overflow
    else t.Take? && t.step.consumed == size && t.step.data && IsDataRecord(e, rest, address, size, t.step.insn)
  }

  lemma SkippedTurn(e: Engine, code: seq<Byte>, pos: nat, address: Word64)
    requires e.Valid() && pos <= |code| && e.decode(code[pos..], address).None?
    ensures var rest := code[pos..];
            var n, m := if e.callback.Some? then e.callback.value(code, pos) else 0,
                        if e.callback.Some? then e.callback.value(rest, 0) else 0;
            && IsSkip(e, rest, address, n, DisasmStep(e, code, pos, address))
            && IsSkip(e, rest, address, m, IterStep(e, rest, address))
  {
    hide DataOperands, ShowsByte;
    var rest := code[pos..];
    forall n | 1 <= n <= 24 && n <= |rest| ensures IsDataRecord(e, rest, address, n, DataInsn(e, rest, address, n)) {
      DataOperandsShow(rest[..n]);
    }
  }

  lemma DropBlanksDrops(blanks: string, s: string)
    requires forall i :: 0 <= i < |blanks| ==> IsBlank(blanks[i])
    requires s != [] ==> !IsBlank(s[0])
    ensures DropBlanks(blanks + s) == s
  {
    if blanks == [] {
      assert blanks + s == s;
    } else {
      assert (blanks + s)[1..] == blanks[1..] + s;
      DropBlanksDrops(blanks[1..], s);
    }
  }

  ghost predicate ShowsCustomName(custom: map<Word32, string>, insn: Insn) {
    insn.id in custom ==> insn.mnemonic == Truncate(custom[insn.id], MNEMONIC_FIELD)
  }

  /** A record shows the name chosen for its id, whatever names are set, exactly when the x86 adjustment
      after the lookup leaves the id alone or gives id 0, for which no name can be set. */
  lemma CustomNameShown(e: Engine, rest: seq<Byte>, address: Word64, d: Decoded)
    requires ValidDecoding(rest, Some(d))
    ensures (forall custom: map<Word32, string> :: 0 !in custom ==>
               ShowsCustomName(custom, DecodedInsn(e.(custom := custom), rest, address, d)))
            <==> !e.x86 || d.popcodeAdjust == 0 || (d.id + d.popcodeAdjust) % TWO32 == 0
  {
    if e.x86 && d.popcodeAdjust != 0 && (d.id + d.popcodeAdjust) % TWO32 != 0 {
      var id: Word32 := (d.id + d.popcodeAdjust) % TWO32;
      var printed := BarsToSpaces(d.text[..BlankIndex(d.text)]);
      var name := if printed == "a" then "b" else "a";
      var custom: map<Word32, string> := map[id := name];
      var insn := DecodedInsn(e.(custom := custom), rest, address, d);
      assert id != d.id && d.id !in custom;
      assert insn.id == id && insn.mnemonic == printed;
      assert Truncate(name, MNEMONIC_FIELD) == name != printed;
      assert !ShowsCustomName(custom, insn);
      assert !ShowsCustomName(custom, DecodedInsn(e.(custom := custom), rest, address, d));
    }
  }

  // ---- Whole runs

  function DisasmRun(e: Engine, code: seq<Byte>, pos: nat, address: Word64): seq<Step>
    requires e.Valid() && pos <= |code|
    decreases |code| - pos
  {
    var s := DisasmStep(e, code, pos, address);
    if !s.Take? then []
    else [s.step] + DisasmRun(e, code, pos + s.step.consumed, Advance(address, s.step.consumed))
  }

  function IterRun(e: Engine, rest: seq<Byte>, address: Word64): seq<Step>
    requires e.Valid()
    decreases |rest|
  {
    var s := IterStep(e, rest, address);
    if !s.Take? then []
    else [s.step] + IterRun(e, rest[s.step.consumed..], Advance(address, s.step.consumed))
  }

  /** Why a run ends: at a place where it stops, or at an overflow. */
  function DisasmEnd(e: Engine, code: seq<Byte>, pos: nat, address: Word64): Turn
    requires e.Valid() && pos <= |code|
    decreases |code| - pos
  {
    var s := DisasmStep(e, code, pos, address);
    if s.Take? then DisasmEnd(e, code, pos + s.step.consumed, Advance(address, s.step.consumed)) else s
  }

  function IterEnd(e: Engine, rest: seq<Byte>, address: Word64): Turn
    requires e.Valid()
    decreases |rest|
  {
    var s := IterStep(e, rest, address);
    if s.Take? then IterEnd(e, rest[s.step.consumed..], Advance(address, s.step.consumed)) else s
  }

  /** The records kept when `count` are asked for, 0 meaning all of them. */
  function Limit(run: seq<Step>, count: nat): seq<Step> {
    if count == 0 then run else run[..Min(count, |run|)]
  }

  function Consumed(run: seq<Step>): nat {
    if run == [] then 0 else run[0].consumed + Consumed(run[1..])
  }

  function StoredBytes(run: seq<Step>): seq<Byte> {
    if run == [] then [] else run[0].insn.bytes + StoredBytes(run[1..])
  }

  // ---- The two entry points agree

  /** All that matters of an answer: none of it past the bytes left, and no size beyond the first that overflows. */
  function Effect(n: nat, left: nat): nat {
    if n > left then 0 else Min(n, BYTES_FIELD + 1)
  }

  /** At one place: if the callback is asked there, both ways of asking it have the same effect. */
  ghost predicate SameSkip(e: Engine, code: seq<Byte>, pos: nat, address: Word64)
    requires pos <= |code|
  {
    var rest := code[pos..];
    rest != [] && e.decode(rest, address).None? && e.skipdata && e.skipdataSize <= |rest| && e.callback.Some? ==>
      Effect(e.callback.value(code, pos), |rest|) == Effect(e.callback.value(rest, 0), |rest|)
  }

  /** The same at every place where the run stands. */
  ghost predicate SameSkips(e: Engine, code: seq<Byte>, pos: nat, address: Word64)
    requires e.Valid() && pos <= |code|
    decreases |code| - pos
  {
    && SameSkip(e, code, pos, address)
    && var s := DisasmStep(e, code, pos, address);
       s.Take? ==> SameSkips(e, code, pos + s.step.consumed, Advance(address, s.step.consumed))
  }

  lemma StepsAgree(e: Engine, code: seq<Byte>, pos: nat, address: Word64)
    requires e.Valid() && pos <= |code|
    ensures DisasmStep(e, code, pos, address) == IterStep(e, code[pos..], address) <==> SameSkip(e, code, pos, address)
  {
    hide DecodedInsn, DataInsn;
    assert ValidDecoding(code[pos..], e.decode(code[pos..], address));
  }

  /** The two entry points go through the same records and end alike exactly when, wherever the run stands and
      a callback is asked, its two answers have the same effect. */
  lemma {:induction false} RunsAgree(e: Engine, code: seq<Byte>, pos: nat, address: Word64)
    requires e.Valid() && pos <= |code|
    ensures && DisasmRun(e, code, pos, address) == IterRun(e, code[pos..], address)
            && DisasmEnd(e, code, pos, address) == IterEnd(e, code[pos..], address)
            <==> SameSkips(e, code, pos, address)
    decreases |code| - pos
  {
    hide DisasmStep, IterStep, Advance, SameSkip;
    StepsAgree(e, code, pos, address);
    var s, t := DisasmStep(e, code, pos, address), IterStep(e, code[pos..], address);
    if s.Take? && t.Take? {
      var n := s.step.consumed;
      var rest, rest' := DisasmRun(e, code, pos + n, Advance(address, n)),
                         IterRun(e, code[pos..][t.step.consumed..], Advance(address, t.step.consumed));
      assert ([s.step] + rest)[0] == s.step && ([t.step] + rest')[0] == t.step;
      assert ([s.step] + rest)[1..] == rest && ([t.step] + rest')[1..] == rest';
      assert code[pos..][n..] == code[pos + n..];
      RunsAgree(e, code, pos + n, Advance(address, n));
    }
  }

  /** Without skipdata callback, `cs_disasm` asked for everything returns the records of
      calling `cs_disasm_iter` until it says false. */
  lemma DisasmIsIteratedIter(e: Engine, code: seq<Byte>, address: Word64)
    requires e.Valid() && e.callback.None?
    ensures DisasmRun(e, code, 0, address) == IterRun(e, code, address)
    ensures DisasmEnd(e, code, 0, address) == IterEnd(e, code, address) == Stop
  {
    assert code[0..] == code;
    NoCallback(e, code, 0, address);
    RunsAgree(e, code, 0, address);
  }

  lemma {:induction false} NoCallback(e: Engine, code: seq<Byte>, pos: nat, address: Word64)
    requires e.Valid() && e.callback.None? && pos <= |code|
    ensures SameSkips(e, code, pos, address) && DisasmEnd(e, code, pos, address) == Stop
    decreases |code| - pos
  {
    NoCallbackNoOverflow(e, code, pos, address);
    hide DisasmStep, Advance;
    var s := DisasmStep(e, code, pos, address);
    if s.Take? {
      NoCallback(e, code, pos + s.step.consumed, Advance(address, s.step.consumed));
    }
  }

  lemma NoCallbackNoOverflow(e: Engine, code: seq<Byte>, pos: nat, address: Word64)
    requires e.Valid() && e.callback.None? && pos <= |code|
    ensures !DisasmStep(e, code, pos, address).Overflow?
  {
  }

  /** With a callback that looks at its offset the two can differ: here nothing
      decodes and the callback stops the run at offset 1. */
  lemma CallbackCanSeparateRuns()
    ensures exists e: Engine, code: seq<Byte> :: e.Valid() && DisasmRun(e, code, 0, 0) != IterRun(e, code, 0)
  {
    var e := Engine((c, a) => None, false, false, true, 1, ".byte",
                    Some((c: seq<Byte>, pos: nat) => if pos == 0 then 1 else 0), map[]);
    var code: seq<Byte> := [0, 0];
    assert e.Valid();
    assert DisasmStep(e, code, 1, 1) == Stop;
    assert code[1..] == [0];
    assert IterStep(e, [0], 1).Take?;
    assert |DisasmRun(e, code, 0, 0)| == 1;
    assert IterRun(e, [0], 1) != [];
    assert |IterRun(e, code, 0)| >= 2;
  }

  // ---- Overflow

  /** The callback is asked here and answers more than the field holds and no more than is left. */
  ghost predicate AnswersTooMuch(e: Engine, code: seq<Byte>, pos: nat, address: Word64) {
    pos < |code| &&
    var left := |code| - pos;
    && e.decode(code[pos..], address).None? && e.skipdata && e.skipdataSize <= left
    && e.callback.Some? && BYTES_FIELD < e.callback.value(code, pos) <= left
  }

  /** A run meets the overflow exactly when such an answer is given at the place its records lead to. */
  lemma {:induction false} OverflowWhenAnswered(e: Engine, code: seq<Byte>, pos: nat, address: Word64)
    requires e.Valid() && pos <= |code|
    ensures var n := Consumed(DisasmRun(e, code, pos, address));
            DisasmEnd(e, code, pos, address) == Overflow <==> AnswersTooMuch(e, code, pos + n, Advance(address, n))
  {
    RunIsMaximal(e, code, pos, address);
    var n := Consumed(DisasmRun(e, code, pos, address));
    OverflowStep(e, code, pos + n, Advance(address, n));
  }

  lemma OverflowStep(e: Engine, code: seq<Byte>, pos: nat, address: Word64)
    requires e.Valid() && pos <= |code|
    ensures DisasmStep(e, code, pos, address) == Overflow <==> AnswersTooMuch(e, code, pos, address)
  {
    hide DecodedInsn, DataInsn;
    assert ValidDecoding(code[pos..], e.decode(code[pos..], address));
  }

  /** A callback that asks for 25 bytes to be skipped is enough. */
  lemma TwentyFiveBytesOverflow()
    ensures exists e: Engine, code: seq<Byte> :: e.Valid() && DisasmEnd(e, code, 0, 0) == Overflow
  {
    var e := Engine((c, a) => None, false, false, true, 1, ".byte", Some((c: seq<Byte>, pos: nat) => 25), map[]);
    var code: seq<Byte> := seq(25, i => 0);
    assert e.Valid();
    OverflowStep(e, code, 0, 0);
    assert DisasmEnd(e, code, 0, 0) == Overflow;
  }

  // ---- Tiling

  lemma {:induction false} ConsumedBound(e: Engine, code: seq<Byte>, pos: nat, address: Word64)
    requires e.Valid() && pos <= |code|
    ensures |DisasmRun(e, code, pos, address)| <= Consumed(DisasmRun(e, code, pos, address)) <= |code| - pos
    decreases |code| - pos
  {
    hide DisasmStep, Advance;
    var s := DisasmStep(e, code, pos, address);
    if s.Take? {
      ConsumedBound(e, code, pos + s.step.consumed, Advance(address, s.step.consumed));
    }
  }

  /** Record i starts where the first i records end, and its address is the start
      plus that distance, modulo 2^64. */
  lemma {:induction false} RecordsAreContiguous(e: Engine, code: seq<Byte>, pos: nat, address: Word64, i: nat)
    requires e.Valid() && pos <= |code|
    requires i < |DisasmRun(e, code, pos, address)|
    ensures var run := DisasmRun(e, code, pos, address);
            && run[i].insn.address == (address + Consumed(run[..i])) % 0x1_0000_0000_0000_0000
            && pos + Consumed(run[..i]) <= |code|
            && DisasmStep(e, code, pos + Consumed(run[..i]), run[i].insn.address) == Take(run[i])
    decreases |code| - pos
  {
    hide DisasmStep, Advance;
    var run := DisasmRun(e, code, pos, address);
    var s := DisasmStep(e, code, pos, address);
    AdvanceZero(address);
    AdvanceIs(address, Consumed(run[..i]));
    if i > 0 {
      var n := s.step.consumed;
      AdvanceIs(Advance(address, n), Consumed(run[..i][1..]));
      var tail := DisasmRun(e, code, pos + n, Advance(address, n));
      RecordsAreContiguous(e, code, pos + n, Advance(address, n), i - 1);
      assert run[..i][1..] == tail[..i - 1];
      AdvanceTwice(address, n, Consumed(tail[..i - 1]));
    }
  }

  lemma AdvanceIs(address: Word64, n: nat)
    ensures Advance(address, n) == (address + n) % 0x1_0000_0000_0000_0000
  {
  }

  lemma AdvanceZero(address: Word64)
    ensures Advance(address, 0) == address
  {
  }

  lemma AdvanceTwice(address: Word64, a: nat, b: nat)
    ensures Advance(Advance(address, a), b) == Advance(address, a + b)
  {
  }

  /** The run ends exactly where no further step is possible. */
  lemma {:induction false} RunIsMaximal(e: Engine, code: seq<Byte>, pos: nat, address: Word64)
    requires e.Valid() && pos <= |code|
    ensures var n := Consumed(DisasmRun(e, code, pos, address));
            && pos + n <= |code|
            && !DisasmEnd(e, code, pos, address).Take?
            && DisasmStep(e, code, pos + n, Advance(address, n)) == DisasmEnd(e, code, pos, address)
    decreases |code| - pos
  {
    hide DisasmStep, Advance;
    AdvanceZero(address);
    ConsumedBound(e, code, pos, address);
    var s := DisasmStep(e, code, pos, address);
    if s.Take? {
      var n := s.step.consumed;
      RunIsMaximal(e, code, pos + n, Advance(address, n));
      AdvanceTwice(address, n, Consumed(DisasmRun(e, code, pos + n, Advance(address, n))));
    }
  }

  /** Skipping data without a callback leaves less than one skip unread. */
  lemma SkipdataReadsToTheEnd(e: Engine, code: seq<Byte>, address: Word64)
    requires e.Valid() && e.skipdata && e.callback.None?
    ensures |code| - Consumed(DisasmRun(e, code, 0, address)) < e.skipdataSize
  {
    RunIsMaximal(e, code, 0, address);
  }

  /** A step keeps the last bytes it consumed, as many as the field holds; data has id 0 and prints its bytes. */
  lemma StepBytes(e: Engine, code: seq<Byte>, pos: nat, address: Word64)
    requires e.Valid() && pos <= |code|
    requires DisasmStep(e, code, pos, address).Take?
    ensures var s := DisasmStep(e, code, pos, address).step;
            var kept := Min(BYTES_FIELD, s.consumed);
            && s.insn.size == kept && s.insn.bytes == code[pos + s.consumed - kept..pos + s.consumed]
            && (s.data ==> s.insn.id == 0 && s.consumed == kept && s.insn.operands == DataOperands(s.insn.bytes))
            && (s.data <==> e.decode(code[pos..], address).None?)
  {
    hide DataOperands, MnemonicText, OperandText, Truncate;
    assert ValidDecoding(code[pos..], e.decode(code[pos..], address));
    var s := DisasmStep(e, code, pos, address).step;
    var kept := Min(BYTES_FIELD, s.consumed);
    assert code[pos..][s.consumed - kept..s.consumed] == code[pos + s.consumed - kept..pos + s.consumed];
    assert s.data ==> code[pos..][..s.consumed] == code[pos..][s.consumed - kept..s.consumed];
  }

  ghost predicate AllFit(run: seq<Step>) {
    forall i :: 0 <= i < |run| ==> run[i].consumed <= BYTES_FIELD
  }

  lemma AllFitCons(s: Step, tail: seq<Step>)
    ensures AllFit([s] + tail) <==> s.consumed <= BYTES_FIELD && AllFit(tail)
  {
    var run := [s] + tail;
    assert run[0] == s && forall i :: 0 <= i < |tail| ==> tail[i] == run[i + 1];
  }

  /** The bytes kept in the records are the bytes read, in order, exactly when no step
      consumed more than the record's 24-byte field holds. */
  lemma {:induction false} StoredBytesTile(e: Engine, code: seq<Byte>, pos: nat, address: Word64)
    requires e.Valid() && pos <= |code|
    ensures var run := DisasmRun(e, code, pos, address);
            && pos + Consumed(run) <= |code|
            && |StoredBytes(run)| <= Consumed(run)
            && (StoredBytes(run) == code[pos..pos + Consumed(run)] <==> AllFit(run))
    decreases |code| - pos
  {
    hide DisasmStep, Advance, AllFit, StoredBytes, Consumed;
    ConsumedBound(e, code, pos, address);
    var run := DisasmRun(e, code, pos, address);
    var s := DisasmStep(e, code, pos, address);
    if s.Take? {
      var n := s.step.consumed;
      var tail := DisasmRun(e, code, pos + n, Advance(address, n));
      StoredBytesTile(e, code, pos + n, Advance(address, n));
      assert run == [s.step] + tail && run[1..] == tail;
      StepBytes(e, code, pos, address);
      AllFitCons(s.step, tail);
      SumsCons(s.step, tail);
      var whole := code[pos..pos + Consumed(run)];
      var rest := code[pos + n..pos + n + Consumed(tail)];
      assert whole == code[pos..pos + n] + rest;
      if n <= BYTES_FIELD {
        SamePrefix(code[pos..pos + n], StoredBytes(tail), rest);
      }
    } else {
      SumsNil();
    }
  }

  lemma SumsNil()
    ensures AllFit([]) && StoredBytes([]) == [] && Consumed([]) == 0
  {
  }

  lemma SumsCons(s: Step, tail: seq<Step>)
    ensures StoredBytes([s] + tail) == s.insn.bytes + StoredBytes(tail)
    ensures Consumed([s] + tail) == s.consumed + Consumed(tail)
  {
    assert ([s] + tail)[1..] == tail;
  }

  lemma SamePrefix(p: seq<Byte>, a: seq<Byte>, b: seq<Byte>)
    ensures p + a == p + b <==> a == b
  {
    assert (p + a)[|p|..] == a && (p + b)[|p|..] == b;
  }

  /** An instruction longer than the field does break the tiling. */
  lemma LongInstructionLosesBytes(data: seq<Byte>)
    requires |data| == 32
    ensures var code := [0x7f] + data;
            var run := DisasmRun(Evm(), code, 0, 0);
            Consumed(run) == |code| && StoredBytes(run) != code
  {
    var code: seq<Byte> := [0x7f] + data;
    LongRun(Evm(), code);
  }

  /** An engine that knows the EVM's PUSH32: opcode 0x7f and 32 bytes of data. */
  function Evm(): (e: Engine)
    ensures e.Valid()
    ensures forall c: seq<Byte> :: |c| >= 33 && c[0] == 0x7f ==> e.decode(c, 0) == Some(Decoded(33, 0x7f, 0, "push32"))
  {
    var decode := (c: seq<Byte>, a: Word64) =>
      if |c| >= 33 && c[0] == 0x7f then Some(Decoded(33, 0x7f, 0, "push32")) else None;
    Engine(decode, false, false, false, 0, ".byte", None, map[])
  }

  lemma LongRun(e: Engine, code: seq<Byte>)
    requires e.Valid() && |code| == 33 && e.decode(code, 0).Some? && e.decode(code, 0).value.size == 33
    ensures StoredBytes(DisasmRun(e, code, 0, 0)) != code && Consumed(DisasmRun(e, code, 0, 0)) == 33
  {
    assert code[0..] == code;
    var s := DisasmStep(e, code, 0, 0);
    assert s.Take? && s.step.consumed == 33;
    var run := DisasmRun(e, code, 0, 0);
    assert code[33..] == [];
    assert DisasmRun(e, code, 33, Advance(0, 33)) == [];
    assert run == [s.step];
    StoredBytesTile(e, code, 0, 0);
    assert code[0..33] == code;
    assert run[0].consumed > BYTES_FIELD;
  }
}
