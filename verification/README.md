# Verified models of mocha's binary readers

mocha is a Mach-O viewer that carries the Capstone disassembler and the HexFiend editor in its tree. This project
models the parts of the three code bases whose correctness is not visible in any one function, and proves for all
inputs what they are for. One module stands for one component:

| file | component |
|---|---|
| `Disassembly.dfy` | what `cs_disasm` and `cs_disasm_iter` return, as functions of the engine and the bytes |
| `Driver.dfy` | `cs_disasm`, `cs_disasm_iter` and `cs_free` with their output array, detail blocks and a heap that may refuse any request |
| `CacheGrowth.dfy` | the 32-bit growth of the output array of `cs_disasm` |
| `Mnemonics.dfy` | the heap list of customised mnemonics |
| `InsnIdCache.dfy`, `Operands.dfy`, `RegisterInfo.dfy` | id cache, operand queries, register tables |
| `Leb128.dfy`, `FunctionStarts.dfy` | the LEB128 readers and the function-starts table |
| `CStrings.dfy` | the C-string splitter, its offset index and the direct reader |
| `DataShifter.dfy`, `LoadCommands.dfy`, `CommandTypes.dfy`, `Segment.dfy` | the cursor, the load-command walk, the declaration of the command types, segments, sections and relocations |
| `Labels.dfy` | the texts shown for protections, flags, section types and attributes |
| `Ranges.dfy`, `Euclid.dfy` | HexFiend's overflow-safe ranges, divisors and multiples |
| `ArgParser.dfy` | HexFiend's copy of the Tcl option parser |
| `Words.dfy` | bounded words and bit operations on naturals |

Machine integers are bounded integers with `% 2^16`, `% 2^32` or `% 2^64` written out where the sources wrap.
`fatalError`, a trap, an out-of-range read and a failed `assert` are an `Option` without value. The architecture back
ends, the skipdata callback, the allocator's answers, UTF-8 decoding, number conversion and the option handlers are
parameters, restricted only by the contracts that the code relies on (`Engine.Valid`, `RegisterInfo.Valid`,
`ValidTable`).

## What the proofs found

- A record keeps only 24 bytes of its instruction and stores that as its size, so the stored bytes tile the code
  exactly when no instruction is longer (`StoredBytesTile`); a 33-byte EVM push breaks it (`LongInstructionLosesBytes`).
- A customised mnemonic is looked up before the x86 pseudo-opcode adjustment of the id, so a record shows the name set
  for its id exactly when there is no adjustment, or the adjusted id is 0 and cannot have a name (`CustomNameShown`).
- `cs_disasm` and `cs_disasm_iter` pass a skipdata callback different arguments; the runs agree exactly when, wherever
  the run stands and the callback is asked, both ways of asking have the same effect (`RunsAgree`), and they can differ
  (`CallbackCanSeparateRuns`).
- include/capstone/capstone.h:245-248 promises that any positive number a skipdata callback answers is skipped exactly. An answer from
  25 up to the number of bytes left is copied into the 24-byte field of the record instead; a run meets this exactly
  when its records lead to such an answer (`OverflowWhenAnswered`, `TwentyFiveBytesOverflow`).
- The cache size of `cs_disasm` is 32 bits wide, grows by 8/5 and wraps; 2^29 would grow to zero, but no number of
  growths from 8 or 32 leads there (`NeverZero`), so every record write stays in bounds for inputs of any length.
- A load command with a stored size below 8 is accepted, for every type without a constructor of its own, and the next
  one then starts inside its header (`ShortCommandsOverlap`).
- `findString` differs from `readUTF8String` at runs of NULs and inside strings, and only there (`FindAgreesWithRead`).
- `readSLEB128` is right exactly for negative numbers and for encodings of ten bytes or more (`ReadSLEB128`).
- The option parser calls an exact key ambiguous when two longer keys stand before it (`ExactAccepted`,
  `ExactCanBeAmbiguous`).
- `cs_op_index` asked for operand number 0 answers 0 when the first operand is of another type (`OpIndex`).
- The comment on `HFIntersectionRange` promises {0, 0} without common indexes; that holds exactly unless one of the
  ranges is empty, lies inside the other and is not at 0, and then it is that range (`EmptyIntersection`). The code is
  followed.
- The index stored for a TCL_ARGV_REST option points at the arguments after it exactly when the caller asked for the
  leftovers; otherwise it is always 1, and those arguments start at 2 or later (`RestIndexUsable`).
- The option parser leaves the destinations of the options before an error written (`StoresBeforeError`).

## Model

| member | source | states |
|---|---|---|
| Disassembly.DisasmIsIteratedIter | capstone-fee83fc/cs.c:874-999 | Without a skipdata callback, a full `cs_disasm` run is the run of `cs_disasm_iter` called until it says false: same records, same bytes consumed, and no overflow |
| Disassembly.RunsAgree | capstone-fee83fc/cs.c:1098-1169 | From any offset, the two runs have the same records and end alike if and only if, at every place the run reaches where the callback is asked, its answer for the offset into the buffer and its answer for the bytes that follow have the same effect |
| Disassembly.CallbackCanSeparateRuns | capstone-fee83fc/cs.c:929-938 | A callback that looks at its offset makes the two entry points return different records |
| Disassembly.OverflowWhenAnswered | capstone-fee83fc/cs.c:929-946 | A run ends at a copy past the 24-byte field if and only if, at the place its records lead to, nothing decodes and the callback answers more than 24 and no more than is left |
| Disassembly.TwentyFiveBytesOverflow | capstone-fee83fc/cs.c:929-946 | A callback and 25 bytes for which a run meets the overflow |
| Disassembly.RecordsAreContiguous | capstone-fee83fc/cs.c:996-998 | Record i starts where the first i end, its address is the start plus the bytes consumed before it modulo 2^64, and it is what one step there produces |
| Disassembly.RunIsMaximal | capstone-fee83fc/cs.c:874-999 | A run ends exactly at a place where no record is produced, never past the buffer, and ends there as that place's turn does |
| Disassembly.SkipdataReadsToTheEnd | capstone-fee83fc/cs.c:924-940 | With skipdata on and no callback the unread tail is shorter than one skip |
| Disassembly.StepBytes | capstone-fee83fc/cs.c:563-568 | A record keeps the last 24 bytes of what it consumed and their number as its size; a record is a data record exactly when decoding failed, and then has id 0 and lists its bytes |
| Disassembly.StoredBytesTile | capstone-fee83fc/cs.c:563-568 | The stored bytes put together are the bytes consumed if and only if no step consumed more than 24 |
| Disassembly.LongInstructionLosesBytes | capstone-fee83fc/cs.c:563-568 | For an EVM PUSH32, opcode 0x7f and any 32 bytes, the run consumes the 33 bytes and the stored bytes are not the code |
| Disassembly.PrintedTextSplits | capstone-fee83fc/cs.c:580-616 | Any printed text, taken as mnemonic, blanks and operands, gives that mnemonic with its bars turned into spaces, and the first 159 characters of those operands |
| Disassembly.PartsExist | capstone-fee83fc/cs.c:580-616 | Every printed text has such parts |
| Disassembly.DecodedRecord | capstone-fee83fc/cs.c:558-617 | A decoded instruction gives both entry points the same record: its size consumed, its id with the adjustment on x86 only, its last 24 bytes at most, the custom name for the id cut to 31 characters or else the printed mnemonic, and the printed operands |
| Disassembly.CustomNameShown | capstone-fee83fc/cs.c:594-606 | A record shows the name set for its id, whatever names are set for ids other than 0, if and only if the x86 adjustment of cs.c:913 leaves the id alone or makes it 0 |
| Disassembly.DataOperandsShow | capstone-fee83fc/cs.c:789-815 | The operand text of a data record shows every byte in order as 0x and two hexadecimal digits, with a comma and a space between, and fits its field |
| Disassembly.SkippedTurn | capstone-fee83fc/cs.c:924-957 | Bytes that do not decode stop both entry points, overflow or become a data record, each exactly under the conditions of the source; the record has id 0, the setup mnemonic cut to 31 characters, the bytes, and the text that shows them |
| Driver.CsDisasm | capstone-fee83fc/cs.c:822-1029 | For every input and every pattern of refused requests: the records are the first `count` (or all) of the run in an array of exactly that many slots, record i has a detail block if and only if it was decoded with detail on and its own request was granted, and the live blocks are the old ones, the array and one distinct block for each such record; with nothing decoded or out of memory the live blocks are the old ones; it runs out of memory if and only if a request for the array was refused, and never for a refused detail block; an overflow of the bytes field is reported only for runs that meet one, and for all of them that do not run out of memory first |
| Driver.ReadCode | capstone-fee83fc/cs.c:874-999 | The loop stays within the array through every growth, with no bound on the input: it ends with the run's first records in the array, exactly at a refused realloc with nothing of the call left on the heap, or at the overflow that the run meets |
| Driver.TakeStep | capstone-fee83fc/cs.c:875-958 | One turn gives the step's record; its detail block is kept exactly for a decoded instruction whose request was granted and given back otherwise |
| Driver.Resize | capstone-fee83fc/cs.c:969-992 | A granted realloc moves the array and keeps its records and everything else; a refused one leaves no block of this call |
| Driver.Finish | capstone-fee83fc/cs.c:1001-1028 | The array is cut to the number of records, freed when there are none, and everything is freed when the cut is refused |
| Driver.CsFree | capstone-fee83fc/cs.c:1039-1049 | Freeing a listing frees each detail block and the array once and restores the blocks that were live before the call |
| Driver.DisasmAndFree | capstone-fee83fc/cs.c:1039-1049 | Disassembling and then freeing leaves the heap as it was for every input that meets no overflow and every pattern of refused requests |
| Driver.CsDisasmIter | capstone-fee83fc/cs.c:1080-1172 | One call returns the step's record and moves code and address past it, or changes neither and says whether that was an overflow |
| Driver.IterateToEnd | capstone-fee83fc/cs.c:1080-1172 | Calling until false returns the records of the iterated run and ends in an overflow exactly when that run does |
| Driver.ListingIsIterated | capstone-fee83fc/cs.c:822-1029 | Where the callback's two answers have the same effect, slot i of a full listing holds record i of the iterator loop |
| CacheGrowth.NeverZero | capstone-fee83fc/cs.c:969-972 | From the cache sizes 8 and 32 of cs.c:42-45, no number of 32-bit growths by 8/5 leads to zero |
| CacheGrowth.ZeroOnlyFromDoomed | capstone-fee83fc/cs.c:969-972 | Every size up to the largest quotient that some number of growths turns into zero lies in one of twelve classes |
| Mnemonics.Handle.Set | capstone-fee83fc/cs.c:723-752 | The list stays acyclic with one node an id and stands for the old map with the id bound to the name cut to 31 characters |
| Mnemonics.Handle.Delete | capstone-fee83fc/cs.c:753-772 | The list stands for the old map without the id, and its node is freed once |
| Mnemonics.Handle.CustomiseAll | capstone-fee83fc/cs.c:720-774 | After any sequence of requests the list stands for the map obtained by applying them in order |
| Mnemonics.Handle.Lookup | capstone-fee83fc/cs.c:594-606 | The walk of `fill_insn` finds exactly what the map holds |
| Mnemonics.Handle.FillText | capstone-fee83fc/cs.c:580-616 | The text loops of `fill_insn` give the name from the list if it has one, else the printed mnemonic, and the operands after the blanks |
| Mnemonics.Handle.Close | capstone-fee83fc/cs.c:536-542 | Every node is freed, none twice |
| Mnemonics.LastRequestDecides | capstone-fee83fc/cs.c:720-774 | The last request for a nonzero id decides its name, or that it has none |
| Mnemonics.OthersUntouched | capstone-fee83fc/cs.c:720-774 | Requests for other ids change nothing for an id |
| InsnIdCache.InsnMap.MakeId2Insn | capstone-fee83fc/utils.c:15-27 | The cache holds for every id the greatest entry number with it |
| InsnIdCache.InsnMap.Find | capstone-fee83fc/utils.c:31-40 | A lookup returns the greatest entry number from 1 on with that id, 0 when there is none, and keeps the cache correct |
| InsnIdCache.InsnMap.FindAll | capstone-fee83fc/utils.c:31-40 | The same for any sequence of lookups that share the cache |
| InsnIdCache.LinearScan | capstone-fee83fc/utils.c:29-40 | A linear scan gives the same answer as the cache |
| Operands.IndexUnique | capstone-fee83fc/cs.c:1396-1535 | No two operands of a type have the same number of others of the type before them |
| Operands.OpCount | capstone-fee83fc/cs.c:1293-1392 | The number of operands of the type, 0 for EVM, and -1 otherwise, with each of the three errors exactly under its condition on the handle and the record |
| Operands.OpIndex | capstone-fee83fc/cs.c:1396-1535 | For k from 1 to the count, the operand of the type with k - 1 others of the type before it; -1 beyond and for EVM; for 0 what the code does; the errors as for the count |
| RegisterInfo.DecodeEncode | capstone-fee83fc/MCRegisterInfo.c:53-84 | Differences of a register list decode to the list if and only if no register follows itself |
| RegisterInfo.DiffListIterator.Next | capstone-fee83fc/MCRegisterInfo.c:64-79 | Each call yields the next running sum modulo 2^16, and says false exactly when the list is used up |
| RegisterInfo.GetSubReg | capstone-fee83fc/MCRegisterInfo.c:108-124 | The first sub-register whose parallel index matches, 0 exactly when none does |
| RegisterInfo.GetMatchingSuperReg | capstone-fee83fc/MCRegisterInfo.c:86-106 | The first super-register in the class whose indexed sub-register is the register, 0 exactly when none is |
| RegisterInfo.SubRegUnique | capstone-fee83fc/MCRegisterInfo.c:108-124 | The answer to a sub-register query is unique |
| RegisterInfo.ContainsIsMembership | capstone-fee83fc/MCRegisterInfo.c:134-143 | On the bit set packed from a set of registers the test is membership in that set |
| Leb128.DecodeULEB128 | capstone-fee83fc/LEB128.h:24-36 | Defined exactly for encodings of at most ten bytes that end within the data, and then the encoded number modulo 2^64 and the length |
| Leb128.ReadULEB128 | Shared/Helpers/InterpreterUtils.swift:35-50 | The encoded number modulo 2^64 and the length, for every encoding that ends within the data and the 32-bit shift counter |
| Leb128.ReadersAgree | capstone-fee83fc/LEB128.h:24-36 | The C and the Swift reader agree on value and length; the C one is defined exactly when the Swift one reads at most ten bytes |
| Leb128.OrGroup | Shared/Helpers/InterpreterUtils.swift:43-44 | Or-ing the next seven bits in equals adding them, at every shift |
| Leb128.ReadsEveryEncoding | Shared/Helpers/InterpreterUtils.swift:23-26 | Every encoding of every 64-bit value, padded ones included and at any offset, reads back as that value |
| Leb128.EncodeIsShortest | Shared/Helpers/InterpreterUtils.swift:23-26 | No encoding is shorter than the one the round trips use |
| Leb128.ReadSLEB128 | Shared/Helpers/InterpreterUtils.swift:28-33 | Reads where the unsigned reader does and as many bytes n; the value is the unsigned number less 2^(7n), modulo 2^64, and that is the signed number of section 7.6 of DWARF version 4 if and only if bit 6 of the last byte is set or there are ten bytes or more |
| FunctionStarts.Decode | Shared/Models/MachoComponents/FunctionStartsComponent.swift:31-58 | The nested loops compute the table, and trap where it does not exist |
| FunctionStarts.StartsIsTheTable | Shared/Models/MachoComponents/FunctionStartsComponent.swift:36-56 | A list is the result if and only if its entries are adjacent, end with the data, and each address is the one before plus what `readULEB128` reads at the entry |
| FunctionStarts.RoundTrip | Shared/Models/MachoComponents/FunctionStartsComponent.swift:36-56 | Encoding the differences of any nondecreasing list of addresses and decoding gives the list back |
| FunctionStarts.DecodesWhenSumFits | Shared/Models/MachoComponents/FunctionStartsComponent.swift:49-53 | Terminated data decodes if and only if the differences sum below 2^64, for encodings whose shift count stays within 32 bits |
| FunctionStarts.UnterminatedTraps | Shared/Models/MachoComponents/FunctionStartsComponent.swift:45-55 | Data that ends inside an encoding traps |
| CStrings.CStringComponent.RunInitializing | Shared/Models/MachoComponents/CStringComponent.swift:22-54 | The loops store the split of the data and the index of its entries by offset |
| CStrings.EntriesTile | Shared/Models/MachoComponents/CStringComponent.swift:24-50 | The entries are nonempty, start at the beginning, follow each other without gap and end with the data |
| CStrings.StartsCharacterised | Shared/Models/MachoComponents/CStringComponent.swift:24-50 | An entry starts exactly at a byte that begins a string, or at a NUL that begins the data or follows the NUL of a string |
| CStrings.CStringComponent.FindString | Shared/Models/MachoComponents/CStringComponent.swift:69-74 | The decoded string at a string start, the empty text at the start of a run of NULs, nil everywhere else |
| CStrings.CStringComponent.FindStringAtAddress | Shared/Models/MachoComponents/CStringComponent.swift:87-93 | The same by virtual address, with a trap exactly when the end of the section passes 2^64 |
| CStrings.ReadUTF8String | Shared/Helpers/InterpreterUtils.swift:52-63 | The text through the next NUL, or a trap without NUL or with invalid UTF-8 |
| CStrings.FindAgreesWithRead | Shared/Models/MachoComponents/CStringComponent.swift:69-74 | Wherever the direct reader succeeds, the index agrees with it if and only if a string starts there |
| DataShifter.Shifter.Shift | Shared/Helpers/DataShifter.swift:40-47 | The next bytes and a cursor moved past them, refused for zero bytes and past the end |
| DataShifter.Shifter.Back | Shared/Helpers/DataShifter.swift:53-56 | Moves back, refused before the beginning |
| LoadCommands.LoadCommands | Shared/Models/LoadCommand/LoadCommand.swift:204-258 | The loop returns the walk's commands or traps where the walk does, and terminates despite stepping back |
| CommandTypes.KnownTypesDeclared | Shared/Models/LoadCommand/LoadCommand.swift:10-71 | The types accepted are exactly the raw values of the declared cases, numbered on from the last explicit value, and no value is declared twice |
| CommandTypes.PlainTypesDeclared | Shared/Models/LoadCommand/LoadCommand.swift:216-254 | The types taken as plain are exactly those that the switch does not name |
| LoadCommands.UndeclaredTraps | Shared/Models/LoadCommand/LoadCommand.swift:208-210 | A type that is not declared ends the walk in a trap |
| LoadCommands.CommandWalked | Shared/Models/LoadCommand/LoadCommand.swift:204-258 | A command that stores its own type and size is walked to itself if and only if its type is declared and builds: a segment that parses, any plain command, or one whose constructor takes it |
| LoadCommands.WalkCoversData | Shared/Models/LoadCommand/LoadCommand.swift:204-258 | The slices of a finished walk are nonempty and put together are the input |
| LoadCommands.WalkIffWellFormed | Shared/Models/LoadCommand/LoadCommand.swift:204-258 | For commands of at least eight bytes, a list is the walk's result if and only if its commands are well formed and put together are the input; so walking undoes putting together |
| LoadCommands.ShortCommandsOverlap | Shared/Models/LoadCommand/LoadCommand.swift:211-253 | Twelve bytes, accepted whatever the other constructors do, whose first command is an LC_SYMSEG of four bytes and whose second, an LC_THREAD, starts inside its header |
| LoadCommands.WalkedWellFormed | Shared/Models/LoadCommand/LoadCommand.swift:204-258 | A command of a finished walk holds its own kind and size if and only if it has eight bytes or more, whatever the sizes of the others |
| LoadCommands.WalkedSegmentCovered | Shared/Models/LoadCommand/LoadCommand.swift:196-258 | Every segment command of every finished walk is parsed, and its rows cover it |
| Segment.ParseSection | Shared/Models/SectionHeader.swift:134-151 | Reading through the cursor gives the fields at their places in the layout, and fails for short data, undecodable names and unknown types |
| Segment.ParseSegment | Shared/Models/LoadCommand/LCSegment.swift:50-73 | Reading through the cursor until it is used up gives the fields at their places and all section headers, or fails |
| Segment.ParsesByLength | Shared/Models/LoadCommand/LCSegment.swift:65-70 | With readable names and known types, a command parses if and only if its length is 56 + 68n, or 72 + 80n for 64 bits, with n the stored count |
| Segment.SegmentCovered | Shared/Models/LoadCommand/LCSegment.swift:75-87 | The rows, with those of the type and size in front, stand for every byte of the command once, in order, their byte counts sum to its length, and each shows what its bytes store: trimmed names, numbers, the name of the type, the text for the protection bits, and as lines the names of exactly the flag bits that are set |
| Segment.SectionCovered | Shared/Models/SectionHeader.swift:153-169 | The same for the rows of one section header: its type by name, and as lines the names of exactly the attribute bits set in the three bytes of that row |
| Segment.MaskedFlags | Shared/Models/SectionHeader.swift:145-147 | The two masks split a stored flags word into its low byte and the rest |
| Labels.AttributesShown | Shared/Models/SectionHeader.swift:86-110 | The lines of the text are the names of the attribute bits set in the upper three bytes of the flags word, in order, or NONE |
| Labels.AttributeDecides | Shared/Models/SectionHeader.swift:96-110 | An attribute's name is a line of the text shown for the upper three bytes if and only if its mask meets the whole stored flags word |
| Labels.SegmentFlagsShown | Shared/Models/LoadCommand/LCSegment.swift:112-138 | The lines of the text are the names of the flag bits set in the four stored bytes, in order, or one empty line |
| Labels.SegmentFlagDecides | Shared/Models/LoadCommand/LCSegment.swift:112-138 | A flag's name is a line of the text shown if and only if its mask meets the stored 32-bit word |
| Labels.ProtectionShown | Shared/Models/LoadCommand/LCSegment.swift:17-33 | The text for a stored protection word is the one that a table of eight gives for the low three bits of its first byte |
| Labels.ProtectionDecides | Shared/Models/LoadCommand/LCSegment.swift:17-33 | Two protection words are shown alike if and only if their low three bits are the same |
| Labels.SectionTypeDecides | Shared/Models/SectionHeader.swift:10-33 | Two section types are shown alike if and only if they are the same |
| Labels.SectionTypeNamed | Shared/Models/SectionHeader.swift:10-33 | Each type is shown by the name declared for its value |
| Segment.PaddedNameReads | Shared/Helpers/Extensions.swift:48-50 | A field that decodes to a name without NULs and without blanks at its ends, padded with NULs, is read as that name |
| Segment.NameTrimmed | Shared/Helpers/Extensions.swift:48-50 | Of a decoded name field, any blanks at the ends and every NUL between go, and nothing else |
| Segment.NulsRemoved | Shared/Helpers/Extensions.swift:48-50 | Removing NULs keeps everything else in order |
| Segment.MakeRelocationTable | Shared/Models/LoadCommand/LCSegment.swift:89-110 | Nil exactly without relocations, a trap exactly for a gap or data past the file, and otherwise the relocation bytes of the sections joined in order |
| Segment.TableMeaning | Shared/Models/LoadCommand/LCSegment.swift:89-110 | The table's entries are the count and the name of exactly the sections with both relocation fields nonzero, in order; its data has eight bytes for each relocation, and relocation j of a section is the eight bytes of the file at the section's offset plus 8j |
| Ranges.SumComparisonExact | HexFiend/framework/sources/HFFunctions.h:244-257 | The comparison is a + b > c + d over unbounded integers |
| Ranges.XorFormAgrees | HexFiend/framework/sources/HFFunctions.h:258-267 | The disabled form gives the same answer on every input |
| Ranges.IntersectionExact | HexFiend/framework/sources/HFFunctions.h:282-291 | The intersection has exactly the common indexes over unbounded integers, even where an end wraps |
| Ranges.IntersectsWhenShared | HexFiend/framework/sources/HFFunctions.h:210-219 | Ranges are said to intersect if and only if they share an index, and if and only if the intersection has a length |
| Ranges.EmptyIntersection | HexFiend/framework/sources/HFFunctions.h:281-291 | Without common index the result is {0, 0} if and only if neither range is empty, inside the other and away from 0; an empty range inside the other is returned as it is |
| Euclid.GreatestCommonDivisor | capstone-fee83fc/MathExtras.h:298-305 | The loop ends with a common divisor that every common divisor divides |
| Euclid.ProductChecked | HexFiend/framework/sources/HFFunctions.h:72-76 | The overflow assertion passes if and only if the true product fits, and the result is then that product |
| Euclid.LeastCommonMultiple | HexFiend/framework/sources/HFFunctions.h:157-171 | A common multiple that divides every common multiple, refused exactly when it does not fit |
| ArgParser.FindMatch | HexFiend/app/sources/Tcl_ParseArgsObjv.c:110-144 | The loop with its second-character test computes the match |
| ArgParser.MatchMeaning | HexFiend/app/sources/Tcl_ParseArgsObjv.c:124-144 | What each of the three answers means in terms of exact and abbreviated keys |
| ArgParser.AbbreviationAccepted | HexFiend/app/sources/Tcl_ParseArgsObjv.c:124-144 | Two characters or more without exact key match an entry if and only if it is the only key that extends them |
| ArgParser.ExactAccepted | HexFiend/app/sources/Tcl_ParseArgsObjv.c:134-144 | An exact key is taken if and only if at most one longer key stands before it |
| ArgParser.ExactCanBeAmbiguous | HexFiend/app/sources/Tcl_ParseArgsObjv.c:139-144 | A table in which an exact key is refused |
| ArgParser.ParseArgs | HexFiend/app/sources/Tcl_ParseArgsObjv.c:85-294 | The result, the error and the stores, those made before an error included, are those of the parse; the leftovers are the command name and the arguments left, written within the array and closed by a NULL |
| ArgParser.ParseConserves | HexFiend/app/sources/Tcl_ParseArgsObjv.c:146-218 | A successful parse leaves the unmatched arguments in order and then everything after a TCL_ARGV_REST option, and stores exactly what its keys ask for, in order |
| ArgParser.RolesFit | HexFiend/app/sources/Tcl_ParseArgsObjv.c:166-256 | The role of every argument is decided by its match and the role of the one before: after a TCL_ARGV_REST key or a trailing argument it is trailing, after a key whose type or handler takes a value it is that value, and otherwise a key or unmatched |
| ArgParser.ParseSucceeds | HexFiend/app/sources/Tcl_ParseArgsObjv.c:138-256 | A parse succeeds if and only if no argument looked at as an option raises an error: ambiguous, unrecognized without leftovers, a missing value, a value that is no integer or no number, help, or an unknown type |
| ArgParser.RestIndexPointsAtTrailing | HexFiend/app/sources/Tcl_ParseArgsObjv.c:195-204 | With leftovers asked for, the index stored by a TCL_ARGV_REST option is where, among the arguments handed back, those after it begin |
| ArgParser.RestIndexWithoutLeftovers | HexFiend/app/sources/Tcl_ParseArgsObjv.c:195-204 | Without leftovers, the index stored is the one that the parse starts with, wherever those arguments begin |
| ArgParser.RestIndexUsable | HexFiend/app/sources/Tcl_ParseArgsObjv.c:195-204 | For a whole call, the stored index is where the arguments after the option begin, in the list handed back or else in the given one, if and only if the caller asked for the leftovers |
| ArgParser.StoresBeforeError | HexFiend/app/sources/Tcl_ParseArgsObjv.c:169-294 | The error is the one that one argument raises by its match, the type of its entry and the argument after it, and what is stored then is what parsing only the arguments before it stores, without error |

## Left out

- Architecture back ends, printers and post printers: parameters of the engine, with the contract that a success consumes between one byte and all that is left and prints a mnemonic that fits its field.
- State inside a decoder (the ARM IT block, cs.c:851-852): the decoder is a function of the bytes and the address.
- The CAPSTONE_DIET build: only the full build's text is modelled.
- Driver.CsDisasm: the total size in bytes is not reduced modulo 2^64, because the count of slots is modelled and an array of that size cannot be granted.
- Driver.CsDisasm: the last character of a data record's mnemonic field, which `strncpy` leaves unset for setup mnemonics of 31 characters or more, and a NULL setup mnemonic, which the header documents and the code does not handle, are not modelled.
- Driver.CsDisasm: what the program does after a copy past the bytes field, which C leaves undefined: the model stops there with `FieldOverflow`.
- Driver.CsDisasmIter: writes the address into the caller's record before decoding fails; the model returns no record then.
- Mnemonics.Handle.Set: the request for a node is taken to succeed, because the source does not test it.
- `cs_open`, the other options of `cs_option`, `cs_malloc`, group and register-name queries: single branches or plumbing.
- InsnIdCache.InsnMap.Find: requires the largest id last and fewer than 65536 entries, as the source's comment says it assumes, and a granted `calloc`.
- The constructors of load commands other than segments and the plain ones, and `LCBuildVersion`, whose rows do not cover its tool count: parameters of the walk.
- Segment.SegmentCovered: shows numbers as numbers; writing them in hexadecimal and the titles of the rows are left out.
- ArgParser.ParseArgs: no TCL_ARGV_GENFUNC entries, whose handlers may rewrite the argument array; the texts of error messages and the usage printer are left out too.
- HexFiend's B-tree, edit scripts, range sets and views, mocha's views and the remaining Mach-O components: user interface, or more of the same kind of reading.
