/** The load-command types as they are declared: the cases in order, where a case without a value of its own has the one
    before plus 1, and the constructor that the switch picks for each. */
module CommandTypes {
  datatype LoadCommandType =
    | Segment | SymbolTable | Symseg | Thread | UnixThread | LoadFVMLib | IdFVMLib | Ident | FVMFile | PrePage
    | DynamicSymbolTable | LoadDylib | IdDylib | LoadDynamicLinker | IdDynamicLinker | PreBoundDylib | Routines
    | SubFramework | SubUmbrella | SubClient | SubLibrary | TwoLevelHints | PrebindChecksum | LoadWeakDylib
    | Segment64 | Routines64 | Uuid | Rpath | CodeSignature | SegmentSplitInfo | ReexportDylib | LazyLoadDylib
    | EncryptionInfo | DyldInfo | DyldInfoOnly | LoadUpwardDylib | MacOSMinVersion | IOSMinVersion | FunctionStarts
    | DyldEnvironment | MainEntry | DataInCode | SourceVersion | DylibCodeSigDRs | EncryptionInfo64 | LinkerOption
    | LinkerOptimizationHint | TvOSMinVersion | WatchOSMinVersion | Note | BuildVersion | DyldExportsTrie
    | DyldChainedFixups | FileSetEntry

  /** The declaration: a case with its own value begins a run, and the cases after it count on. */
  function Declared(): seq<(nat, seq<LoadCommandType>)> {
    [ (0x1, [Segment, SymbolTable, Symseg, Thread, UnixThread, LoadFVMLib, IdFVMLib, Ident, FVMFile, PrePage,
             DynamicSymbolTable, LoadDylib, IdDylib, LoadDynamicLinker, IdDynamicLinker, PreBoundDylib, Routines,
             SubFramework, SubUmbrella, SubClient, SubLibrary, TwoLevelHints, PrebindChecksum]),
      (0x8000_0018, [LoadWeakDylib]),
      (0x19, [Segment64, Routines64, Uuid]),
      (0x8000_001c, [Rpath]),
      (0x1d, [CodeSignature, SegmentSplitInfo]),
      (0x8000_001f, [ReexportDylib]),
      (0x20, [LazyLoadDylib, EncryptionInfo, DyldInfo]),
      (0x8000_0022, [DyldInfoOnly, LoadUpwardDylib]),
      (0x24, [MacOSMinVersion, IOSMinVersion, FunctionStarts, DyldEnvironment]),
      (0x8000_0028, [MainEntry]),
      (0x29, [DataInCode, SourceVersion, DylibCodeSigDRs, EncryptionInfo64, LinkerOption, LinkerOptimizationHint,
              TvOSMinVersion, WatchOSMinVersion, Note, BuildVersion]),
      (0x8000_0033, [DyldExportsTrie, DyldChainedFixups, FileSetEntry]) ]
  }

  /** The case is number j of run r, and this is its raw value. */
  predicate IsCase(t: LoadCommandType, kind: nat, r: nat, j: nat) {
    r < |Declared()| && j < |Declared()[r].1| && Declared()[r].1[j] == t && Declared()[r].0 + j == kind
  }

  ghost predicate HasRawValue(t: LoadCommandType, kind: nat) {
    exists r, j :: IsCase(t, kind, r, j)
  }

  /** The types that no case of the constructor switch names. */
  predicate Plain(t: LoadCommandType) {
    match t
    case IOSMinVersion | MacOSMinVersion | TvOSMinVersion | WatchOSMinVersion => false
    case LinkerOption => false
    case Segment | Segment64 => false
    case SymbolTable => false
    case DynamicSymbolTable => false
    case IdDylib | LoadDylib | LoadWeakDylib | ReexportDylib | LazyLoadDylib | LoadUpwardDylib => false
    case Rpath | IdDynamicLinker | LoadDynamicLinker | DyldEnvironment => false
    case Uuid => false
    case SourceVersion => false
    case DataInCode | CodeSignature | FunctionStarts | SegmentSplitInfo | DylibCodeSigDRs | LinkerOptimizationHint
      | DyldExportsTrie | DyldChainedFixups => false
    case MainEntry => false
    case DyldInfo | DyldInfoOnly => false
    case EncryptionInfo64 | EncryptionInfo => false
    case BuildVersion => false
    case _ => true
  }

  const REQUIRED: nat := 0x8000_0000

  /** The raw values, as ranges. */
  predicate KnownType(kind: nat) {
    || 0x1 <= kind <= 0x17
    || 0x19 <= kind <= 0x1b
    || kind in {0x1d, 0x1e, 0x20, 0x21, 0x22}
    || 0x24 <= kind <= 0x27
    || 0x29 <= kind <= 0x32
    || (kind >= REQUIRED && kind - REQUIRED in {0x18, 0x1c, 0x1f, 0x22, 0x23, 0x28, 0x33, 0x34, 0x35})
  }

  /** The raw values of the plain types, as ranges. */
  predicate PlainType(kind: nat) {
    || 0x3 <= kind <= 0xa
    || 0x10 <= kind <= 0x17
    || kind == 0x1a
    || kind == 0x31
    || kind == REQUIRED + 0x35
  }

  /** The run and the place in it of a raw value. */
  function PlaceOf(kind: nat): (nat, nat)
    requires KnownType(kind)
  {
    if kind <= 0x17 then (0, kind - 0x1)
    else if kind <= 0x1b then (2, kind - 0x19)
    else if kind <= 0x1e then (4, kind - 0x1d)
    else if kind <= 0x22 then (6, kind - 0x20)
    else if kind <= 0x27 then (8, kind - 0x24)
    else if kind <= 0x32 then (10, kind - 0x29)
    else if kind == 0x8000_0018 then (1, 0)
    else if kind == 0x8000_001c then (3, 0)
    else if kind == 0x8000_001f then (5, 0)
    else if kind <= 0x8000_0023 then (7, kind - 0x8000_0022)
    else if kind == 0x8000_0028 then (9, 0)
    else (11, kind - 0x8000_0033)
  }

  lemma Placed(kind: nat)
    requires KnownType(kind)
    ensures var p := PlaceOf(kind);
            p.0 < |Declared()| && p.1 < |Declared()[p.0].1| && Declared()[p.0].0 + p.1 == kind
  {
  }

  lemma PlacedBack(r: nat, j: nat)
    requires r < |Declared()| && j < |Declared()[r].1|
    ensures var kind := Declared()[r].0 + j;
            KnownType(kind) && PlaceOf(kind) == (r, j)
  {
  }

  /** The ranges hold exactly the raw values that the declaration gives its cases, each for one case. */
  lemma KnownTypesDeclared(kind: nat)
    ensures KnownType(kind) <==> exists t :: HasRawValue(t, kind)
    ensures forall t, u :: HasRawValue(t, kind) && HasRawValue(u, kind) ==> t == u
  {
    hide Declared, PlaceOf, KnownType;
    if KnownType(kind) {
      Placed(kind);
      var p := PlaceOf(kind);
      var t := Declared()[p.0].1[p.1];
      assert IsCase(t, kind, p.0, p.1);
      assert HasRawValue(t, kind);
    }
    forall t | HasRawValue(t, kind) ensures KnownType(kind) && t == Declared()[PlaceOf(kind).0].1[PlaceOf(kind).1] {
      var r, j :| IsCase(t, kind, r, j);
      PlacedBack(r, j);
    }
  }

  /** The raw values of the two segment types. */
  lemma SegmentTypes(kind: nat, t: LoadCommandType)
    requires HasRawValue(t, kind)
    ensures t.Segment? <==> kind == 0x1
    ensures t.Segment64? <==> kind == 0x19
  {
    hide Declared;
    var r, j :| IsCase(t, kind, r, j);
    SegmentAt(r, j);
  }

  lemma SegmentAt(r: nat, j: nat)
    requires r < |Declared()| && j < |Declared()[r].1|
    ensures Declared()[r].1[j].Segment? <==> Declared()[r].0 + j == 0x1
    ensures Declared()[r].1[j].Segment64? <==> Declared()[r].0 + j == 0x19
  {
  }

  /** The plain ranges hold exactly the raw values of the cases that the switch does not name. */
  lemma PlainTypesDeclared(kind: nat, t: LoadCommandType)
    requires HasRawValue(t, kind)
    ensures PlainType(kind) <==> Plain(t)
  {
    hide Declared, KnownType, PlaceOf;
    var r, j :| IsCase(t, kind, r, j);
    PlainAt(r, j);
  }

  lemma PlainAt(r: nat, j: nat)
    requires r < |Declared()| && j < |Declared()[r].1|
    ensures PlainType(Declared()[r].0 + j) <==> Plain(Declared()[r].1[j])
  {
  }
}
