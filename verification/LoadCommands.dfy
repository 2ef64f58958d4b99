/** The walk that cuts the load-command area of a Mach-O file into commands. */
module LoadCommands {
  import opened Words
  import opened DataShifter
  import opened Segment
  import opened CommandTypes

  datatype Command = Command(kind: nat, data: seq<Byte>)

  /** Whether the constructor for this type of command returns: the segment commands and the plain ones are
      modelled, the others are a parameter. */
  datatype Constructors = Constructors(utf8: Utf8, others: (nat, seq<Byte>) -> bool) {
    predicate Accept(kind: nat, data: seq<Byte>) {
      if kind == LC_SEGMENT || kind == LC_SEGMENT_64 then SegmentIn(kind == LC_SEGMENT_64, utf8, data).Some?
      else if PlainType(kind) then true
      else others(kind, data)
    }
  }

  /** The commands from an offset on. Nothing stands for `fatalError`. */
  function Walk(cs: Constructors, data: seq<Byte>, pos: nat): Option<seq<Command>>
    requires pos <= |data|
    decreases |data| - pos
  {
    if pos == |data| then Some([])
    else if pos + 8 > |data| then None else
    var kind, size := Field(data, pos, 4), Field(data, pos + 4, 4);
    if !KnownType(kind) || size == 0 || pos + size > |data| || !cs.Accept(kind, data[pos..pos + size]) then None else
    var rest :- Walk(cs, data, pos + size);
    Some([Command(kind, data[pos..pos + size])] + rest)
  }

  /** The loop over the cursor. It reads eight bytes and steps back, so what shrinks
      is the rest of the data once the whole command has been shifted. */
  method LoadCommands(cs: Constructors, data: seq<Byte>) returns (r: Option<seq<Command>>)
    ensures r == Walk(cs, data, 0)
  {
    hide LittleEndian, KnownType, SegmentIn;
    var commands: seq<Command> := [];
    var shifter := new Shifter(data);
    NothingBefore(Walk(cs, data, 0));
    while shifter.Shiftable()
      invariant shifter.data == data && shifter.shifted <= |data|
      invariant Walk(cs, data, 0) == After(commands, Walk(cs, data, shifter.shifted))
      decreases |data| - shifter.shifted
    {
      ghost var pos := shifter.shifted;
      var kind :- shifter.ShiftNumber(4);
      if !KnownType(kind) {
        return None;
      }
      var size :- shifter.ShiftNumber(4);
      var back := shifter.Back(8);
      var commandData :- shifter.Shift(size);
      var accepted := Construct(cs, kind, commandData);
      if !accepted {
        return None;
      }
      OneMore(commands, Command(kind, commandData), Walk(cs, data, shifter.shifted));
      commands := commands + [Command(kind, commandData)];
    }
    assert commands + [] == commands;
    return Some(commands);
  }

  method Construct(cs: Constructors, kind: nat, data: seq<Byte>) returns (ok: bool)
    ensures ok == cs.Accept(kind, data)
  {
    if kind == LC_SEGMENT || kind == LC_SEGMENT_64 {
      var segment := ParseSegment(kind == LC_SEGMENT_64, cs.utf8, data);
      ok := segment.Some?;
    } else if PlainType(kind) {
      ok := true;
    } else {
      ok := cs.others(kind, data);
    }
  }

  ghost function After(done: seq<Command>, rest: Option<seq<Command>>): Option<seq<Command>> {
    if rest.None? then None else Some(done + rest.value)
  }

  lemma NothingBefore(rest: Option<seq<Command>>)
    ensures After([], rest) == rest
  {
    if rest.Some? {
      assert [] + rest.value == rest.value;
    }
  }

  lemma OneMore(done: seq<Command>, c: Command, rest: Option<seq<Command>>)
    ensures After(done + [c], rest) == After(done, After([c], rest))
  {
    if rest.Some? {
      assert done + [c] + rest.value == done + ([c] + rest.value);
    }
  }

  // ---- Nothing lost, nothing twice

  function Concat(commands: seq<Command>): seq<Byte> {
    if commands == [] then [] else commands[0].data + Concat(commands[1..])
  }

  /** The slices of a finished walk are nonempty and put together are the data. */
  lemma {:induction false} WalkCoversData(cs: Constructors, data: seq<Byte>, pos: nat)
    requires pos <= |data| && Walk(cs, data, pos).Some?
    ensures Concat(Walk(cs, data, pos).value) == data[pos..]
    ensures forall i :: 0 <= i < |Walk(cs, data, pos).value| ==> Walk(cs, data, pos).value[i].data != []
    decreases |data| - pos
  {
    hide LittleEndian, KnownType, SegmentIn;
    if pos < |data| {
      var size := Field(data, pos + 4, 4);
      WalkCoversData(cs, data, pos + size);
      assert data[pos..] == data[pos..pos + size] + data[pos + size..];
    }
  }

  // ---- Reading back what was put together

  /** A command that holds its own header: the type and the size it stores are its own. */
  predicate WellFormed(cs: Constructors, c: Command) {
    && |c.data| >= 8
    && Field(c.data, 0, 4) == c.kind && KnownType(c.kind)
    && Field(c.data, 4, 4) == |c.data|
    && cs.Accept(c.kind, c.data)
  }

  lemma WalkCons(cs: Constructors, data: seq<Byte>, pos: nat, c: Command, rest: seq<Command>)
    requires pos <= |data|
    ensures pos + |c.data| <= |data| && |c.data| >= 8 && data[pos..pos + |c.data|] == c.data ==>
              (Walk(cs, data, pos) == Some([c] + rest) <==>
                 WellFormed(cs, c) && Walk(cs, data, pos + |c.data|) == Some(rest))
  {
    hide LittleEndian, KnownType, SegmentIn;
    if pos + |c.data| <= |data| && |c.data| >= 8 && data[pos..pos + |c.data|] == c.data {
      FieldIn(data, pos, pos + |c.data|, 0, 4);
      FieldIn(data, pos, pos + |c.data|, 4, 4);
      if Walk(cs, data, pos) == Some([c] + rest) {
        var size := Field(data, pos + 4, 4);
        var tail := Walk(cs, data, pos + size).value;
        var first := Command(Field(data, pos, 4), data[pos..pos + size]);
        assert [first] + tail == [c] + rest;
        assert ([first] + tail)[0] == c && ([first] + tail)[1..] == rest;
      }
    }
  }

  /** For lists whose commands all hold a header: a list is what the walk returns exactly when its commands
      are well formed and put together are the data. So walking undoes putting together. */
  lemma {:induction false} WalkIffWellFormed(cs: Constructors, data: seq<Byte>, pos: nat, commands: seq<Command>)
    requires pos <= |data|
    requires forall i :: 0 <= i < |commands| ==> |commands[i].data| >= 8
    ensures Walk(cs, data, pos) == Some(commands) <==>
              && (forall i :: 0 <= i < |commands| ==> WellFormed(cs, commands[i]))
              && Concat(commands) == data[pos..]
    decreases |commands|
  {
    hide Walk, WellFormed;
    if commands == [] {
      WalkNil(cs, data, pos);
    } else {
      var c, rest := commands[0], commands[1..];
      assert commands == [c] + rest;
      if Walk(cs, data, pos) == Some(commands) {
        WalkCoversData(cs, data, pos);
      }
      if Concat(commands) == data[pos..] {
        var next := pos + |c.data|;
        SplitPrefix(data, pos, c.data, Concat(rest));
        WalkCons(cs, data, pos, c, rest);
        WalkIffWellFormed(cs, data, next, rest);
        AllCons(cs, c, rest);
      }
    }
  }

  lemma WalkNil(cs: Constructors, data: seq<Byte>, pos: nat)
    requires pos <= |data|
    ensures Walk(cs, data, pos) == Some([]) <==> [] == data[pos..]
  {
    hide LittleEndian, KnownType, SegmentIn;
  }

  lemma SplitPrefix(data: seq<Byte>, pos: nat, a: seq<Byte>, b: seq<Byte>)
    requires pos <= |data| && a + b == data[pos..]
    ensures pos + |a| <= |data| && data[pos..pos + |a|] == a && data[pos + |a|..] == b
  {
    assert |data[pos..]| == |a| + |b|;
    assert data[pos..][..|a|] == a && data[pos..][|a|..] == b;
    assert data[pos..pos + |a|] == data[pos..][..|a|] && data[pos + |a|..] == data[pos..][|a|..];
  }

  lemma AllCons(cs: Constructors, c: Command, rest: seq<Command>)
    ensures (forall i :: 0 <= i < |[c] + rest| ==> WellFormed(cs, ([c] + rest)[i]))
            <==> WellFormed(cs, c) && forall i :: 0 <= i < |rest| ==> WellFormed(cs, rest[i])
  {
    var all := [c] + rest;
    assert all[0] == c && forall i :: 0 <= i < |rest| ==> all[i + 1] == rest[i];
  }

  /** What the switch needs to build a command of this type: for a segment that it parses, for a plain type nothing,
      and for the others what their constructor needs. */
  ghost predicate Builds(cs: Constructors, t: LoadCommandType, kind: nat, data: seq<Byte>) {
    match t
    case Segment => SegmentIn(false, cs.utf8, data).Some?
    case Segment64 => SegmentIn(true, cs.utf8, data).Some?
    case _ => Plain(t) || cs.others(kind, data)
  }

  lemma AcceptIsBuilds(cs: Constructors, t: LoadCommandType, kind: nat, data: seq<Byte>)
    requires HasRawValue(t, kind)
    ensures cs.Accept(kind, data) <==> Builds(cs, t, kind, data)
  {
    hide SegmentIn, PlainType, Plain, HasRawValue;
    PlainTypesDeclared(kind, t);
    SegmentTypes(kind, t);
  }

  /** A command that stores its own type and size is walked to itself exactly when its type is declared and builds. */
  lemma CommandWalked(cs: Constructors, data: seq<Byte>)
    requires |data| >= 8 && Field(data, 4, 4) == |data|
    ensures var kind := Field(data, 0, 4);
            Walk(cs, data, 0) == Some([Command(kind, data)]) <==>
              exists t :: HasRawValue(t, kind) && Builds(cs, t, kind, data)
  {
    hide Field, SegmentIn, KnownType, HasRawValue, Builds;
    var kind := Field(data, 0, 4);
    KnownTypesDeclared(kind);
    forall t | HasRawValue(t, kind) ensures cs.Accept(kind, data) <==> Builds(cs, t, kind, data) {
      AcceptIsBuilds(cs, t, kind, data);
    }
    WalkNil(cs, data, |data|);
    assert data[0..|data|] == data;
    assert [Command(kind, data)] + [] == [Command(kind, data)];
  }

  /** A type that is not declared ends the walk. */
  lemma UndeclaredTraps(cs: Constructors, data: seq<Byte>, pos: nat)
    requires pos + 8 <= |data| && !exists t :: HasRawValue(t, Field(data, pos, 4))
    ensures Walk(cs, data, pos).None?
  {
    hide HasRawValue, KnownType, SegmentIn;
    KnownTypesDeclared(Field(data, pos, 4));
  }

  /** A stored size below 8 passes for plain commands, whatever the other constructors do: the next command then starts
      inside the header just read. Here an LC_SYMSEG of four bytes overlaps an LC_THREAD. */
  lemma ShortCommandsOverlap(cs: Constructors)
    ensures Walk(cs, Small(3) + Small(4) + Small(8), 0)
            == Some([Command(3, Small(3)), Command(4, Small(4) + Small(8))])
  {
    hide Walk, Field, Small, SegmentIn;
    var data := Small(3) + Small(4) + Small(8);
    assert data == [] + Small(3) + (Small(4) + Small(8));
    SmallField([], 3, Small(4) + Small(8));
    SmallField(Small(3), 4, Small(8));
    assert data == Small(3) + Small(4) + Small(8) + [];
    SmallField(Small(3) + Small(4), 8, []);
    assert data[4..12] == Small(4) + Small(8) && data[0..4] == Small(3);
    WalkNil(cs, data, 12);
    WalkStep(cs, data, 4, 4, 8, []);
    var second := Command(4, data[4..12]);
    assert [second] + [] == [second];
    WalkStep(cs, data, 0, 3, 4, [second]);
    assert [Command(3, data[0..4])] + [second] == [Command(3, data[0..4]), second];
  }

  /** A small number in four bytes. */
  function Small(b: Byte): (bs: seq<Byte>)
    ensures |bs| == 4
  {
    [b, 0, 0, 0]
  }

  lemma SmallField(before: seq<Byte>, b: Byte, after: seq<Byte>)
    ensures Field(before + Small(b) + after, |before|, 4) == b
  {
    assert (before + Small(b) + after)[|before|..|before| + 4] == Small(b);
    var z1: seq<Byte>, z2: seq<Byte>, z3: seq<Byte> := [0], [0, 0], [0, 0, 0];
    assert z1[1..] == [] && z2[1..] == z1 && z3[1..] == z2 && Small(b)[1..] == z3;
    assert LittleEndian(z1) == 0;
    assert LittleEndian(z2) == 0;
    assert LittleEndian(z3) == 0;
  }

  lemma WalkStep(cs: Constructors, data: seq<Byte>, pos: nat, kind: nat, size: nat, rest: seq<Command>)
    requires pos + 8 <= |data| && Field(data, pos, 4) == kind && Field(data, pos + 4, 4) == size
    requires KnownType(kind) && 0 < size <= |data| - pos && cs.Accept(kind, data[pos..pos + size])
    requires Walk(cs, data, pos + size) == Some(rest)
    ensures Walk(cs, data, pos) == Some([Command(kind, data[pos..pos + size])] + rest)
  {
    hide LittleEndian, KnownType, SegmentIn;
  }

  /** A command of a finished walk holds its own header exactly when it has the eight bytes for it, whatever
      the sizes of the commands around it. */
  lemma {:induction false} WalkedWellFormed(cs: Constructors, data: seq<Byte>, pos: nat, i: nat)
    requires pos <= |data| && Walk(cs, data, pos).Some? && i < |Walk(cs, data, pos).value|
    ensures var c := Walk(cs, data, pos).value[i];
            && KnownType(c.kind) && cs.Accept(c.kind, c.data)
            && (WellFormed(cs, c) <==> |c.data| >= 8)
    decreases |data| - pos
  {
    hide LittleEndian, KnownType, SegmentIn, PlainType;
    var size := Field(data, pos + 4, 4);
    if i > 0 {
      WalkedWellFormed(cs, data, pos + size, i - 1);
    } else if size >= 8 {
      FieldIn(data, pos, pos + size, 0, 4);
      FieldIn(data, pos, pos + size, 4, 4);
    }
  }

  /** In a finished walk, the rows of every segment command stand for its bytes and show what they store. */
  lemma WalkedSegmentCovered(cs: Constructors, data: seq<Byte>, pos: nat, i: nat)
    requires pos <= |data| && Walk(cs, data, pos).Some? && i < |Walk(cs, data, pos).value|
    requires var c := Walk(cs, data, pos).value[i]; c.kind == LC_SEGMENT || c.kind == LC_SEGMENT_64
    ensures var c := Walk(cs, data, pos).value[i];
            var s := SegmentIn(c.kind == LC_SEGMENT_64, cs.utf8, c.data);
            s.Some? && Covers(cs.utf8, c.data, 0, |c.data|, Translations(|c.data|, s.value))
  {
    hide Walk, Covers, Translations, SectionsIn, KnownType, Field;
    WalkedWellFormed(cs, data, pos, i);
    var c := Walk(cs, data, pos).value[i];
    var s := SegmentIn(c.kind == LC_SEGMENT_64, cs.utf8, c.data).value;
    SegmentCovered(cs.utf8, c.data, s);
  }
}
