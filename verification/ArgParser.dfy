/** The option parser `Tcl_ParseArgsObjv`: matching of abbreviated keys, and what becomes of every argument. */
module ArgParser {
  import opened Words

  /** The entry types, without TCL_ARGV_GENFUNC. */
  datatype Kind = Constant | Int | Str | Rest | Float | Func | Help | Unknown

  /** `stored` says whether the entry has a destination, which only TCL_ARGV_REST looks at. */
  datatype Entry = Entry(key: Option<string>, kind: Kind, stored: bool)

  /** Conversions and handler procedures are parameters. */
  datatype Env = Env(isInt: string -> bool, isFloat: string -> bool, handler: (nat, Option<string>) -> bool)

  /** C strings: no NUL inside, and a key to compare at its second character is not empty. */
  predicate ValidTable(table: seq<Entry>) {
    forall i :: 0 <= i < |table| && table[i].key.Some? ==> table[i].key.value != [] && NoNul(table[i].key.value)
  }

  predicate NoNul(s: string) {
    forall i :: 0 <= i < |s| ==> s[i] != '\0'
  }

  // ---- Matching one argument

  datatype Match = NoMatch | Ambiguous | Matched(entry: nat)

  function CharAt(s: string, i: nat): char {
    if i < |s| then s[i] else '\0'
  }

  /** The test of the loop: the quick look at the second character, then `strncmp` over the argument's length. */
  predicate Passes(key: string, str: string) {
    var c := if |str| > 0 then CharAt(str, 1) else '\0';
    CharAt(key, 1) == c && str <= key
  }

  predicate Exact(table: seq<Entry>, str: string, i: nat)
    requires i < |table|
  {
    table[i].key == Some(str)
  }

  /** A longer key that the argument may abbreviate. Arguments of two characters or more
      abbreviate what they begin; a single character abbreviates nothing, and the empty argument abbreviates every
      key of one character. */
  predicate Abbreviates(table: seq<Entry>, str: string, i: nat)
    requires i < |table|
  {
    && table[i].key.Some?
    && var key := table[i].key.value;
       if |str| >= 2 then str < key else |str| == 0 && |key| == 1
  }

  lemma PassesMeaning(table: seq<Entry>, str: string, i: nat)
    requires ValidTable(table) && NoNul(str) && i < |table| && table[i].key.Some?
    ensures Passes(table[i].key.value, str) <==> Exact(table, str, i) || Abbreviates(table, str, i)
    ensures !(Exact(table, str, i) && Abbreviates(table, str, i))
  {
    var key := table[i].key.value;
    if |str| == 1 && |key| >= 2 {
      assert key[1] != '\0';
    }
    if str <= key && |str| == |key| {
      assert str == key;
    }
  }

  /** The scan from entry i on, with the abbreviated entry found so far. */
  function Scan(table: seq<Entry>, str: string, i: nat, found: Option<nat>): Match
    requires i <= |table|
    decreases |table| - i
  {
    if i == |table| then (if found.Some? then Matched(found.value) else NoMatch)
    else if Exact(table, str, i) then Matched(i)
    else if !Abbreviates(table, str, i) then Scan(table, str, i + 1, found)
    else if found.Some? then Ambiguous
    else Scan(table, str, i + 1, Some(i))
  }

  function MatchOf(table: seq<Entry>, str: string): Match {
    Scan(table, str, 0, None)
  }

  method FindMatch(table: seq<Entry>, str: string) returns (m: Match)
    requires ValidTable(table) && NoNul(str)
    ensures m == MatchOf(table, str)
  {
    var found: Option<nat> := None;
    for i := 0 to |table|
      invariant MatchOf(table, str) == Scan(table, str, i, found)
    {
      if table[i].key.None? {
        continue;
      }
      var key := table[i].key.value;
      PassesMeaning(table, str, i);
      if !Passes(key, str) {
        continue;
      }
      if |key| == |str| {
        return Matched(i);
      }
      if found.Some? {
        return Ambiguous;
      }
      found := Some(i);
    }
    return if found.Some? then Matched(found.value) else NoMatch;
  }

  /** At most one entry below n is abbreviated. */
  ghost predicate AtMostOne(table: seq<Entry>, str: string, n: nat)
    requires n <= |table|
  {
    forall j, k :: 0 <= j < k < n ==> !(Abbreviates(table, str, j) && Abbreviates(table, str, k))
  }

  ghost predicate NoExact(table: seq<Entry>, str: string, n: nat)
    requires n <= |table|
  {
    forall j :: 0 <= j < n ==> !Exact(table, str, j)
  }

  /** What the scan has seen of the entries below i. */
  ghost predicate Seen(table: seq<Entry>, str: string, i: nat, found: Option<nat>)
    requires i <= |table|
  {
    && NoExact(table, str, i)
    && (found.Some? ==> found.value < i && Abbreviates(table, str, found.value))
    && forall j :: 0 <= j < i && Abbreviates(table, str, j) ==> found == Some(j)
  }

  /** What each answer means; the three meanings exclude each other. */
  ghost predicate Means(table: seq<Entry>, str: string, m: Match) {
    match m
    case Matched(i) =>
      i < |table| &&
      (if Exact(table, str, i) then NoExact(table, str, i) && AtMostOne(table, str, i)
       else Abbreviates(table, str, i) && NoExact(table, str, |table|) && AtMostOne(table, str, |table|))
    case Ambiguous => exists n :: 0 <= n <= |table| && NoExact(table, str, n) && !AtMostOne(table, str, n)
    case NoMatch => NoExact(table, str, |table|) && forall j :: 0 <= j < |table| ==> !Abbreviates(table, str, j)
  }

  lemma {:induction false} ScanMeaning(table: seq<Entry>, str: string, i: nat, found: Option<nat>)
    requires i <= |table| && Seen(table, str, i, found)
    ensures Means(table, str, Scan(table, str, i, found))
    decreases |table| - i
  {
    if i < |table| && !Exact(table, str, i) {
      if !Abbreviates(table, str, i) {
        ScanMeaning(table, str, i + 1, found);
      } else if found.None? {
        ScanMeaning(table, str, i + 1, Some(i));
      } else {
        assert NoExact(table, str, i + 1) && !AtMostOne(table, str, i + 1);
      }
    }
  }

  lemma MatchMeaning(table: seq<Entry>, str: string)
    ensures Means(table, str, MatchOf(table, str))
  {
    ScanMeaning(table, str, 0, None);
  }

  /** Without an exact key, an abbreviation of two characters or more is accepted exactly when one key extends it. */
  lemma AbbreviationAccepted(table: seq<Entry>, str: string, i: nat)
    requires |str| >= 2 && i < |table| && NoExact(table, str, |table|)
    ensures MatchOf(table, str) == Matched(i) <==>
              forall j :: 0 <= j < |table| ==> (j == i <==> table[j].key.Some? && str < table[j].key.value)
  {
    MatchMeaning(table, str);
    assert forall j :: 0 <= j < |table| ==>
        (Abbreviates(table, str, j) <==> table[j].key.Some? && str < table[j].key.value);
  }

  /** An exact key is accepted exactly when at most one longer key stands before it. */
  lemma ExactAccepted(table: seq<Entry>, str: string, i: nat)
    requires i < |table| && Exact(table, str, i) && NoExact(table, str, i)
    ensures MatchOf(table, str) == Matched(i) <==> AtMostOne(table, str, i)
  {
    MatchMeaning(table, str);
  }

  /** The order matters: after two longer keys, an exact one is called ambiguous. */
  lemma ExactCanBeAmbiguous()
    ensures MatchOf([Entry(Some("-ab"), Int, true), Entry(Some("-ac"), Int, true), Entry(Some("-a"), Int, true)], "-a")
            == Ambiguous
  {
    var table := [Entry(Some("-ab"), Int, true), Entry(Some("-ac"), Int, true), Entry(Some("-a"), Int, true)];
    assert Abbreviates(table, "-a", 0) && Abbreviates(table, "-a", 1);
    assert Scan(table, "-a", 1, Some(0)) == Ambiguous;
  }

  lemma MatchedInTable(table: seq<Entry>, str: string)
    ensures MatchOf(table, str).Matched? ==> MatchOf(table, str).entry < |table|
  {
    MatchMeaning(table, str);
  }

  // ---- The whole argument list

  datatype Error = AmbiguousOption | Unrecognized | MissingArgument | BadInteger | BadFloat | HelpAsked | BadType

  /** A write to an entry's destination. */
  datatype Store = StoreConstant(entry: nat) | StoreText(entry: nat, text: string) | StoreIndex(entry: nat, index: nat)

  /** What is left over and what was stored, up to the end or to the error. */
  datatype Result = Result(left: seq<string>, stores: seq<Store>, error: Option<Error>)

  function AndThen(left: seq<string>, stores: seq<Store>, r: Result): Result {
    Result(left + r.left, stores + r.stores, r.error)
  }

  lemma AndThenLaws(l1: seq<string>, s1: seq<Store>, l2: seq<string>, s2: seq<Store>, r: Result)
    ensures AndThen([], [], r) == r
    ensures AndThen(l1, s1, AndThen(l2, s2, r)) == AndThen(l1 + l2, s1 + s2, r)
  {
    assert [] + r.left == r.left && [] + r.stores == r.stores;
    assert l1 + (l2 + r.left) == l1 + l2 + r.left && s1 + (s2 + r.stores) == s1 + s2 + r.stores;
  }

  /** An option that wants the next argument for its value. */
  predicate TakesValue(kind: Kind) {
    kind.Int? || kind.Str? || kind.Float?
  }

  /** The argument after this one, if there is one. */
  function Next(objv: seq<string>, src: nat): Option<string> {
    if src + 1 < |objv| then Some(objv[src + 1]) else None
  }

  /** How many arguments a matched entry uses up, its own key counted. */
  function Width(env: Env, table: seq<Entry>, objv: seq<string>, src: nat, i: nat): (n: nat)
    requires i < |table|
    ensures 1 <= n <= 2
  {
    if TakesValue(table[i].kind) || (table[i].kind.Func? && env.handler(i, Next(objv, src))) then 2 else 1
  }

  /** What a matched entry does by itself, TCL_ARGV_REST apart. */
  function Own(env: Env, table: seq<Entry>, objv: seq<string>, src: nat, i: nat): (r: Result)
    requires i < |table|
    ensures r.left == [] && (r.error.Some? ==> r.stores == [])
  {
    var kind, next := table[i].kind, Next(objv, src);
    if kind.Help? then Result([], [], Some(HelpAsked))
    else if kind.Unknown? then Result([], [], Some(BadType))
    else if kind.Constant? then Result([], [StoreConstant(i)], None)
    else if !TakesValue(kind) then Result([], [], None)
    else if next.None? then Result([], [], Some(MissingArgument))
    else if kind.Int? && !env.isInt(next.value) then Result([], [], Some(BadInteger))
    else if kind.Float? && !env.isFloat(next.value) then Result([], [], Some(BadFloat))
    else Result([], [StoreText(i, next.value)], None)
  }

  /** From argument `src` on, with `dst` arguments already kept. `keep` says whether the caller asked
      for the leftovers. */
  function Parse(env: Env, table: seq<Entry>, keep: bool, objv: seq<string>, src: nat, dst: nat): Result
    decreases |objv| - src
  {
    if src >= |objv| then Result([], [], None) else
    match MatchOf(table, objv[src])
    case Ambiguous => Result([], [], Some(AmbiguousOption))
    case NoMatch =>
      if keep then AndThen([objv[src]], [], Parse(env, table, keep, objv, src + 1, dst + 1))
      else Result([], [], Some(Unrecognized))
    case Matched(i) =>
      MatchedInTable(table, objv[src]);
      if table[i].kind.Rest? then Result(objv[src + 1..], if table[i].stored then [StoreIndex(i, dst)] else [], None)
      else
        var own := Own(env, table, objv, src, i);
        if own.error.Some? then own
        else AndThen([], own.stores, Parse(env, table, keep, objv, src + Width(env, table, objv, src, i), dst))
  }

  datatype Answer =
    | Ok(count: nat, remObjv: array?<Option<string>>, stores: seq<Store>)
    | Err(error: Error, stores: seq<Store>)

  /** The parser. The leftovers are written in place into an array of one slot more than there are arguments;
      what was stored before an error stays stored. */
  method ParseArgs(env: Env, table: seq<Entry>, objv: seq<string>, keep: bool) returns (r: Answer)
    requires ValidTable(table) && objv != [] && forall i :: 0 <= i < |objv| ==> NoNul(objv[i])
    ensures var p := Parse(env, table, keep, objv, 1, 1);
            match r
            case Err(error, stores) => p.error == Some(error) && stores == p.stores
            case Ok(count, rem, stores) =>
              && p.error.None? && stores == p.stores
              && (!keep ==> rem == null && count == |objv|)
              && (keep ==>
                    && rem != null && fresh(rem) && rem.Length == count + 1 && rem[count] == None
                    && count == 1 + |p.left| <= |objv|
                    && forall k :: 0 <= k < count ==> rem[k] == Some(([objv[0]] + p.left)[k]))
  {
    hide Parse, MatchOf, Means, Own, Width;
    var leftovers := new Option<string>[if keep then 1 + |objv| else 0](_ => None);
    var nrem := 0;
    if keep {
      leftovers[0] := Some(objv[0]);
      nrem := 1;
    }
    var src: nat, dst: nat, stores: seq<Store> := 1, 1, [];
    ghost var left: seq<string> := [];
    AndThenLaws([], [], [], [], Parse(env, table, keep, objv, 1, 1));
    while src < |objv|
      invariant Holds(leftovers[..], objv, keep, nrem, left) && dst == 1 + |left| <= src
      invariant |left| < |objv|
      invariant Parse(env, table, keep, objv, 1, 1) == AndThen(left, stores, Parse(env, table, keep, objv, src, dst))
      decreases |objv| - src
    {
      var curArg := objv[src];
      var m := FindMatch(table, curArg);
      MatchedInTable(table, curArg);
      ParseTurn(env, table, keep, objv, src, dst, left, stores);
      if m.Ambiguous? {
        return Err(AmbiguousOption, stores);
      }
      if m.NoMatch? {
        if !keep {
          return Err(Unrecognized, stores);
        }
        Put(leftovers, objv, nrem, curArg, left);
        nrem, dst, src := nrem + 1, dst + 1, src + 1;
        left := left + [curArg];
        continue;
      }
      var i := m.entry;
      if table[i].kind.Rest? {
        if table[i].stored {
          stores := stores + [StoreIndex(i, dst)];
        }
        r := Finish(objv, keep, leftovers, nrem, objv[src + 1..], left, stores);
        return;
      }
      var own := Own(env, table, objv, src, i);
      if own.error.Some? {
        return Err(own.error.value, stores);
      }
      stores := stores + own.stores;
      src := src + Width(env, table, objv, src, i);
    }
    ParseTurn(env, table, keep, objv, src, dst, left, stores);
    r := Finish(objv, keep, leftovers, nrem, [], left, stores);
  }

  /** What one turn of the loop makes of the work still to do, for each way through it. */
  lemma ParseTurn(env: Env, table: seq<Entry>, keep: bool, objv: seq<string>, src: nat, dst: nat,
                  left: seq<string>, stores: seq<Store>)
    ensures var work := AndThen(left, stores, Parse(env, table, keep, objv, src, dst));
            if src >= |objv| then work == Result(left + [], stores, None) else
            match MatchOf(table, objv[src])
            case Ambiguous => work.error == Some(AmbiguousOption) && work.stores == stores
            case NoMatch =>
              if keep
              then work == AndThen(left + [objv[src]], stores, Parse(env, table, keep, objv, src + 1, dst + 1))
              else work.error == Some(Unrecognized) && work.stores == stores
            case Matched(i) =>
              i < |table| &&
              if table[i].kind.Rest?
              then work == Result(left + objv[src + 1..],
                                  if table[i].stored then stores + [StoreIndex(i, dst)] else stores, None)
              else
                var own := Own(env, table, objv, src, i);
                if own.error.Some? then work.error == own.error && work.stores == stores
                else work == AndThen(left, stores + own.stores,
                                     Parse(env, table, keep, objv, src + Width(env, table, objv, src, i), dst))
  {
    hide MatchOf, Means, Own, Width, AndThen;
    var p := Parse(env, table, keep, objv, src, dst);
    Unfolded(left, stores, p);
    assert stores + [] == stores && left + [] == left;
    if src < |objv| {
      match MatchOf(table, objv[src])
      case Ambiguous =>
      case NoMatch =>
        AndThenLaws(left, stores, [objv[src]], [], Parse(env, table, keep, objv, src + 1, dst + 1));
      case Matched(i) =>
        MatchedInTable(table, objv[src]);
        AndThenLaws(left, stores, [], Own(env, table, objv, src, i).stores,
                    Parse(env, table, keep, objv, src + Width(env, table, objv, src, i), dst));
    }
  }

  lemma Unfolded(left: seq<string>, stores: seq<Store>, r: Result)
    ensures AndThen(left, stores, r) == Result(left + r.left, stores + r.stores, r.error)
  {
  }

  /** The leftovers written so far: the command name and the arguments kept. */
  ghost predicate Holds(slots: seq<Option<string>>, objv: seq<string>, keep: bool, nrem: nat, left: seq<string>)
    requires objv != []
  {
    if keep then
      && |slots| == 1 + |objv| && nrem == 1 + |left|
      && slots[0] == Some(objv[0])
      && |left| <= |objv| && forall k :: 0 <= k < |left| ==> slots[1 + k] == Some(left[k])
    else slots == [] && left == []
  }

  method Put(leftovers: array<Option<string>>, objv: seq<string>, nrem: nat, arg: string, ghost left: seq<string>)
    requires objv != [] && Holds(leftovers[..], objv, true, nrem, left) && nrem < |objv|
    modifies leftovers
    ensures Holds(leftovers[..], objv, true, nrem + 1, left + [arg])
  {
    leftovers[nrem] := Some(arg);
  }

  /** From `argsDone` on: copy the rest, close with a NULL and cut the array to size. */
  method Finish(objv: seq<string>, keep: bool, leftovers: array<Option<string>>, nrem: nat, rest: seq<string>,
                ghost left: seq<string>, stores: seq<Store>) returns (r: Answer)
    requires objv != [] && Holds(leftovers[..], objv, keep, nrem, left)
    requires keep ==> nrem + |rest| <= |objv|
    modifies leftovers
    ensures r.Ok? && r.stores == stores
    ensures !keep ==> r.remObjv == null && r.count == |objv|
    ensures keep ==>
              && r.remObjv != null && fresh(r.remObjv) && r.remObjv.Length == r.count + 1 && r.remObjv[r.count] == None
              && r.count == 1 + |left + rest|
              && forall k :: 0 <= k < r.count ==> r.remObjv[k] == Some(([objv[0]] + (left + rest))[k])
  {
    if !keep {
      return Ok(|objv|, null, stores);
    }
    forall k | 0 <= k < |rest| {
      leftovers[nrem + k] := Some(rest[k]);
    }
    var count := nrem + |rest|;
    leftovers[count] := None;
    var remObjv := new Option<string>[count + 1](_ => None);
    forall k | 0 <= k <= count {
      remObjv[k] := leftovers[k];
    }
    r := Ok(count, remObjv, stores);
  }

  // ---- What becomes of every argument

  /** Kept for the caller, matched as an option, used as the value of the option before, or after a
      TCL_ARGV_REST option. */
  datatype Role = Unmatched | Key | Value | Trailing

  ghost predicate IsRest(table: seq<Entry>, arg: string) {
    var m := MatchOf(table, arg);
    m.Matched? && m.entry < |table| && table[m.entry].kind.Rest?
  }

  function Roles(env: Env, table: seq<Entry>, objv: seq<string>, src: nat): (roles: seq<Role>)
    requires src <= |objv|
    ensures |roles| == |objv| - src
    decreases |objv| - src
  {
    if src == |objv| then [] else
    match MatchOf(table, objv[src])
    case Matched(i) =>
      MatchedInTable(table, objv[src]);
      if table[i].kind.Rest? then [Key] + seq(|objv| - src - 1, _ => Trailing)
      else if Width(env, table, objv, src, i) == 2 && src + 1 < |objv|
      then [Key] + ([Value] + Roles(env, table, objv, src + 2))
      else [Key] + Roles(env, table, objv, src + 1)
    case _ => [Unmatched] + Roles(env, table, objv, src + 1)
  }

  /** What the caller gets back and what is stored, by the roles alone: the unmatched and the trailing arguments, and
      for each key what its entry asks for. `dst` counts the arguments kept so far. */
  function ByRoles(table: seq<Entry>, objv: seq<string>, src: nat, roles: seq<Role>, dst: nat): Result
    requires src + |roles| == |objv|
    decreases |roles|
  {
    if roles == [] then Result([], [], None) else
    AndThen(if roles[0].Unmatched? || roles[0].Trailing? then [objv[src]] else [],
            if roles[0].Key? then KeyStores(table, objv, src, dst) else [],
            ByRoles(table, objv, src + 1, roles[1..], if roles[0].Unmatched? then dst + 1 else dst))
  }

  /** What the option at place p stores. */
  function KeyStores(table: seq<Entry>, objv: seq<string>, p: nat, dst: nat): seq<Store>
    requires p < |objv|
  {
    var m := MatchOf(table, objv[p]);
    if !m.Matched? || m.entry >= |table| then [] else
    match table[m.entry].kind
    case Constant => [StoreConstant(m.entry)]
    case Rest => if table[m.entry].stored then [StoreIndex(m.entry, dst)] else []
    case Func => []
    case Help => []
    case Unknown => []
    case _ => if p + 1 < |objv| then [StoreText(m.entry, objv[p + 1])] else []
  }

  lemma ByRolesCons(table: seq<Entry>, objv: seq<string>, src: nat, role: Role, rest: seq<Role>, dst: nat)
    requires src + 1 + |rest| == |objv|
    ensures ByRoles(table, objv, src, [role] + rest, dst)
            == AndThen(if role.Unmatched? || role.Trailing? then [objv[src]] else [],
                       if role.Key? then KeyStores(table, objv, src, dst) else [],
                       ByRoles(table, objv, src + 1, rest, if role.Unmatched? then dst + 1 else dst))
  {
    hide KeyStores, AndThen;
    assert ([role] + rest)[1..] == rest;
  }

  lemma {:induction false} TrailingByRoles(table: seq<Entry>, objv: seq<string>, src: nat, dst: nat)
    requires src <= |objv|
    ensures ByRoles(table, objv, src, seq(|objv| - src, _ => Trailing), dst) == Result(objv[src..], [], None)
    decreases |objv| - src
  {
    hide KeyStores;
    if src < |objv| {
      assert seq(|objv| - src, _ => Trailing) == [Trailing] + seq(|objv| - src - 1, _ => Trailing);
      ByRolesCons(table, objv, src, Trailing, seq(|objv| - src - 1, _ => Trailing), dst);
      TrailingByRoles(table, objv, src + 1, dst);
    }
  }

  /** A successful parse hands back, in order, exactly the unmatched arguments and then everything after a TCL_ARGV_REST
      option, and stores, in order, exactly what its keys ask for. */
  lemma {:induction false} ParseConserves(env: Env, table: seq<Entry>, keep: bool, objv: seq<string>,
                                          src: nat, dst: nat)
    requires src <= |objv| && Parse(env, table, keep, objv, src, dst).error.None?
    ensures Parse(env, table, keep, objv, src, dst) == ByRoles(table, objv, src, Roles(env, table, objv, src), dst)
    decreases |objv| - src, 1
  {
    hide MatchOf, Means, Own, Width, KeyStores;
    if src < |objv| {
      match MatchOf(table, objv[src])
      case Ambiguous =>
      case Matched(i) =>
        MatchedInTable(table, objv[src]);
        if table[i].kind.Rest? {
          ByRolesCons(table, objv, src, Key, seq(|objv| - src - 1, _ => Trailing), dst);
          TrailingByRoles(table, objv, src + 1, dst);
          OwnIsKeyStores(env, table, objv, src, dst, i);
        } else {
          MatchedConserves(env, table, keep, objv, src, dst, i);
        }
      case NoMatch =>
        ParseConserves(env, table, keep, objv, src + 1, dst + 1);
        ByRolesCons(table, objv, src, Unmatched, Roles(env, table, objv, src + 1), dst);
    }
  }

  lemma OwnIsKeyStores(env: Env, table: seq<Entry>, objv: seq<string>, src: nat, dst: nat, i: nat)
    requires src < |objv| && MatchOf(table, objv[src]) == Matched(i) && i < |table|
    requires table[i].kind.Rest? || Own(env, table, objv, src, i).error.None?
    ensures KeyStores(table, objv, src, dst) ==
              if !table[i].kind.Rest? then Own(env, table, objv, src, i).stores
              else if table[i].stored then [StoreIndex(i, dst)] else []
  {
    hide MatchOf;
  }

  lemma {:induction false} MatchedConserves(env: Env, table: seq<Entry>, keep: bool, objv: seq<string>,
                                            src: nat, dst: nat, i: nat)
    requires src < |objv| && Parse(env, table, keep, objv, src, dst).error.None?
    requires MatchOf(table, objv[src]) == Matched(i) && i < |table| && !table[i].kind.Rest?
    ensures Parse(env, table, keep, objv, src, dst) == ByRoles(table, objv, src, Roles(env, table, objv, src), dst)
    decreases |objv| - src, 0
  {
    hide MatchOf, Means, Own, KeyStores, ByRoles, Width;
    OwnIsKeyStores(env, table, objv, src, dst, i);
    var next := src + Width(env, table, objv, src, i);
    var stores := Own(env, table, objv, src, i).stores;
    var q := Parse(env, table, keep, objv, next, dst);
    AndThenLaws([], stores, [], [], q);
    if next > |objv| {
      ByRolesCons(table, objv, src, Key, [], dst);
      AtTheEnd(env, table, keep, objv, next, dst);
    } else {
      ParseConserves(env, table, keep, objv, next, dst);
      if next == src + 2 {
        var rest := Roles(env, table, objv, src + 2);
        ByRolesCons(table, objv, src, Key, [Value] + rest, dst);
        ByRolesCons(table, objv, src + 1, Value, rest, dst);
      } else {
        ByRolesCons(table, objv, src, Key, Roles(env, table, objv, src + 1), dst);
      }
    }
  }

  lemma AtTheEnd(env: Env, table: seq<Entry>, keep: bool, objv: seq<string>, src: nat, dst: nat)
    requires src >= |objv|
    ensures Parse(env, table, keep, objv, src, dst) == ByRoles(table, objv, |objv|, [], dst) == Result([], [], None)
  {
  }

  /** The option at place p takes the next argument for its value: all of three types do, handlers may. */
  ghost predicate UsesNext(env: Env, table: seq<Entry>, objv: seq<string>, p: nat)
    requires p < |objv|
  {
    var m := MatchOf(table, objv[p]);
    && m.Matched? && m.entry < |table|
    && match table[m.entry].kind
       case Int => true
       case Str => true
       case Float => true
       case Func => env.handler(m.entry, if p + 1 < |objv| then Some(objv[p + 1]) else None)
       case _ => false
  }

  /** The role of an argument is decided by its match and by the role of the one before it. */
  ghost predicate RoleFits(env: Env, table: seq<Entry>, objv: seq<string>, src: nat, roles: seq<Role>, k: nat)
    requires k < |roles| && src + |roles| <= |objv|
  {
    var p := src + k - 1;
    roles[k] ==
    if k > 0 && (roles[k - 1].Trailing? || (roles[k - 1].Key? && IsRest(table, objv[p]))) then Trailing
    else if k > 0 && roles[k - 1].Key? && UsesNext(env, table, objv, p) then Value
    else if MatchOf(table, objv[src + k]).Matched? then Key else Unmatched
  }

  lemma UsesNextIsWidth(env: Env, table: seq<Entry>, objv: seq<string>, p: nat)
    requires p < |objv|
    ensures var m := MatchOf(table, objv[p]);
            m.Matched? && m.entry < |table| ==>
              (UsesNext(env, table, objv, p) <==> Width(env, table, objv, p, m.entry) == 2)
    ensures var m := MatchOf(table, objv[p]);
            UsesNext(env, table, objv, p) ==> m.Matched? && m.entry < |table| && !IsRest(table, objv[p])
  {
    hide MatchOf;
  }

  /** Every argument plays a role that fits: the roles are not just any split of the list. */
  lemma {:induction false} RolesFit(env: Env, table: seq<Entry>, objv: seq<string>, src: nat, k: nat)
    requires src <= |objv| && k < |objv| - src
    ensures RoleFits(env, table, objv, src, Roles(env, table, objv, src), k)
    decreases |objv| - src, 1
  {
    hide MatchOf, Means, Width, UsesNext;
    UsesNextIsWidth(env, table, objv, src);
    MatchedInTable(table, objv[src]);
    var m := MatchOf(table, objv[src]);
    var roles := Roles(env, table, objv, src);
    if IsRest(table, objv[src]) {
      assert k > 0 ==> roles[k].Trailing?;
    } else if m.Matched? && Width(env, table, objv, src, m.entry) == 2 && src + 1 < |objv| {
      FitsAfterValue(env, table, objv, src, k);
    } else {
      FitsAfter(env, table, objv, src, k);
    }
  }

  lemma {:induction false} FitsAfterValue(env: Env, table: seq<Entry>, objv: seq<string>, src: nat, k: nat)
    requires src + 1 < |objv| && k < |objv| - src && !IsRest(table, objv[src])
    requires var m := MatchOf(table, objv[src]);
             m.Matched? && m.entry < |table| && Width(env, table, objv, src, m.entry) == 2
    requires Roles(env, table, objv, src) == [Key, Value] + Roles(env, table, objv, src + 2)
    ensures RoleFits(env, table, objv, src, Roles(env, table, objv, src), k)
    decreases |objv| - src, 0
  {
    hide MatchOf, Means, Width, IsRest, UsesNext, Roles;
    UsesNextIsWidth(env, table, objv, src);
    var roles, rest := Roles(env, table, objv, src), Roles(env, table, objv, src + 2);
    if k >= 2 {
      RolesFit(env, table, objv, src + 2, k - 2);
      assert roles[2..] == rest;
    }
    if k > 2 {
      FitsLater(env, table, objv, src, roles, 2, k);
    }
  }

  lemma {:induction false} FitsAfter(env: Env, table: seq<Entry>, objv: seq<string>, src: nat, k: nat)
    requires src < |objv| && k < |objv| - src && !IsRest(table, objv[src])
    requires var m := MatchOf(table, objv[src]);
             m.Matched? && m.entry < |table| && Width(env, table, objv, src, m.entry) == 2 ==> src + 1 == |objv|
    requires var m := MatchOf(table, objv[src]);
             Roles(env, table, objv, src) == [if m.Matched? then Key else Unmatched] + Roles(env, table, objv, src + 1)
    ensures RoleFits(env, table, objv, src, Roles(env, table, objv, src), k)
    decreases |objv| - src, 0
  {
    hide MatchOf, Means, Width, IsRest, UsesNext, Roles;
    UsesNextIsWidth(env, table, objv, src);
    var roles, rest := Roles(env, table, objv, src), Roles(env, table, objv, src + 1);
    if k >= 1 {
      RolesFit(env, table, objv, src + 1, k - 1);
      assert roles[1..] == rest;
    }
    if k > 1 {
      FitsLater(env, table, objv, src, roles, 1, k);
    }
  }

  /** A role that fits in the list from w on fits in the whole list. */
  lemma FitsLater(env: Env, table: seq<Entry>, objv: seq<string>, src: nat, roles: seq<Role>, w: nat, k: nat)
    requires w < k < |roles| && src + |roles| <= |objv| && RoleFits(env, table, objv, src + w, roles[w..], k - w)
    ensures RoleFits(env, table, objv, src, roles, k)
  {
    hide MatchOf, IsRest, UsesNext;
    assert roles[w..][k - w] == roles[k] && roles[w..][k - w - 1] == roles[k - 1];
  }

  /** A stored index that says where, among the arguments handed back, those after a TCL_ARGV_REST option begin. */
  ghost predicate IndexesTrailing(table: seq<Entry>, objv: seq<string>, src: nat, dst: nat, left: seq<string>, n: nat) {
    && dst <= n <= dst + |left|
    && exists k :: src < k <= |objv| && left[n - dst..] == objv[k..] && IsRest(table, objv[k - 1])
  }

  /** The index that a TCL_ARGV_REST option stores is where, in the list handed back, the arguments after it begin. */
  lemma {:induction false} RestIndexPointsAtTrailing(env: Env, table: seq<Entry>, objv: seq<string>, src: nat, dst: nat)
    requires var p := Parse(env, table, true, objv, src, dst);
             p.error.None? && p.stores != [] && p.stores[|p.stores| - 1].StoreIndex?
    ensures var p := Parse(env, table, true, objv, src, dst);
            IndexesTrailing(table, objv, src, dst, p.left, p.stores[|p.stores| - 1].index)
    decreases |objv| - src
  {
    hide MatchOf, Means, Own, Width, IndexesTrailing;
    match MatchOf(table, objv[src])
    case Ambiguous =>
    case Matched(i) =>
      MatchedInTable(table, objv[src]);
      if table[i].kind.Rest? {
        TrailingIndexed(table, objv, src, dst);
      } else {
        OwnStoresNoIndex(env, table, objv, src, i);
        var next := src + Width(env, table, objv, src, i);
        var q := Parse(env, table, true, objv, next, dst);
        RestIndexPointsAtTrailing(env, table, objv, next, dst);
        IndexedEarlier(table, objv, src, next, dst, [], q.left, q.stores[|q.stores| - 1].index);
      }
    case NoMatch =>
      var q := Parse(env, table, true, objv, src + 1, dst + 1);
      assert [] + q.stores == q.stores;
      RestIndexPointsAtTrailing(env, table, objv, src + 1, dst + 1);
      IndexedEarlier(table, objv, src, src + 1, dst, [objv[src]], q.left, q.stores[|q.stores| - 1].index);
  }

  /** Without leftovers nothing is kept, so the index stored is the number kept before, wherever the arguments after
      the option begin. */
  lemma {:induction false} RestIndexWithoutLeftovers(env: Env, table: seq<Entry>, objv: seq<string>, src: nat, dst: nat)
    requires var p := Parse(env, table, false, objv, src, dst);
             p.error.None? && p.stores != [] && p.stores[|p.stores| - 1].StoreIndex?
    ensures var p := Parse(env, table, false, objv, src, dst);
            p.stores[|p.stores| - 1].index == dst
    decreases |objv| - src
  {
    hide MatchOf, Means, Own, Width;
    match MatchOf(table, objv[src])
    case Ambiguous =>
    case NoMatch =>
    case Matched(i) =>
      MatchedInTable(table, objv[src]);
      if !table[i].kind.Rest? {
        OwnStoresNoIndex(env, table, objv, src, i);
        RestIndexWithoutLeftovers(env, table, objv, src + Width(env, table, objv, src, i), dst);
      }
  }

  /** A place in a list from which on it holds exactly the arguments after a TCL_ARGV_REST option. */
  ghost predicate StartsTrailing(table: seq<Entry>, objv: seq<string>, list: seq<string>, n: nat) {
    n <= |list| && exists k :: 1 < k <= |objv| && list[n..] == objv[k..] && IsRest(table, objv[k - 1])
  }

  /** The index that a whole call stores for a TCL_ARGV_REST option can be used by the caller, on the list handed
      back or else on the arguments themselves, exactly when the caller asked for the leftovers. */
  lemma RestIndexUsable(env: Env, table: seq<Entry>, keep: bool, objv: seq<string>)
    requires objv != []
    requires var p := Parse(env, table, keep, objv, 1, 1);
             p.error.None? && p.stores != [] && p.stores[|p.stores| - 1].StoreIndex?
    ensures var p := Parse(env, table, keep, objv, 1, 1);
            var list := if keep then [objv[0]] + p.left else objv;
            StartsTrailing(table, objv, list, p.stores[|p.stores| - 1].index) <==> keep
  {
    hide Parse, IsRest;
    var p := Parse(env, table, keep, objv, 1, 1);
    var n := p.stores[|p.stores| - 1].index;
    if keep {
      RestIndexPointsAtTrailing(env, table, objv, 1, 1);
      assert ([objv[0]] + p.left)[n..] == p.left[n - 1..];
    } else {
      RestIndexWithoutLeftovers(env, table, objv, 1, 1);
    }
  }

  lemma TrailingIndexed(table: seq<Entry>, objv: seq<string>, src: nat, dst: nat)
    requires src < |objv| && IsRest(table, objv[src])
    ensures IndexesTrailing(table, objv, src, dst, objv[src + 1..], dst)
  {
    hide IsRest;
    var left := objv[src + 1..];
    assert left[dst - dst..] == objv[src + 1..] && IsRest(table, objv[src + 1 - 1]);
  }

  /** What is kept before an index moves it and the place it points at alike. */
  lemma IndexedEarlier(table: seq<Entry>, objv: seq<string>, src: nat, next: nat, dst: nat,
                       kept: seq<string>, left: seq<string>, n: nat)
    requires src <= next && IndexesTrailing(table, objv, next, dst + |kept|, left, n)
    ensures IndexesTrailing(table, objv, src, dst, kept + left, n)
  {
    hide IsRest;
    assert (kept + left)[n - dst..] == left[n - dst - |kept|..];
  }

  lemma OwnStoresNoIndex(env: Env, table: seq<Entry>, objv: seq<string>, src: nat, i: nat)
    requires i < |table|
    ensures var own := Own(env, table, objv, src, i);
            forall k :: 0 <= k < |own.stores| ==> !own.stores[k].StoreIndex?
  {
  }

  /** The error that argument k by itself raises, by its match, the type of its entry and the argument after it. */
  function ErrorAt(env: Env, table: seq<Entry>, keep: bool, objv: seq<string>, k: nat): Option<Error>
    requires k < |objv|
  {
    match MatchOf(table, objv[k])
    case Ambiguous => Some(AmbiguousOption)
    case NoMatch => if keep then None else Some(Unrecognized)
    case Matched(i) =>
      if i >= |table| then None else
      match table[i].kind
      case Int =>
        if k + 1 == |objv| then Some(MissingArgument) else if env.isInt(objv[k + 1]) then None else Some(BadInteger)
      case Float =>
        if k + 1 == |objv| then Some(MissingArgument) else if env.isFloat(objv[k + 1]) then None else Some(BadFloat)
      case Str => if k + 1 == |objv| then Some(MissingArgument) else None
      case Help => Some(HelpAsked)
      case Unknown => Some(BadType)
      case _ => None
  }

  lemma OwnError(env: Env, table: seq<Entry>, keep: bool, objv: seq<string>, k: nat)
    requires k < |objv|
    ensures ErrorAt(env, table, keep, objv, k) ==
              match MatchOf(table, objv[k])
              case Ambiguous => Some(AmbiguousOption)
              case NoMatch => if keep then None else Some(Unrecognized)
              case Matched(i) => if i >= |table| || table[i].kind.Rest? then None else Own(env, table, objv, k, i).error
  {
    hide MatchOf;
  }

  /** No argument that is looked at as an option, by its role, raises an error. */
  ghost predicate NoErrors(env: Env, table: seq<Entry>, keep: bool, objv: seq<string>, src: nat, roles: seq<Role>)
    requires src + |roles| == |objv|
  {
    forall k :: 0 <= k < |roles| && (roles[k].Key? || roles[k].Unmatched?) ==>
      ErrorAt(env, table, keep, objv, src + k).None?
  }

  /** A parse succeeds exactly when no argument that is looked at as an option raises an error. */
  lemma {:induction false} ParseSucceeds(env: Env, table: seq<Entry>, keep: bool, objv: seq<string>, src: nat, dst: nat)
    requires src <= |objv|
    ensures Parse(env, table, keep, objv, src, dst).error.None? <==>
              NoErrors(env, table, keep, objv, src, Roles(env, table, objv, src))
    decreases |objv| - src, 1
  {
    hide MatchOf, Means, Own, Width, ErrorAt, NoErrors;
    if src == |objv| {
      NoErrorsNil(env, table, keep, objv);
    } else {
      MatchedInTable(table, objv[src]);
      OwnError(env, table, keep, objv, src);
      match MatchOf(table, objv[src])
      case Matched(i) =>
        if table[i].kind.Rest? {
          NoErrorsCons(env, table, keep, objv, src, Key, seq(|objv| - src - 1, _ => Trailing));
          TrailingNoErrors(env, table, keep, objv, src + 1);
        } else {
          MatchedSucceeds(env, table, keep, objv, src, dst, i);
        }
      case _ =>
        NoErrorsCons(env, table, keep, objv, src, Unmatched, Roles(env, table, objv, src + 1));
        ParseSucceeds(env, table, keep, objv, src + 1, dst + 1);
    }
  }

  lemma {:induction false} MatchedSucceeds(env: Env, table: seq<Entry>, keep: bool, objv: seq<string>,
                                           src: nat, dst: nat, i: nat)
    requires src < |objv| && MatchOf(table, objv[src]) == Matched(i) && i < |table| && !table[i].kind.Rest?
    ensures Parse(env, table, keep, objv, src, dst).error.None? <==>
              NoErrors(env, table, keep, objv, src, Roles(env, table, objv, src))
    decreases |objv| - src, 0
  {
    hide MatchOf, Means, Own, Width, ErrorAt, NoErrors, Parse, Roles;
    OwnError(env, table, keep, objv, src);
    MatchedTurn(env, table, keep, objv, src, dst, i);
    if Width(env, table, objv, src, i) == 2 && src + 1 < |objv| {
      var rest := Roles(env, table, objv, src + 2);
      NoErrorsCons(env, table, keep, objv, src, Key, [Value] + rest);
      NoErrorsCons(env, table, keep, objv, src + 1, Value, rest);
      ParseSucceeds(env, table, keep, objv, src + 2, dst);
    } else {
      NoErrorsCons(env, table, keep, objv, src, Key, Roles(env, table, objv, src + 1));
      ParseSucceeds(env, table, keep, objv, src + 1, dst);
    }
  }

  lemma MatchedTurn(env: Env, table: seq<Entry>, keep: bool, objv: seq<string>, src: nat, dst: nat, i: nat)
    requires src < |objv| && MatchOf(table, objv[src]) == Matched(i) && i < |table| && !table[i].kind.Rest?
    ensures var own, value := Own(env, table, objv, src, i), Width(env, table, objv, src, i) == 2 && src + 1 < |objv|;
            var next := if value then src + 2 else src + 1;
            && Parse(env, table, keep, objv, src, dst).error
               == (if own.error.Some? then own.error else Parse(env, table, keep, objv, next, dst).error)
            && Roles(env, table, objv, src)
               == [Key] + if value then [Value] + Roles(env, table, objv, src + 2) else Roles(env, table, objv, src + 1)
  {
    hide MatchOf, Means, Own;
  }

  lemma NoErrorsNil(env: Env, table: seq<Entry>, keep: bool, objv: seq<string>)
    ensures NoErrors(env, table, keep, objv, |objv|, [])
  {
  }

  lemma NoErrorsCons(env: Env, table: seq<Entry>, keep: bool, objv: seq<string>, src: nat, role: Role, rest: seq<Role>)
    requires src + 1 + |rest| == |objv|
    ensures NoErrors(env, table, keep, objv, src, [role] + rest) <==>
              && (role.Key? || role.Unmatched? ==> ErrorAt(env, table, keep, objv, src).None?)
              && NoErrors(env, table, keep, objv, src + 1, rest)
  {
    hide ErrorAt;
    var all := [role] + rest;
    assert all[0] == role && forall k :: 0 <= k < |rest| ==> all[k + 1] == rest[k];
    if NoErrors(env, table, keep, objv, src, all) {
      forall k | 0 <= k < |rest| && (rest[k].Key? || rest[k].Unmatched?)
        ensures ErrorAt(env, table, keep, objv, src + 1 + k).None?
      {
        assert all[k + 1] == rest[k] && src + (k + 1) == src + 1 + k;
      }
    }
  }

  lemma TrailingNoErrors(env: Env, table: seq<Entry>, keep: bool, objv: seq<string>, src: nat)
    requires src <= |objv|
    ensures NoErrors(env, table, keep, objv, src, seq(|objv| - src, _ => Trailing))
  {
    hide ErrorAt;
  }

  /** Argument k raises the error, and the arguments before it parse without one and store the same. */
  ghost predicate FailsAt(env: Env, table: seq<Entry>, keep: bool, objv: seq<string>, src: nat, dst: nat,
                          k: nat, p: Result)
  {
    && src <= k < |objv| && p.error.Some? && ErrorAt(env, table, keep, objv, k) == p.error
    && var before := Parse(env, table, keep, objv[..k], src, dst);
       before.error.None? && before.stores == p.stores
  }

  /** An error is raised by one argument and leaves exactly the stores of the arguments before it. */
  lemma {:induction false} StoresBeforeError(env: Env, table: seq<Entry>, keep: bool, objv: seq<string>,
                                             src: nat, dst: nat)
    returns (k: nat)
    requires Parse(env, table, keep, objv, src, dst).error.Some?
    ensures FailsAt(env, table, keep, objv, src, dst, k, Parse(env, table, keep, objv, src, dst))
    decreases |objv| - src
  {
    hide MatchOf, Means, Own, Width, ErrorAt;
    OwnError(env, table, keep, objv, src);
    MatchedInTable(table, objv[src]);
    var m := MatchOf(table, objv[src]);
    if m.NoMatch? && keep {
      k := StoresBeforeError(env, table, keep, objv, src + 1, dst + 1);
      assert objv[..k][src] == objv[src];
    } else if m.Matched? && Own(env, table, objv, src, m.entry).error.None? {
      k := StoresBeforeError(env, table, keep, objv, src + Width(env, table, objv, src, m.entry), dst);
      ShorterList(env, table, keep, objv, src, dst, m.entry, k);
    } else {
      k := src;
      assert Parse(env, table, keep, objv[..k], src, dst) == Result([], [], None);
    }
  }

  /** A matched option does the same when the list is cut somewhere after what it uses. */
  lemma ShorterList(env: Env, table: seq<Entry>, keep: bool, objv: seq<string>, src: nat, dst: nat, i: nat, k: nat)
    requires i < |table| && src + Width(env, table, objv, src, i) <= k < |objv|
    requires MatchOf(table, objv[src]) == Matched(i)
    requires !table[i].kind.Rest? && Own(env, table, objv, src, i).error.None?
    requires Parse(env, table, keep, objv[..k], src + Width(env, table, objv, src, i), dst).error.None?
    ensures var p, q := Parse(env, table, keep, objv[..k], src, dst),
                        Parse(env, table, keep, objv[..k], src + Width(env, table, objv, src, i), dst);
            p.error.None? && p.stores == Own(env, table, objv, src, i).stores + q.stores
  {
    hide MatchOf, Means;
    var cut := objv[..k];
    assert cut[src] == objv[src];
    if src + 1 < k {
      assert Next(cut, src) == Next(objv, src);
    } else {
      assert Own(env, table, cut, src, i) == Own(env, table, objv, src, i);
    }
  }
}
