/** The list of customised mnemonics behind a handle: a singly linked heap list, edited in place by
    `cs_option(CS_OPT_MNEMONIC)`, read by `fill_insn` and released by `cs_close`. */
module Mnemonics {
  import opened Words
  import opened Disassembly

  class Node {
    var id: Word32
    var mnemonic: string
    var next: Node?

    constructor (id: Word32, mnemonic: string, next: Node?)
      ensures this.id == id && this.mnemonic == mnemonic && this.next == next
    {
      this.id, this.mnemonic, this.next := id, mnemonic, next;
    }
  }

  /** A CS_OPT_MNEMONIC request: set a name, or delete it when none is given. */
  datatype Request = Request(id: Word32, mnemonic: Option<string>)

  // ---- What a list of entries stands for

  /** The entries hold each nonzero id of the table once, with its name. */
  ghost predicate Represents(entries: seq<(Word32, string)>, table: map<Word32, string>) {
    && (forall i, j :: 0 <= i < j < |entries| ==> entries[i].0 != entries[j].0)
    && (forall i :: 0 <= i < |entries| ==> entries[i].0 != 0 && entries[i].0 in table && table[entries[i].0] == entries[i].1)
    && (forall id :: id in table ==> HasId(entries, id))
  }

  ghost predicate HasId(entries: seq<(Word32, string)>, id: Word32) {
    exists i :: 0 <= i < |entries| && entries[i].0 == id
  }

  lemma PushRepresents(entries: seq<(Word32, string)>, table: map<Word32, string>, id: Word32, name: string)
    requires Represents(entries, table) && id != 0 && id !in table
    ensures Represents([(id, name)] + entries, table[id := name])
  {
    var all := [(id, name)] + entries;
    assert all[0].0 == id;
    forall j | j in table ensures HasId(all, j) {
      assert HasId(entries, j);
      var i :| 0 <= i < |entries| && entries[i].0 == j;
      assert all[i + 1].0 == j;
    }
  }

  lemma ReplaceRepresents(entries: seq<(Word32, string)>, table: map<Word32, string>, k: nat, name: string)
    requires Represents(entries, table) && k < |entries|
    ensures Represents(entries[k := (entries[k].0, name)], table[entries[k].0 := name])
  {
    var id := entries[k].0;
    var all := entries[k := (id, name)];
    assert forall i :: 0 <= i < |all| ==> all[i].0 == entries[i].0;
    forall j | j in table ensures HasId(all, j) {
      assert HasId(entries, j);
      var i :| 0 <= i < |entries| && entries[i].0 == j;
      assert all[i].0 == j;
    }
  }

  lemma RemoveRepresents(entries: seq<(Word32, string)>, table: map<Word32, string>, k: nat)
    requires Represents(entries, table) && k < |entries|
    ensures Represents(Without(entries, k), table - {entries[k].0})
  {
    var id := entries[k].0;
    var all := Without(entries, k);
    assert forall i :: 0 <= i < |all| ==> all[i] == entries[if i < k then i else i + 1];
    forall j | j in table && j != id ensures HasId(all, j) {
      assert HasId(entries, j);
      var i :| 0 <= i < |entries| && entries[i].0 == j;
      assert all[if i < k then i else i - 1].0 == j;
    }
  }

  // ---- The heap list

  class Handle {
    var mnemList: Node?
    /** The nodes allocated and not yet freed. */
    var live: set<Node>
    ghost var nodes: seq<Node>
    ghost var entries: seq<(Word32, string)>
    ghost var table: map<Word32, string>

    ghost predicate Valid()
      reads this, nodes
    {
      Shape() && Represents(entries, table)
    }

    /** The list runs through `nodes` without repetition and ends, and owns exactly the live nodes. */
    ghost predicate Shape()
      reads this, nodes
    {
      Linked(mnemList, nodes) && Distinct(nodes) && live == Elements(nodes) && Mirrors(nodes, entries)
    }

    constructor ()
      ensures Valid() && table == map[] && live == {} && nodes == []
    {
      mnemList, live, nodes, entries, table := null, {}, [], [], map[];
    }

    /** `cs_mem_free`: only for a node that is still allocated. */
    method Free(n: Node)
      requires n in live
      modifies this`live
      ensures live == old(live) - {n}
    {
      live := live - {n};
    }

    /** The walk shared by the lookup and the two edits: the node with this id and the one before it. */
    method Find(id: Word32) returns (prev: Node?, n: Node?, ghost k: nat)
      requires Valid()
      ensures k <= |nodes| && n == NodeAt(nodes, k) && (k > 0 ==> prev == nodes[k - 1]) && (k == 0 ==> prev == n)
      ensures n != null <==> id in table
      ensures n != null ==> k < |entries| && entries[k] == (id, table[id]) && n in live && prev in live
    {
      n, k := mnemList, 0;
      prev := n;
      while n != null
        invariant k <= |nodes| && n == NodeAt(nodes, k)
        invariant (k > 0 ==> prev == nodes[k - 1]) && (k == 0 ==> prev == n)
        invariant forall i :: 0 <= i < k ==> entries[i].0 != id
        decreases |nodes| - k
      {
        assert n == nodes[k];
        if n.id == id {
          return;
        }
        prev, n, k := n, n.next, k + 1;
      }
      assert id in table ==> HasId(entries, id);
    }

    /** The lookup of `fill_insn`. */
    method Lookup(id: Word32) returns (r: Option<string>)
      requires Valid()
      ensures r == if id in table then Some(table[id]) else None
    {
      var _, n, _ := Find(id);
      r := if n == null then None else Some(n.mnemonic);
    }

    /** The text part of `fill_insn`: the printed text up to the first blank, with bars turned into
        spaces, is the mnemonic unless the list has a name for the id; the operands follow the blanks. */
    method FillText(id: Word32, text: string) returns (mnemonic: string, operands: string)
      requires Valid()
      ensures mnemonic == MnemonicText(table, id, text) && operands == OperandText(text)
    {
      hide Represents, Linked, Mirrors, Elements, Distinct;
      var sp := 0;
      mnemonic := [];
      while sp < |text| && !IsBlank(text[sp])
        invariant sp <= BlankIndex(text) && mnemonic == BarsToSpaces(text[..sp])
      {
        mnemonic := mnemonic + [if text[sp] == '|' then ' ' else text[sp]];
        sp := sp + 1;
      }
      var custom := Lookup(id);
      if custom.Some? {
        mnemonic := Truncate(custom.value, MNEMONIC_FIELD);
      }
      if sp < |text| {
        sp := sp + 1;
        ghost var from := sp;
        while sp < |text| && IsBlank(text[sp])
          invariant from <= sp <= |text| && DropBlanks(text[from..]) == DropBlanks(text[sp..])
        {
          sp := sp + 1;
        }
        operands := Truncate(text[sp..], OPERANDS_FIELD);
      } else {
        operands := "";
      }
    }

    /** Writes a name into the node at place k. */
    method Rename(n: Node, name: string, ghost k: nat)
      requires Shape() && k < |nodes| && n == nodes[k]
      modifies n`mnemonic
      ensures Linked(mnemList, nodes) && Mirrors(nodes, entries[k := (entries[k].0, name)])
    {
      n.mnemonic := name;
    }

    method Set(id: Word32, mnemonic: string)
      requires Valid() && id != 0
      modifies this, live
      ensures Valid() && fresh(live - old(live))
      ensures table == old(table)[id := Truncate(mnemonic, MNEMONIC_FIELD)]
    {
      hide Represents, Linked, Distinct, Elements, Mirrors;
      var name := Truncate(mnemonic, MNEMONIC_FIELD);
      var _, n, k := Find(id);
      if n != null {
        ReplaceRepresents(entries, table, k, name);
        Rename(n, name, k);
        entries := entries[k := (id, name)];
      } else {
        PushRepresents(entries, table, id, name);
        var added := new Node(id, name, mnemList);
        ShapePush(mnemList, nodes, entries, added);
        mnemList := added;
        live := live + {added};
        nodes := [added] + nodes;
        entries := [(id, name)] + entries;
      }
      table := table[id := name];
    }

    /** Takes the node at place k out of the chain. */
    method Unlink(prev: Node, n: Node, ghost k: nat)
      requires Linked(mnemList, nodes) && Distinct(nodes) && Mirrors(nodes, entries)
      requires k < |nodes| && n == nodes[k] && prev == nodes[if k == 0 then 0 else k - 1]
      modifies this`mnemList, this`nodes, this`entries, prev`next
      ensures nodes == Without(old(nodes), k) && entries == Without(old(entries), k)
      ensures Linked(mnemList, nodes) && Mirrors(nodes, entries)
    {
      if n == prev {
        mnemList := n.next;
      } else {
        prev.next := n.next;
      }
      MirrorsWithout(nodes, entries, k);
      ghost var rest := Without(nodes, k);
      forall i | 0 <= i < |rest| ensures rest[i].next == NodeAt(rest, i + 1) {
        assert rest[i] == nodes[if i < k then i else i + 1];
      }
      nodes, entries := rest, Without(entries, k);
    }

    method Delete(id: Word32)
      requires Valid()
      modifies this, live
      ensures Valid() && live <= old(live)
      ensures table == old(table) - {id}
    {
      hide Represents, Linked, Distinct, Elements, Mirrors;
      var prev, n, k := Find(id);
      if n != null {
        RemoveRepresents(entries, table, k);
        ElementsWithout(nodes, k);
        Unlink(prev, n, k);
        Free(n);
        table := table - {id};
      }
    }

    /** `cs_option` with CS_OPT_MNEMONIC; a request for id 0 changes nothing. */
    method Customise(r: Request)
      requires Valid()
      modifies this, live
      ensures Valid() && fresh(live - old(live))
      ensures table == Apply(old(table), r)
    {
      if r.id != 0 {
        if r.mnemonic.Some? {
          Set(r.id, r.mnemonic.value);
        } else {
          Delete(r.id);
        }
      }
    }

    /** Any number of requests, one after the other. */
    method CustomiseAll(rs: seq<Request>)
      requires Valid()
      modifies this, live
      ensures Valid() && fresh(live - old(live))
      ensures table == ApplyAll(old(table), rs)
    {
      for i := 0 to |rs|
        invariant Valid() && fresh(live - old(live))
        invariant table == ApplyAll(old(table), rs[..i])
      {
        Customise(rs[i]);
        assert rs[..i + 1][..i] == rs[..i];
      }
      assert rs[..|rs|] == rs;
    }

    /** The release loop of `cs_close`: each node is freed once and none is left. */
    method Close()
      requires Valid()
      modifies this
      ensures live == {} && mnemList == null
    {
      var n := mnemList;
      ghost var k := 0;
      while n != null
        invariant k <= |nodes| && n == NodeAt(nodes, k) && nodes == old(nodes)
        invariant live == Elements(nodes[k..])
        decreases |nodes| - k
      {
        var next := n.next;
        assert nodes[k..] == [n] + nodes[k + 1..];
        Free(n);
        n, k := next, k + 1;
      }
      mnemList := null;
    }
  }

  ghost function Without<T>(s: seq<T>, k: nat): seq<T>
    requires k < |s|
  {
    s[..k] + s[k + 1..]
  }

  ghost predicate Distinct(nodes: seq<Node>) {
    forall i, j :: 0 <= i < j < |nodes| ==> nodes[i] != nodes[j]
  }

  ghost function Elements(nodes: seq<Node>): set<Node> {
    set n | n in nodes
  }

  /** Each node holds the entry at its place. */
  ghost predicate Mirrors(nodes: seq<Node>, entries: seq<(Word32, string)>)
    reads nodes
  {
    |entries| == |nodes| &&
    forall i :: 0 <= i < |nodes| ==> nodes[i].id == entries[i].0 && nodes[i].mnemonic == entries[i].1
  }

  lemma MirrorsWithout(nodes: seq<Node>, entries: seq<(Word32, string)>, k: nat)
    requires Mirrors(nodes, entries) && k < |nodes|
    ensures Mirrors(Without(nodes, k), Without(entries, k))
  {
  }

  lemma ElementsWithout(nodes: seq<Node>, k: nat)
    requires Distinct(nodes) && k < |nodes|
    ensures Distinct(Without(nodes, k))
    ensures Elements(Without(nodes, k)) == Elements(nodes) - {nodes[k]}
  {
    assert nodes == nodes[..k] + [nodes[k]] + nodes[k + 1..];
  }

  ghost function NodeAt(nodes: seq<Node>, i: nat): Node? {
    if i < |nodes| then nodes[i] else null
  }

  ghost predicate Linked(head: Node?, nodes: seq<Node>)
    reads nodes
  {
    && head == NodeAt(nodes, 0)
    && forall i {:trigger nodes[i].next} :: 0 <= i < |nodes| ==> nodes[i].next == NodeAt(nodes, i + 1)
  }

  /** A new node in front. */
  lemma ShapePush(head: Node?, nodes: seq<Node>, entries: seq<(Word32, string)>, n: Node)
    requires Linked(head, nodes) && Distinct(nodes) && Mirrors(nodes, entries) && n !in Elements(nodes) && n.next == head
    ensures Linked(n, [n] + nodes) && Distinct([n] + nodes)
    ensures Mirrors([n] + nodes, [(n.id, n.mnemonic)] + entries)
    ensures Elements([n] + nodes) == Elements(nodes) + {n}
  {
    var all := [n] + nodes;
    forall i | 0 <= i < |all| ensures all[i].next == NodeAt(all, i + 1) {
      if i > 0 {
        assert all[i] == nodes[i - 1];
      }
    }
  }

  // ---- The map that the list stands for

  ghost function Apply(m: map<Word32, string>, r: Request): map<Word32, string> {
    if r.id == 0 then m
    else if r.mnemonic.Some? then m[r.id := Truncate(r.mnemonic.value, MNEMONIC_FIELD)]
    else m - {r.id}
  }

  ghost function ApplyAll(m: map<Word32, string>, rs: seq<Request>): map<Word32, string> {
    if rs == [] then m else Apply(ApplyAll(m, rs[..|rs| - 1]), rs[|rs| - 1])
  }

  /** The last request for an id decides its name, whatever came before and between. */
  lemma {:induction false} LastRequestDecides(m: map<Word32, string>, rs: seq<Request>, k: nat)
    requires k < |rs| && rs[k].id != 0
    requires forall j :: k < j < |rs| ==> rs[j].id != rs[k].id
    ensures var id := rs[k].id;
            var after := ApplyAll(m, rs);
            if rs[k].mnemonic.Some?
            then id in after && after[id] == Truncate(rs[k].mnemonic.value, MNEMONIC_FIELD)
            else id !in after
    decreases |rs|
  {
    if k < |rs| - 1 {
      LastRequestDecides(m, rs[..|rs| - 1], k);
    }
  }

  /** An id never asked for keeps what it had. */
  lemma {:induction false} OthersUntouched(m: map<Word32, string>, rs: seq<Request>, id: Word32)
    requires forall j :: 0 <= j < |rs| ==> rs[j].id != id
    ensures id in ApplyAll(m, rs) <==> id in m
    ensures id in m ==> ApplyAll(m, rs)[id] == m[id]
    decreases |rs|
  {
    if rs != [] {
      OthersUntouched(m, rs[..|rs| - 1], id);
    }
  }
}
