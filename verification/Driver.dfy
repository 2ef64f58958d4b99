/** The heap as the driver sees it. Every block ever handed out has its own number, so a block
    freed twice, or used after it was freed, is a violated precondition. */
module BlockHeap {
  import opened Words

  datatype Block = InsnArray(slots: nat) | Detail

  class Heap {
    /** Whether the n-th request for memory is granted: any pattern of failures. */
    const grants: nat -> bool
    var live: map<nat, Block>
    var next: nat
    var requests: nat
    /** What each request was for. */
    ghost var log: seq<Block>

    ghost predicate Valid()
      reads this
    {
      |log| == requests && forall b :: b in live ==> b < next
    }

    constructor (grants: nat -> bool)
      ensures Valid() && live == map[] && requests == 0 && this.grants == grants
    {
      this.grants, live, next, requests, log := grants, map[], 0, 0, [];
    }

    method Malloc(block: Block) returns (b: Option<nat>)
      requires Valid()
      modifies this
      ensures Valid() && requests == old(requests) + 1 && log == old(log) + [block] && next >= old(next)
      ensures b.Some? <==> grants(old(requests))
      ensures b.Some? ==> b.value >= old(next) && b.value !in old(live) && live == old(live)[b.value := block]
      ensures b.None? ==> live == old(live)
    {
      requests, log := requests + 1, log + [block];
      if grants(requests - 1) {
        b := Some(next);
        live := live[next := block];
        next := next + 1;
      } else {
        b := None;
      }
    }

    /** On success the old block is gone and its contents are in the new one. */
    method Realloc(b: nat, block: Block) returns (r: Option<nat>)
      requires Valid() && b in live
      modifies this
      ensures Valid() && requests == old(requests) + 1 && log == old(log) + [block] && next >= old(next)
      ensures r.Some? <==> grants(old(requests))
      ensures r.Some? ==> r.value >= old(next) && r.value !in old(live) && live == (old(live) - {b})[r.value := block]
      ensures r.None? ==> live == old(live)
    {
      requests, log := requests + 1, log + [block];
      if grants(requests - 1) {
        r := Some(next);
        live := (live - {b})[next := block];
        next := next + 1;
      } else {
        r := None;
      }
    }

    method Free(b: Option<nat>)
      requires Valid() && (b.Some? ==> b.value in live)
      modifies this`live
      ensures Valid() && live == if b.Some? then old(live) - {b.value} else old(live)
    {
      if b.Some? {
        live := live - {b.value};
      }
    }
  }
}

/** `cs_disasm`, `cs_disasm_iter` and `cs_free`: the growing output array, the detail
    blocks, and what is still allocated on every way out. */
module Driver {
  import opened Words
  import opened Disassembly
  import opened BlockHeap
  import opened CacheGrowth

  /** One element of the output array. */
  datatype Slot = Slot(insn: Insn, detail: Option<nat>)

  /** How a call ends: with records, with none, with CS_ERR_MEM, or about to overflow the bytes
      field of a record because a skipdata callback asked for it. */
  datatype Outcome = Listing(block: nat, slots: array<Slot>) | NothingDecoded | OutOfMemory | FieldOverflow

  // ---- Ownership

  ghost predicate DistinctDetails(slots: seq<Slot>) {
    forall i, j :: 0 <= i < j < |slots| && slots[i].detail.Some? && slots[j].detail.Some? ==>
      slots[i].detail.value != slots[j].detail.value
  }

  ghost function Details(slots: seq<Slot>): set<nat> {
    set i | 0 <= i < |slots| && slots[i].detail.Some? :: slots[i].detail.value
  }

  /** `live` holds what `base` held and, besides, exactly the detail blocks of `slots`. */
  ghost predicate OwnsDetails(live: map<nat, Block>, base: map<nat, Block>, slots: seq<Slot>) {
    && DistinctDetails(slots)
    && Details(slots) !! base.Keys
    && live.Keys == base.Keys + Details(slots)
    && (forall b :: b in base ==> live[b] == base[b])
    && (forall b :: b in Details(slots) ==> live[b] == Detail)
  }

  /** `live` holds what `base` held and, besides, exactly one array of n slots and the detail blocks. */
  ghost predicate OwnsListing(live: map<nat, Block>, base: map<nat, Block>, block: nat, n: nat, slots: seq<Slot>) {
    block !in base && OwnsDetails(live, base[block := InsnArray(n)], slots)
  }

  lemma DetailsAppend(slots: seq<Slot>, s: Slot)
    ensures Details(slots + [s]) == Details(slots) + (if s.detail.Some? then {s.detail.value} else {})
  {
    var all := slots + [s];
    assert all[|slots|] == s;
    assert forall i :: 0 <= i < |slots| ==> all[i] == slots[i];
    if s.detail.Some? {
      assert s.detail.value in Details(all);
    }
    forall b | b in Details(slots) ensures b in Details(all) {
      var i :| 0 <= i < |slots| && slots[i].detail.Some? && slots[i].detail.value == b;
      assert all[i].detail.value == b;
    }
  }

  lemma OwnsAppend(live: map<nat, Block>, base: map<nat, Block>, slots: seq<Slot>, s: Slot, live': map<nat, Block>)
    requires OwnsDetails(live, base, slots)
    requires s.detail.Some? ==> s.detail.value !in live && live' == live[s.detail.value := Detail]
    requires s.detail.None? ==> live' == live
    ensures OwnsDetails(live', base, slots + [s])
  {
    DetailsAppend(slots, s);
    var all := slots + [s];
    forall i, j | 0 <= i < j < |all| && all[i].detail.Some? && all[j].detail.Some?
      ensures all[i].detail.value != all[j].detail.value
    {
      assert all[i] == slots[i];
      if j == |slots| {
        assert slots[i].detail.value in Details(slots);
      } else {
        assert all[j] == slots[j];
      }
    }
  }

  lemma OwnsTail(live: map<nat, Block>, base: map<nat, Block>, slots: seq<Slot>, live': map<nat, Block>)
    requires slots != [] && OwnsDetails(live, base, slots)
    requires live' == if slots[0].detail.Some? then live - {slots[0].detail.value} else live
    ensures slots[0].detail.Some? ==> slots[0].detail.value in live
    ensures OwnsDetails(live', base, slots[1..])
  {
    var d, tail := slots[0].detail, slots[1..];
    assert forall i :: 0 <= i < |tail| ==> tail[i] == slots[i + 1];
    assert d.Some? ==> d.value in Details(slots);
    forall b ensures b in Details(tail) <==> b in Details(slots) && Some(b) != d {
      if b in Details(tail) {
        var i :| 0 <= i < |tail| && tail[i].detail.Some? && tail[i].detail.value == b;
        assert slots[i + 1].detail.value == b;
      }
      if b in Details(slots) && Some(b) != d {
        var i :| 0 <= i < |slots| && slots[i].detail.Some? && slots[i].detail.value == b;
        assert tail[i - 1].detail.value == b;
      }
    }
  }

  /** Moving the array to another block, with another size, moves nothing else. */
  lemma OwnsMoved(live: map<nat, Block>, base: map<nat, Block>, b: nat, n: nat, slots: seq<Slot>,
                  b': nat, n': nat, live': map<nat, Block>)
    requires OwnsListing(live, base, b, n, slots)
    requires b' !in live && live' == (live - {b})[b' := InsnArray(n')]
    ensures b in live && OwnsListing(live', base, b', n', slots)
  {
  }

  // ---- cs_free, and the clean-up loops of cs_disasm

  method FreeDetails(heap: Heap, slots: array<Slot>, c: nat, ghost base: map<nat, Block>)
    requires heap.Valid() && c <= slots.Length
    requires OwnsDetails(heap.live, base, slots[..c])
    modifies heap`live
    ensures heap.Valid() && heap.live == base
  {
    var i := 0;
    while i < c
      invariant 0 <= i <= c && heap.Valid()
      invariant OwnsDetails(heap.live, base, slots[i..c])
    {
      ghost var rest := slots[i..c];
      ghost var live := heap.live;
      assert rest[0] == slots[i] && rest[1..] == slots[i + 1..c];
      OwnsTail(live, base, rest, if slots[i].detail.Some? then live - {slots[i].detail.value} else live);
      heap.Free(slots[i].detail);
      i := i + 1;
    }
    assert slots[i..c] == [];
    assert Details([]) == {};
  }

  lemma BaseRestored(base: map<nat, Block>, block: nat, b: Block)
    requires block !in base
    ensures base[block := b] - {block} == base
  {
  }

  /** Frees the detail blocks and then the array: what is left is what there was before. */
  method CsFree(heap: Heap, block: nat, slots: array<Slot>, count: nat, ghost base: map<nat, Block>)
    requires heap.Valid() && count <= slots.Length
    requires OwnsListing(heap.live, base, block, slots.Length, slots[..count])
    modifies heap`live
    ensures heap.Valid() && heap.live == base
  {
    FreeDetails(heap, slots, count, base[block := InsnArray(slots.Length)]);
    heap.Free(Some(block));
    BaseRestored(base, block, InsnArray(slots.Length));
  }

  // ---- One turn of the loop

  /** The body of the loop up to the point where the record is complete: a detail block is taken
      first and given back when the bytes do not decode. */
  method TakeStep(e: Engine, heap: Heap, code: seq<Byte>, pos: nat, address: Word64)
    returns (r: Option<Slot>, n: nat, overflow: bool)
    requires e.Valid() && heap.Valid() && pos < |code|
    modifies heap
    ensures heap.Valid() && heap.requests == old(heap.requests) + (if e.detail then 1 else 0)
    ensures heap.log == if e.detail then old(heap.log) + [Detail] else old(heap.log)
    ensures var s := DisasmStep(e, code, pos, address);
            if !s.Take? then r.None? && overflow == s.Overflow? && heap.live == old(heap.live)
            else && r.Some? && r.value.insn == s.step.insn && n == s.step.consumed
                 && (r.value.detail.Some? <==> e.detail && !s.step.data && heap.grants(old(heap.requests)))
                 && (if r.value.detail.Some?
                     then r.value.detail.value !in old(heap.live)
                          && heap.live == old(heap.live)[r.value.detail.value := Detail]
                     else heap.live == old(heap.live))
  {
    var detail := None;
    if e.detail {
      detail := heap.Malloc(Detail);
    }
    var rest := code[pos..];
    var d := e.decode(rest, address);
    assert ValidDecoding(rest, d);
    if d.Some? {
      return Some(Slot(DecodedInsn(e, rest, address, d.value), detail)), d.value.size, false;
    }
    if e.detail {
      heap.Free(detail);
    }
    if !e.skipdata || e.skipdataSize > |rest| {
      return None, 0, false;
    }
    if e.callback.Some? {
      n := e.callback.value(code, pos);
      if n > |rest| || n == 0 {
        return None, 0, false;
      }
    } else {
      n := e.skipdataSize;
    }
    if n > BYTES_FIELD {
      return None, 0, true;
    }
    return Some(Slot(DataInsn(e, rest, address, n), None)), n, false;
  }

  // ---- The output array

  /** The array after a granted realloc: longer or shorter, with the first c slots kept. */
  method Resized(total: array<Slot>, c: nat, n: nat) returns (r: array<Slot>)
    requires c <= total.Length && c <= n
    ensures fresh(r) && r.Length == n && r[..c] == total[..c]
  {
    r := new Slot[n](_ => Slot(Insn(0, 0, 0, [], "", ""), None));
    forall i | 0 <= i < c {
      r[i] := total[i];
    }
  }

  /** What a listing says about a run: the same records, and a detail block exactly for the decoded ones whose
      request was granted. The request for slot i is number asked[i], between first and last. */
  ghost predicate Lists(e: Engine, slots: seq<Slot>, steps: seq<Step>, grants: nat -> bool,
                        asked: seq<nat>, first: nat, last: nat)
  {
    && |slots| == |steps| == |asked|
    && (forall i :: 0 <= i < |slots| ==> slots[i].insn == steps[i].insn)
    && (forall i :: 0 <= i < |slots| ==> (slots[i].detail.Some? <==> e.detail && !steps[i].data && grants(asked[i])))
    && (e.detail ==> forall i :: 0 <= i < |asked| ==> first <= asked[i] < last)
    && (e.detail ==> forall i, j :: 0 <= i < j < |asked| ==> asked[i] < asked[j])
  }

  /** Between two turns: the array holds the records so far, and the heap has the blocks from before the call,
      the array's and those of the records. */
  ghost predicate Holding(e: Engine, heap: Heap, block: nat, total: array<Slot>, c: nat, base: map<nat, Block>,
                          done: seq<Step>, asked: seq<nat>, first: nat)
    reads heap, total
  {
    && c <= total.Length && first <= heap.requests == |heap.log| && ArraysGranted(heap.log, heap.grants, first)
    && Lists(e, total[..c], done, heap.grants, asked, first, heap.requests)
    && OwnsListing(heap.live, base, block, total.Length, total[..c])
  }

  /** From request number first on, every request for the array was granted; those for details may not have been. */
  ghost predicate ArraysGranted(log: seq<Block>, grants: nat -> bool, first: nat) {
    forall k :: first <= k < |log| && log[k].InsnArray? ==> grants(k)
  }

  lemma LogGrows(log: seq<Block>, grants: nat -> bool, first: nat, block: Block)
    requires first <= |log| && ArraysGranted(log, grants, first)
    ensures ArraysGranted(log + [block], grants, first) <==> block.Detail? || grants(|log|)
  {
    var all := log + [block];
    assert all[|log|] == block && forall k :: 0 <= k < |log| ==> all[k] == log[k];
  }

  lemma HoldingGranted(e: Engine, heap: Heap, block: nat, total: array<Slot>, c: nat, base: map<nat, Block>,
                       done: seq<Step>, asked: seq<nat>, first: nat)
    requires Holding(e, heap, block, total, c, base, done, asked, first)
    ensures ArraysGranted(heap.log, heap.grants, first)
  {
  }

  lemma StartsHolding(e: Engine, heap: Heap, block: nat, total: array<Slot>, base: map<nat, Block>, first: nat)
    requires block !in base && heap.live == base[block := InsnArray(total.Length)]
    requires first <= heap.requests == |heap.log| && ArraysGranted(heap.log, heap.grants, first)
    ensures Holding(e, heap, block, total, 0, base, [], [], first)
  {
    assert Details([]) == {} && total[..0] == [];
  }

  lemma ListingAppend(live: map<nat, Block>, base: map<nat, Block>, block: nat, n: nat, slots: seq<Slot>, s: Slot,
                      live': map<nat, Block>)
    requires OwnsListing(live, base, block, n, slots)
    requires s.detail.Some? ==> s.detail.value !in live && live' == live[s.detail.value := Detail]
    requires s.detail.None? ==> live' == live
    ensures OwnsListing(live', base, block, n, slots + [s])
  {
    OwnsAppend(live, base[block := InsnArray(n)], slots, s, live');
  }

  lemma OwnedIsLive(live: map<nat, Block>, base: map<nat, Block>, block: nat, n: nat, slots: seq<Slot>)
    requires OwnsListing(live, base, block, n, slots)
    ensures block in live
  {
  }

  lemma ListsAppend(e: Engine, slots: seq<Slot>, steps: seq<Step>, grants: nat -> bool, asked: seq<nat>,
                    first: nat, last: nat, slot: Slot, step: Step)
    requires Lists(e, slots, steps, grants, asked, first, last) && first <= last
    requires slot.insn == step.insn && (slot.detail.Some? <==> e.detail && !step.data && grants(last))
    ensures Lists(e, slots + [slot], steps + [step], grants, asked + [last], first, last + 1)
  {
  }

  lemma ListsLater(e: Engine, slots: seq<Slot>, steps: seq<Step>, grants: nat -> bool, asked: seq<nat>,
                   first: nat, last: nat, last': nat)
    requires Lists(e, slots, steps, grants, asked, first, last) && (e.detail ==> last <= last')
    ensures Lists(e, slots, steps, grants, asked, first, last')
  {
  }

  /** No detail block exists when details were not asked for. */
  lemma NoDetails(e: Engine, live: map<nat, Block>, base: map<nat, Block>, slots: seq<Slot>)
    requires (forall i :: 0 <= i < |slots| ==> slots[i].detail.None?) && OwnsDetails(live, base, slots)
    ensures live == base
  {
    assert Details(slots) == {};
  }

  /** The way out when the array can be neither grown nor shrunk. */
  method Abandon(e: Engine, heap: Heap, block: nat, total: array<Slot>, c: nat, ghost base: map<nat, Block>,
                 ghost steps: seq<Step>, ghost asked: seq<nat>, ghost first: nat, ghost last: nat)
    requires heap.Valid() && c <= total.Length
    requires Lists(e, total[..c], steps, heap.grants, asked, first, last)
    requires OwnsListing(heap.live, base, block, total.Length, total[..c])
    modifies heap`live
    ensures heap.Valid() && heap.live == base
  {
    ghost var withArray := base[block := InsnArray(total.Length)];
    if e.detail {
      FreeDetails(heap, total, c, withArray);
    } else {
      NoDetails(e, heap.live, withArray, total[..c]);
    }
    heap.Free(Some(block));
    BaseRestored(base, block, InsnArray(total.Length));
  }

  /** A realloc of the array to n slots; refused, it ends the call. */
  method Resize(e: Engine, heap: Heap, block: nat, total: array<Slot>, c: nat, n: nat, ghost base: map<nat, Block>,
                ghost steps: seq<Step>, ghost asked: seq<nat>, ghost first: nat)
    returns (ok: bool, block': nat, total': array<Slot>)
    requires heap.Valid() && c <= n && Holding(e, heap, block, total, c, base, steps, asked, first)
    modifies heap
    ensures heap.Valid() && heap.requests == old(heap.requests) + 1 && (ok <==> heap.grants(old(heap.requests)))
    ensures ok ==> && fresh(total') && total'.Length == n && total'[..c] == total[..c]
                   && Holding(e, heap, block', total', c, base, steps, asked, first)
    ensures !ok ==> heap.live == base && !ArraysGranted(heap.log, heap.grants, first)
  {
    hide Lists, OwnsListing, OwnsDetails;
    OwnedIsLive(heap.live, base, block, total.Length, total[..c]);
    ListsLater(e, total[..c], steps, heap.grants, asked, first, heap.requests, heap.requests + 1);
    LogGrows(heap.log, heap.grants, first, InsnArray(n));
    ghost var live := heap.live;
    var moved := heap.Realloc(block, InsnArray(n));
    ok, block', total' := moved.Some?, block, total;
    if ok {
      block' := moved.value;
      OwnsMoved(live, base, block, total.Length, total[..c], block', n, heap.live);
      total' := Resized(total, c, n);
    } else {
      Abandon(e, heap, block, total, c, base, steps, asked, first, heap.requests);
    }
  }

  method Store(total: array<Slot>, c: nat, slot: Slot)
    requires c < total.Length
    modifies total
    ensures total[..c + 1] == old(total[..c]) + [slot]
  {
    total[c] := slot;
  }

  /** `done` are the first records of the whole run, and the rest of it, with its end, starts at `pos`. */
  ghost predicate Progress(e: Engine, code: seq<Byte>, address: Word64, done: seq<Step>, pos: nat, offset: Word64)
    requires e.Valid() && pos <= |code|
  {
    && DisasmRun(e, code, 0, address) == done + DisasmRun(e, code, pos, offset)
    && DisasmEnd(e, code, 0, address) == DisasmEnd(e, code, pos, offset)
  }

  /** The run, as far as it is asked for, meets an overflow. */
  ghost predicate MeetsOverflow(e: Engine, code: seq<Byte>, address: Word64, count: nat)
    requires e.Valid()
  {
    DisasmEnd(e, code, 0, address) == Overflow && (count == 0 || |DisasmRun(e, code, 0, address)| < count)
  }

  lemma ProgressStart(e: Engine, code: seq<Byte>, address: Word64)
    requires e.Valid()
    ensures Progress(e, code, address, [], 0, address)
  {
  }

  lemma ProgressStep(e: Engine, code: seq<Byte>, address: Word64, done: seq<Step>, pos: nat, offset: Word64)
    requires e.Valid() && pos < |code| && Progress(e, code, address, done, pos, offset)
    requires DisasmStep(e, code, pos, offset).Take?
    ensures var s := DisasmStep(e, code, pos, offset).step;
            Progress(e, code, address, done + [s], pos + s.consumed, Advance(offset, s.consumed))
  {
    hide DisasmStep, Advance;
    var s := DisasmStep(e, code, pos, offset).step;
    var left := DisasmRun(e, code, pos + s.consumed, Advance(offset, s.consumed));
    assert done + ([s] + left) == done + [s] + left;
  }

  /** The loop stops with the records asked for: enough of them, or all there are. */
  lemma ProgressEnd(e: Engine, code: seq<Byte>, address: Word64, done: seq<Step>, pos: nat, offset: Word64, count: nat)
    requires e.Valid() && pos <= |code| && Progress(e, code, address, done, pos, offset)
    requires (count > 0 && |done| == count) ||
             ((count == 0 || |done| < count) && !DisasmStep(e, code, pos, offset).Take?)
    ensures done == Limit(DisasmRun(e, code, 0, address), count)
    ensures done == [] ==> DisasmRun(e, code, 0, address) == []
    ensures MeetsOverflow(e, code, address, count) <==>
              (count == 0 || |done| < count) && DisasmStep(e, code, pos, offset) == Overflow
  {
    hide DisasmStep;
  }

  lemma NoStepAtEnd(e: Engine, code: seq<Byte>, offset: Word64)
    requires e.Valid()
    ensures DisasmStep(e, code, |code|, offset) == Stop
  {
  }

  /** From the end of the loop on: give everything back when nothing was decoded, and
      otherwise cut the array down to the records it holds. */
  method Finish(e: Engine, heap: Heap, block: nat, total: array<Slot>, c: nat, f: nat, cacheSize: nat,
                ghost base: map<nat, Block>, ghost done: seq<Step>, ghost asked: seq<nat>, ghost first: nat)
    returns (r: Outcome)
    requires heap.Valid() && f <= c && f <= cacheSize && total.Length == (c - f) + cacheSize
    requires Holding(e, heap, block, total, c, base, done, asked, first)
    modifies heap
    ensures heap.Valid() && !r.FieldOverflow?
    ensures r.Listing? ==> && (r.slots == total || fresh(r.slots)) && r.slots.Length == c > 0
                           && Lists(e, r.slots[..], done, heap.grants, asked, first, heap.requests)
                           && OwnsListing(heap.live, base, r.block, c, r.slots[..])
    ensures r.NothingDecoded? ==> c == 0 && heap.live == base
    ensures r.OutOfMemory? ==> heap.live == base
    ensures r.OutOfMemory? <==> !ArraysGranted(heap.log, heap.grants, first)
  {
    hide Lists, OwnsListing, OwnsDetails;
    if c == 0 {
      Abandon(e, heap, block, total, 0, base, done, asked, first, heap.requests);
      return NothingDecoded;
    }
    if f != cacheSize {
      var ok, block', total' := Resize(e, heap, block, total, c, c, base, done, asked, first);
      if !ok {
        return OutOfMemory;
      }
      assert total'[..] == total'[..c];
      return Listing(block', total');
    }
    assert total[..] == total[..c];
    return Listing(block, total);
  }

  /** One turn of the loop: a record more, in the next slot, or none and everything as it was. */
  method TakeRecord(e: Engine, heap: Heap, code: seq<Byte>, address: Word64, pos: nat, offset: Word64,
                    block: nat, total: array<Slot>, c: nat,
                    ghost base: map<nat, Block>, ghost done: seq<Step>, ghost asked: seq<nat>, ghost first: nat)
    returns (n: nat, overflow: bool, ghost done': seq<Step>, ghost asked': seq<nat>)
    requires e.Valid() && heap.Valid() && pos < |code| && c < total.Length
    requires Progress(e, code, address, done, pos, offset)
    requires Holding(e, heap, block, total, c, base, done, asked, first)
    modifies heap, total
    ensures heap.Valid()
    ensures var s := DisasmStep(e, code, pos, offset);
            if !s.Take? then n == 0 && overflow == s.Overflow? && done' == done
            else 1 <= n <= |code| - pos && !overflow && |done'| == |done| + 1
                 && Progress(e, code, address, done', pos + n, Advance(offset, n))
    ensures Holding(e, heap, block, total, if n == 0 then c else c + 1, base, done', asked', first)
  {
    hide DisasmStep, Advance, Progress, Lists, OwnsListing, OwnsDetails;
    ghost var live, slots, last := heap.live, total[..c], heap.requests;
    LogGrows(heap.log, heap.grants, first, Detail);
    var slot, size, over := TakeStep(e, heap, code, pos, offset);
    if slot.None? {
      ListsLater(e, slots, done, heap.grants, asked, first, last, heap.requests);
      return 0, over, done, asked;
    }
    Store(total, c, slot.value);
    ListingAppend(live, base, block, total.Length, slots, slot.value, heap.live);
    ghost var step := DisasmStep(e, code, pos, offset).step;
    ListsAppend(e, slots, done, heap.grants, asked, first, last, slot.value, step);
    ListsLater(e, slots + [slot.value], done + [step], heap.grants, asked + [last], first, last + 1, heap.requests);
    ProgressStep(e, code, address, done, pos, offset);
    return size, false, done + [step], asked + [last];
  }

  /** How the loop over the code ends: a refused realloc and an overflow leave the call at once. */
  datatype LoopEnd = Ended | Refused | Overflowed

  /** The loop. Of the array's slots, `cacheSize` came with the last growth and f of those are in use. */
  method ReadCode(e: Engine, heap: Heap, code: seq<Byte>, address: Word64, count: nat, block0: nat, total0: array<Slot>,
                  ghost base: map<nat, Block>, ghost first: nat)
    returns (end: LoopEnd, block: nat, total: array<Slot>, c: nat, f: nat, cacheSize: nat,
             ghost done: seq<Step>, ghost asked: seq<nat>)
    requires e.Valid() && heap.Valid() && 0 < total0.Length
    requires Growable(total0.Length) || total0.Length == count
    requires Holding(e, heap, block0, total0, 0, base, [], [], first)
    modifies heap, total0
    ensures heap.Valid()
    ensures end.Ended? ==> && (total == total0 || fresh(total))
                           && f <= c && f <= cacheSize && total.Length == (c - f) + cacheSize
                           && done == Limit(DisasmRun(e, code, 0, address), count)
                           && (c == 0 ==> DisasmRun(e, code, 0, address) == [])
                           && Holding(e, heap, block, total, c, base, done, asked, first)
    ensures end.Refused? ==> heap.live == base
    ensures end.Refused? <==> !ArraysGranted(heap.log, heap.grants, first)
    ensures !end.Refused? ==> (end.Overflowed? <==> MeetsOverflow(e, code, address, count))
  {
    hide *;
    block, total, cacheSize, c, f, done, asked := block0, total0, total0.Length, 0, 0, [], [];
    var pos, offset := 0, address;
    ProgressStart(e, code, address);
    while pos < |code|
      invariant (total == total0 || fresh(total)) && heap.Valid()
      invariant f <= c == |done| <= pos <= |code| && f < cacheSize && total.Length == (c - f) + cacheSize
      invariant Growable(cacheSize) || cacheSize == count
      invariant count > 0 ==> c < count
      invariant Progress(e, code, address, done, pos, offset)
      invariant Holding(e, heap, block, total, c, base, done, asked, first)
      decreases |code| - pos
    {
      var n, overflow;
      n, overflow, done, asked :=
        TakeRecord(e, heap, code, address, pos, offset, block, total, c, base, done, asked, first);
      if n == 0 {
        HoldingGranted(e, heap, block, total, c, base, done, asked, first);
        ProgressEnd(e, code, address, done, pos, offset, count);
        end := if overflow then Overflowed else Ended;
        return;
      }
      f, c, pos, offset := f + 1, c + 1, pos + n, Advance(offset, n);
      if count > 0 && c == count {
        HoldingGranted(e, heap, block, total, c, base, done, asked, first);
        ProgressEnd(e, code, address, done, pos, offset, count);
        end := Ended;
        return;
      }
      if f == cacheSize {
        GrowableGrows(cacheSize);
        cacheSize, f := GrowCache(cacheSize), 0;
        var ok;
        ok, block, total := Resize(e, heap, block, total, c, c + cacheSize, base, done, asked, first);
        if !ok {
          end := Refused;
          return;
        }
      }
    }
    HoldingGranted(e, heap, block, total, c, base, done, asked, first);
    NoStepAtEnd(e, code, offset);
    ProgressEnd(e, code, address, done, pos, offset, count);
    end := Ended;
  }

  /** The driver. `asked` tells which request was made for the detail block of each record. */
  method CsDisasm(e: Engine, heap: Heap, code: seq<Byte>, address: Word64, count: nat,
                  insnCacheSize: nat, sysDynMem: bool) returns (r: Outcome, ghost asked: seq<nat>)
    requires e.Valid() && heap.Valid() && (insnCacheSize == 8 || insnCacheSize == 32)
    modifies heap
    ensures heap.Valid()
    ensures var run := DisasmRun(e, code, 0, address);
            match r
            case Listing(block, slots) =>
              && fresh(slots) && slots.Length > 0
              && Lists(e, slots[..], Limit(run, count), heap.grants, asked, old(heap.requests), heap.requests)
              && OwnsListing(heap.live, old(heap.live), block, slots.Length, slots[..])
            case NothingDecoded => run == [] && heap.live == old(heap.live)
            case OutOfMemory => heap.live == old(heap.live)
            case FieldOverflow => true
    ensures r.OutOfMemory? <==> !ArraysGranted(heap.log, heap.grants, old(heap.requests))
    ensures r.FieldOverflow? ==> MeetsOverflow(e, code, address, count)
    ensures MeetsOverflow(e, code, address, count) ==> r.FieldOverflow? || r.OutOfMemory?
  {
    hide *;
    asked := [];
    var cacheSize := insnCacheSize;
    if sysDynMem && 0 < count <= insnCacheSize {
      cacheSize := count;
    }
    StartsGrowable();
    ghost var base, first := heap.live, heap.requests;
    var got := heap.Malloc(InsnArray(cacheSize));
    FirstRequest(heap.log, heap.grants, first, InsnArray(cacheSize));
    if got.None? {
      return OutOfMemory, asked;
    }
    var block := got.value;
    var total := new Slot[cacheSize](_ => Slot(Insn(0, 0, 0, [], "", ""), None));
    StartsHolding(e, heap, block, total, base, first);
    var end, c, f;
    ghost var done;
    end, block, total, c, f, cacheSize, done, asked :=
      ReadCode(e, heap, code, address, count, block, total, base, first);
    match end
    case Refused => r := OutOfMemory;
    case Overflowed => r := FieldOverflow;
    case Ended => r := Finish(e, heap, block, total, c, f, cacheSize, base, done, asked, first);
  }

  lemma FirstRequest(log: seq<Block>, grants: nat -> bool, first: nat, block: Block)
    requires |log| == first + 1 && log[first] == block && block.InsnArray?
    ensures ArraysGranted(log, grants, first) <==> grants(first)
  {
  }

  lemma StartsGrowable()
    ensures Growable(8) && Growable(32)
  {
  }

  /** A caller that frees what it was given leaves the heap as it found it, however the requests went. */
  method DisasmAndFree(e: Engine, heap: Heap, code: seq<Byte>, address: Word64, count: nat,
                       insnCacheSize: nat, sysDynMem: bool)
    requires e.Valid() && heap.Valid() && (insnCacheSize == 8 || insnCacheSize == 32)
    modifies heap
    ensures heap.Valid()
    ensures !MeetsOverflow(e, code, address, count) ==> heap.live == old(heap.live)
  {
    hide MeetsOverflow, DisasmRun, Lists;
    var r, asked := CsDisasm(e, heap, code, address, count, insnCacheSize, sysDynMem);
    if r.Listing? {
      assert r.slots[..r.slots.Length] == r.slots[..];
      CsFree(heap, r.block, r.slots, r.slots.Length, old(heap.live));
    }
  }

  // ---- cs_disasm_iter

  /** One call: on success the three in-out arguments move past the instruction. */
  method CsDisasmIter(e: Engine, code: seq<Byte>, address: Word64)
    returns (insn: Option<Insn>, code': seq<Byte>, address': Word64, overflow: bool)
    requires e.Valid()
    ensures var s := IterStep(e, code, address);
            && overflow == s.Overflow?
            && if !s.Take? then insn.None? && code' == code && address' == address
               else insn == Some(s.step.insn) && code' == code[s.step.consumed..]
                    && address' == Advance(address, s.step.consumed)
  {
    insn, code', address', overflow := None, code, address, false;
    var d := e.decode(code, address);
    assert ValidDecoding(code, d);
    if d.Some? {
      insn := Some(DecodedInsn(e, code, address, d.value));
      code', address' := code[d.value.size..], Advance(address, d.value.size);
    } else {
      if !e.skipdata || e.skipdataSize > |code| {
        return;
      }
      var n := e.skipdataSize;
      if e.callback.Some? {
        n := e.callback.value(code, 0);
        if n > |code| || n == 0 {
          return;
        }
      }
      if n > BYTES_FIELD {
        overflow := true;
        return;
      }
      insn := Some(DataInsn(e, code, address, n));
      code', address' := code[n..], Advance(address, n);
    }
  }

  function Insns(steps: seq<Step>): seq<Insn> {
    seq(|steps|, i requires 0 <= i < |steps| => steps[i].insn)
  }

  /** The caller's loop: call until the iterator says false. */
  method IterateToEnd(e: Engine, code: seq<Byte>, address: Word64) returns (insns: seq<Insn>, overflow: bool)
    requires e.Valid()
    ensures insns == Insns(IterRun(e, code, address))
    ensures overflow <==> IterEnd(e, code, address) == Overflow
  {
    hide IterStep, Advance, Engine.Valid;
    insns := [];
    var rest, offset := code, address;
    ghost var done: seq<Step> := [];
    while true
      invariant insns == Insns(done)
      invariant IterRun(e, code, address) == done + IterRun(e, rest, offset)
      invariant IterEnd(e, code, address) == IterEnd(e, rest, offset)
      decreases |rest|
    {
      ghost var s := IterStep(e, rest, offset);
      var insn, rest', offset';
      insn, rest', offset', overflow := CsDisasmIter(e, rest, offset);
      if insn.None? {
        assert IterRun(e, rest, offset) == [];
        return;
      }
      ghost var left := IterRun(e, rest', offset');
      assert done + ([s.step] + left) == done + [s.step] + left;
      done := done + [s.step];
      insns := insns + [insn.value];
      rest, offset := rest', offset';
    }
  }

  /** The listing of a full `cs_disasm` call holds the records that the iterator loop returns. */
  lemma ListingIsIterated(e: Engine, code: seq<Byte>, address: Word64, slots: seq<Slot>,
                          grants: nat -> bool, asked: seq<nat>, first: nat, last: nat)
    requires e.Valid() && SameSkips(e, code, 0, address)
    requires Lists(e, slots, Limit(DisasmRun(e, code, 0, address), 0), grants, asked, first, last)
    ensures |slots| == |Insns(IterRun(e, code, address))|
    ensures forall i :: 0 <= i < |slots| ==> slots[i].insn == Insns(IterRun(e, code, address))[i]
  {
    assert code[0..] == code;
    RunsAgree(e, code, 0, address);
  }
}
