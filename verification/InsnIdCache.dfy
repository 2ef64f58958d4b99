/** The lazily built table from instruction ids to entries of the instruction map. */
module InsnIdCache {
  import opened Words

  /** The last entry with this id among the first n, entry 0 not counted; 0 when there is none. */
  function LastIndex(ids: seq<Word16>, id: nat, n: nat): (i: nat)
    requires n <= |ids|
    ensures i < n || i == 0
    ensures i > 0 ==> ids[i] == id
    ensures forall j :: i < j < n ==> ids[j] != id
  {
    if n <= 1 then 0 else if ids[n - 1] == id then n - 1 else LastIndex(ids, id, n - 1)
  }

  class InsnMap {
    const ids: seq<Word16>
    var cache: array?<Word16>

    constructor (ids: seq<Word16>)
      ensures this.ids == ids && cache == null
    {
      this.ids, cache := ids, null;
    }

    /** What the source assumes of its tables: the largest id comes last, and an entry number fits 16 bits. */
    ghost predicate WellOrdered() {
      0 < |ids| < TWO16 && forall i :: 0 < i < |ids| ==> ids[i] <= ids[|ids| - 1]
    }

    /** One slot for every id up to the largest. */
    function Slots(): nat
      requires 0 < |ids|
    {
      var maxId: nat := ids[|ids| - 1];
      maxId + 1
    }

    ghost predicate Valid()
      reads this, cache
    {
      && WellOrdered()
      && (cache != null ==>
            && cache.Length == Slots()
            && forall id :: 0 <= id < cache.Length ==> cache[id] == LastIndex(ids, id, |ids|))
    }

    method MakeId2Insn() returns (made: array<Word16>)
      requires WellOrdered()
      ensures fresh(made) && made.Length == Slots()
      ensures forall id :: 0 <= id < made.Length ==> made[id] == LastIndex(ids, id, |ids|)
    {
      made := new Word16[Slots()](_ => 0);
      var i := 1;
      while i < |ids|
        invariant 1 <= i <= |ids|
        invariant forall id :: 0 <= id < made.Length ==> made[id] == LastIndex(ids, id, i)
      {
        made[ids[i]] := i;
        i := i + 1;
      }
    }

    method Find(id: nat) returns (r: Word16)
      requires Valid()
      modifies this
      ensures Valid() && (cache == old(cache) || fresh(cache))
      ensures r == LastIndex(ids, id, |ids|)
    {
      if id > ids[|ids| - 1] {
        return 0;
      }
      if cache == null {
        cache := MakeId2Insn();
      }
      r := cache[id];
    }

    /** Any number of lookups through the one cache. */
    method FindAll(queries: seq<nat>) returns (rs: seq<Word16>)
      requires Valid()
      modifies this
      ensures Valid() && |rs| == |queries|
      ensures forall i :: 0 <= i < |rs| ==> rs[i] == LastIndex(ids, queries[i], |ids|)
    {
      rs := [];
      for i := 0 to |queries|
        invariant Valid() && |rs| == i && (cache == old(cache) || fresh(cache))
        invariant forall j :: 0 <= j < i ==> rs[j] == LastIndex(ids, queries[j], |ids|)
      {
        var r := Find(queries[i]);
        rs := rs + [r];
      }
    }
  }

  /** A linear scan in the other direction gives the same answer. */
  method LinearScan(ids: seq<Word16>, id: nat) returns (r: nat)
    requires 0 < |ids|
    ensures r == LastIndex(ids, id, |ids|)
  {
    r := 0;
    for i := 1 to |ids|
      invariant r == LastIndex(ids, id, i)
    {
      if ids[i] == id {
        r := i;
      }
    }
  }
}
