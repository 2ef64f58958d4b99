/** Counting and locating operands by type: `cs_op_count` and `cs_op_index`. */
module Operands {
  /** The architectures fall into three groups: unknown ones, EVM, whose operands
      are not kept, and the rest, which all run the same loop. */
  datatype Arch = Unknown | Evm | WithOperands

  datatype Err = Ok | ErrDetail | ErrSkipdata | ErrHandle

  /** What the two queries look at: the handle's settings and the record. */
  datatype Query = Query(detail: bool, arch: Arch, id: nat, hasDetail: bool, types: seq<nat>)

  /** How many of the first n operands have the type. */
  ghost function Count(types: seq<nat>, t: nat, n: nat): nat
    requires n <= |types|
  {
    |set i | 0 <= i < n && types[i] == t|
  }

  lemma CountNext(types: seq<nat>, t: nat, n: nat)
    requires n < |types|
    ensures Count(types, t, n + 1) == Count(types, t, n) + if types[n] == t then 1 else 0
  {
    var before, all := set i | 0 <= i < n && types[i] == t, set i | 0 <= i < n + 1 && types[i] == t;
    assert all == if types[n] == t then before + {n} else before;
  }

  lemma {:induction false} CountGrows(types: seq<nat>, t: nat, m: nat, n: nat)
    requires m <= n <= |types|
    ensures Count(types, t, m) <= Count(types, t, n)
    decreases n
  {
    hide Count;
    if m < n {
      CountNext(types, t, n - 1);
      CountGrows(types, t, m, n - 1);
    }
  }

  /** At most one operand of the type has a given number of others before it, so an index asked for is unique. */
  lemma IndexUnique(types: seq<nat>, t: nat, i: nat, j: nat)
    requires i < |types| && j < |types| && types[i] == types[j] == t && Count(types, t, i) == Count(types, t, j)
    ensures i == j
  {
    hide Count;
    CountNext(types, t, i);
    CountNext(types, t, j);
    if i < j {
      CountGrows(types, t, i + 1, j);
    } else if j < i {
      CountGrows(types, t, j + 1, i);
    }
  }

  /** The tests that both queries begin with, each with its error. */
  method Admit(q: Query) returns (err: Err)
    ensures err == ErrDetail <==> !q.detail || (q.id != 0 && !q.hasDetail)
    ensures err == ErrSkipdata <==> q.detail && q.id == 0
    ensures err == ErrHandle <==> q.detail && q.id != 0 && q.hasDetail && q.arch.Unknown?
    ensures err == Ok <==> q.detail && q.id != 0 && q.hasDetail && !q.arch.Unknown?
  {
    if !q.detail {
      return ErrDetail;
    }
    if q.id == 0 {
      return ErrSkipdata;
    }
    if !q.hasDetail {
      return ErrDetail;
    }
    err := if q.arch.Unknown? then ErrHandle else Ok;
  }

  method OpCount(q: Query, t: nat) returns (r: int, err: Err)
    ensures err == ErrDetail <==> !q.detail || (q.id != 0 && !q.hasDetail)
    ensures err == ErrSkipdata <==> q.detail && q.id == 0
    ensures err == ErrHandle <==> q.detail && q.id != 0 && q.hasDetail && q.arch.Unknown?
    ensures err == Ok && q.arch.WithOperands? ==> r == |set i | 0 <= i < |q.types| && q.types[i] == t|
    ensures err == Ok && q.arch.Evm? ==> r == 0
    ensures err != Ok ==> r == -1
  {
    err := Admit(q);
    if err != Ok {
      return -1, err;
    }
    var count := 0;
    if q.arch.WithOperands? {
      for i := 0 to |q.types|
        invariant count == Count(q.types, t, i)
      {
        CountNext(q.types, t, i);
        if q.types[i] == t {
          count := count + 1;
        }
      }
    }
    r := count;
  }

  /** The operand of the type with post - 1 others before it, and -1 past the last. Asked for number 0 it answers 0
      when there is a first operand and it is of another type. */
  method OpIndex(q: Query, t: nat, post: nat) returns (r: int, err: Err)
    ensures err == ErrDetail <==> !q.detail || (q.id != 0 && !q.hasDetail)
    ensures err == ErrSkipdata <==> q.detail && q.id == 0
    ensures err == ErrHandle <==> q.detail && q.id != 0 && q.hasDetail && q.arch.Unknown?
    ensures err != Ok || q.arch.Evm? ==> r == -1
    ensures err == Ok && q.arch.WithOperands? ==>
              if 1 <= post <= |set i | 0 <= i < |q.types| && q.types[i] == t|
              then 0 <= r < |q.types| && q.types[r] == t && |set i | 0 <= i < r && q.types[i] == t| == post - 1
              else r == if post == 0 && q.types != [] && q.types[0] != t then 0 else -1
  {
    err := Admit(q);
    if err != Ok || q.arch.Evm? {
      return -1, err;
    }
    var count := 0;
    for i := 0 to |q.types|
      invariant count == Count(q.types, t, i)
      invariant post > 0 ==> count < post
      invariant post == 0 && i > 0 ==> q.types[0] == t && count > 0
    {
      CountNext(q.types, t, i);
      if q.types[i] == t {
        count := count + 1;
      }
      if count == post {
        CountGrows(q.types, t, i + 1, |q.types|);
        return i, err;
      }
    }
    r := -1;
  }
}
