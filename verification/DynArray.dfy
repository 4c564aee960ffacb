/**
 `DynArray`: the growable array under the XML printer and the memory pools, and what its growth
 costs over any sequence of operations.
 */
module DynArrays {

  /** `Push` and `PushArr` grow the array, `Pop` and `PopArr` shrink it. */
  datatype Op = Grow(count: nat) | Shrink(count: nat)

  function Size(ops: seq<Op>): int {
    if ops == [] then 0
    else
      var n, op := |ops| - 1, ops[|ops| - 1];
      if op.Grow? then Size(ops[..n]) + op.count else Size(ops[..n]) - op.count
  }

  /** The largest size ever reached. */
  function Peak(ops: seq<Op>): (p: nat)
    ensures Size(ops) <= p
    ensures forall k | 0 <= k <= |ops| :: Size(ops[..k]) <= p
    ensures exists k :: 0 <= k <= |ops| && Size(ops[..k]) == p
  {
    if ops == [] then
      assert Size(ops[..0]) == 0;
      0
    else
      var n := |ops| - 1;
      var p := Peak(ops[..n]);
      assert ops[..|ops|] == ops;
      assert forall k | 0 <= k <= n :: ops[..n][..k] == ops[..k];
      if Size(ops) > p then Size(ops) else p
  }

  /** What `EnsureCapacity` makes of a request for `cap` elements: twice as many, if there is not enough room. */
  function Allocated(room: nat, cap: int): int {
    if cap > room then 2 * cap else room
  }

  /** The capacity, and how many elements were ever copied to a larger block. */
  function Capacity(initial: nat, ops: seq<Op>): (c: nat)
    ensures Size(ops) <= c
  {
    if ops == [] then initial else Allocated(Capacity(initial, ops[..|ops| - 1]), Size(ops))
  }

  function Copied(initial: nat, ops: seq<Op>): int {
    if ops == [] then 0
    else
      var before := ops[..|ops| - 1];
      Copied(initial, before) + if Size(ops) > Capacity(initial, before) then Size(before) else 0
  }

  /** Nothing is taken from where there is nothing. */
  ghost predicate Possible(ops: seq<Op>) {
    forall k | 0 <= k <= |ops| :: Size(ops[..k]) >= 0
  }

  lemma {:induction false} CopiesFit(initial: nat, ops: seq<Op>)
    ensures Copied(initial, ops) <= Capacity(initial, ops)
    ensures Copied(initial, ops) <= 0 || Copied(initial, ops) < 2 * Peak(ops)
    ensures Peak(ops) <= Capacity(initial, ops) && (Capacity(initial, ops) == initial || Capacity(initial, ops) <= 2 * Peak(ops))
  {
    if ops != [] {
      CopiesFit(initial, ops[..|ops| - 1]);
    }
  }

  /**
   The cost of growing, over every sequence of operations from the start: fewer elements are ever
   copied than twice the largest size reached, and none while the array fits its first block;
   what outgrows it gets room for at most twice the largest size.
   */
  lemma {:induction false} CopiesBounded(initial: nat, ops: seq<Op>)
    requires Possible(ops)
    ensures 0 <= Copied(initial, ops)
    ensures Peak(ops) > 0 ==> Copied(initial, ops) < 2 * Peak(ops)
    ensures Peak(ops) <= initial ==> Copied(initial, ops) == 0 && Capacity(initial, ops) == initial
    ensures Peak(ops) > initial ==> Peak(ops) <= Capacity(initial, ops) <= 2 * Peak(ops)
  {
    CopiesFit(initial, ops);
    NoneNegative(initial, ops);
    if Peak(ops) <= initial {
      NoneCopied(initial, ops);
    }
  }

  lemma {:induction false} NoneNegative(initial: nat, ops: seq<Op>)
    requires Possible(ops)
    ensures 0 <= Copied(initial, ops)
  {
    if ops != [] {
      var n := |ops| - 1;
      assert forall k | 0 <= k <= n :: ops[..n][..k] == ops[..k];
      assert Size(ops[..n]) >= 0;
      NoneNegative(initial, ops[..n]);
    }
  }

  lemma {:induction false} NoneCopied(initial: nat, ops: seq<Op>)
    requires Peak(ops) <= initial
    ensures Copied(initial, ops) == 0 && Capacity(initial, ops) == initial
  {
    if ops != [] {
      NoneCopied(initial, ops[..|ops| - 1]);
    }
  }

  lemma LastOp(initial: nat, ops: seq<Op>, op: Op)
    ensures var ops' := ops + [op];
      && Size(ops') == (if op.Grow? then Size(ops) + op.count else Size(ops) - op.count)
      && Capacity(initial, ops') == Allocated(Capacity(initial, ops), Size(ops'))
      && Copied(initial, ops') == Copied(initial, ops) + if Size(ops') > Capacity(initial, ops) then Size(ops) else 0
  {
    assert (ops + [op])[..|ops|] == ops;
  }

  lemma PossibleMore(ops: seq<Op>, op: Op)
    requires Possible(ops) && Size(ops + [op]) >= 0
    ensures Possible(ops + [op])
  {
    hide Size;
    var ops' := ops + [op];
    forall k | 0 <= k <= |ops'| ensures Size(ops'[..k]) >= 0 {
      if k <= |ops| {
        assert ops'[..k] == ops[..k];
      } else {
        assert ops'[..k] == ops';
      }
    }
  }

  class DynArray<T(0)> {
    const initial: nat
    var mem: array<T>
    var size: nat
    /** What was done so far, and how many elements were copied on the way. */
    ghost var ops: seq<Op>
    ghost var copied: nat

    /** Size, capacity and cost are those of the operations so far. */
    ghost predicate Accounted()
      reads this
    {
      && size == Size(ops) && mem.Length == Capacity(initial, ops)
      && copied == Copied(initial, ops) && Possible(ops)
    }

    ghost predicate Valid()
      reads this
    {
      size <= mem.Length && Accounted()
    }

    ghost function Contents(): seq<T>
      reads this, mem
      requires Valid()
    {
      mem[..size]
    }

    constructor (initialSize: nat)
      requires initialSize > 0
      ensures Valid() && fresh(mem) && Contents() == [] && initial == initialSize && ops == []
    {
      initial := initialSize;
      mem := new T[initialSize];
      size, copied, ops := 0, 0, [];
    }

    /** Growing doubles the capacity asked for and copies what is in use. */
    method EnsureCapacity(cap: nat)
      requires size <= mem.Length && size <= cap
      modifies `mem, `copied
      ensures mem.Length == Allocated(old(mem.Length), cap) && mem[..size] == old(mem[..size])
      ensures mem == old(mem) || fresh(mem)
      ensures copied == old(copied) + if cap > old(mem.Length) then size else 0
    {
      ghost var before := mem[..size];
      if cap > mem.Length {
        var newMem := new T[cap * 2];
        var k := 0;
        while k < size
          invariant k <= size <= mem.Length && newMem.Length == cap * 2
          invariant newMem[..k] == mem[..k] && mem[..size] == before
          modifies newMem
        {
          newMem[k] := mem[k];
          k := k + 1;
        }
        copied := copied + size;
        mem := newMem;
      }
    }

    method Push(t: T)
      requires Valid()
      modifies this, mem
      ensures Valid() && Contents() == old(Contents()) + [t] && ops == old(ops) + [Grow(1)]
      ensures mem == old(mem) || fresh(mem)
    {
      OneMore(Grow(1));
      EnsureCapacity(size + 1);
      mem[size] := t;
      size := size + 1;
      ops := ops + [Grow(1)];
    }

    /** Room for `count` more elements; the index of the first is returned. */
    method PushArr(count: nat) returns (start: nat)
      requires Valid()
      modifies this, mem
      ensures Valid() && start == old(size) && size == start + count && ops == old(ops) + [Grow(count)]
      ensures Contents()[..start] == old(Contents())
      ensures mem == old(mem) || fresh(mem)
    {
      OneMore(Grow(count));
      EnsureCapacity(size + count);
      start := size;
      size := size + count;
      ops := ops + [Grow(count)];
      assert mem[..size][..start] == mem[..start];
    }

    method Pop() returns (t: T)
      requires Valid() && size > 0
      modifies `size, `ops
      ensures Valid() && old(Contents()) == Contents() + [t] && ops == old(ops) + [Shrink(1)]
    {
      OneMore(Shrink(1));
      size := size - 1;
      t := mem[size];
      ops := ops + [Shrink(1)];
    }

    /** The accounts after one more operation. */
    lemma {:induction false} OneMore(op: Op)
      requires Valid() && (op.Shrink? ==> op.count <= size)
      ensures var ops' := ops + [op]; var n := if op.Grow? then size + op.count else size - op.count;
        && Size(ops') == n && Capacity(initial, ops') == Allocated(mem.Length, n)
        && Copied(initial, ops') == copied + (if n > mem.Length then size else 0) && Possible(ops')
    {
      hide Size, Capacity, Copied;
      LastOp(initial, ops, op);
      PossibleMore(ops, op);
    }
  }
}
