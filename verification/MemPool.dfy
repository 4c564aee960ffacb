/**
 The memory pool of the document: blocks of items, a list threaded through the free ones, and
 counters.
 */
module MemPools {

  /** A piece of memory; its link matters only while it is free. */
  class Item {
    var next: Item?

    constructor ()
    {
      next := null;
    }
  }

  function NodeAt(s: seq<Item>, i: nat): Item? {
    if i < |s| then s[i] else null
  }

  predicate Distinct(s: seq<Item>) {
    forall i, j | 0 <= i < j < |s| :: s[i] != s[j]
  }

  /** The list from `root` is `free`. */
  ghost predicate Threads(root: Item?, free: seq<Item>)
    reads free
  {
    root == NodeAt(free, 0) && forall i | 0 <= i < |free| :: free[i].next == NodeAt(free, i + 1)
  }

  /** Every item of every block is either free, in one place of the list, or live. */
  ghost predicate Partition(blocks: seq<seq<Item>>, free: seq<Item>, live: set<Item>) {
    && Distinct(free)
    && (forall x | x in live :: x !in free && InBlocks(blocks, x))
    && (forall x | x in free :: InBlocks(blocks, x))
    && (forall b, i | 0 <= b < |blocks| && 0 <= i < |blocks[b]| :: blocks[b][i] in free || blocks[b][i] in live)
  }

  predicate InBlocks(blocks: seq<seq<Item>>, x: Item) {
    exists b :: 0 <= b < |blocks| && x in blocks[b]
  }

  /** The largest of the sizes so far. */
  function Max(counts: seq<int>): int {
    if counts == [] then 0 else if counts[|counts| - 1] > Max(counts[..|counts| - 1]) then counts[|counts| - 1] else Max(counts[..|counts| - 1])
  }

  lemma {:induction false} TakeFirst(blocks: seq<seq<Item>>, free: seq<Item>, live: set<Item>)
    requires Partition(blocks, free, live) && free != []
    ensures free[0] !in live && Partition(blocks, free[1..], live + {free[0]})
  {
    hide InBlocks;
    var rest, live' := free[1..], live + {free[0]};
    forall x | x in rest ensures x in free && x != free[0] {
    }
    forall b, i | 0 <= b < |blocks| && 0 <= i < |blocks[b]| ensures blocks[b][i] in rest || blocks[b][i] in live' {
      assert blocks[b][i] in free || blocks[b][i] in live;
      assert free == [free[0]] + rest;
    }
  }

  lemma {:induction false} GiveBack(blocks: seq<seq<Item>>, free: seq<Item>, live: set<Item>, x: Item)
    requires Partition(blocks, free, live) && x in live
    ensures Partition(blocks, [x] + free, live - {x})
  {
    hide InBlocks;
  }

  lemma {:induction false} AddBlock(blocks: seq<seq<Item>>, live: set<Item>, block: seq<Item>)
    requires Partition(blocks, [], live) && Distinct(block) && forall x | x in block :: x !in live
    ensures Partition(blocks + [block], block, live)
  {
    forall x | InBlocks(blocks, x) ensures InBlocks(blocks + [block], x) {
      var b :| 0 <= b < |blocks| && x in blocks[b];
      assert x in (blocks + [block])[b];
    }
    forall x | x in block ensures InBlocks(blocks + [block], x) {
      assert x in (blocks + [block])[|blocks|];
    }
    forall b, i | 0 <= b < |blocks + [block]| && 0 <= i < |(blocks + [block])[b]|
      ensures (blocks + [block])[b][i] in block || (blocks + [block])[b][i] in live
    {
      if b < |blocks| {
        assert blocks[b][i] in live;
      }
    }
    hide InBlocks;
  }

  class MemPoolT {
    const itemsPerBlock: nat
    var blockPtrs: seq<seq<Item>>
    var root: Item?
    var currentAllocs: int
    var nAllocs: int
    var maxAllocs: int
    var nUntracked: int

    ghost var free: seq<Item>
    ghost var live: set<Item>
    ghost var counts: seq<int>

    ghost predicate Valid()
      reads this, free
    {
      && itemsPerBlock > 0
      && Threads(root, free) && Partition(blockPtrs, free, live)
      && currentAllocs == |live| && maxAllocs == Max(counts) && currentAllocs <= maxAllocs
    }

    constructor (itemsPerBlock: nat)
      requires itemsPerBlock > 0
      ensures Valid() && live == {} && free == [] && counts == [] && nUntracked == 0
    {
      this.itemsPerBlock := itemsPerBlock;
      blockPtrs, root, currentAllocs, nAllocs, maxAllocs, nUntracked := [], null, 0, 0, 0, 0;
      free, live, counts := [], {}, [];
    }

    /** A new block, its items linked one to the next. */
    method NewBlock() returns (items: seq<Item>)
      requires itemsPerBlock > 0
      ensures |items| == itemsPerBlock && fresh(items) && Distinct(items) && Threads(items[0], items)
    {
      items := [];
      for i := 0 to itemsPerBlock
        invariant |items| == i && fresh(items) && Distinct(items)
      {
        var item := new Item();
        items := items + [item];
      }
      for i := 0 to itemsPerBlock - 1
        invariant forall j | 0 <= j < i :: items[j].next == items[j + 1]
      {
        items[i].next := items[i + 1];
      }
      items[itemsPerBlock - 1].next := null;
    }

    method Grow()
      requires Valid() && root == null
      modifies this`blockPtrs, this`root, this`free
      ensures Valid() && root != null && fresh(free)
    {
      hide Partition;
      var block := NewBlock();
      assert free == [];
      AddBlock(blockPtrs, live, block);
      hide Threads;
      blockPtrs := blockPtrs + [block];
      root := block[0];
      free := block;
    }

    /** `Alloc`: never an item that is live. */
    method Alloc() returns (result: Item)
      requires Valid()
      modifies this
      ensures Valid() && result !in old(live) && live == old(live) + {result}
      ensures currentAllocs == old(currentAllocs) + 1 && nUntracked == old(nUntracked) + 1 && nAllocs == old(nAllocs) + 1
      ensures counts == old(counts) + [currentAllocs]
      ensures old(free) != [] ==> result == old(free)[0] && blockPtrs == old(blockPtrs)
      ensures old(free) == [] ==> fresh(result)
    {
      if root == null {
        Grow();
      }
      result := Pop();
    }

    method Pop() returns (result: Item)
      requires Valid() && root != null
      modifies this`root, this`currentAllocs, this`maxAllocs, this`nAllocs, this`nUntracked, this`free, this`live, this`counts
      ensures Valid() && free == old(free)[1..] && result == old(free)[0] && result !in old(live) && live == old(live) + {result}
      ensures currentAllocs == old(currentAllocs) + 1 && nUntracked == old(nUntracked) + 1 && nAllocs == old(nAllocs) + 1
      ensures counts == old(counts) + [currentAllocs]
    {
      hide Partition, Max;
      result := root;
      TakeFirst(blockPtrs, free, live);
      MaxMore(counts, currentAllocs + 1);
      ghost var f, l, c := free[1..], live + {result}, counts + [currentAllocs + 1];
      var rest := root.next;
      assert Threads(rest, f) && Partition(blockPtrs, f, l) && |l| == currentAllocs + 1;
      hide Threads;
      root, free, live, counts := rest, f, l, c;
      CountAlloc();
    }

    method CountAlloc()
      modifies this`currentAllocs, this`maxAllocs, this`nAllocs, this`nUntracked
      ensures currentAllocs == old(currentAllocs) + 1 && nUntracked == old(nUntracked) + 1 && nAllocs == old(nAllocs) + 1
      ensures maxAllocs == if currentAllocs > old(maxAllocs) then currentAllocs else old(maxAllocs)
    {
      currentAllocs := currentAllocs + 1;
      if currentAllocs > maxAllocs {
        maxAllocs := currentAllocs;
      }
      nAllocs := nAllocs + 1;
      nUntracked := nUntracked + 1;
    }

    /** `Free`: a null pointer is ignored, anything else must be live. */
    method Free(mem: Item?)
      requires Valid() && (mem != null ==> mem in live)
      modifies this`root, this`currentAllocs, this`free, this`live, mem
      ensures Valid()
      ensures mem == null ==> free == old(free) && live == old(live) && currentAllocs == old(currentAllocs)
      ensures mem != null ==> free == [mem] + old(free) && live == old(live) - {mem} && currentAllocs == old(currentAllocs) - 1
    {
      hide Max;
      if mem == null {
        return;
      }
      GiveBack(blockPtrs, free, live, mem);
      assert mem !in free;
      hide Partition;
      currentAllocs := currentAllocs - 1;
      mem.next := root;
      root := mem;
      free, live := [mem] + free, live - {mem};
    }

    method SetTracked()
      requires Valid()
      modifies this`nUntracked
      ensures Valid() && nUntracked == old(nUntracked) - 1
    {
      nUntracked := nUntracked - 1;
    }

    /** `Clear`: all blocks are deleted, and with them every item. */
    method Clear()
      requires Valid()
      modifies this
      ensures Valid() && live == {} && free == [] && blockPtrs == [] && nUntracked == 0
    {
      while blockPtrs != []
        decreases |blockPtrs|
      {
        blockPtrs := blockPtrs[..|blockPtrs| - 1];
      }
      root, currentAllocs, nAllocs, maxAllocs, nUntracked := null, 0, 0, 0, 0;
      free, live, counts := [], {}, [];
    }
  }

  lemma {:induction false} MaxMore(counts: seq<int>, n: int)
    requires n > 0
    ensures Max(counts + [n]) == if n > Max(counts) then n else Max(counts)
  {
    assert (counts + [n])[..|counts|] == counts;
  }

  /** `Max` is one of the sizes, and none is larger. */
  lemma {:induction false} MaxIsLargest(counts: seq<int>)
    ensures forall i | 0 <= i < |counts| :: counts[i] <= Max(counts)
    ensures Max(counts) == 0 || Max(counts) in counts
  {
    if counts != [] {
      MaxIsLargest(counts[..|counts| - 1]);
    }
  }
}
