/**
 MemPoolT of tinyxml2.h: items handed out from blocks, the free ones linked through their own memory.
 */
module Pools {
  import opened ByteStrings
  import opened DynArrays

  /** The memory of an item: a link while it is free, anything while it is in use. */
  class Item {
    var next: Item?

    constructor ()
      ensures next == null
    {
      next := null;
    }
  }

  /** A block's items, in memory order. */
  class Block {
    const items: seq<Item>

    constructor (count: nat)
      ensures |items| == count && (forall x :: x in items ==> fresh(x))
      ensures forall i, j :: 0 <= i < j < count ==> items[i] != items[j]
    {
      var cells: seq<Item> := [];
      for i := 0 to count
        invariant |cells| == i && (forall x :: x in cells ==> fresh(x))
        invariant forall j, k :: 0 <= j < k < i ==> cells[j] != cells[k]
      {
        var cell := new Item();
        cells := cells + [cell];
      }
      items := cells;
    }
  }

  /** The item after the i-th, if there is one. */
  function Successor(list: seq<Item>, i: nat): Item? {
    if i + 1 < |list| then list[i + 1] else null
  }

  ghost predicate Distinct(list: seq<Item>) {
    forall i, j :: 0 <= i < j < |list| ==> list[i] != list[j]
  }

  /** The list starts at the root, goes on from each item to the next, and ends. */
  ghost predicate Chain(root: Item?, list: seq<Item>)
    reads list
  {
    && root == (if list == [] then null else list[0]) && Distinct(list)
    && (forall i :: 0 <= i < |list| ==> list[i].next == Successor(list, i))
  }

  ghost function Elements(list: seq<Item>): set<Item> {
    set x | x in list
  }

  /** All the items of all the blocks. */
  ghost function AllItems(blocks: seq<Block?>): set<Item> {
    if blocks == [] then {}
    else AllItems(blocks[..|blocks| - 1]) + if blocks[|blocks| - 1] == null then {} else Elements(blocks[|blocks| - 1].items)
  }

  /** The free items and the live items are all the items, and no item is both. */
  ghost predicate Partition(freeList: seq<Item>, live: set<Item>, all: set<Item>) {
    Elements(freeList) !! live && Elements(freeList) + live == all
  }

  class MemPoolT {
    const itemsPerBlock: nat
    const blockPtrs: DynArray<Block?>
    var root: Item?
    var currentAllocs: int
    var nAllocs: int
    var maxAllocs: int
    var nUntracked: int
    /** The free items in list order, and the items in use. */
    ghost var freeList: seq<Item>
    ghost var live: set<Item>

    ghost predicate Valid()
      reads this, blockPtrs, blockPtrs.mem, freeList
    {
      && itemsPerBlock > 0 && blockPtrs.Valid()
      && Chain(root, freeList) && Partition(freeList, live, AllItems(blockPtrs.Contents()))
      && currentAllocs == |live| && currentAllocs <= maxAllocs
      && |freeList| + currentAllocs == |blockPtrs.Contents()| * itemsPerBlock
    }

    ghost function Items(): set<Item>
      reads this
    {
      Elements(freeList) + live
    }

    constructor (itemsPerBlock: nat, initialSize: nat)
      requires 0 < itemsPerBlock && 0 < initialSize <= INT_MAX
      ensures Valid() && fresh(blockPtrs) && fresh(blockPtrs.mem) && live == {} && freeList == []
    {
      this.itemsPerBlock := itemsPerBlock;
      blockPtrs := new DynArray(initialSize);
      root, currentAllocs, nAllocs, maxAllocs, nUntracked := null, 0, 0, 0, 0;
      freeList, live := [], {};
    }

    /** The item at the head of the free list, from a new block if there is none: never one in use. */
    method Alloc() returns (result: Item)
      requires Valid() && (blockPtrs.size == blockPtrs.capacity ==> blockPtrs.size < INT_MAX / 2)
      modifies this, blockPtrs, blockPtrs.mem, freeList
      ensures Valid() && (blockPtrs.mem == old(blockPtrs.mem) || fresh(blockPtrs.mem))
      ensures result !in old(live) && live == old(live) + {result} && result !in freeList
      ensures old(freeList) != [] ==> result == old(freeList[0]) && freeList == old(freeList[1..])
      ensures old(freeList) == [] ==> fresh(result) && |freeList| == itemsPerBlock - 1
      ensures old(Items()) <= Items() && forall x :: x in Items() ==> x in old(Items()) || fresh(x)
      ensures old(blockPtrs.Contents()) <= blockPtrs.Contents() && blockPtrs.size <= old(blockPtrs.size) + 1
      ensures nAllocs == old(nAllocs) + 1 && nUntracked == old(nUntracked) + 1
      ensures maxAllocs == if old(maxAllocs) < currentAllocs then currentAllocs else old(maxAllocs)
    {
      hide AllItems, Partition, Elements, Chain, DynArray.Valid;
      RootOrEmpty(root, freeList);
      if root == null {
        NewBlock();
        FirstIsItem(freeList);
        NoItems();
      }
      result := TakeFirst();
    }

    /** A new block, its items threaded in memory order. */
    method NewBlock()
      requires Valid() && freeList == [] && (blockPtrs.size == blockPtrs.capacity ==> blockPtrs.size < INT_MAX / 2)
      modifies this`root, this`freeList, blockPtrs, blockPtrs.mem
      ensures Valid() && |freeList| == itemsPerBlock && old(Items()) <= Items() && fresh(Items() - old(Items()))
      ensures blockPtrs.mem == old(blockPtrs.mem) || fresh(blockPtrs.mem)
      ensures old(blockPtrs.Contents()) <= blockPtrs.Contents() && blockPtrs.size == old(blockPtrs.size) + 1
    {
      hide Partition, Elements, AllItems, Chain, DynArray.Valid;
      NoItems();
      ghost var blocks := blockPtrs.Contents();
      var block := ThreadedBlock(itemsPerBlock);
      NewItems(blocks, block, live);
      OneMore(|blocks|, itemsPerBlock);
      blockPtrs.Push(block);
      root := block.items[0];
      freeList := block.items;
    }

    /** The block-threading loop. */
    static method ThreadedBlock(count: nat) returns (block: Block)
      requires count > 0
      ensures |block.items| == count && Chain(block.items[0], block.items) && fresh(Elements(block.items))
    {
      block := new Block(count);
      var blockItems := block.items;
      for i := 0 to count - 1
        invariant forall k :: 0 <= k < i ==> blockItems[k].next == Successor(blockItems, k)
      {
        assert blockItems[i] in blockItems;
        blockItems[i].next := blockItems[i + 1];
      }
      assert blockItems[count - 1] in blockItems;
      blockItems[count - 1].next := null;
    }

    /** The head of the free list leaves it. */
    method TakeHead() returns (result: Item)
      requires Valid() && freeList != []
      modifies `root, `freeList, `live
      ensures blockPtrs.Valid() && result == old(freeList[0]) && freeList == old(freeList[1..])
      ensures result !in old(live) && live == old(live) + {result} && result !in freeList
      ensures Chain(root, freeList) && Partition(freeList, live, AllItems(blockPtrs.Contents()))
    {
      hide AllItems, Partition, Elements, Distinct, DynArray.Valid, DynArray.Contents;
      result := root;
      HeadAndRest(root, freeList);
      TakenPartition(freeList, live, AllItems(blockPtrs.Contents()));
      root := root.next;
      freeList, live := freeList[1..], live + {result};
    }

    method TakeFirst() returns (result: Item)
      requires Valid() && freeList != []
      modifies this
      ensures Valid() && result == old(freeList[0]) && freeList == old(freeList[1..]) && Items() == old(Items())
      ensures result !in old(live) && live == old(live) + {result} && result !in freeList
      ensures nAllocs == old(nAllocs) + 1 && nUntracked == old(nUntracked) + 1
      ensures maxAllocs == if old(maxAllocs) < currentAllocs then currentAllocs else old(maxAllocs)
    {
      hide AllItems, Partition, Chain, DynArray.Valid, DynArray.Contents;
      result := TakeHead();
      currentAllocs := currentAllocs + 1;
      if currentAllocs > maxAllocs {
        maxAllocs := currentAllocs;
      }
      nAllocs := nAllocs + 1;
      nUntracked := nUntracked + 1;
    }

    /** The item goes to the front of the free list; NULL is ignored. */
    method Free(mem: Item?)
      requires Valid() && (mem != null ==> mem in live)
      modifies this`root, this`currentAllocs, this`freeList, this`live, mem
      ensures Valid() && live == old(live) - (if mem == null then {} else {mem})
      ensures freeList == (if mem == null then [] else [mem]) + old(freeList) && Items() == old(Items())
    {
      hide AllItems, Partition, Elements, Distinct;
      if mem == null {
        return;
      }
      currentAllocs := currentAllocs - 1;
      var item := mem;
      GivenPartition(item, freeList, live, AllItems(blockPtrs.Contents()));
      item.next := root;
      root := item;
      Prepend(item, item.next, freeList);
      freeList, live := [item] + freeList, live - {item};
    }

    /** The user of an item in use may write anything into it: the pool does not mind. */
    method Scribble(item: Item, value: Item?)
      requires Valid() && item in live
      modifies item
      ensures Valid()
    {
      hide AllItems;
      item.next := value;
    }

    /** SetTracked. */
    method SetTracked()
      requires Valid()
      modifies this`nUntracked
      ensures Valid() && nUntracked == old(nUntracked) - 1
    {
      nUntracked := nUntracked - 1;
    }

    /** All blocks are deleted, and with them every item. */
    method Clear()
      requires Valid()
      modifies this, blockPtrs`size
      ensures Valid() && blockPtrs.Contents() == [] && live == {} && freeList == []
      ensures currentAllocs == nAllocs == maxAllocs == nUntracked == 0
    {
      hide Partition, Elements;
      while blockPtrs.size != 0
        invariant blockPtrs.Valid() && blockPtrs.mem == old(blockPtrs.mem)
        decreases blockPtrs.size
      {
        var _ := blockPtrs.Pop();
      }
      root, currentAllocs, nAllocs, maxAllocs, nUntracked := null, 0, 0, 0, 0;
      freeList, live := [], {};
      assert blockPtrs.Contents() == [];
      NoItems();
    }
  }

  lemma {:induction false} FirstIsItem(list: seq<Item>)
    requires list != []
    ensures list[0] in Elements(list)
  {
  }

  lemma {:induction false} NoItems()
    ensures Elements([]) == {} && Partition([], {}, AllItems([]))
  {
  }

  lemma {:induction false} OneMore(n: int, k: int)
    ensures (n + 1) * k == n * k + k
  {
  }

  lemma {:induction false} RootOrEmpty(root: Item?, list: seq<Item>)
    requires Chain(root, list)
    ensures root == null <==> list == []
  {
  }

  lemma {:induction false} HeadAndRest(root: Item?, list: seq<Item>)
    requires list != [] && Chain(root, list)
    ensures root == list[0] && Chain(root.next, list[1..]) && root !in list[1..]
  {
    forall i | 0 <= i < |list[1..]|
      ensures list[1..][i] == list[i + 1] && Successor(list[1..], i) == Successor(list, i + 1)
    {
    }
  }

  lemma {:induction false} Prepend(item: Item, root: Item?, list: seq<Item>)
    requires Chain(root, list) && item !in list && item.next == root
    ensures Chain(item, [item] + list)
  {
    var longer := [item] + list;
    forall i | 0 <= i < |longer|
      ensures longer[i].next == Successor(longer, i)
    {
      if i > 0 {
        assert longer[i] == list[i - 1] && Successor(longer, i) == Successor(list, i - 1);
      }
    }
  }

  /** Taking the first free item. */
  lemma {:induction false} TakenPartition(list: seq<Item>, live: set<Item>, all: set<Item>)
    requires list != [] && Distinct(list) && Partition(list, live, all)
    ensures list[0] !in live && |live + {list[0]}| == |live| + 1 && Partition(list[1..], live + {list[0]}, all)
    ensures Elements(list[1..]) + (live + {list[0]}) == Elements(list) + live
  {
    assert list == [list[0]] + list[1..];
    assert list[0] in Elements(list);
    assert Elements(list) == {list[0]} + Elements(list[1..]);
  }

  /** Giving an item back. */
  lemma {:induction false} GivenPartition(item: Item, list: seq<Item>, live: set<Item>, all: set<Item>)
    requires item in live && Partition(list, live, all)
    ensures item !in list && |live - {item}| == |live| - 1 && Partition([item] + list, live - {item}, all)
    ensures Elements([item] + list) + (live - {item}) == Elements(list) + live
  {
    assert item !in Elements(list);
    assert Elements([item] + list) == {item} + Elements(list);
  }

  /** A new block adds its items, all of them free. */
  lemma {:induction false} NewItems(blocks: seq<Block?>, block: Block, live: set<Item>)
    requires Partition([], live, AllItems(blocks)) && Elements(block.items) !! live
    ensures Partition(block.items, live, AllItems(blocks + [block])) && blocks <= blocks + [block]
  {
    assert (blocks + [block])[..|blocks|] == blocks;
  }

  /** What a client does: it takes an item, or gives back the k-th of those it holds. */
  datatype PoolOp = Take | GiveBack(k: nat)

  /** The items a client holds are distinct and are all the live ones. */
  ghost predicate Holds(held: seq<Item>, live: set<Item>) {
    Distinct(held) && Elements(held) == live
  }

  lemma {:induction false} HoldsMore(held: seq<Item>, live: set<Item>, item: Item)
    requires Holds(held, live) && item !in live
    ensures Holds(held + [item], live + {item})
  {
    assert Elements(held + [item]) == Elements(held) + {item};
  }

  lemma {:induction false} HoldsLess(held: seq<Item>, live: set<Item>, k: nat)
    requires Holds(held, live) && k < |held|
    ensures held[k] in live && Holds(held[..k] + held[k + 1..], live - {held[k]})
  {
    var less := held[..k] + held[k + 1..];
    assert held == held[..k] + [held[k]] + held[k + 1..];
    assert forall x :: x in held <==> x == held[k] || x in less;
    assert held[k] !in less;
  }

  lemma {:induction false} HeldCount(held: seq<Item>, live: set<Item>)
    requires Holds(held, live)
    ensures |held| == |live|
  {
    if held != [] {
      var last := |held| - 1;
      HoldsLess(held, live, last);
      assert held[..last] + held[last + 1..] == held[..last];
      HeldCount(held[..last], live - {held[last]});
    }
  }

  /**
   Any sequence of allocations, and frees of items in use: the items handed out and not given back
   are distinct and are exactly the live ones, and with the free ones they fill all blocks.
   */
  method Exercise(pool: MemPoolT, ops: seq<PoolOp>) returns (held: seq<Item>)
    requires pool.Valid() && pool.live == {} && pool.blockPtrs.size + |ops| < INT_MAX / 2
    modifies pool, pool.blockPtrs, pool.blockPtrs.mem, pool.freeList
    ensures pool.Valid() && Holds(held, pool.live)
    ensures |held| + |pool.freeList| == |pool.blockPtrs.Contents()| * pool.itemsPerBlock
  {
    hide Holds, Chain, Partition, Elements, DynArray.Valid, MemPoolT.Valid, MemPoolT.Items;
    held := [];
    NothingHeld();
    ItemsOf(pool);
    for i := 0 to |ops|
      invariant pool.Valid() && Holds(held, pool.live)
      invariant pool.blockPtrs.size + (|ops| - i) < INT_MAX / 2
      invariant pool.blockPtrs.mem == old(pool.blockPtrs.mem) || fresh(pool.blockPtrs.mem)
      invariant forall x :: x in pool.Items() ==> x in old(pool.freeList) || fresh(x)
    {
      ItemsOf(pool);
      match ops[i] {
        case Take =>
          ghost var live := pool.live;
          var item := pool.Alloc();
          HoldsMore(held, live, item);
          held := held + [item];
        case GiveBack(k) =>
          if k < |held| {
            HoldsLess(held, pool.live, k);
            pool.Free(held[k]);
            held := held[..k] + held[k + 1..];
          }
      }
    }
    HeldCount(held, pool.live);
    Balance(pool);
  }

  /** The items of a pool are its free and its live ones. */
  lemma {:induction false} ItemsOf(pool: MemPoolT)
    ensures forall x :: x in pool.Items() <==> x in pool.freeList || x in pool.live
    ensures forall i :: 0 <= i < |pool.freeList| ==> pool.freeList[i] in pool.Items()
  {
  }

  lemma {:induction false} Balance(pool: MemPoolT)
    requires pool.Valid()
    ensures pool.blockPtrs.Valid() && |pool.live| + |pool.freeList| == |pool.blockPtrs.Contents()| * pool.itemsPerBlock
  {
    hide Chain, Partition, DynArray.Valid;
  }

  lemma {:induction false} NothingHeld()
    ensures Holds([], {})
  {
  }
}
