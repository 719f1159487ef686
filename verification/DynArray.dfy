/**
 DynArray of tinyxml2.h: a growing array that starts in a small built-in pool.
 */
module DynArrays {
  import opened ByteStrings

  class DynArray<T(0)> {
    const pool: array<T>
    var mem: array<T>
    var capacity: nat
    var size: nat

    ghost predicate Valid()
      reads this
    {
      && size <= capacity <= mem.Length && 0 < pool.Length <= capacity <= INT_MAX
    }

    /** The elements in use. */
    ghost function Contents(): (s: seq<T>)
      requires Valid()
      reads this, mem
    {
      mem[..size]
    }

    constructor (initialSize: nat)
      requires 0 < initialSize <= INT_MAX
      ensures Valid() && Contents() == [] && fresh(mem) && fresh(pool)
    {
      pool := new T[initialSize];
      mem := pool;
      capacity := initialSize;
      size := 0;
    }

    /** Room for cap elements; what does not fit is moved to a new array of twice that size. */
    method EnsureCapacity(cap: nat)
      requires Valid() && 0 < cap && (cap > capacity ==> cap <= INT_MAX / 2)
      modifies this`mem, this`capacity
      ensures Valid() && Contents() == old(Contents()) && capacity >= cap && (mem == old(mem) || fresh(mem))
      ensures capacity == if cap > old(capacity) then 2 * cap else old(capacity)
    {
      if cap > capacity {
        var newAllocated := cap * 2;
        var newMem := new T[newAllocated];
        for i := 0 to size
          invariant mem == old(mem) && size <= mem.Length && mem[..size] == old(mem[..size])
          invariant forall k :: 0 <= k < i ==> newMem[k] == mem[k]
        {
          newMem[i] := mem[i];
        }
        mem := newMem;
        capacity := newAllocated;
      }
    }

    /** The array grows at the end and keeps what it held. */
    method Push(t: T)
      requires Valid() && (size == capacity ==> size < INT_MAX / 2)
      modifies this, mem
      ensures Valid() && Contents() == old(Contents()) + [t] && size == old(size) + 1 && (mem == old(mem) || fresh(mem))
    {
      EnsureCapacity(size + 1);
      mem[size] := t;
      size := size + 1;
    }

    /** Room for count more elements, whose values are not set; the index of the first. */
    method PushArr(count: nat) returns (start: nat)
      requires Valid() && 0 < size + count && (size + count > capacity ==> size + count <= INT_MAX / 2)
      modifies this
      ensures Valid() && start == old(size) && size == old(size) + count && (mem == old(mem) || fresh(mem))
      ensures Contents()[..start] == old(Contents())
    {
      EnsureCapacity(size + count);
      start := size;
      size := size + count;
      assert mem[..size][..start] == mem[..start];
    }

    method Pop() returns (t: T)
      requires Valid() && size > 0
      modifies this`size
      ensures Valid() && old(Contents()) == Contents() + [t]
    {
      size := size - 1;
      t := mem[size];
    }

    method PopArr(count: nat)
      requires Valid() && size >= count
      modifies this`size
      ensures Valid() && Contents() == old(Contents())[..old(size) - count]
    {
      size := size - count;
      assert mem[..size] == mem[..old(size)][..size];
    }

    /** The last element takes the place of the removed one: nothing else is lost or moved. */
    method SwapRemove(i: nat)
      requires Valid() && i < size
      modifies this`size, mem
      ensures Valid() && size == old(size) - 1
      ensures Contents() == old(Contents())[i := old(Contents())[old(size) - 1]][..old(size) - 1]
    {
      ghost var was := mem[..size];
      mem[i] := mem[size - 1];
      size := size - 1;
      assert mem[..size] == was[i := was[|was| - 1]][..|was| - 1];
    }
  }

  /** SwapRemove takes away one occurrence of the removed element and keeps all the others. */
  lemma {:induction false} SwapRemoveBag<T>(s: seq<T>, i: nat)
    requires i < |s|
    ensures multiset(s[i := s[|s| - 1]][..|s| - 1]) == multiset(s) - multiset{s[i]}
  {
    var last := |s| - 1;
    assert s == s[..last] + [s[last]];
    if i == last {
      assert s[i := s[last]][..last] == s[..last];
    } else {
      assert s[i := s[last]][..last] == s[..i] + [s[last]] + s[i + 1..last];
      assert s[..last] == s[..i] + [s[i]] + s[i + 1..last];
    }
  }
}
