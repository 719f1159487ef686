/**
 dictGetIterator and dictNext: a walk over all entries during which the entry just returned may be deleted.
 */
module DictIteration {
  import opened ByteStrings
  import opened Dict

  /** All entries, bucket by bucket. */
  function Flatten<V>(chains: seq<Chain<V>>): Chain<V> {
    if chains == [] then [] else chains[0] + Flatten(chains[1..])
  }

  /** The entries of the buckets from b on. */
  function From<V>(chains: seq<Chain<V>>, b: nat): Chain<V> {
    if b >= |chains| then [] else Flatten(chains[b..])
  }

  lemma {:induction false} FromStep<V>(chains: seq<Chain<V>>, b: nat)
    requires b < |chains|
    ensures From(chains, b) == chains[b] + From(chains, b + 1)
  {
    var later := chains[b..];
    assert later[0] == chains[b] && later[1..] == chains[b + 1..];
    assert Flatten(later) == later[0] + Flatten(later[1..]);
    if b + 1 == |chains| {
      assert later[1..] == [] && Flatten(later[1..]) == [];
    }
  }

  /** From(b) lists the entries of buckets b and above, each once. */
  ghost predicate Listed<V>(es: Chain<V>, index: Index<V>, b: nat, size: nat)
    requires size > 0
  {
    && (forall i :: 0 <= i < |es| ==>
      es[i].key in index && index[es[i].key] == es[i] && Bucket(es[i].key, size) >= b)
    && (forall i, j :: 0 <= i < j < |es| ==> es[i] != es[j])
    && (forall key :: key in index && Bucket(key, size) >= b ==> index[key] in es)
  }

  lemma {:induction false} FromListed<V>(chains: seq<Chain<V>>, index: Index<V>, b: nat)
    requires Filed(chains, index) && b <= |chains| && |chains| > 0
    ensures Listed(From(chains, b), index, b, |chains|)
    decreases |chains| - b
  {
    if b < |chains| {
      FromListed(chains, index, b + 1);
      FromStep(chains, b);
      assert BucketOk(chains[b], index, b, |chains|);
      ListedCons(chains[b], From(chains, b + 1), index, b, |chains|);
    }
  }

  lemma {:induction false} ListedCons<V>(chain: Chain<V>, rest: Chain<V>, index: Index<V>, b: nat, size: nat)
    requires size > 0 && BucketOk(chain, index, b, size) && Listed(rest, index, b + 1, size)
    requires forall key :: key in index && Bucket(key, size) == b ==> index[key] in chain
    ensures Listed(chain + rest, index, b, size)
  {
    var es := chain + rest;
    forall key | key in index && Bucket(key, size) >= b
      ensures index[key] in es
    {
      if Bucket(key, size) == b {
        assert index[key] in chain;
      } else {
        assert index[key] in rest;
      }
    }
  }

  /** Deleting an entry that is not among them leaves the later buckets alone. */
  lemma {:induction false} FromWithout<V>(chains: seq<Chain<V>>, b: nat, e: DictEntry<V>)
    requires e !in From(chains, b)
    ensures From(Without(chains, e), b) == From(chains, b)
    decreases |chains| - b
  {
    if b < |chains| {
      FromStep(chains, b);
      FromStep(Without(chains, e), b);
      assert forall i :: 0 <= i < |chains[b]| ==> chains[b][i] in From(chains, b);
      DroppedNone(chains[b], e);
      assert forall x :: x in From(chains, b + 1) ==> x in From(chains, b);
      FromWithout(chains, b + 1, e);
    }
  }

  class DictIterator<V> {
    const ht: Dict<V>
    var index: int
    var entry: DictEntry?<V>
    var nextEntry: DictEntry?<V>

    /** The entries still to be returned, in order, and the position of the next one in its bucket. */
    ghost var pending: Chain<V>
    ghost var pos: nat

    ghost predicate Valid()
      reads this, ht, ht.table, ht.index.Values`next
    {
      ht.Valid() && -1 <= index && if entry == null then pending == From(ht.chains, index + 1) else InBucket(nextEntry)
    }

    /** `next` is at position `pos` of the current bucket, from where the pending entries go on. */
    ghost predicate InBucket(next: DictEntry?<V>)
      reads this, ht
    {
      && 0 <= index < |ht.chains| && pos <= |ht.chains[index]| && next == Nth(ht.chains[index], pos)
      && pending == ht.chains[index][pos..] + From(ht.chains, index + 1)
    }

    /** `entry` is the entry that was returned last, and still in the table. */
    ghost predicate Returned()
      reads this, ht
    {
      entry != null && 0 <= index < |ht.chains| && 0 < pos <= |ht.chains[index]| && entry == ht.chains[index][pos - 1]
    }

    /** dictGetIterator. */
    constructor (ht: Dict<V>)
      requires ht.Valid()
      ensures Valid() && this.ht == ht && pending == Flatten(ht.chains)
    {
      this.ht := ht;
      index, entry, nextEntry := -1, null, null;
      pending, pos := Flatten(ht.chains), 0;
      new;
      assert ht.chains[0..] == ht.chains;
    }

    /** dictNext. */
    method DictNext() returns (e: DictEntry?<V>)
      requires Valid()
      modifies this
      ensures Valid()
      ensures old(pending) == [] ==> e == null && pending == []
      ensures old(pending) != [] ==> e == old(pending)[0] && pending == old(pending)[1..] && Returned() && entry == e
    {
      hide Filed, InIndex, AllLinked, Linked, From;
      while true
        invariant Valid() && pending == old(pending)
        decreases ht.size - index, entry != null
      {
        if entry == null {
          index := index + 1;
          if index >= ht.size {
            NothingFrom(ht.chains, index);
            break;
          }
          FromStep(ht.chains, index);
          BucketLinked(ht.table, ht.chains, index);
          entry := ht.table[index];
          pos := 0;
        } else {
          entry := nextEntry;
        }
        assert InBucket(entry);
        EndOfBucket(ht.chains, index, pos);
        if entry != null {
          Take();
          return entry;
        }
      }
      return null;
    }

    /** Remembers the successor of the entry about to be returned. */
    method Take()
      requires ht.Valid() && entry != null && InBucket(entry)
      modifies this`nextEntry, this`pos, this`pending
      ensures Valid() && Returned() && old(pending) != [] && entry == old(pending)[0] && pending == old(pending)[1..]
    {
      hide Filed, InIndex, AllLinked, Linked, From;
      NextLinked(ht.table, ht.chains, index, pos);
      nextEntry := entry.next;
      pos := pos + 1;
      pending := pending[1..];
    }

    /** The caller deletes the entry just returned. */
    method DeleteReturned()
      requires Valid() && Returned()
      modifies this`pos, ht`used, ht`chains, ht`index, ht.table, ht.index.Values`next
      ensures Valid() && pending == old(pending)
      ensures ht.table == old(ht.table) && ht.index == old(ht.index) - {entry.key}
      ensures entry == old(entry) && entry.key in old(ht.index) && old(ht.index)[entry.key] == entry
    {
      hide Dict.Valid, Filed, InIndex, AllLinked, From, Without;
      ValidIsFiled(ht);
      CurrentIsFiled(ht.chains, ht.index, index, pos);
      var ok := ht.Delete(entry.key);
      pos := pos - 1;
    }
  }

  lemma {:induction false} ValidIsFiled<V>(ht: Dict<V>)
    requires ht.Valid()
    ensures Filed(ht.chains, ht.index)
  {
    hide Filed, InIndex, AllLinked;
  }

  lemma {:induction false} EndOfBucket<V>(chains: seq<Chain<V>>, b: nat, pos: nat)
    requires b < |chains| && pos <= |chains[b]|
    ensures Nth(chains[b], pos) == null ==> chains[b][pos..] + From(chains, b + 1) == From(chains, b + 1)
  {
  }

  lemma {:induction false} NothingFrom<V>(chains: seq<Chain<V>>, b: nat)
    requires b >= |chains|
    ensures From(chains, b) == [] && From(chains, b + 1) == []
  {
  }

  lemma {:induction false} BucketLinked<V>(table: array<DictEntry?<V>>, chains: seq<Chain<V>>, b: nat)
    requires AllLinked(table, chains, 0) && b < |chains|
    ensures table[b] == Nth(chains[b], 0)
  {
    assert Linked(table[b], chains[b]);
  }

  lemma {:induction false} NextLinked<V>(table: array<DictEntry?<V>>, chains: seq<Chain<V>>, b: nat, j: nat)
    requires AllLinked(table, chains, 0) && b < |chains| && j < |chains[b]|
    ensures chains[b][j].next == Nth(chains[b], j + 1)
  {
    assert Linked(table[b], chains[b]);
  }

  /** What deleting the entry in front of position pos does to its bucket b and to the later ones. */
  lemma {:induction false} CurrentIsFiled<V>(chains: seq<Chain<V>>, index: Index<V>, b: nat, pos: nat)
    requires Filed(chains, index) && b < |chains| && 0 < pos <= |chains[b]|
    ensures var e, r := chains[b][pos - 1], Without(chains, chains[b][pos - 1]);
      && e.key in index && index[e.key] == e
      && |r[b]| == |chains[b]| - 1 && r[b][pos - 1..] == chains[b][pos..]
      && Nth(r[b], pos - 1) == Nth(chains[b], pos)
      && From(r, b + 1) == From(chains, b + 1)
  {
    var chain, e := chains[b], chains[b][pos - 1];
    assert BucketOk(chain, index, b, |chains|);
    DroppedAt(chain, pos - 1);
    assert RemoveAt(chain, pos - 1)[pos - 1..] == chain[pos..];
    FromListed(chains, index, b + 1);
    FromWithout(chains, b + 1, e);
  }

  function KeysOf<V>(es: Chain<V>): (keys: seq<Bytes>)
    ensures |keys| == |es| && forall i :: 0 <= i < |es| ==> keys[i] == es[i].key
  {
    seq(|es|, i requires 0 <= i < |es| => es[i].key)
  }

  /** The index without the keys among the given ones that are dropped. */
  function Kept<V>(index: Index<V>, visited: seq<Bytes>, drop: Bytes -> bool): Index<V> {
    map key | key in index && !(key in visited && drop(key)) :: index[key]
  }

  /** Every entry of the table occurs once in the list of all entries. */
  ghost predicate Complete<V>(all: Chain<V>, index: Index<V>) {
    && (forall i :: 0 <= i < |all| ==> all[i].key in index && index[all[i].key] == all[i])
    && (forall i, j :: 0 <= i < j < |all| ==> all[i].key != all[j].key)
    && (forall key :: key in index ==> index[key] in all && index[key].key == key)
  }

  lemma {:induction false} AllListed<V>(chains: seq<Chain<V>>, index: Index<V>)
    requires Filed(chains, index)
    ensures Complete(Flatten(chains), index)
  {
    if chains == [] {
      NothingFiled(chains, index);
    } else {
      FromListed(chains, index, 0);
      assert chains[0..] == chains;
    }
  }

  lemma {:induction false} KeptStep<V>(index: Index<V>, all: Chain<V>, n: nat, visited: seq<Bytes>, drop: Bytes -> bool)
    requires Complete(all, index) && n < |all| && visited == KeysOf(all[..n])
    ensures var key := all[n].key;
      && KeysOf(all[..n + 1]) == visited + [key]
      && Kept(index, visited + [key], drop)
         == if drop(key) then Kept(index, visited, drop) - {key} else Kept(index, visited, drop)
  {
    assert all[..n + 1] == all[..n] + [all[n]];
  }

  lemma {:induction false} KeptNone<V>(index: Index<V>, drop: Bytes -> bool)
    ensures Kept(index, [], drop) == index && KeysOf<V>([]) == []
  {
  }

  /** At the end of the walk every key has been visited. */
  lemma {:induction false} KeptAll<V>(index: Index<V>, all: Chain<V>, visited: seq<Bytes>, drop: Bytes -> bool)
    requires Complete(all, index) && visited == KeysOf(all)
    ensures forall key :: key in visited <==> key in index
    ensures forall i, j :: 0 <= i < j < |visited| ==> visited[i] != visited[j]
    ensures Kept(index, visited, drop) == map key | key in index && !drop(key) :: index[key]
  {
    forall key | key in index
      ensures key in visited
    {
      var i :| 0 <= i < |all| && all[i] == index[key];
      assert visited[i] == key;
    }
  }

  /** The walk, told in terms of the entries. */
  method WalkEntries<V>(ht: Dict<V>, drop: Bytes -> bool) returns (visited: seq<Bytes>)
    requires ht.Valid()
    modifies ht, ht.table, ht.index.Values`next
    ensures ht.Valid()
    ensures forall key :: key in visited <==> key in old(ht.index)
    ensures forall i, j :: 0 <= i < j < |visited| ==> visited[i] != visited[j]
    ensures ht.index == map key | key in old(ht.index) && !drop(key) :: old(ht.index)[key]
  {
    hide Filed, InIndex, AllLinked, Complete, KeysOf, Flatten, Kept, Walking;
    ghost var all, index0 := Flatten(ht.chains), ht.index;
    AllListed(ht.chains, ht.index);
    var iter := new DictIterator(ht);
    visited := [];
    var de := iter.DictNext();
    WalkStart(iter, de, all, index0, drop);
    while de != null
      invariant fresh(iter) && iter.ht == ht && ht.table == old(ht.table) && ht.index.Values <= index0.Values
      invariant Walking(iter, de, all, index0, visited, drop)
      invariant |visited| <= |all|
      decreases |all| - |visited|
    {
      de, visited := Turn(iter, de, visited, drop, all, index0);
    }
    WalkEnd(iter, all, index0, visited, drop);
  }

  /**
   A full walk that deletes the entries whose keys the caller picks: it visits every entry
   present at the start exactly once, and the others stay.
   */
  method Walk<V>(ht: Dict<V>, drop: Bytes -> bool) returns (visited: seq<Bytes>)
    requires ht.Valid()
    modifies ht, ht.table, ht.index.Values`next
    ensures ht.Valid()
    ensures forall key :: key in visited <==> key in old(ht.Contents())
    ensures forall i, j :: 0 <= i < j < |visited| ==> visited[i] != visited[j]
    ensures ht.Contents() == map key | key in old(ht.Contents()) && !drop(key) :: old(ht.Contents())[key]
  {
    hide Dict.Valid, Filed, InIndex, AllLinked;
    visited := WalkEntries(ht, drop);
  }

  /** Where a walk stands: `visited` are the keys of the first entries, `de` is the one returned last. */
  ghost predicate Walking<V>(iter: DictIterator<V>, de: DictEntry?<V>, all: Chain<V>, index0: Index<V>, visited: seq<Bytes>,
                             drop: Bytes -> bool)
    reads iter, iter.ht, iter.ht.table, iter.ht.index.Values`next
  {
    && iter.Valid() && Complete(all, index0)
    && |visited| <= |all| && visited == KeysOf(all[..|visited|])
    && iter.ht.index == Kept(index0, visited, drop)
    && if de == null then |visited| == |all|
       else |visited| < |all| && de == all[|visited|] && iter.pending == all[|visited| + 1..] && iter.Returned() && iter.entry == de
  }

  /** One turn of the walk: note the key, perhaps delete the entry, go on. */
  method Turn<V>(iter: DictIterator<V>, de: DictEntry<V>, visited: seq<Bytes>, drop: Bytes -> bool, ghost all: Chain<V>, ghost index0: Index<V>)
    returns (de': DictEntry?<V>, visited': seq<Bytes>)
    requires Walking(iter, de, all, index0, visited, drop)
    modifies iter, iter.ht`used, iter.ht`chains, iter.ht`index, iter.ht.table, iter.ht.index.Values`next
    ensures Walking(iter, de', all, index0, visited', drop) && |visited'| == |visited| + 1
    ensures iter.ht.table == old(iter.ht.table) && iter.ht.index.Values <= old(iter.ht.index.Values) && |visited'| <= |all|
  {
    hide Filed, InIndex, AllLinked, Complete, KeysOf, Kept, DictIterator.InBucket;
    KeptStep(index0, all, |visited|, visited, drop);
    visited' := visited + [de.key];
    if drop(de.key) {
      iter.DeleteReturned();
    }
    de' := iter.DictNext();
  }

  lemma {:induction false} WalkStart<V>(iter: DictIterator<V>, de: DictEntry?<V>, all: Chain<V>, index0: Index<V>, drop: Bytes -> bool)
    requires iter.Valid() && Complete(all, index0) && iter.ht.index == index0
    requires if all == [] then de == null else de == all[0] && iter.pending == all[1..] && iter.Returned() && iter.entry == de
    ensures Walking(iter, de, all, index0, [], drop)
  {
    KeptNone(index0, drop);
    assert all[..0] == [];
  }

  lemma {:induction false} WalkEnd<V>(iter: DictIterator<V>, all: Chain<V>, index0: Index<V>, visited: seq<Bytes>, drop: Bytes -> bool)
    requires Walking(iter, null, all, index0, visited, drop)
    ensures iter.ht.Valid()
    ensures forall key :: key in visited <==> key in index0
    ensures forall i, j :: 0 <= i < j < |visited| ==> visited[i] != visited[j]
    ensures iter.ht.index == map key | key in index0 && !drop(key) :: index0[key]
  {
    assert all[..|visited|] == all;
    KeptAll(index0, all, visited, drop);
  }
}
