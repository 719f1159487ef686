/**
 The chained hash table of dict.c, keyed by byte strings: entries linked into buckets, growth by
 moving every entry to a new table, and an iterator that survives the deletion of the entry it returned.
 */
module Dict {
  import opened ByteStrings

  const DICT_HT_INITIAL_SIZE := 4
  const LONG_MAX := LLONG_MAX
  const UINT_RANGE := 0x1_0000_0000

  /** Bernstein's hash of a byte string, in unsigned 32-bit arithmetic. */
  function HashOf(key: Bytes): (h: nat)
    ensures h < UINT_RANGE
  {
    if key == [] then 5381 else (HashOf(key[..|key| - 1]) * 33 + key[|key| - 1]) % UINT_RANGE
  }

  /** hash * 33 + c, where the shift and both sums wrap. */
  lemma {:induction false} HashStep(hash: nat, c: byte)
    ensures ((hash * 32 % UINT_RANGE + hash) % UINT_RANGE + c) % UINT_RANGE == (hash * 33 + c) % UINT_RANGE
  {
    WrapSum(hash * 32, hash);
    WrapSum(hash * 33, c);
  }

  lemma {:induction false} WrapSum(x: nat, y: nat)
    ensures (x % UINT_RANGE + y) % UINT_RANGE == (x + y) % UINT_RANGE
  {
  }

  function Power33(k: nat): nat {
    if k == 0 then 1 else 33 * Power33(k - 1)
  }

  /** The bytes of a key as digits in base 33. */
  function InBase33(key: Bytes): nat {
    if key == [] then 0 else key[0] * Power33(|key| - 1) + InBase33(key[1..])
  }

  lemma {:induction false} InBase33Snoc(key: Bytes, c: byte)
    ensures InBase33(key + [c]) == 33 * InBase33(key) + c
  {
    if key == [] {
      assert key + [c] == [c] && [c][1..] == [] && Power33(0) == 1;
    } else {
      assert (key + [c])[1..] == key[1..] + [c];
      InBase33Snoc(key[1..], c);
      Times33(key[0], Power33(|key| - 1));
    }
  }

  lemma {:induction false} Times33(a: nat, p: nat)
    ensures a * (33 * p) == 33 * (a * p)
  {
  }

  /** The hash in closed form: 5381 and the bytes behind it, in base 33 and modulo 2^32. */
  lemma {:induction false} HashClosed(key: Bytes)
    ensures HashOf(key) == (5381 * Power33(|key|) + InBase33(key)) % 4294967296
    decreases |key|
  {
    hide InBase33;
    if key == [] {
      assert InBase33([]) == 0 by { NoBytes(); }
    } else {
      var front, c := key[..|key| - 1], key[|key| - 1];
      assert key == front + [c];
      HashClosed(front);
      InBase33Snoc(front, c);
      ClosedStep(Power33(|front|), InBase33(front), c);
      WrapProduct(5381 * Power33(|front|) + InBase33(front), c);
    }
  }

  lemma {:induction false} NoBytes()
    ensures InBase33([]) == 0
  {
  }

  lemma {:induction false} ClosedStep(p: nat, b: nat, c: nat)
    ensures 5381 * (33 * p) + (33 * b + c) == (5381 * p + b) * 33 + c
  {
  }

  lemma {:induction false} WrapProduct(x: nat, c: nat)
    ensures (x % 4294967296 * 33 + c) % 4294967296 == (x * 33 + c) % 4294967296
  {
    var q := x / 4294967296;
    assert x * 33 + c == (x % 4294967296 * 33 + c) + 4294967296 * (33 * q);
    WrapMultiple(x % 4294967296 * 33 + c, 33 * q);
  }

  lemma {:induction false} WrapMultiple(y: nat, k: nat)
    ensures (y + 4294967296 * k) % 4294967296 == y % 4294967296
  {
  }

  /** dictGenHashFunction. */
  method GenHashFunction(buf: Bytes) returns (hash: nat)
    ensures hash == HashOf(buf)
  {
    hash := 5381;
    assert buf[..0] == [];
    for i := 0 to |buf|
      invariant hash == HashOf(buf[..i])
    {
      assert buf[..i + 1][..i] == buf[..i];
      HashStep(hash, buf[i]);
      hash := ((hash * 32 % UINT_RANGE + hash) % UINT_RANGE + buf[i]) % UINT_RANGE;
    }
    assert buf[..|buf|] == buf;
  }

  /** The bitwise and of two unsigned words. */
  function BitAnd(a: nat, b: nat): nat {
    if a == 0 || b == 0 then 0 else 2 * BitAnd(a / 2, b / 2) + (a % 2) * (b % 2)
  }

  function Pow2(k: nat): (p: nat)
    ensures p >= 1
  {
    if k == 0 then 1 else 2 * Pow2(k - 1)
  }

  ghost predicate IsPow2(n: nat) {
    exists k: nat :: n == Pow2(k)
  }

  /** Masking with 2^k - 1 is reduction modulo 2^k. */
  lemma {:induction false} MaskIsMod(h: nat, k: nat)
    ensures BitAnd(h, Pow2(k) - 1) == h % Pow2(k) < Pow2(k)
  {
    hide BitAnd, Pow2;
    Pow2Step(k);
    if k == 0 || h == 0 {
      MaskOfZero(h, Pow2(k) - 1);
    } else {
      MaskIsMod(h / 2, k - 1);
      MaskStep(h, Pow2(k - 1));
      ModTwice(h, Pow2(k - 1));
    }
  }

  lemma {:induction false} Pow2Step(k: nat)
    ensures Pow2(k) == if k == 0 then 1 else 2 * Pow2(k - 1)
  {
  }

  lemma {:induction false} MaskOfZero(h: nat, mask: nat)
    requires h == 0 || mask == 0
    ensures BitAnd(h, mask) == 0 == h % (mask + 1)
  {
  }

  lemma {:induction false} MaskStep(h: nat, m: nat)
    requires h > 0 && m > 0
    ensures BitAnd(h, 2 * m - 1) == 2 * BitAnd(h / 2, m - 1) + h % 2
  {
    assert (2 * m - 1) / 2 == m - 1 && (2 * m - 1) % 2 == 1;
  }

  lemma {:induction false} ModTwice(h: nat, m: nat)
    requires m > 0
    ensures h % (2 * m) == 2 * (h / 2 % m) + h % 2 < 2 * m
  {
    var q, r := h / 2 / m, h / 2 % m;
    assert h / 2 == m * q + r;
    assert h == 2 * m * q + (2 * r + h % 2);
    ModOf(h, 2 * m, q, 2 * r + h % 2);
  }

  lemma {:induction false} ModOf(h: nat, n: nat, q: nat, r: nat)
    requires r < n && h == n * q + r
    ensures h % n == r
  {
    var q', r' := h / n, h % n;
    var d := q' - q;
    assert n * d == n * q' - n * q == r - r';
    if d >= 1 {
      Multiple(n, d);
    } else if d <= -1 {
      Multiple(n, -d);
    }
  }

  lemma {:induction false} Multiple(n: nat, d: int)
    requires d >= 1
    ensures n * d >= n && n * -d <= 0 - n
  {
  }

  /** _dictNextPower. */
  method NextPower(size: nat) returns (i: nat)
    ensures size < LONG_MAX ==> IsPow2(i) && i >= size && i >= DICT_HT_INITIAL_SIZE
    ensures size < LONG_MAX && IsPow2(size) && size >= DICT_HT_INITIAL_SIZE ==> i == size
    ensures size < 0x7fff_ffff_ffff_ffff ==> i >= 4 && (i == 4 || i < 2 * size)
    ensures size >= LONG_MAX ==> i == LONG_MAX
  {
    i := DICT_HT_INITIAL_SIZE;
    assert Pow2(2) == 4;
    ghost var k := 2;
    if size >= LONG_MAX {
      return LONG_MAX;
    }
    while true
      invariant i == Pow2(k) && i >= DICT_HT_INITIAL_SIZE && k >= 2
      invariant i == DICT_HT_INITIAL_SIZE || i < 2 * size
      invariant i > DICT_HT_INITIAL_SIZE ==> k > 2 && Pow2(k - 1) < size
      decreases size - i
    {
      if i >= size {
        if IsPow2(size) && size >= DICT_HT_INITIAL_SIZE {
          var m :| size == Pow2(m);
          if i > size {
            Pow2Gap(k, m);
          }
        }
        return i;
      }
      i := i * 2;
      k := k + 1;
    }
  }

  lemma {:induction false} Pow2Monotone(a: nat, b: nat)
    requires a <= b
    ensures Pow2(a) <= Pow2(b)
    decreases b - a
  {
    if a < b {
      Pow2Monotone(a, b - 1);
    }
  }

  /** No power of two lies strictly between consecutive ones. */
  lemma {:induction false} Pow2Gap(k: nat, m: nat)
    requires k >= 1
    ensures !(Pow2(k - 1) < Pow2(m) < Pow2(k))
  {
    if m <= k - 1 {
      Pow2Monotone(m, k - 1);
    } else {
      Pow2Monotone(k, m);
    }
  }

  class DictEntry<V> {
    const key: Bytes
    var val: V
    var next: DictEntry?<V>

    constructor (key: Bytes, val: V, next: DictEntry?<V>)
      ensures this.key == key && this.val == val && this.next == next
    {
      this.key, this.val, this.next := key, val, next;
    }
  }

  /** dictHashKey(ht, key) & sizemask. */
  function Bucket(key: Bytes, size: nat): nat
    requires size > 0
  {
    BitAnd(HashOf(key), size - 1)
  }

  lemma {:induction false} BucketInRange(key: Bytes, size: nat)
    requires IsPow2(size)
    ensures size > 0 && Bucket(key, size) < size
  {
    var k: nat :| size == Pow2(k);
    MaskIsMod(HashOf(key), k);
  }

  type Chain<V> = seq<DictEntry<V>>
  type Index<V> = map<Bytes, DictEntry<V>>

  function Nth<V>(chain: Chain<V>, j: nat): DictEntry?<V> {
    if j < |chain| then chain[j] else null
  }

  /** `head` starts the null-terminated list of exactly these entries. */
  ghost predicate Linked<V>(head: DictEntry?<V>, chain: Chain<V>)
    reads chain`next
  {
    head == Nth(chain, 0) && forall j :: 0 <= j < |chain| ==> chain[j].next == Nth(chain, j + 1)
  }

  /** Bucket b holds entries of the index that hash to b, none of them twice. */
  ghost predicate BucketOk<V>(chain: Chain<V>, index: Index<V>, b: nat, size: nat)
    requires size > 0
  {
    && (forall j :: 0 <= j < |chain| ==>
      chain[j].key in index && index[chain[j].key] == chain[j] && Bucket(chain[j].key, size) == b)
    && (forall j, k :: 0 <= j < k < |chain| ==> chain[j] != chain[k])
  }

  /** The buckets hold exactly the entries of the index, one for each key. */
  ghost predicate Filed<V>(chains: seq<Chain<V>>, index: Index<V>) {
    && (|chains| > 0 ==> IsPow2(|chains|))
    && (forall b :: 0 <= b < |chains| ==> BucketOk(chains[b], index, b, |chains|))
    && (forall key :: key in index ==>
      |chains| > 0 && index[key].key == key && Bucket(key, |chains|) < |chains| && index[key] in chains[Bucket(key, |chains|)])
  }

  function RemoveAt<T>(s: seq<T>, j: nat): seq<T>
    requires j < |s|
  {
    s[..j] + s[j + 1..]
  }

  lemma {:induction false} FiledRemove<V>(chains: seq<Chain<V>>, index: Index<V>, b: nat, j: nat)
    requires Filed(chains, index) && b < |chains| && j < |chains[b]|
    ensures var e := chains[b][j];
      && e.key in index && index[e.key] == e
      && Filed(chains[b := RemoveAt(chains[b], j)], index - {e.key})
  {
    var e, chains', index' := chains[b][j], chains[b := RemoveAt(chains[b], j)], index - {chains[b][j].key};
    assert BucketOk(chains[b], index, b, |chains|);
    forall i | 0 <= i < |chains|
      ensures BucketOk(chains'[i], index', i, |chains|)
    {
      assert BucketOk(chains[i], index, i, |chains|);
      BucketRemove(chains[b], index, b, j, |chains|);
    }
    forall key | key in index'
      ensures index'[key] in chains'[Bucket(key, |chains|)]
    {
      InRemoveAt(chains[b], j, index[key]);
    }
  }

  lemma {:induction false} HeadRemoved<V>(chains: seq<Chain<V>>, index: Index<V>, b: nat)
    requires Filed(chains, index) && b < |chains| && chains[b] != []
    ensures var e := chains[b][0];
      && e.key in index && index[e.key] == e && Filed(chains[b := chains[b][1..]], index - {e.key})
  {
    FiledRemove(chains, index, b, 0);
    assert RemoveAt(chains[b], 0) == chains[b][1..];
  }

  lemma {:induction false} BucketRemove<V>(chain: Chain<V>, index: Index<V>, b: nat, j: nat, size: nat)
    requires size > 0 && BucketOk(chain, index, b, size) && j < |chain|
    ensures BucketOk(RemoveAt(chain, j), index - {chain[j].key}, b, size)
  {
    var r := RemoveAt(chain, j);
    assert forall k :: 0 <= k < |r| ==> r[k] == (if k < j then chain[k] else chain[k + 1]);
  }

  lemma {:induction false} InRemoveAt<V>(chain: Chain<V>, j: nat, e: DictEntry<V>)
    requires j < |chain|
    ensures e in chain && e != chain[j] ==> e in RemoveAt(chain, j)
  {
    if e in chain && e != chain[j] {
      var k :| 0 <= k < |chain| && chain[k] == e;
      assert RemoveAt(chain, j)[if k < j then k else k - 1] == e;
    }
  }

  lemma {:induction false} FiledAdd<V>(chains: seq<Chain<V>>, index: Index<V>, e: DictEntry<V>)
    requires Filed(chains, index) && |chains| > 0 && e.key !in index
    ensures var b := Bucket(e.key, |chains|);
      b < |chains| && Filed(chains[b := [e] + chains[b]], index[e.key := e])
  {
    BucketInRange(e.key, |chains|);
    var b := Bucket(e.key, |chains|);
    var chains', index' := chains[b := [e] + chains[b]], index[e.key := e];
    forall i | 0 <= i < |chains|
      ensures BucketOk(chains'[i], index', i, |chains|)
    {
      assert BucketOk(chains[i], index, i, |chains|);
    }
    forall key | key in index'
      ensures index'[key] in chains'[Bucket(key, |chains|)]
    {
      if key == e.key {
        assert chains'[b][0] == e;
      } else {
        var i := Bucket(key, |chains|);
        var k :| 0 <= k < |chains[i]| && chains[i][k] == index[key];
        if i == b {
          assert chains'[b][k + 1] == index[key];
        }
      }
    }
  }

  function Empties<V>(n: nat): (chains: seq<Chain<V>>)
    ensures |chains| == n && forall b :: 0 <= b < n ==> chains[b] == []
  {
    seq(n, _ => [])
  }

  /** A table of empty buckets holds nothing. */
  lemma {:induction false} FiledEmpty<V>(size: nat)
    requires size > 0 ==> IsPow2(size)
    ensures Filed<V>(Empties(size), map[])
  {
  }

  /** Every chained entry is an entry of the index, so it lies in the table's footprint. */
  ghost predicate InIndex<V>(chains: seq<Chain<V>>, index: Index<V>) {
    forall b, j :: 0 <= b < |chains| && 0 <= j < |chains[b]| ==> chains[b][j] in index.Values
  }

  /** All buckets of a table are linked as `chains` says. */
  ghost predicate AllLinked<V>(table: array<DictEntry?<V>>, chains: seq<Chain<V>>, from: nat)
    reads table, (set b, j | 0 <= b < |chains| && 0 <= j < |chains[b]| :: chains[b][j])`next
  {
    table.Length == |chains| && forall b :: from <= b < |chains| ==> Linked(table[b], chains[b])
  }

  /** The entry is in none of the buckets. */
  ghost predicate Outside<V>(e: DictEntry<V>, chains: seq<Chain<V>>) {
    forall b, j :: 0 <= b < |chains| && 0 <= j < |chains[b]| ==> chains[b][j] != e
  }

  lemma {:induction false} OutsideIndex<V>(e: DictEntry<V>, chains: seq<Chain<V>>, index: Index<V>)
    requires Filed(chains, index) && e.key !in index
    ensures Outside(e, chains)
  {
    forall b, j | 0 <= b < |chains| && 0 <= j < |chains[b]|
      ensures chains[b][j] != e
    {
      assert BucketOk(chains[b], index, b, |chains|);
    }
  }

  lemma {:induction false} FiledInIndex<V>(chains: seq<Chain<V>>, index: Index<V>)
    requires Filed(chains, index)
    ensures InIndex(chains, index)
  {
    forall b, j | 0 <= b < |chains| && 0 <= j < |chains[b]|
      ensures chains[b][j] in index.Values
    {
      assert BucketOk(chains[b], index, b, |chains|);
    }
  }

  /** he->next = table[h]; table[h] = he. */
  method LinkFirst<V>(table: array<DictEntry?<V>>, h: nat, e: DictEntry<V>, ghost chains: seq<Chain<V>>)
    requires AllLinked(table, chains, 0) && h < table.Length && Outside(e, chains)
    modifies table, e`next
    ensures AllLinked(table, chains[h := [e] + chains[h]], 0)
  {
    e.next := table[h];
    table[h] := e;
    ghost var chains' := chains[h := [e] + chains[h]];
    forall b | 0 <= b < |chains|
      ensures Linked(table[b], chains'[b])
    {
      assert old(Linked(table[b], chains[b]));
      assert forall j :: 0 <= j < |chains[b]| ==> chains[b][j] != e;
    }
  }

  /** Takes entry j out of the list that starts at table[h]. */
  method UnlinkAt<V>(table: array<DictEntry?<V>>, h: nat, prev: DictEntry?<V>, de: DictEntry<V>,
                     ghost chain: Chain<V>, ghost j: nat)
    requires h < table.Length && Linked(table[h], chain) && j < |chain| && de == chain[j]
    requires prev == if j == 0 then null else chain[j - 1]
    requires forall i, k :: 0 <= i < k < |chain| ==> chain[i] != chain[k]
    modifies table, (if prev != null then {prev} else {})`next
    ensures Linked(table[h], RemoveAt(chain, j))
    ensures forall b :: 0 <= b < table.Length && b != h ==> table[b] == old(table[b])
  {
    hide RemoveAt;
    if prev != null {
      prev.next := de.next;
    } else {
      table[h] := de.next;
    }
    LinkedWithout(table[h], chain, j);
  }

  /** A list whose pointers lead around entry j. */
  lemma {:induction false} LinkedWithout<V>(head: DictEntry?<V>, chain: Chain<V>, j: nat)
    requires j < |chain| && head == if j == 0 then Nth(chain, 1) else Nth(chain, 0)
    requires forall k :: 0 <= k < |chain| && k != j && k + 1 != j ==> chain[k].next == Nth(chain, k + 1)
    requires j > 0 ==> chain[j - 1].next == Nth(chain, j + 1)
    ensures Linked(head, RemoveAt(chain, j))
  {
    var chain' := RemoveAt(chain, j);
    forall k | 0 <= k < |chain'|
      ensures chain'[k].next == Nth(chain', k + 1)
    {
      assert chain'[k] == if k < j then chain[k] else chain[k + 1];
    }
  }

  /** Unlink the element from the list of its bucket, where j is its position. */
  method UnlinkNode<V>(table: array<DictEntry?<V>>, h: nat, prev: DictEntry?<V>, de: DictEntry<V>,
                       ghost chains: seq<Chain<V>>, ghost j: nat)
    requires AllLinked(table, chains, 0) && h < table.Length && j < |chains[h]| && de == chains[h][j]
    requires prev == if j == 0 then null else chains[h][j - 1]
    requires forall b, k :: 0 <= b < |chains| && 0 <= k < |chains[b]| && b != h ==> chains[b][k] !in chains[h]
    requires forall i, k :: 0 <= i < k < |chains[h]| ==> chains[h][i] != chains[h][k]
    modifies table, (if prev != null then {prev} else {})`next
    ensures AllLinked(table, chains[h := RemoveAt(chains[h], j)], 0)
  {
    hide RemoveAt;
    UnlinkAt(table, h, prev, de, chains[h], j);
    forall b | 0 <= b < |chains| && b != h
      ensures Linked(table[b], chains[b])
    {
      assert old(Linked(table[b], chains[b]));
      assert j > 0 ==> chains[h][j - 1] in chains[h];
      assert forall k :: 0 <= k < |chains[b]| ==> chains[b][k] !in chains[h];
    }
  }

  /** The values that the entries hold now. */
  ghost function ContentsOf<V>(index: Index<V>): map<Bytes, V>
    reads index.Values`val
  {
    map key | key in index :: index[key].val
  }

  lemma {:induction false} ContentsAdded<V>(index: Index<V>, entry: DictEntry<V>)
    ensures ContentsOf(index[entry.key := entry]) == ContentsOf(index)[entry.key := entry.val]
  {
  }

  lemma {:induction false} ContentsRemoved<V>(index: Index<V>, key: Bytes)
    ensures ContentsOf(index - {key}) == ContentsOf(index) - {key}
  {
  }

  class Dict<V> {
    var table: array<DictEntry?<V>>
    var size: nat
    var sizemask: nat
    var used: nat

    /** The entries by bucket in list order, and by key. */
    ghost var chains: seq<Chain<V>>
    ghost var index: Index<V>

    ghost predicate Valid()
      reads this, table, index.Values`next
    {
      && size == |chains| == table.Length && sizemask == (if size == 0 then 0 else size - 1)
      && (size > 0 ==> size >= DICT_HT_INITIAL_SIZE)
      && used == |index| <= size
      && Filed(chains, index) && InIndex(chains, index)
      && AllLinked(table, chains, 0)
    }

    /** The finite map that the table represents. */
    ghost function Contents(): map<Bytes, V>
      reads this`index, index.Values`val
    {
      ContentsOf(index)
    }

    /** dictCreate: no table yet. */
    constructor ()
      ensures Valid() && Contents() == map[] && fresh(table) && index == map[] && size == used == 0
    {
      table := new DictEntry?<V>[0];
      size, sizemask, used := 0, 0, 0;
      chains, index := [], map[];
    }

    /** The bucket of a key in a table that is not empty: its hash, masked. */
    method HashSlot(key: Bytes) returns (h: nat)
      requires Valid() && size > 0
      ensures h == Bucket(key, size) < size
    {
      hide BitAnd, AllLinked, InIndex, HashOf;
      var hash := GenHashFunction(key);
      h := BitAnd(hash, sizemask);
      BucketInRange(key, size);
    }

    /** The walk down a bucket shared by dictFind, dictDelete and _dictKeyIndex. */
    method Search(h: nat, key: Bytes) returns (prev: DictEntry?<V>, de: DictEntry?<V>, ghost j: nat)
      requires Valid() && h < size && h == Bucket(key, size)
      ensures de == null <==> key !in index
      ensures de != null ==> j < |chains[h]| && de == chains[h][j] == index[key] && de.key == key
      ensures de != null ==> prev == if j == 0 then null else chains[h][j - 1]
    {
      ghost var chain := chains[h];
      assert BucketOk(chain, index, h, size) && Linked(table[h], chain);
      prev, de, j := null, table[h], 0;
      while de != null
        invariant j <= |chain| && de == Nth(chain, j)
        invariant prev == if j == 0 then null else chain[j - 1]
        invariant forall i :: 0 <= i < j ==> chain[i].key != key
        decreases |chain| - j
      {
        if key == de.key {
          return;
        }
        prev, de, j := de, de.next, j + 1;
      }
    }

    /** dictFind. */
    method Find(key: Bytes) returns (de: DictEntry?<V>)
      requires Valid()
      ensures de == null <==> key !in Contents()
      ensures de != null ==> key in index && de == index[key] && de.key == key && de.val == Contents()[key]
    {
      if size == 0 {
        return null;
      }
      var h := HashSlot(key);
      ghost var j;
      var prev;
      prev, de, j := Search(h, key);
    }

    /** Moves the first entry of old bucket i to its bucket of the new table. */
    method MoveEntry(n: array<DictEntry?<V>>, nmask: nat, i: nat, he: DictEntry<V>,
                     ghost rest: seq<Chain<V>>, ghost remaining: Index<V>, ghost moved: seq<Chain<V>>, ghost done: Index<V>)
      returns (nextHe: DictEntry?<V>, ghost rest': seq<Chain<V>>, ghost remaining': Index<V>,
               ghost moved': seq<Chain<V>>, ghost done': Index<V>)
      requires i < |rest| == table.Length && rest[i] != [] && Linked(he, rest[i])
      requires Filed(rest, remaining) && AllLinked(table, rest, i + 1)
      requires Filed(moved, done) && AllLinked(n, moved, 0) && n != table
      requires n.Length > 0 && nmask == n.Length - 1 && forall key :: key in done ==> key !in remaining
      modifies n, he`next
      ensures rest' == rest[i := rest[i][1..]] && remaining' == remaining - {he.key}
      ensures he.key in remaining && remaining[he.key] == he && done' == done[he.key := he]
      ensures Linked(nextHe, rest'[i]) && nextHe == Nth(rest'[i], 0)
      ensures Filed(rest', remaining') && AllLinked(table, rest', i + 1)
      ensures Filed(moved', done') && AllLinked(n, moved', 0) && |moved'| == |moved|
    {
      hide Filed, BitAnd, HashOf, BucketOk, IsPow2, Dict.Valid, RemoveAt, Outside;
      HeadRemoved(rest, remaining, i);
      rest', remaining' := rest[i := rest[i][1..]], remaining - {he.key};
      OutsideIndex(he, moved, done);
      OutsideIndex(he, rest', remaining');
      FiledAdd(moved, done, he);
      nextHe := he.next;
      var hash := GenHashFunction(he.key);
      var h := BitAnd(hash, nmask);
      moved', done' := moved[h := [he] + moved[h]], done[he.key := he];
      LinkFirst(n, h, he, moved);
      forall b | i + 1 <= b < |rest'|
        ensures Linked(table[b], rest'[b])
      {
        assert old(Linked(table[b], rest[b]));
        assert forall k :: 0 <= k < |rest[b]| ==> rest'[b][k] != he;
      }
      assert forall k :: 0 <= k < |rest'[i]| ==> rest'[i][k] == rest[i][k + 1] && rest'[i][k] != he;
    }

    /**
     A stage of the rehash: `rest` still to move, `moved` in the new table; bucket i is taken out of
     the old table from `he` on, those below it are empty.
     */
    ghost predicate Moving(n: array<DictEntry?<V>>, i: nat, he: DictEntry?<V>, rest: seq<Chain<V>>, remaining: Index<V>,
                           moved: seq<Chain<V>>, done: Index<V>)
      reads this, table, n, index.Values`next
    {
      && i < |rest| == size == table.Length && |moved| == n.Length
      && Parted(index, done, remaining) && Filed(rest, remaining) && Filed(moved, done)
      && InIndex(rest, index) && InIndex(moved, index)
      && (forall b :: 0 <= b < i ==> rest[b] == [])
      && he == Nth(rest[i], 0) && Linked(he, rest[i])
      && AllLinked(table, rest, i + 1) && AllLinked(n, moved, 0)
      && used == |remaining|
    }

    /** One turn of the inner loop of dictExpand. */
    method MoveOne(n: array<DictEntry?<V>>, nmask: nat, i: nat, he: DictEntry<V>,
                   ghost rest: seq<Chain<V>>, ghost remaining: Index<V>, ghost moved: seq<Chain<V>>, ghost done: Index<V>)
      returns (nextHe: DictEntry?<V>, ghost rest': seq<Chain<V>>, ghost remaining': Index<V>,
               ghost moved': seq<Chain<V>>, ghost done': Index<V>)
      requires Moving(n, i, he, rest, remaining, moved, done)
      requires n.Length > 0 && nmask == n.Length - 1 && n != table
      modifies this`used, n, he`next
      ensures Moving(n, i, nextHe, rest', remaining', moved', done') && |rest'[i]| < |rest[i]|
    {
      hide Filed, InIndex, AllLinked, Linked;
      nextHe, rest', remaining', moved', done' := MoveEntry(n, nmask, i, he, rest, remaining, moved, done);
      used := used - 1;
      MovePart(index, done, remaining, he.key);
      FiledInPart(rest', remaining', index);
      FiledInPart(moved', done', index);
    }

    /** The inner loop of dictExpand: every entry of bucket i. */
    method MoveBucket(n: array<DictEntry?<V>>, nmask: nat, i: nat,
                      ghost rest: seq<Chain<V>>, ghost remaining: Index<V>, ghost moved: seq<Chain<V>>, ghost done: Index<V>)
      returns (ghost rest': seq<Chain<V>>, ghost remaining': Index<V>, ghost moved': seq<Chain<V>>, ghost done': Index<V>)
      requires i < size == table.Length && Moving(n, i, table[i], rest, remaining, moved, done)
      requires n.Length > 0 && nmask == n.Length - 1 && n != table
      modifies this`used, n, index.Values`next
      ensures Moving(n, i, null, rest', remaining', moved', done')
    {
      rest', remaining', moved', done' := rest, remaining, moved, done;
      var he := table[i];
      while he != null
        invariant Moving(n, i, he, rest', remaining', moved', done')
        decreases |rest'[i]|
      {
        HeadInIndex(rest', index, i);
        hide Moving;
        he, rest', remaining', moved', done' := MoveOne(n, nmask, i, he, rest', remaining', moved', done');
      }
    }

    /** dictExpand. */
    method Expand(newsize: nat) returns (ok: bool)
      requires Valid() && newsize < LONG_MAX
      modifies this`table, this`size, this`sizemask, this`used, this`chains, index.Values`next
      ensures Valid() && index == old(index) && used == old(used)
      ensures ok == (old(used) <= newsize)
      ensures ok ==> fresh(table) && IsPow2(size) && size >= newsize
      ensures ok && IsPow2(newsize) && newsize >= DICT_HT_INITIAL_SIZE ==> size == newsize
      ensures !ok ==> table == old(table) && size == old(size)
    {
      hide Filed, InIndex, AllLinked, IsPow2;
      var realsize := NextPower(newsize);
      if used > newsize {
        return false;
      }
      var n := new DictEntry?<V>[realsize](_ => null);
      var nused := used;
      ghost var moved := MoveAll(n, realsize - 1);
      table, size, sizemask, used := n, realsize, realsize - 1, nused;
      chains := moved;
      FiledInIndex(chains, index);
      ok := true;
    }

    /** One turn of the outer loop of dictExpand. */
    method MoveSlot(n: array<DictEntry?<V>>, nmask: nat, i: nat,
                    ghost rest: seq<Chain<V>>, ghost remaining: Index<V>, ghost moved: seq<Chain<V>>, ghost done: Index<V>)
      returns (ghost rest': seq<Chain<V>>, ghost remaining': Index<V>, ghost moved': seq<Chain<V>>, ghost done': Index<V>)
      requires i < size == table.Length && used == |remaining| && n.Length > 0 && nmask == n.Length - 1 && n != table
      requires InIndex(rest, index) && InIndex(moved, index) && Staged(table, n, i, index, rest, remaining, moved, done)
      modifies this`used, n, index.Values`next
      ensures used == |remaining'|
      ensures InIndex(rest', index) && InIndex(moved', index) && Staged(table, n, i + 1, index, rest', remaining', moved', done')
    {
      hide Filed, InIndex, AllLinked, Linked, Parted;
      rest', remaining', moved', done' := rest, remaining, moved, done;
      SplitBucket(table, rest, i);
      if table[i] != null {
        rest', remaining', moved', done' := MoveBucket(n, nmask, i, rest, remaining, moved, done);
      }
      JoinBucket(table, rest', i);
    }

    /** The rehashing loop of dictExpand, up to its assertion that nothing is left in the old table. */
    method MoveAll(n: array<DictEntry?<V>>, nmask: nat) returns (ghost moved: seq<Chain<V>>)
      requires Valid() && n != table && n.Length > 0 && nmask == n.Length - 1 && IsPow2(n.Length)
      requires forall b :: 0 <= b < n.Length ==> n[b] == null
      modifies this`used, n, index.Values`next
      ensures |moved| == n.Length && Filed(moved, index) && AllLinked(n, moved, 0)
    {
      hide Filed, InIndex, AllLinked, Staged, IsPow2;
      ghost var rest, remaining, done := chains, index, map[];
      moved := Empties(n.Length);
      StageStart(table, n, chains, index);
      var i := 0;
      while i < size && used > 0
        invariant i <= size == table.Length && used == |remaining|
        invariant InIndex(rest, index) && InIndex(moved, index)
        invariant Staged(table, n, i, index, rest, remaining, moved, done)
      {
        rest, remaining, moved, done := MoveSlot(n, nmask, i, rest, remaining, moved, done);
        i := i + 1;
      }
      StageEnd(table, n, i, index, rest, remaining, moved, done);
      assert used == 0;
    }

    /** The size after a key was looked up for insertion: doubled when the table is full. */
    ghost function GrownSize(): nat
      reads this
    {
      if size == 0 then DICT_HT_INITIAL_SIZE else if used == size then 2 * size else size
    }

    /** _dictExpandIfNeeded. */
    method ExpandIfNeeded() returns (ok: bool)
      requires Valid() && size < 0x4000_0000
      modifies this`table, this`size, this`sizemask, this`used, this`chains, index.Values`next
      ensures ok && Valid() && index == old(index) && used == old(used) < size
      ensures table == old(table) || fresh(table)
      ensures size == old(GrownSize()) == old(if size == 0 then 4 else if used == size then size + size else size)
    {
      hide Filed, InIndex, AllLinked;
      if size == 0 {
        assert IsPow2(4) by { assert Pow2(2) == 4; }
        ok := Expand(DICT_HT_INITIAL_SIZE);
      } else if used == size {
        FiledPow2(chains, index);
        DoublePow2(size);
        ok := Expand(size * 2);
      } else {
        ok := true;
      }
    }

    /** _dictKeyIndex: the bucket for a new key, or -1 if the key exists; the table may grow either way. */
    method KeyIndex(key: Bytes) returns (i: int)
      requires Valid() && size < 0x4000_0000
      modifies this`table, this`size, this`sizemask, this`used, this`chains, index.Values`next
      ensures Valid() && index == old(index) && used == old(used) < size == old(GrownSize())
      ensures table == old(table) || fresh(table)
      ensures if key in index then i == -1 else i == Bucket(key, size) < size
    {
      hide Filed, InIndex, AllLinked;
      var ok := ExpandIfNeeded();
      if !ok {
        return -1;
      }
      var h := HashSlot(key);
      var prev, de;
      ghost var j;
      prev, de, j := Search(h, key);
      return if de != null then -1 else h;
    }

    /** dictAdd. */
    method Add(key: Bytes, val: V) returns (ok: bool)
      requires Valid() && size < 0x4000_0000
      modifies this, table, index.Values`next
      ensures Valid() && ok == (key !in old(Contents()))
      ensures Contents() == if ok then old(Contents())[key := val] else old(Contents())
      ensures table == old(table) || fresh(table)
      ensures !ok ==> index == old(index)
      ensures size == old(GrownSize()) && used == old(used) + (if ok then 1 else 0)
      ensures forall e :: e in index.Values ==> e in old(index.Values) || fresh(e)
    {
      hide Filed, InIndex, AllLinked;
      ghost var contents := Contents();
      var i := KeyIndex(key);
      assert Contents() == contents;
      if i == -1 {
        return false;
      }
      var entry := new DictEntry(key, val, null);
      ok := true;
      Insert(i, entry);
    }

    /** The linking half of dictAdd. */
    method Insert(i: nat, entry: DictEntry<V>)
      requires Valid() && used < size && entry.key !in index && i == Bucket(entry.key, size) < size
      modifies this`used, this`chains, this`index, table, entry`next
      ensures Valid() && index == old(index)[entry.key := entry] && table == old(table) && used == old(used) + 1
      ensures Contents() == old(Contents())[entry.key := entry.val]
    {
      hide Filed, Linked, Bucket, InIndex, ContentsOf;
      ContentsAdded(index, entry);
      OutsideIndex(entry, chains, index);
      FiledAdd(chains, index, entry);
      LinkFirst(table, i, entry, chains);
      chains := chains[i := [entry] + chains[i]];
      index := index[entry.key := entry];
      FiledInIndex(chains, index);
      used := used + 1;
      AddedCount(old(index), entry.key, entry);
    }

    /** dictReplace: true if the key is new, false if an existing value was updated. */
    method Replace(key: Bytes, val: V) returns (added: bool)
      requires Valid() && size < 0x4000_0000
      modifies this, table, index.Values
      ensures Valid() && added == (key !in old(Contents())) && Contents() == old(Contents())[key := val]
      ensures table == old(table) || fresh(table)
      ensures size == old(GrownSize()) && used == old(used) + (if added then 1 else 0)
      ensures forall e :: e in index.Values ==> e in old(index.Values) || fresh(e)
    {
      hide Filed, InIndex, AllLinked;
      added := Add(key, val);
      if added {
        return;
      }
      ghost var contents := Contents();
      var entry := Find(key);
      KeysDiffer(chains, index, key);
      SetVal(entry, val);
      assert Contents() == contents[key := val];
    }

    /** dictDelete: unlinks the entry and leaves every other entry where it is. */
    method Delete(key: Bytes) returns (ok: bool)
      requires Valid()
      modifies this`used, this`chains, this`index, table, index.Values`next
      ensures Valid() && ok == (key in old(Contents())) && Contents() == old(Contents()) - {key}
      ensures table == old(table) && size == old(size) && used <= old(used) && index == old(index) - {key}
      ensures ok ==> chains == Without(old(chains), old(index)[key])
      ensures !ok ==> chains == old(chains)
    {
      hide Dict.Valid, Filed, InIndex, AllLinked, Without, Bucket;
      var h, prev, de;
      ghost var j;
      h, prev, de, j := Locate(key);
      if de == null {
        MinusNothing(Contents(), key);
        MinusNothing(index, key);
        return false;
      }
      Unlink(h, prev, de, j);
      ok := true;
    }

    /** The search of dictDelete. */
    method Locate(key: Bytes) returns (h: nat, prev: DictEntry?<V>, de: DictEntry?<V>, ghost j: nat)
      requires Valid()
      ensures de == null <==> key !in index
      ensures de != null ==> h < size && j < |chains[h]| && de == chains[h][j] == index[key] && de.key == key
      ensures de != null ==> prev == if j == 0 then null else chains[h][j - 1]
    {
      hide Filed, InIndex, AllLinked;
      if size == 0 {
        NothingFiled(chains, index);
        return 0, null, null, 0;
      }
      h := HashSlot(key);
      prev, de, j := Search(h, key);
    }

    /** Takes the entry at position j of bucket h out of its list. */
    method Unlink(h: nat, prev: DictEntry?<V>, de: DictEntry<V>, ghost j: nat)
      requires Valid() && h < size && j < |chains[h]| && de == chains[h][j]
      requires de.key in index && index[de.key] == de
      requires prev == if j == 0 then null else chains[h][j - 1]
      modifies this`used, this`chains, this`index, table, index.Values`next
      ensures Valid() && index == old(index) - {de.key} && chains == Without(old(chains), de)
      ensures Contents() == old(Contents()) - {de.key} && used == old(used) - 1
    {
      hide Filed, BucketOk, AllLinked, Linked, RemoveAt, Without, InIndex, ContentsOf;
      ContentsRemoved(index, de.key);
      FiledRemove(chains, index, h, j);
      OnlyThere(chains, index, h, j);
      PreviousInIndex(chains, index, h, j);
      UnlinkNode(table, h, prev, de, chains, j);
      RemovedCount(index, de.key);
      chains, index := chains[h := RemoveAt(chains[h], j)], index - {de.key};
      FiledInIndex(chains, index);
      used := used - 1;
    }

    /** dictSetHashVal. */
    method SetVal(entry: DictEntry<V>, val: V)
      requires Valid() && entry in index.Values
      modifies entry`val
      ensures Valid() && entry.val == val
    {
      hide Filed, AllLinked, InIndex;
      entry.val := val;
    }
  }

  /** A bucket without the given entry. */
  function Dropped<V>(chain: Chain<V>, e: DictEntry<V>): Chain<V> {
    if chain == [] then [] else if chain[0] == e then chain[1..] else [chain[0]] + Dropped(chain[1..], e)
  }

  function Without<V>(chains: seq<Chain<V>>, e: DictEntry<V>): (r: seq<Chain<V>>)
    ensures |r| == |chains| && forall b :: 0 <= b < |r| ==> r[b] == Dropped(chains[b], e)
  {
    seq(|chains|, b requires 0 <= b < |chains| => Dropped(chains[b], e))
  }

  lemma {:induction false} DroppedAt<V>(chain: Chain<V>, j: nat)
    requires j < |chain| && forall i :: 0 <= i < j ==> chain[i] != chain[j]
    ensures Dropped(chain, chain[j]) == RemoveAt(chain, j)
  {
    if j > 0 {
      DroppedAt(chain[1..], j - 1);
      assert RemoveAt(chain, j) == [chain[0]] + RemoveAt(chain[1..], j - 1);
    } else {
      assert RemoveAt(chain, 0) == chain[1..];
    }
  }

  lemma {:induction false} DroppedNone<V>(chain: Chain<V>, e: DictEntry<V>)
    requires forall i :: 0 <= i < |chain| ==> chain[i] != e
    ensures Dropped(chain, e) == chain
  {
    if chain != [] {
      DroppedNone(chain[1..], e);
    }
  }

  /** The entry at position j of bucket h, and the one in front of it, are nowhere else. */
  lemma {:induction false} PreviousInIndex<V>(chains: seq<Chain<V>>, index: Index<V>, h: nat, j: nat)
    requires InIndex(chains, index) && h < |chains| && j < |chains[h]|
    ensures j > 0 ==> chains[h][j - 1] in index.Values
  {
  }

  lemma {:induction false} OnlyThere<V>(chains: seq<Chain<V>>, index: Index<V>, h: nat, j: nat)
    requires Filed(chains, index) && h < |chains| && j < |chains[h]|
    ensures forall b, k :: 0 <= b < |chains| && 0 <= k < |chains[b]| && b != h ==> chains[b][k] !in chains[h]
    ensures forall i, k :: 0 <= i < k < |chains[h]| ==> chains[h][i] != chains[h][k]
    ensures Without(chains, chains[h][j]) == chains[h := RemoveAt(chains[h], j)]
  {
    assert BucketOk(chains[h], index, h, |chains|);
    forall b, k | 0 <= b < |chains| && 0 <= k < |chains[b]| && b != h
      ensures chains[b][k] !in chains[h]
    {
      assert BucketOk(chains[b], index, b, |chains|);
    }
    DroppedAt(chains[h], j);
    forall b | 0 <= b < |chains| && b != h
      ensures Dropped(chains[b], chains[h][j]) == chains[b]
    {
      DroppedNone(chains[b], chains[h][j]);
    }
  }

  lemma {:induction false} MinusNothing<K, W>(m: map<K, W>, key: K)
    requires key !in m
    ensures m - {key} == m
  {
  }

  lemma {:induction false} NothingFiled<V>(chains: seq<Chain<V>>, index: Index<V>)
    requires Filed(chains, index) && chains == []
    ensures index == map[]
  {
  }

  lemma {:induction false} KeysDiffer<V>(chains: seq<Chain<V>>, index: Index<V>, key: Bytes)
    requires Filed(chains, index) && key in index
    ensures forall other :: other in index && other != key ==> index[other] != index[key]
  {
  }

  lemma {:induction false} AddedCount<V>(index: Index<V>, key: Bytes, e: DictEntry<V>)
    requires key !in index
    ensures |index[key := e]| == |index| + 1
  {
    assert index[key := e].Keys == index.Keys + {key};
    assert |index[key := e].Keys| == |index.Keys| + 1;
  }

  lemma {:induction false} RemovedCount<V>(index: Index<V>, key: Bytes)
    requires key in index
    ensures |index - {key}| == |index| - 1
  {
    assert (index - {key}).Keys == index.Keys - {key};
    assert |(index - {key}).Keys| == |index.Keys| - 1;
  }

  lemma {:induction false} FiledPow2<V>(chains: seq<Chain<V>>, index: Index<V>)
    requires Filed(chains, index) && |chains| > 0
    ensures IsPow2(|chains|)
  {
  }

  lemma {:induction false} DoublePow2(n: nat)
    requires IsPow2(n)
    ensures IsPow2(n * 2)
  {
    var k: nat :| n == Pow2(k);
    assert n * 2 == Pow2(k + 1);
  }

  /** The position of the outer loop of dictExpand. */
  ghost predicate Staged<V>(table: array<DictEntry?<V>>, n: array<DictEntry?<V>>, i: nat, index: Index<V>,
                            rest: seq<Chain<V>>, remaining: Index<V>, moved: seq<Chain<V>>, done: Index<V>)
    requires InIndex(rest, index) && InIndex(moved, index)
    reads table, n, index.Values`next
  {
    && i <= |rest| == table.Length && |moved| == n.Length
    && Parted(index, done, remaining) && Filed(rest, remaining) && Filed(moved, done)
    && (forall b :: 0 <= b < i ==> rest[b] == [])
    && AllLinked(table, rest, i) && AllLinked(n, moved, 0)
  }

  /** When nothing remains, the new table holds the whole index. */
  lemma {:induction false} AllMoved<V>(index: Index<V>, rest: seq<Chain<V>>, remaining: Index<V>, moved: seq<Chain<V>>, done: Index<V>)
    requires Parted(index, done, remaining) && Filed(rest, remaining) && Filed(moved, done)
    requires |remaining| == 0 || forall b :: 0 <= b < |rest| ==> rest[b] == []
    ensures |remaining| == 0 && done == index
  {
    assert |remaining.Keys| == |remaining|;
    assert remaining.Keys == {};
  }

  lemma {:induction false} StageEnd<V>(table: array<DictEntry?<V>>, n: array<DictEntry?<V>>, i: nat, index: Index<V>,
                                       rest: seq<Chain<V>>, remaining: Index<V>, moved: seq<Chain<V>>, done: Index<V>)
    requires InIndex(rest, index) && InIndex(moved, index) && Staged(table, n, i, index, rest, remaining, moved, done)
    requires |remaining| == 0 || i == table.Length
    ensures |remaining| == 0 && |moved| == n.Length && Filed(moved, index) && AllLinked(n, moved, 0)
  {
    AllMoved(index, rest, remaining, moved, done);
  }

  lemma {:induction false} StageStart<V>(table: array<DictEntry?<V>>, n: array<DictEntry?<V>>, chains: seq<Chain<V>>, index: Index<V>)
    requires Filed(chains, index) && InIndex(chains, index) && AllLinked(table, chains, 0)
    requires IsPow2(n.Length) && forall b :: 0 <= b < n.Length ==> n[b] == null
    ensures InIndex(Empties(n.Length), index)
    ensures Staged(table, n, 0, index, chains, index, Empties(n.Length), map[])
  {
    FiledEmpty<V>(n.Length);
  }

  /** Two disjoint parts make up the index. */
  ghost predicate Parted<V>(index: Index<V>, done: Index<V>, remaining: Index<V>) {
    && SubIndex(done, index) && SubIndex(remaining, index)
    && forall key :: key in index ==> (key in done <==> key !in remaining)
  }

  ghost predicate SubIndex<V>(part: Index<V>, index: Index<V>) {
    forall key :: key in part ==> key in index && index[key] == part[key]
  }

  lemma {:induction false} MovePart<V>(index: Index<V>, done: Index<V>, remaining: Index<V>, key: Bytes)
    requires Parted(index, done, remaining) && key in remaining
    ensures Parted(index, done[key := remaining[key]], remaining - {key}) && |remaining - {key}| == |remaining| - 1
  {
    assert (remaining - {key}).Keys == remaining.Keys - {key};
    assert |remaining.Keys - {key}| == |remaining.Keys| - 1;
  }

  lemma {:induction false} SplitBucket<V>(table: array<DictEntry?<V>>, rest: seq<Chain<V>>, i: nat)
    requires i < |rest| && AllLinked(table, rest, i)
    ensures Linked(table[i], rest[i]) && table[i] == Nth(rest[i], 0) && AllLinked(table, rest, i + 1)
  {
  }

  lemma {:induction false} JoinBucket<V>(table: array<DictEntry?<V>>, rest: seq<Chain<V>>, i: nat)
    requires i < |rest| && AllLinked(table, rest, i + 1) && Nth(rest[i], 0) == null
    ensures rest[i] == [] && AllLinked(table, rest, i + 1)
  {
  }

  lemma {:induction false} HeadInIndex<V>(rest: seq<Chain<V>>, index: Index<V>, i: nat)
    requires i < |rest| && rest[i] != [] && InIndex(rest, index)
    ensures rest[i][0] in index.Values
  {
  }

  lemma {:induction false} FiledInPart<V>(chains: seq<Chain<V>>, part: Index<V>, index: Index<V>)
    requires Filed(chains, part) && SubIndex(part, index)
    ensures InIndex(chains, index)
  {
    forall b, j | 0 <= b < |chains| && 0 <= j < |chains[b]|
      ensures chains[b][j] in index.Values
    {
      assert BucketOk(chains[b], part, b, |chains|);
      var key := chains[b][j].key;
      assert key in index && index[key] == chains[b][j];
    }
  }

  /** The calls a client can make, and what it gets back. */
  datatype Op<V> = DoAdd(key: Bytes, val: V) | DoReplace(key: Bytes, val: V) | DoDelete(key: Bytes) | DoFind(key: Bytes)

  datatype Answer<V> = Flag(b: bool) | Lookup(value: Option<V>)

  /** The same calls on a finite map. */
  function MapAfter<V>(m: map<Bytes, V>, op: Op<V>): map<Bytes, V> {
    match op
    case DoAdd(key, val) => if key in m then m else m[key := val]
    case DoReplace(key, val) => m[key := val]
    case DoDelete(key) => m - {key}
    case DoFind(_) => m
  }

  function MapAnswer<V>(m: map<Bytes, V>, op: Op<V>): Answer<V> {
    match op
    case DoAdd(key, _) => Flag(key !in m)
    case DoReplace(key, _) => Flag(key !in m)
    case DoDelete(key) => Flag(key in m)
    case DoFind(key) => Lookup(if key in m then Some(m[key]) else None)
  }

  function MapAnswers<V>(m: map<Bytes, V>, ops: seq<Op<V>>): seq<Answer<V>>
    decreases |ops|
  {
    if ops == [] then [] else [MapAnswer(m, ops[0])] + MapAnswers(MapAfter(m, ops[0]), ops[1..])
  }

  function MapRun<V>(m: map<Bytes, V>, ops: seq<Op<V>>): map<Bytes, V>
    decreases |ops|
  {
    if ops == [] then m else MapRun(MapAfter(m, ops[0]), ops[1..])
  }

  lemma {:induction false} RunSnoc<V>(m: map<Bytes, V>, ops: seq<Op<V>>, op: Op<V>)
    ensures MapRun(m, ops + [op]) == MapAfter(MapRun(m, ops), op)
    ensures MapAnswers(m, ops + [op]) == MapAnswers(m, ops) + [MapAnswer(MapRun(m, ops), op)]
    decreases |ops|
  {
    if ops == [] {
      assert ops + [op] == [op] && [op][1..] == [];
    } else {
      assert (ops + [op])[1..] == ops[1..] + [op];
      RunSnoc(MapAfter(m, ops[0]), ops[1..], op);
    }
  }

  /** One call on the table. */
  method Perform<V>(ht: Dict<V>, op: Op<V>) returns (answer: Answer<V>)
    requires ht.Valid() && ht.size < 0x4000_0000
    modifies ht, ht.table, ht.index.Values
    ensures ht.Valid() && ht.Contents() == MapAfter(old(ht.Contents()), op)
    ensures answer == MapAnswer(old(ht.Contents()), op)
    ensures ht.table == old(ht.table) || fresh(ht.table)
    ensures forall e :: e in ht.index.Values ==> e in old(ht.index.Values) || fresh(e)
    ensures ht.used <= old(ht.used) + 1
    ensures ht.size == old(ht.size) || ht.size == old(ht.GrownSize())
  {
    hide Filed, InIndex, AllLinked;
    match op {
      case DoAdd(key, val) =>
        var ok := ht.Add(key, val);
        answer := Flag(ok);
      case DoReplace(key, val) =>
        var added := ht.Replace(key, val);
        answer := Flag(added);
      case DoDelete(key) =>
        var ok := ht.Delete(key);
        answer := Flag(ok);
      case DoFind(key) =>
        var de := ht.Find(key);
        answer := Lookup(if de == null then None else Some(de.val));
    }
  }

  /** Any sequence of calls on a new table is answered as a finite map would answer it. */
  method Run<V>(ops: seq<Op<V>>) returns (ht: Dict<V>, answers: seq<Answer<V>>)
    requires |ops| < 0x1000_0000
    ensures ht.Valid() && ht.Contents() == MapRun(map[], ops) && answers == MapAnswers(map[], ops)
  {
    hide Dict.Valid, MapAfter, MapAnswer;
    ht := new Dict<V>();
    answers := [];
    assert ops[..0] == [];
    for i := 0 to |ops|
      invariant fresh(ht) && fresh(ht.table) && forall e :: e in ht.index.Values ==> fresh(e)
      invariant ht.Valid() && ht.used <= i && ht.size <= 4 + 2 * i
      invariant ht.Contents() == MapRun(map[], ops[..i]) && answers == MapAnswers(map[], ops[..i])
    {
      RunSnoc(map[], ops[..i], ops[i]);
      assert ops[..i + 1] == ops[..i] + [ops[i]];
      var answer := Perform(ht, ops[i]);
      answers := answers + [answer];
    }
    assert ops[..|ops|] == ops;
  }
}
