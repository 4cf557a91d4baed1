// Separate chaining: `HashTableWithChaining` of lab05. The buckets are a
// sequence of chains the methods reassign; `contents` is the key-value map
// the table represents.

module Chaining {
  import opened Wrappers
  import HashFunctions

  /** A stored pair; Python's `None` as a value is `None`, any other value `Some`. */
  type Entry<V> = (string, Option<V>)

  /** An index function the table can use: it maps into [0, capacity). */
  ghost predicate InRange(hashing: (string, int) -> int)
  {
    forall key, capacity :: capacity >= 1 ==> 0 <= hashing(key, capacity) < capacity
  }

  /** The constructor's inline `polynomial_hash`: Horner with base 31. */
  function PolynomialIndex(key: string, capacity: int): (r: int)
    ensures capacity >= 1 ==> 0 <= r < capacity
    ensures capacity >= 1 ==> Ok(r) == HashFunctions.PolynomialHash(key, capacity, 31)
  {
    if capacity >= 1 then HashFunctions.PolynomialHash(key, capacity, 31).value else 0
  }

  /** Position of the first pair holding `key`, or the chain's length when none does. */
  function KeyIndex<V>(chain: seq<Entry<V>>, key: string): (r: nat)
    ensures r <= |chain|
    ensures r < |chain| ==> chain[r].0 == key
    ensures forall j :: 0 <= j < r ==> chain[j].0 != key
  {
    if |chain| == 0 then 0
    else if chain[0].0 == key then 0
    else 1 + KeyIndex(chain[1..], key)
  }

  /** A pair holding `key` at `j` bounds the first position of `key`. */
  lemma KeyIndexAtMost<V>(chain: seq<Entry<V>>, key: string, j: int)
    requires 0 <= j < |chain| && chain[j].0 == key
    ensures KeyIndex(chain, key) <= j
  {
  }

  /** The `enumerate` scan over a chain that every operation performs. */
  method Locate<V>(chain: seq<Entry<V>>, key: string) returns (p: nat)
    ensures p == KeyIndex(chain, key)
  {
    p := 0;
    while p < |chain| && chain[p].0 != key
      invariant p <= |chain|
      invariant forall j :: 0 <= j < p ==> chain[j].0 != key
    {
      p := p + 1;
    }
    if p < |chain| {
      KeyIndexAtMost(chain, key, p);
    }
  }

  /** All pairs, bucket by bucket: what `get_all_entries` collects. */
  function Flatten<V>(buckets: seq<seq<Entry<V>>>): seq<Entry<V>>
  {
    if |buckets| == 0 then [] else Flatten(buckets[..|buckets| - 1]) + buckets[|buckets| - 1]
  }

  /** A prefix of the buckets holds no more pairs than all of them. */
  lemma {:induction false} FlattenPrefix<V>(buckets: seq<seq<Entry<V>>>, b: nat)
    requires b <= |buckets|
    ensures |Flatten(buckets[..b])| <= |Flatten(buckets)|
    decreases |buckets| - b
  {
    if b < |buckets| {
      FlattenPrefix(buckets, b + 1);
      assert buckets[..b + 1][..b] == buckets[..b];
    } else {
      assert buckets[..b] == buckets;
    }
  }

  /** The next prefix of the buckets adds the next chain's pairs, within the total. */
  lemma FlattenStep<V>(buckets: seq<seq<Entry<V>>>, b: int)
    requires 0 <= b < |buckets|
    ensures |Flatten(buckets[..b + 1])| == |Flatten(buckets[..b])| + |buckets[b]| <= |Flatten(buckets)|
  {
    FlattenPrefix(buckets, b + 1);
    assert buckets[..b + 1][..b] == buckets[..b];
  }

  /** The pair at position `i` of the flattening comes from some chain. */
  lemma {:induction false} FlattenOrigin<V>(buckets: seq<seq<Entry<V>>>, i: int) returns (b: int, j: int)
    requires 0 <= i < |Flatten(buckets)|
    ensures 0 <= b < |buckets| && 0 <= j < |buckets[b]|
    ensures Flatten(buckets)[i] == buckets[b][j]
  {
    var n := |buckets|;
    var front := Flatten(buckets[..n - 1]);
    if i < |front| {
      b, j := FlattenOrigin(buckets[..n - 1], i);
    } else {
      b, j := n - 1, i - |front|;
    }
  }

  /** Every pair of every chain occurs in the flattening. */
  lemma {:induction false} FlattenPosition<V>(buckets: seq<seq<Entry<V>>>, b: int, j: int) returns (i: int)
    requires 0 <= b < |buckets| && 0 <= j < |buckets[b]|
    ensures 0 <= i < |Flatten(buckets)| && Flatten(buckets)[i] == buckets[b][j]
  {
    var n := |buckets|;
    var front := Flatten(buckets[..n - 1]);
    if b < n - 1 {
      i := FlattenPosition(buckets[..n - 1], b, j);
    } else {
      i := |front| + j;
    }
  }

  /** Every pair of a chain hashes to bucket `b` of `n`. */
  ghost predicate ChainPlaced<V>(chain: seq<Entry<V>>, hashing: (string, int) -> int, n: int, b: int)
  {
    forall j :: 0 <= j < |chain| ==> hashing(chain[j].0, n) == b
  }

  /** A chain (or any sequence of pairs) holds a key at most once. */
  ghost predicate ChainDistinct<V>(chain: seq<Entry<V>>)
  {
    forall i, j :: 0 <= i < j < |chain| ==> chain[i].0 != chain[j].0
  }

  /** Every pair of a chain is in the map. */
  ghost predicate ChainSound<V>(chain: seq<Entry<V>>, contents: map<string, Option<V>>)
  {
    forall j :: 0 <= j < |chain| ==> chain[j].0 in contents && contents[chain[j].0] == chain[j].1
  }

  /** Every key of the map is in the chain of the bucket it hashes to. */
  ghost predicate Complete<V>(storage: seq<seq<Entry<V>>>, hashing: (string, int) -> int, contents: map<string, Option<V>>)
    requires |storage| >= 1 && InRange(hashing)
  {
    forall k {:trigger KeyIndex(storage[hashing(k, |storage|)], k)} :: k in contents ==> KeyIndex(storage[hashing(k, |storage|)], k) < |storage[hashing(k, |storage|)]|
  }

  /**
   * The chains represent `contents` under `hashing`: every pair sits in the
   * bucket its key hashes to, a chain holds a key at most once, every pair
   * is in `contents`, and every key of `contents` is in its bucket.
   */
  ghost predicate Consistent<V>(storage: seq<seq<Entry<V>>>, hashing: (string, int) -> int, contents: map<string, Option<V>>)
  {
    && |storage| >= 1
    && InRange(hashing)
    && (forall b :: 0 <= b < |storage| ==> ChainPlaced(storage[b], hashing, |storage|, b))
    && (forall b :: 0 <= b < |storage| ==> ChainDistinct(storage[b]))
    && (forall b :: 0 <= b < |storage| ==> ChainSound(storage[b], contents))
    && Complete(storage, hashing, contents)
  }

  /** The scan of a key's bucket finds it exactly when the key is stored, with its value. */
  lemma Lookup<V>(storage: seq<seq<Entry<V>>>, hashing: (string, int) -> int, contents: map<string, Option<V>>, key: string)
    requires Consistent(storage, hashing, contents)
    ensures var chain := storage[hashing(key, |storage|)];
      && (KeyIndex(chain, key) < |chain| <==> key in contents)
      && (key in contents ==> chain[KeyIndex(chain, key)].1 == contents[key])
  {
    var chain := storage[hashing(key, |storage|)];
    assert ChainSound(chain, contents);
  }

  /** A chain placed in another bucket does not hold the key, so updating the key keeps it sound. */
  lemma SoundElsewhere<V>(chain: seq<Entry<V>>, hashing: (string, int) -> int, n: int, b: int,
                          contents: map<string, Option<V>>, key: string, value: Option<V>)
    requires ChainPlaced(chain, hashing, n, b) && ChainSound(chain, contents) && hashing(key, n) != b
    ensures ChainSound(chain, contents[key := value]) && ChainSound(chain, contents - {key})
  {
  }

  /** The keys of a sequence of pairs. */
  ghost function KeySet<V>(pairs: seq<Entry<V>>): set<string>
  {
    set i | 0 <= i < |pairs| :: pairs[i].0
  }

  /** Pairs without a repeated key have as many keys as pairs. */
  lemma {:induction false} DistinctCard<V>(pairs: seq<Entry<V>>)
    requires ChainDistinct(pairs)
    ensures |KeySet(pairs)| == |pairs|
  {
    if |pairs| > 0 {
      var n := |pairs| - 1;
      var front := pairs[..n];
      assert forall i :: 0 <= i < n ==> front[i] == pairs[i];
      DistinctCard(front);
      var last := pairs[n].0;
      forall x | x in KeySet(pairs)
        ensures x in KeySet(front) + {last}
      {
        var i :| 0 <= i < |pairs| && pairs[i].0 == x;
        if i < n {
          assert front[i].0 == x;
        }
      }
      forall x | x in KeySet(front) + {last}
        ensures x in KeySet(pairs)
      {
        if x != last {
          var i :| 0 <= i < n && front[i].0 == x;
          assert pairs[i].0 == x;
        } else {
          assert pairs[n].0 == x;
        }
      }
      assert KeySet(pairs) == KeySet(front) + {last};
      assert last !in KeySet(front);
    }
  }

  /**
   * Chains placed by bucket and without repeated keys flatten to pairs
   * without repeated keys: equal keys hash to the same bucket.
   */
  lemma {:induction false} FlattenDistinct<V>(buckets: seq<seq<Entry<V>>>, hashing: (string, int) -> int, n: int)
    requires forall b :: 0 <= b < |buckets| ==> ChainPlaced(buckets[b], hashing, n, b)
    requires forall b :: 0 <= b < |buckets| ==> ChainDistinct(buckets[b])
    ensures ChainDistinct(Flatten(buckets))
  {
    if |buckets| > 0 {
      var m := |buckets| - 1;
      var prefix := buckets[..m];
      assert forall b :: 0 <= b < m ==> prefix[b] == buckets[b];
      FlattenDistinct(prefix, hashing, n);
      var front := Flatten(prefix);
      var last := buckets[m];
      var all := Flatten(buckets);
      assert ChainPlaced(last, hashing, n, m) && ChainDistinct(last);
      forall i, j | 0 <= i < j < |all|
        ensures all[i].0 != all[j].0
      {
        if j < |front| {
          assert all[i] == front[i] && all[j] == front[j];
        } else if i >= |front| {
          assert all[i] == last[i - |front|] && all[j] == last[j - |front|];
        } else {
          var c, k := FlattenOrigin(prefix, i);
          assert ChainPlaced(buckets[c], hashing, n, c);
          assert all[i] == buckets[c][k];
          assert all[j] == last[j - |front|];
        }
      }
    }
  }

  /** The keys among all the pairs are exactly the keys of the map. */
  lemma FlattenKeys<V>(storage: seq<seq<Entry<V>>>, hashing: (string, int) -> int, contents: map<string, Option<V>>)
    requires Consistent(storage, hashing, contents)
    ensures KeySet(Flatten(storage)) == contents.Keys
  {
    var all := Flatten(storage);
    forall x | x in KeySet(all)
      ensures x in contents
    {
      var i :| 0 <= i < |all| && all[i].0 == x;
      var b, j := FlattenOrigin(storage, i);
      assert ChainSound(storage[b], contents);
    }
    forall x | x in contents
      ensures x in KeySet(all)
    {
      var b := hashing(x, |storage|);
      var i := FlattenPosition(storage, b, KeyIndex(storage[b], x));
    }
  }

  /** There are as many pairs in the chains as keys in the map they represent. */
  lemma PairCount<V>(storage: seq<seq<Entry<V>>>, hashing: (string, int) -> int, contents: map<string, Option<V>>)
    requires Consistent(storage, hashing, contents)
    ensures |Flatten(storage)| == |contents|
  {
    FlattenDistinct(storage, hashing, |storage|);
    DistinctCard(Flatten(storage));
    FlattenKeys(storage, hashing, contents);
  }

  /** The chain after `add_entry`: the key's pair overwritten in place, or appended. */
  function PutChain<V>(chain: seq<Entry<V>>, key: string, value: Option<V>): seq<Entry<V>>
  {
    var p := KeyIndex(chain, key);
    if p < |chain| then chain[p := (key, value)] else chain + [(key, value)]
  }

  /** The chain after `remove_entry`: the key's pair deleted, the others in order. */
  function DeleteChain<V>(chain: seq<Entry<V>>, key: string): seq<Entry<V>>
  {
    var p := KeyIndex(chain, key);
    if p < |chain| then chain[..p] + chain[p + 1..] else chain
  }

  /**
   * Putting a pair into its own chain keeps the chain placed and without
   * repeated keys; the key is then found with the new value, and every other
   * key where it was.
   */
  lemma PutChainFacts<V>(chain: seq<Entry<V>>, hashing: (string, int) -> int, n: int, b: int,
                         contents: map<string, Option<V>>, key: string, value: Option<V>)
    requires ChainPlaced(chain, hashing, n, b) && ChainDistinct(chain) && ChainSound(chain, contents)
    requires hashing(key, n) == b
    ensures var put := PutChain(chain, key, value);
      && ChainPlaced(put, hashing, n, b)
      && ChainDistinct(put)
      && ChainSound(put, contents[key := value])
      && KeyIndex(put, key) < |put|
      && |put| == |chain| + (if KeyIndex(chain, key) < |chain| then 0 else 1)
      && (forall k :: k != key && KeyIndex(chain, k) < |chain| ==> KeyIndex(put, k) < |put|)
  {
    var p := KeyIndex(chain, key);
    var put := PutChain(chain, key, value);
    assert forall j :: 0 <= j < |put| ==> put[j] == (key, value) || (j < |chain| && put[j] == chain[j] && chain[j].0 != key);
    KeyIndexAtMost(put, key, if p < |chain| then p else |chain|);
    forall k | k != key && KeyIndex(chain, k) < |chain|
      ensures KeyIndex(put, k) < |put|
    {
      KeyIndexAtMost(put, k, KeyIndex(chain, k));
    }
  }

  /**
   * Deleting a key from its chain keeps the chain placed and without repeated
   * keys; the key is then absent and every other key still found.
   */
  lemma DeleteChainFacts<V>(chain: seq<Entry<V>>, hashing: (string, int) -> int, n: int, b: int,
                            contents: map<string, Option<V>>, key: string)
    requires ChainPlaced(chain, hashing, n, b) && ChainDistinct(chain) && ChainSound(chain, contents)
    ensures var del := DeleteChain(chain, key);
      && ChainPlaced(del, hashing, n, b)
      && ChainDistinct(del)
      && ChainSound(del, contents - {key})
      && |del| == |chain| - (if KeyIndex(chain, key) < |chain| then 1 else 0)
      && (forall k :: k != key && KeyIndex(chain, k) < |chain| ==> KeyIndex(del, k) < |del|)
  {
    var p := KeyIndex(chain, key);
    var del := DeleteChain(chain, key);
    if p < |chain| {
      assert forall j :: 0 <= j < |del| ==> del[j] == chain[if j < p then j else j + 1];
      forall k | k != key && KeyIndex(chain, k) < |chain|
        ensures KeyIndex(del, k) < |del|
      {
        var q := KeyIndex(chain, k);
        KeyIndexAtMost(del, k, if q < p then q else q - 1);
      }
    }
  }

  /** Putting a pair into its bucket represents the updated map. */
  lemma PutConsistent<V>(storage: seq<seq<Entry<V>>>, hashing: (string, int) -> int, contents: map<string, Option<V>>,
                         key: string, value: Option<V>)
    requires Consistent(storage, hashing, contents)
    ensures var b := hashing(key, |storage|);
      Consistent(storage[b := PutChain(storage[b], key, value)], hashing, contents[key := value])
  {
    var n := |storage|;
    var b := hashing(key, n);
    var chain := storage[b];
    var put := PutChain(chain, key, value);
    var after := storage[b := put];
    var updated := contents[key := value];
    Lookup(storage, hashing, contents, key);
    PutChainFacts(chain, hashing, n, b, contents, key, value);
    forall c | 0 <= c < n && c != b
      ensures ChainSound(after[c], updated)
    {
      SoundElsewhere(storage[c], hashing, n, c, contents, key, value);
    }
    forall k | k in updated
      ensures KeyIndex(after[hashing(k, n)], k) < |after[hashing(k, n)]|
    {
    }
  }

  /** Deleting a key's pair from its bucket represents the map without the key. */
  lemma DeleteConsistent<V>(storage: seq<seq<Entry<V>>>, hashing: (string, int) -> int, contents: map<string, Option<V>>,
                            key: string)
    requires Consistent(storage, hashing, contents)
    ensures var b := hashing(key, |storage|);
      Consistent(storage[b := DeleteChain(storage[b], key)], hashing, contents - {key})
  {
    var n := |storage|;
    var b := hashing(key, n);
    var chain := storage[b];
    var del := DeleteChain(chain, key);
    var after := storage[b := del];
    var reduced := contents - {key};
    Lookup(storage, hashing, contents, key);
    DeleteChainFacts(chain, hashing, n, b, contents, key);
    forall c | 0 <= c < n && c != b
      ensures ChainSound(after[c], reduced)
    {
      SoundElsewhere(storage[c], hashing, n, c, contents, key, None);
    }
    forall k | k in reduced
      ensures KeyIndex(after[hashing(k, n)], k) < |after[hashing(k, n)]|
    {
    }
  }

  /** `_create_empty_storage`: `size` empty chains. */
  function CreateEmptyStorage<V>(size: nat): (r: seq<seq<Entry<V>>>)
    ensures |r| == size && |Flatten(r)| == 0
    ensures forall b :: 0 <= b < size ==> r[b] == []
  {
    if size == 0 then [] else CreateEmptyStorage(size - 1) + [[]]
  }

  /** Empty chains represent the empty map. */
  lemma EmptyConsistent<V>(n: int, hashing: (string, int) -> int)
    requires n >= 1 && InRange(hashing)
    ensures Consistent(CreateEmptyStorage<V>(n), hashing, map[])
  {
  }

  /** Collisions: for every non-empty chain, its length minus one. */
  function Collisions<V>(storage: seq<seq<Entry<V>>>): nat
  {
    if |storage| == 0 then 0
    else Collisions(storage[..|storage| - 1]) + (if |storage[|storage| - 1]| > 0 then |storage[|storage| - 1]| - 1 else 0)
  }

  /** The number of non-empty chains. */
  function NonEmptyChains<V>(storage: seq<seq<Entry<V>>>): nat
  {
    if |storage| == 0 then 0
    else NonEmptyChains(storage[..|storage| - 1]) + (if |storage[|storage| - 1]| > 0 then 1 else 0)
  }

  /** The collision total is the number of pairs minus the number of non-empty chains. */
  lemma {:induction false} CollisionsCount<V>(storage: seq<seq<Entry<V>>>)
    ensures Collisions(storage) + NonEmptyChains(storage) == |Flatten(storage)|
    ensures |Flatten(storage)| == 0 ==> Collisions(storage) == 0
  {
    if |storage| > 0 {
      CollisionsCount(storage[..|storage| - 1]);
    }
  }

  /** Every key of `contents` is in `before` with the same value. */
  ghost predicate Agrees<V>(contents: map<string, Option<V>>, before: map<string, Option<V>>)
  {
    forall k :: k in contents ==> k in before && contents[k] == before[k]
  }

  /** Every key of the chain is in the map. */
  ghost predicate ChainIn<V>(chain: seq<Entry<V>>, contents: map<string, Option<V>>)
  {
    forall j :: 0 <= j < |chain| ==> chain[j].0 in contents
  }

  /** Every key of the chains is in the map. */
  ghost predicate Covers<V>(chains: seq<seq<Entry<V>>>, contents: map<string, Option<V>>)
  {
    forall c :: 0 <= c < |chains| ==> ChainIn(chains[c], contents)
  }

  /** Covering survives the map gaining keys, and extends by a covered chain. */
  lemma CoversExtend<V>(chains: seq<seq<Entry<V>>>, b: int, smaller: map<string, Option<V>>, larger: map<string, Option<V>>)
    requires 0 <= b < |chains|
    requires Covers(chains[..b], smaller) && smaller.Keys <= larger.Keys && ChainIn(chains[b], larger)
    ensures Covers(chains[..b + 1], larger)
  {
    var extended := chains[..b + 1];
    forall c | 0 <= c < |extended|
      ensures ChainIn(extended[c], larger)
    {
      if c < b {
        assert ChainIn(chains[..b][c], smaller);
      }
    }
  }

  /** Re-adding the next pair of a chain keeps the map within `before` and covers one more pair. */
  lemma ReinsertStep<V>(chain: seq<Entry<V>>, j: int, before: map<string, Option<V>>,
                        reached: map<string, Option<V>>, contents: map<string, Option<V>>)
    requires 0 <= j < |chain| && ChainSound(chain, before)
    requires Agrees(reached, before) && ChainIn(chain[..j], reached)
    requires contents == reached[chain[j].0 := chain[j].1]
    ensures Agrees(contents, before) && reached.Keys <= contents.Keys
    ensures ChainIn(chain[..j + 1], contents)
  {
    assert forall i :: 0 <= i < j ==> chain[..j + 1][i] == chain[..j][i];
  }

  /**
   * Re-adding every pair of a representation of `before` into a map that
   * agrees with `before` yields `before` itself.
   */
  lemma AllReinserted<V>(storage: seq<seq<Entry<V>>>, hashing: (string, int) -> int,
                         before: map<string, Option<V>>, contents: map<string, Option<V>>)
    requires Consistent(storage, hashing, before) && Agrees(contents, before)
    requires Covers(storage, contents)
    ensures contents == before
  {
    forall k | k in before
      ensures k in contents
    {
      var c := hashing(k, |storage|);
      assert ChainIn(storage[c], contents);
      assert storage[c][KeyIndex(storage[c], k)].0 == k;
    }
  }

  class HashTableWithChaining<V> {
    var capacity: int
    const maxLoadFactor: real
    const hashing: (string, int) -> int
    var storage: seq<seq<Entry<V>>>
    var elementCount: int
    ghost var contents: map<string, Option<V>>

    /** The chains represent `contents`, and the counter is the number of pairs. */
    ghost predicate Valid()
      reads this
    {
      && capacity == |storage|
      && Consistent(storage, hashing, contents)
      && elementCount == |contents|
    }

    /** The bucket `_compute_hash_index` gives a key. */
    function Bucket(key: string): (b: int)
      reads this
      requires Valid()
      ensures 0 <= b < |storage|
    {
      hashing(key, capacity)
    }

    /** `current_load_factor`: the number of keys per bucket. */
    function CurrentLoadFactor(): (r: real)
      reads this
      requires Valid()
      ensures r == |contents| as real / capacity as real
    {
      elementCount as real / capacity as real
    }

    /**
     * `__init__`: `initial_capacity` empty chains and no pairs; without a
     * hashing algorithm the table uses the polynomial hash with base 31.
     */
    constructor (initialCapacity: int, maxLoadFactor: real, hashingAlgorithm: Option<(string, int) -> int>)
      requires initialCapacity >= 1
      requires hashingAlgorithm.Some? ==> InRange(hashingAlgorithm.value)
      ensures Valid()
      ensures contents == map[]
      ensures capacity == initialCapacity && this.maxLoadFactor == maxLoadFactor
      ensures hashing == if hashingAlgorithm.Some? then hashingAlgorithm.value else PolynomialIndex
    {
      capacity := initialCapacity;
      this.maxLoadFactor := maxLoadFactor;
      var default: (string, int) -> int := PolynomialIndex;
      var chosen: (string, int) -> int := if hashingAlgorithm.Some? then hashingAlgorithm.value else default;
      hashing := chosen;
      storage := CreateEmptyStorage(initialCapacity);
      elementCount := 0;
      contents := map[];
    }

    /**
     * `add_entry`: when the load already exceeds the maximum, the capacity
     * doubles first (at least: re-adding can double it again). Then the key
     * is overwritten in place or appended to its chain.
     */
    method AddEntry(key: string, value: Option<V>)
      requires Valid()
      modifies this
      ensures Valid()
      ensures contents == old(contents)[key := value]
      ensures elementCount == old(elementCount) + (if key in old(contents) then 0 else 1)
      ensures old(CurrentLoadFactor()) > maxLoadFactor ==> capacity >= 2 * old(capacity)
      ensures old(CurrentLoadFactor()) <= maxLoadFactor ==>
        && capacity == old(capacity)
        && storage == old(storage)[Bucket(key) := PutChain(old(storage)[Bucket(key)], key, value)]
      decreases elementCount, 3
    {
      if elementCount as real / capacity as real > maxLoadFactor {
        PerformResizeOperation(capacity * 2);
      }
      var b := hashing(key, capacity);
      var chain := storage[b];
      var p := Locate(chain, key);
      Lookup(storage, hashing, contents, key);
      PutConsistent(storage, hashing, contents, key, value);
      if p < |chain| {
        storage := storage[b := chain[p := (key, value)]];
      } else {
        storage := storage[b := chain + [(key, value)]];
        elementCount := elementCount + 1;
      }
      contents := contents[key := value];
    }

    /**
     * `_perform_resize_operation`: fresh chains of the new capacity, the
     * counter reset, and every old pair re-added bucket by bucket; the map,
     * and so the count, is unchanged.
     */
    method PerformResizeOperation(newCapacity: int)
      requires Valid() && newCapacity >= 1
      modifies this
      ensures Valid()
      ensures contents == old(contents) && elementCount == old(elementCount)
      ensures capacity >= newCapacity
      decreases elementCount, 2
    {
      var previous := storage;
      ghost var before := contents;
      PairCount(previous, hashing, before);
      capacity := newCapacity;
      storage := CreateEmptyStorage(newCapacity);
      elementCount := 0;
      contents := map[];
      EmptyConsistent<V>(newCapacity, hashing);
      for b := 0 to |previous|
        invariant Valid()
        invariant capacity >= newCapacity
        invariant elementCount <= |Flatten(previous[..b])|
        invariant Agrees(contents, before)
        invariant Covers(previous[..b], contents)
      {
        assert ChainSound(previous[b], before);
        ReinsertBucket(previous, b, before);
      }
      assert previous[..|previous|] == previous;
      AllReinserted(previous, hashing, before, contents);
    }

    /**
     * The body of the resize's outer loop: the pairs of old bucket `b` re-added,
     * and with them every bucket up to `b` covered.
     */
    method ReinsertBucket(previous: seq<seq<Entry<V>>>, b: int, ghost before: map<string, Option<V>>)
      requires Valid() && 0 <= b < |previous|
      requires ChainSound(previous[b], before) && Agrees(contents, before)
      requires Covers(previous[..b], contents) && elementCount <= |Flatten(previous[..b])|
      modifies this
      ensures Valid()
      ensures capacity >= old(capacity)
      ensures elementCount <= |Flatten(previous[..b + 1])|
      ensures Agrees(contents, before) && Covers(previous[..b + 1], contents)
      decreases |Flatten(previous)|, 1
    {
      FlattenStep(previous, b);
      ghost var reached := contents;
      ReinsertChain(previous[b], before, |Flatten(previous)|);
      CoversExtend(previous, b, reached, contents);
    }

    /** The inner loop of the resize: every pair of one old chain re-added in order. */
    method ReinsertChain(chain: seq<Entry<V>>, ghost before: map<string, Option<V>>, ghost limit: int)
      requires Valid()
      requires ChainSound(chain, before) && Agrees(contents, before)
      requires elementCount + |chain| <= limit
      modifies this
      ensures Valid()
      ensures capacity >= old(capacity)
      ensures elementCount <= old(elementCount) + |chain|
      ensures Agrees(contents, before) && old(contents).Keys <= contents.Keys
      ensures ChainIn(chain, contents)
      decreases limit, 0
    {
      for j := 0 to |chain|
        invariant Valid()
        invariant capacity >= old(capacity)
        invariant |contents| <= |old(contents)| + j
        invariant Agrees(contents, before) && old(contents).Keys <= contents.Keys
        invariant ChainIn(chain[..j], contents)
      {
        ghost var reached := contents;
        AddEntry(chain[j].0, chain[j].1);
        ReinsertStep(chain, j, before, reached, contents);
      }
      assert chain[..|chain|] == chain;
    }

    /** `retrieve_value`: the stored value, or `None` for an absent key. */
    method RetrieveValue(key: string) returns (r: Option<V>)
      requires Valid()
      ensures r == if key in contents then contents[key] else None
    {
      var chain := storage[hashing(key, capacity)];
      var p := Locate(chain, key);
      Lookup(storage, hashing, contents, key);
      if p < |chain| {
        return chain[p].1;
      }
      return None;
    }

    /**
     * `remove_entry`: True and one pair fewer when the key was stored; the
     * chain keeps the order of the other pairs.
     */
    method RemoveEntry(key: string) returns (removed: bool)
      requires Valid()
      modifies this
      ensures Valid()
      ensures removed == (key in old(contents))
      ensures contents == old(contents) - {key}
      ensures elementCount == old(elementCount) - (if removed then 1 else 0)
      ensures capacity == old(capacity)
      ensures storage == old(storage)[Bucket(key) := DeleteChain(old(storage)[Bucket(key)], key)]
    {
      var b := hashing(key, capacity);
      var chain := storage[b];
      var p := Locate(chain, key);
      Lookup(storage, hashing, contents, key);
      DeleteConsistent(storage, hashing, contents, key);
      if p < |chain| {
        storage := storage[b := chain[..p] + chain[p + 1..]];
        elementCount := elementCount - 1;
        contents := contents - {key};
        return true;
      }
      return false;
    }

    /** `contains_key` (and `in`): a key stored with the value None reports absent. */
    method ContainsKey(key: string) returns (r: bool)
      requires Valid()
      ensures r <==> key in contents && contents[key].Some?
    {
      var value := RetrieveValue(key);
      r := value.Some?;
    }

    /** `__getitem__`: KeyError for an absent key and for one stored with None. */
    method GetItem(key: string) returns (r: Result<V>)
      requires Valid()
      ensures key in contents && contents[key].Some? ==> r == Ok(contents[key].value)
      ensures !(key in contents && contents[key].Some?) ==> r == Err(KeyError)
    {
      var value := RetrieveValue(key);
      if value.None? {
        return Err(KeyError);
      }
      return Ok(value.value);
    }

    /**
     * `analyze_collision_statistics`: the chain lengths minus one summed over
     * non-empty chains, and their average over the non-empty chains.
     */
    method AnalyzeCollisionStatistics() returns (total: int, average: real)
      requires Valid()
      ensures total == Collisions(storage)
      ensures total == elementCount - NonEmptyChains(storage)
      ensures elementCount == 0 ==> total == 0
      ensures average == if NonEmptyChains(storage) > 0 then total as real / NonEmptyChains(storage) as real else 0.0
    {
      total := 0;
      var nonEmpty := 0;
      for b := 0 to |storage|
        invariant total == Collisions(storage[..b])
        invariant nonEmpty == NonEmptyChains(storage[..b])
      {
        assert storage[..b + 1][..b] == storage[..b];
        var length := |storage[b]|;
        if length > 0 {
          total := total + (length - 1);
          nonEmpty := nonEmpty + 1;
        }
      }
      assert storage[..|storage|] == storage;
      CollisionsCount(storage);
      PairCount(storage, hashing, contents);
      if nonEmpty > 0 {
        average := total as real / nonEmpty as real;
      } else {
        average := 0.0;
      }
    }

    /** `get_all_entries`: the chains concatenated in bucket order. */
    method GetAllEntries() returns (r: seq<Entry<V>>)
      requires Valid()
      ensures r == Flatten(storage)
      ensures |r| == |contents|
      ensures forall i :: 0 <= i < |r| ==> r[i].0 in contents && contents[r[i].0] == r[i].1
    {
      r := [];
      for b := 0 to |storage|
        invariant r == Flatten(storage[..b])
      {
        assert storage[..b + 1][..b] == storage[..b];
        r := r + storage[b];
      }
      assert storage[..|storage|] == storage;
      PairCount(storage, hashing, contents);
      forall i | 0 <= i < |r|
        ensures r[i].0 in contents && contents[r[i].0] == r[i].1
      {
        var b, j := FlattenOrigin(storage, i);
      }
    }
  }

  /** Every stored key appears among the entries `get_all_entries` returns. */
  lemma EntriesCoverContents<V>(storage: seq<seq<Entry<V>>>, hashing: (string, int) -> int,
                                contents: map<string, Option<V>>, key: string) returns (i: int)
    requires Consistent(storage, hashing, contents) && key in contents
    ensures 0 <= i < |Flatten(storage)| && Flatten(storage)[i] == (key, contents[key])
  {
    var b := hashing(key, |storage|);
    i := FlattenPosition(storage, b, KeyIndex(storage[b], key));
  }

  /** The map a sequence of `add_entry` calls builds, starting from an empty table. */
  function AddAll<V>(pairs: seq<Entry<V>>): map<string, Option<V>>
  {
    if |pairs| == 0 then map[]
    else AddAll(pairs[..|pairs| - 1])[pairs[|pairs| - 1].0 := pairs[|pairs| - 1].1]
  }

  /** The map the demonstration's additions build. */
  function DemonstrationMap(): map<string, Option<string>>
  {
    map["apple" := Some("updated apple description"), "banana" := Some("yellow fruit"),
        "orange" := Some("orange fruit"), "grape" := Some("purple fruit")]
  }

  /** The pairs of the demonstration leave four keys, "apple" with its second value. */
  lemma DemonstrationContents(testData: seq<Entry<string>>)
    requires testData == [
      ("apple", Some("red fruit")),
      ("banana", Some("yellow fruit")),
      ("orange", Some("orange fruit")),
      ("grape", Some("purple fruit")),
      ("apple", Some("updated apple description"))
    ]
    ensures AddAll(testData) == DemonstrationMap()
    ensures |AddAll(testData)| == 4
  {
    var red, yellow, orange, purple, updated :=
      Some("red fruit"), Some("yellow fruit"), Some("orange fruit"), Some("purple fruit"), Some("updated apple description");
    assert testData[..1][..0] == [];
    assert AddAll(testData[..1]) == map["apple" := red];
    assert testData[..2][..1] == testData[..1];
    assert AddAll(testData[..2]) == map["apple" := red, "banana" := yellow];
    assert testData[..3][..2] == testData[..2];
    assert AddAll(testData[..3]) == map["apple" := red, "banana" := yellow, "orange" := orange];
    assert testData[..4][..3] == testData[..3];
    assert AddAll(testData[..4]) == map["apple" := red, "banana" := yellow, "orange" := orange, "grape" := purple];
    assert testData[..4] == testData[..|testData| - 1];
  }

  /**
   * The adding loop of the demonstration: at most seven pairs into eight
   * buckets never exceed the load 0.75, so no resize happens.
   */
  method AddDemonstrationData(table: HashTableWithChaining<string>, testData: seq<Entry<string>>)
    requires table.Valid() && table.contents == map[]
    requires table.capacity == 8 && table.maxLoadFactor == 0.75 && |testData| <= 7
    modifies table
    ensures table.Valid() && table.capacity == 8
    ensures table.contents == AddAll(testData)
  {
    for i := 0 to |testData|
      invariant table.Valid() && table.capacity == 8
      invariant table.contents == AddAll(testData[..i])
      invariant |table.contents| <= i
    {
      assert testData[..i + 1][..i] == testData[..i];
      table.AddEntry(testData[i].0, testData[i].1);
    }
    assert testData[..|testData|] == testData;
  }

  /**
   * `demonstrate_hash_table_operations`: re-adding "apple" overwrites it,
   * "kiwi" is absent, removing "grape" succeeds and three pairs remain; at
   * most four keys in eight buckets never exceed the load 0.75, so the
   * capacity stays 8. The results are what the demonstration prints.
   */
  method DemonstrateHashTableOperations()
    returns (load: real, apple: Option<string>, banana: Option<string>, kiwi: Option<string>,
             removed: bool, present: bool, length: int, allItems: seq<Entry<string>>)
    ensures load == 0.5
    ensures apple == Some("updated apple description") && banana == Some("yellow fruit") && kiwi == None
    ensures removed && present && length == 3
    ensures |allItems| == 3 && forall i :: 0 <= i < |allItems| ==> allItems[i].0 != "grape"
  {
    var table := new HashTableWithChaining<string>(8, 0.75, None);
    var testData := [
      ("apple", Some("red fruit")),
      ("banana", Some("yellow fruit")),
      ("orange", Some("orange fruit")),
      ("grape", Some("purple fruit")),
      ("apple", Some("updated apple description"))
    ];
    AddDemonstrationData(table, testData);
    DemonstrationContents(testData);
    load, apple, banana, kiwi, removed, present, length, allItems := QueryDemonstrationTable(table);
  }

  /**
   * The part of `demonstrate_hash_table_operations` after the additions: the
   * load, three lookups, the removal of "grape", the statistics, `in`, `len`
   * and the listing, on the table the additions leave.
   */
  method QueryDemonstrationTable(table: HashTableWithChaining<string>)
    returns (load: real, apple: Option<string>, banana: Option<string>, kiwi: Option<string>,
             removed: bool, present: bool, length: int, allItems: seq<Entry<string>>)
    requires table.Valid() && table.capacity == 8 && table.contents == DemonstrationMap()
    modifies table
    ensures load == 0.5
    ensures apple == Some("updated apple description") && banana == Some("yellow fruit") && kiwi == None
    ensures removed && present && length == 3
    ensures |allItems| == 3 && forall i :: 0 <= i < |allItems| ==> allItems[i].0 != "grape"
  {
    assert |table.contents| == 4;
    load := table.CurrentLoadFactor();
    apple := table.RetrieveValue("apple");
    banana := table.RetrieveValue("banana");
    kiwi := table.RetrieveValue("kiwi");
    removed := table.RemoveEntry("grape");
    assert "grape" !in table.contents && |table.contents| == 3;
    var collisions, averageCollisions := table.AnalyzeCollisionStatistics();
    present := table.ContainsKey("apple");
    length := table.elementCount;
    allItems := table.GetAllEntries();
  }
}
