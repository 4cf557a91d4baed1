// Open addressing: `OpenAddressingHashTable` of lab05 and its two copies
// in the performance scripts. The slots are a sequence the methods
// reassign; `Probing` describes the walks the operations make over them.

module OpenAddressing {
  import opened Wrappers
  import opened Probing
  import Chaining

  /** The probes `analyze_probing_statistics` spends on one stored key: up to and including the slot holding it. */
  function Cost<V>(s: seq<Slot<V>>, p: Prober, key: string): (r: int)
    requires Walkable(s, p)
    ensures 1 <= r <= |s|
  {
    var h := HoldingAttempt(s, p, key, 0);
    if h < |s| then h + 1 else |s|
  }

  /** The probes spent on the stored keys of the first `n` slots. */
  function ProbeSum<V>(s: seq<Slot<V>>, p: Prober, n: int): int
    requires Walkable(s, p) && 0 <= n <= |s|
  {
    if n == 0 then 0
    else ProbeSum(s, p, n - 1) + (if s[n - 1].Occupied? then Cost(s, p, s[n - 1].key) else 0)
  }

  /** Every stored key costs at least one probe and at most the capacity. */
  lemma {:induction false} ProbeSumBounds<V>(s: seq<Slot<V>>, p: Prober, n: int)
    requires Walkable(s, p) && 0 <= n <= |s|
    ensures |Entries(s[..n])| <= ProbeSum(s, p, n) <= |Entries(s[..n])| * |s|
  {
    if n > 0 {
      ProbeSumBounds(s, p, n - 1);
      EntriesStep(s, n - 1);
      var m := |Entries(s[..n - 1])|;
      assert (m + 1) * |s| == m * |s| + |s|;
    }
  }

  /** A key found at its first attempt costs one probe. */
  lemma FirstAttemptCost<V>(s: seq<Slot<V>>, p: Prober, key: string)
    requires Walkable(s, p) && At(s, p, key, 0).Occupied? && At(s, p, key, 0).key == key
    ensures Cost(s, p, key) == 1
  {
  }

  /**
   * The termination measure of insertion: how far the capacity is from the
   * bound `count * step + 1` that an exhausted walk cannot exceed.
   */
  function Budget(count: int, capacity: int, stepBound: int): int
  {
    if count * stepBound + 1 > capacity then count * stepBound + 1 - capacity else 0
  }

  /**
   * After an exhausted walk at capacity `exhausted` and an expansion past
   * it, with no more pairs than before, the measure has dropped.
   */
  lemma BudgetDrops(count: int, capacity: int, exhaustedCount: int, exhausted: int, count2: int, capacity2: int, step: int, bound: int)
    requires 0 <= count2 <= exhaustedCount <= count && 1 <= step <= bound
    requires capacity <= exhausted < capacity2 && exhausted <= exhaustedCount * step
    ensures Budget(count2, capacity2, bound) < Budget(count, capacity, bound)
  {
    assert exhaustedCount * step <= exhaustedCount * bound;
    assert exhaustedCount * bound <= count * bound;
    assert count2 * bound <= count * bound;
  }

  /** More room and no more pairs never raise the measure. */
  lemma BudgetShrinks(count: int, capacity: int, count2: int, capacity2: int, bound: int)
    requires 0 <= count2 <= count && capacity <= capacity2 && bound >= 0
    ensures Budget(count2, capacity2, bound) <= Budget(count, capacity, bound)
  {
    assert count2 * bound <= count * bound;
  }

  /** A part over a whole is a fraction between zero and one. */
  lemma LoadAtMostOne(part: int, whole: int)
    requires 0 <= part <= whole && whole >= 1
    ensures 0.0 <= part as real / whole as real <= 1.0
  {
    assert part as real <= whole as real;
  }

  /** The capacity a table can double to while its configuration stays sound. */
  lemma Doubling(p: Prober, capacity: int)
    requires Sound(p, capacity)
    ensures Sound(p, capacity * 2)
  {
    SoundDoubles(p, capacity);
  }

  class OpenAddressingHashTable<V> {
    var capacity: int
    var storage: seq<Slot<V>>
    var elementCount: int
    const maxLoadFactor: real
    const prober: Prober
    /** Whether every insertion checks the load first: the performance copies do, the lab's class only in `add_element`. */
    const checksLoadOnInsert: bool

    /** The slot sequence has the capacity, its walks never raise, every pair is reachable, and the counter counts the pairs. */
    ghost predicate Valid()
      reads this
    {
      && capacity == |storage|
      && Sound(prober, capacity)
      && Reach(storage, prober)
      && elementCount == |Entries(storage)|
    }

    /** `compute_current_load`: stored pairs per slot. */
    function ComputeCurrentLoad(): (r: real)
      reads this
      requires Valid()
      ensures r == |Entries(storage)| as real / |storage| as real
      ensures 0.0 <= r <= 1.0
    {
      LoadAtMostOne(elementCount, capacity);
      elementCount as real / capacity as real
    }

    /** The load exceeds the maximum: the table expands before it inserts. */
    predicate Overloaded()
      reads this
      requires Valid()
    {
      ComputeCurrentLoad() > maxLoadFactor
    }

    /** An insertion of `key` stays at this capacity: no load check fires, and some attempt stops the walk. */
    ghost predicate Fits(key: string)
      reads this
      requires Valid()
    {
      !(checksLoadOnInsert && Overloaded()) && InsertAttempt(storage, prober, key, 0) < capacity
    }

    /** The termination measure of `Insert` for `key`. */
    ghost function InsertBudget(key: string): int
      reads this
    {
      Budget(elementCount, capacity, StepBound(prober, key))
    }

    /**
     * `__init__` of the lab's class: `initial_capacity` empty slots and no
     * pairs. Without a primary hash the table uses the polynomial hash with
     * base 31, and only then can double hashing reach that hash.
     */
    constructor (initialCapacity: int, maxLoadFactor: real, collisionStrategy: string, primaryHashFunction: Option<(string, int) -> int>)
      requires Sound(Prober(collisionStrategy, if primaryHashFunction.Some? then primaryHashFunction.value else Chaining.PolynomialIndex, primaryHashFunction.None?), initialCapacity)
      ensures Valid() && Clean(storage)
      ensures capacity == initialCapacity && elementCount == 0 && Entries(storage) == []
      ensures forall k :: Lookup(storage, prober, k) == None
      ensures this.maxLoadFactor == maxLoadFactor && !checksLoadOnInsert
      ensures prober.strategy == collisionStrategy && prober.doubleAvailable == primaryHashFunction.None?
      ensures prober.primary == if primaryHashFunction.Some? then primaryHashFunction.value else Chaining.PolynomialIndex
    {
      var default: (string, int) -> int := Chaining.PolynomialIndex;
      var primary := if primaryHashFunction.Some? then primaryHashFunction.value else default;
      prober := Prober(collisionStrategy, primary, primaryHashFunction.None?);
      capacity := initialCapacity;
      this.maxLoadFactor := maxLoadFactor;
      checksLoadOnInsert := false;
      storage := EmptySlots(initialCapacity);
      elementCount := 0;
      new;
      EmptySlotsFacts<V>(initialCapacity, prober);
    }

    /**
     * `__init__` of the copies in the performance scripts: the same empty
     * table, a primary hash given outright, double hashing over that hash,
     * and a load check on every insertion.
     */
    constructor Copy(initialSize: int, loadFactor: real, probeMethod: string, hashFunc: (string, int) -> int)
      requires Sound(Prober(probeMethod, hashFunc, true), initialSize)
      ensures Valid() && Clean(storage)
      ensures capacity == initialSize && elementCount == 0 && Entries(storage) == []
      ensures forall k :: Lookup(storage, prober, k) == None
      ensures maxLoadFactor == loadFactor && checksLoadOnInsert
      ensures prober == Prober(probeMethod, hashFunc, true)
    {
      prober := Prober(probeMethod, hashFunc, true);
      capacity := initialSize;
      maxLoadFactor := loadFactor;
      checksLoadOnInsert := true;
      storage := EmptySlots(initialSize);
      elementCount := 0;
      new;
      EmptySlotsFacts<V>(initialSize, prober);
    }

    /**
     * Where insertions enter: `_insert_entry` of the lab's class, and
     * `insert`/`add_element` of the copies, which first double the table
     * when the load exceeds the maximum.
     *
     * `key` always answers `value` afterwards. Without expansion only the
     * written slot changes; an expansion rebuilds the table from its pairs in
     * slot order, so a key stored twice keeps the value of its later slot.
     */
    method Insert(key: string, value: Option<V>)
      requires Valid()
      modifies this
      ensures Valid()
      ensures Lookup(storage, prober, key) == Some(value)
      ensures old(Clean(storage)) ==> Clean(storage)
      ensures old(Clean(storage)) ==> forall k :: k != key ==> Lookup(storage, prober, k) == old(Lookup(storage, prober, k))
      ensures elementCount <= old(elementCount) + 1 && capacity >= old(capacity)
      ensures old(Fits(key)) ==>
        && capacity == old(capacity)
        && storage == old(storage[InsertIndex(storage, prober, key) := Occupied(key, value)])
        && elementCount == old(elementCount + if storage[InsertIndex(storage, prober, key)].Occupied? then 0 else 1)
      ensures !old(Fits(key)) ==>
        && capacity >= 2 * old(capacity)
        && Clean(storage)
        && forall k :: k != key ==> Lookup(storage, prober, k) == LastValue(old(Entries(storage)), k)
      decreases elementCount, InsertBudget(key), 3
    {
      if checksLoadOnInsert && elementCount as real / capacity as real > maxLoadFactor {
        ghost var before := storage;
        ghost var countBefore, capacityBefore := elementCount, capacity;
        Doubling(prober, capacity);
        Expand(capacity * 2);
        BudgetShrinks(countBefore, capacityBefore, elementCount, capacity, StepBound(prober, key));
        ghost var expanded := storage;
        InsertEntry(key, value);
        forall k | k != key
          ensures Lookup(storage, prober, k) == LastValue(Entries(before), k)
        {
          assert Lookup(expanded, prober, k) == LastValue(Entries(before), k);
        }
        forall k | Clean(before)
          ensures LastValue(Entries(before), k) == Lookup(before, prober, k)
        {
          LookupIsLast(before, prober, k);
        }
      } else {
        InsertEntry(key, value);
      }
    }

    /**
     * The probe loop of an insertion: the first attempt whose slot is empty,
     * a tombstone or holds `key` receives the pair, and the counter grows
     * unless the key was there. When every attempt meets another key the
     * table doubles and the insertion starts over.
     */
    method InsertEntry(key: string, value: Option<V>)
      requires Valid()
      modifies this
      ensures Valid()
      ensures Lookup(storage, prober, key) == Some(value)
      ensures old(Clean(storage)) ==> Clean(storage)
      ensures old(Clean(storage)) ==> forall k :: k != key ==> Lookup(storage, prober, k) == old(Lookup(storage, prober, k))
      ensures elementCount <= old(elementCount) + 1 && capacity >= old(capacity)
      ensures old(InsertAttempt(storage, prober, key, 0) < capacity) ==>
        && capacity == old(capacity)
        && storage == old(storage[InsertIndex(storage, prober, key) := Occupied(key, value)])
        && elementCount == old(elementCount + if storage[InsertIndex(storage, prober, key)].Occupied? then 0 else 1)
      ensures old(InsertAttempt(storage, prober, key, 0) == capacity) ==>
        && capacity >= 2 * old(capacity)
        && Clean(storage)
        && forall k :: k != key ==> Lookup(storage, prober, k) == LastValue(old(Entries(storage)), k)
      decreases elementCount, InsertBudget(key), 2
    {
      for attempt := 0 to capacity
        invariant Valid() && storage == old(storage) && elementCount == old(elementCount)
        invariant InsertAttempt(storage, prober, key, attempt) == InsertAttempt(storage, prober, key, 0)
      {
        var index := Index(prober, capacity, key, attempt);
        var slot := storage[index];
        if !slot.Occupied? || slot.key == key {
          InsertAt(storage, prober, key, value, attempt);
          storage := storage[index := Occupied(key, value)];
          if !slot.Occupied? {
            elementCount := elementCount + 1;
          }
          return;
        }
      }
      ghost var before := storage;
      ghost var countBefore, capacityBefore := elementCount, capacity;
      ExhaustedBound(storage, prober, key);
      Doubling(prober, capacity);
      Expand(capacity * 2);
      BudgetDrops(countBefore, capacityBefore, countBefore, capacityBefore, elementCount, capacity,
        Step(prober, capacityBefore, key), StepBound(prober, key));
      ghost var expanded := storage;
      Insert(key, value);
      forall k | k != key
        ensures Lookup(storage, prober, k) == LastValue(Entries(before), k)
      {
        assert Lookup(expanded, prober, k) == LastValue(Entries(before), k);
      }
      forall k | Clean(before)
        ensures LastValue(Entries(before), k) == Lookup(before, prober, k)
      {
        LookupIsLast(before, prober, k);
      }
    }

    /**
     * `_execute_table_expansion`: fresh slots of the new capacity, the
     * counter reset, and the pairs re-inserted in slot order, tombstones
     * dropped. Every key then answers the value of its last pair, and no key
     * is stored twice.
     */
    method Expand(newCapacity: int)
      requires Valid() && Sound(prober, newCapacity)
      modifies this
      ensures Valid() && Clean(storage)
      ensures capacity >= newCapacity && elementCount <= old(elementCount)
      ensures forall k :: Lookup(storage, prober, k) == LastValue(old(Entries(storage)), k)
      decreases elementCount, 0, 1
    {
      var previous := storage;
      capacity := newCapacity;
      storage := EmptySlots(newCapacity);
      elementCount := 0;
      EmptySlotsFacts<V>(newCapacity, prober);
      for i := 0 to |previous|
        invariant Valid() && Clean(storage)
        invariant capacity >= newCapacity
        invariant elementCount <= |Entries(previous[..i])|
        invariant forall k :: Lookup(storage, prober, k) == LastValue(Entries(previous[..i]), k)
      {
        EntriesStep(previous, i);
        EntriesPrefix(previous, i + 1);
        ghost var reached := Entries(previous[..i]);
        if previous[i].Occupied? {
          var key, value := previous[i].key, previous[i].value;
          ghost var prior := storage;
          Insert(key, value);
          forall k
            ensures Lookup(storage, prober, k) == LastValue(Entries(previous[..i + 1]), k)
          {
            LastValueAppend(reached, (key, value), k);
          }
        } else {
          assert Entries(previous[..i + 1]) == reached;
        }
      }
      assert previous[..|previous|] == previous;
    }

    /**
     * `add_element` of the lab's class: double the table first when the load
     * exceeds the maximum, then insert.
     */
    method AddElement(key: string, value: Option<V>)
      requires Valid() && !checksLoadOnInsert
      modifies this
      ensures Valid()
      ensures Lookup(storage, prober, key) == Some(value)
      ensures old(Clean(storage)) ==> Clean(storage)
      ensures old(Clean(storage)) ==> forall k :: k != key ==> Lookup(storage, prober, k) == old(Lookup(storage, prober, k))
      ensures elementCount <= old(elementCount) + 1 && capacity >= old(capacity)
      ensures old(!Overloaded() && Fits(key)) ==>
        && capacity == old(capacity)
        && storage == old(storage[InsertIndex(storage, prober, key) := Occupied(key, value)])
        && elementCount == old(elementCount + if storage[InsertIndex(storage, prober, key)].Occupied? then 0 else 1)
      ensures !old(!Overloaded() && Fits(key)) ==>
        && capacity >= 2 * old(capacity)
        && Clean(storage)
        && forall k :: k != key ==> Lookup(storage, prober, k) == LastValue(old(Entries(storage)), k)
    {
      if elementCount as real / capacity as real > maxLoadFactor {
        ghost var before := storage;
        Doubling(prober, capacity);
        Expand(capacity * 2);
        ghost var expanded := storage;
        Insert(key, value);
        forall k | k != key
          ensures Lookup(storage, prober, k) == LastValue(Entries(before), k)
        {
          assert Lookup(expanded, prober, k) == LastValue(Entries(before), k);
        }
        forall k | Clean(before)
          ensures LastValue(Entries(before), k) == Lookup(before, prober, k)
        {
          LookupIsLast(before, prober, k);
        }
      } else {
        Insert(key, value);
      }
    }

    /**
     * `find_element` (and `search` of the copies): the walk stops with
     * nothing at an empty slot or after the last attempt, and with the
     * stored value at the first slot holding `key`.
     */
    method FindElement(key: string) returns (r: Option<V>)
      requires Valid()
      ensures r == if Lookup(storage, prober, key).Some? then Lookup(storage, prober, key).value else None
    {
      for attempt := 0 to capacity
        invariant FindAttempt(storage, prober, key, attempt) == FindAttempt(storage, prober, key, 0)
      {
        var slot := storage[Index(prober, capacity, key, attempt)];
        if slot == Empty {
          return None;
        }
        if slot.Occupied? && slot.key == key {
          return slot.value;
        }
      }
      return None;
    }

    /**
     * `remove_element` (and `delete` of the copies): the slot where the walk
     * finds `key` becomes a tombstone and the counter drops; False when the
     * walk finds nothing. Other keys answer as before; when no key was
     * stored twice, `key` answers nothing afterwards.
     */
    method RemoveElement(key: string) returns (removed: bool)
      requires Valid()
      modifies this
      ensures Valid() && capacity == old(capacity)
      ensures removed == old(Lookup(storage, prober, key)).Some?
      ensures removed ==>
        && storage == old(storage[Index(prober, capacity, key, FindAttempt(storage, prober, key, 0).value) := Deleted])
        && elementCount == old(elementCount) - 1
      ensures !removed ==> storage == old(storage) && elementCount == old(elementCount)
      ensures forall k :: k != key ==> Lookup(storage, prober, k) == old(Lookup(storage, prober, k))
      ensures old(KeysDistinct(storage)) ==> Lookup(storage, prober, key) == None
    {
      for attempt := 0 to capacity
        invariant Valid() && storage == old(storage) && elementCount == old(elementCount)
        invariant FindAttempt(storage, prober, key, attempt) == FindAttempt(storage, prober, key, 0)
      {
        var index := Index(prober, capacity, key, attempt);
        var slot := storage[index];
        if slot == Empty {
          return false;
        }
        if slot.Occupied? && slot.key == key {
          assert FindAttempt(storage, prober, key, 0) == Some(attempt);
          RemoveLookups(storage, prober, key);
          EntriesUpdate(storage, index, Deleted);
          if KeysDistinct(storage) {
            RemoveDistinct(storage, prober, key);
          }
          storage := storage[index := Deleted];
          elementCount := elementCount - 1;
          return true;
        }
      }
      return false;
    }

    /** `contains_key` (and `in`): a key stored with the value None reports absent. */
    method ContainsKey(key: string) returns (r: bool)
      requires Valid()
      ensures r <==> Lookup(storage, prober, key).Some? && Lookup(storage, prober, key).value.Some?
    {
      var value := FindElement(key);
      r := value.Some?;
    }

    /** `__getitem__`: KeyError for an absent key and for one stored with None. */
    method GetItem(key: string) returns (r: Result<V>)
      requires Valid()
      ensures Lookup(storage, prober, key).Some? && Lookup(storage, prober, key).value.Some? ==>
        r == Ok(Lookup(storage, prober, key).value.value)
      ensures !(Lookup(storage, prober, key).Some? && Lookup(storage, prober, key).value.Some?) ==> r == Err(KeyError)
    {
      var value := FindElement(key);
      if value.None? {
        return Err(KeyError);
      }
      return Ok(value.value);
    }

    /**
     * `analyze_probing_statistics` (and `get_probe_stats` of the copies): for
     * every stored pair, the attempts its key's walk takes to reach a slot
     * holding that key, passing empty slots too; the total, and its average
     * over the stored pairs.
     */
    method AnalyzeProbingStatistics() returns (total: int, average: real)
      requires Valid()
      ensures total == ProbeSum(storage, prober, |storage|)
      ensures |Entries(storage)| <= total <= |Entries(storage)| * capacity
      ensures average == if |Entries(storage)| > 0 then total as real / |Entries(storage)| as real else 0.0
    {
      total := 0;
      var successful := 0;
      for i := 0 to |storage|
        invariant total == ProbeSum(storage, prober, i)
        invariant successful == |Entries(storage[..i])|
      {
        EntriesStep(storage, i);
        var slot := storage[i];
        if slot.Occupied? {
          var key := slot.key;
          var probes := 0;
          var attempt := 0;
          while attempt < capacity
            invariant 0 <= attempt <= capacity && probes == attempt
            invariant HoldingAttempt(storage, prober, key, attempt) == HoldingAttempt(storage, prober, key, 0)
          {
            probes := probes + 1;
            var test := storage[Index(prober, capacity, key, attempt)];
            if test.Occupied? && test.key == key {
              break;
            }
            attempt := attempt + 1;
          }
          assert probes == Cost(storage, prober, key);
          total := total + probes;
          successful := successful + 1;
        }
      }
      assert storage[..|storage|] == storage;
      ProbeSumBounds(storage, prober, |storage|);
      if successful > 0 {
        average := total as real / successful as real;
      } else {
        average := 0.0;
      }
    }
  }

  /**
   * The demonstration's adding loop: into a clean table, `add_element` of
   * each pair in turn leaves every key answering its last value in the list.
   */
  method AddDemonstrationItems(table: OpenAddressingHashTable<string>, items: seq<Entry<string>>)
    requires table.Valid() && Clean(table.storage) && !table.checksLoadOnInsert
    requires forall k :: Lookup(table.storage, table.prober, k) == None
    modifies table
    ensures table.Valid() && Clean(table.storage)
    ensures forall k :: Lookup(table.storage, table.prober, k) == LastValue(items, k)
  {
    for i := 0 to |items|
      invariant table.Valid() && Clean(table.storage)
      invariant forall k :: Lookup(table.storage, table.prober, k) == LastValue(items[..i], k)
    {
      var key, value := items[i].0, items[i].1;
      table.AddElement(key, value);
      assert items[..i + 1] == items[..i] + [(key, value)];
      forall k
        ensures Lookup(table.storage, table.prober, k) == LastValue(items[..i + 1], k)
      {
        LastValueAppend(items[..i], (key, value), k);
      }
    }
    assert items[..|items|] == items;
  }

  /** The pairs `demonstrate_open_addressing_table` adds, one of them an update. */
  function DemonstrationItems(): seq<Entry<string>>
  {
    [
      ("apple", Some("red")),
      ("banana", Some("yellow")),
      ("orange", Some("orange")),
      ("grape", Some("purple")),
      ("apple", Some("red apple")),
      ("kiwi", Some("green")),
      ("mango", Some("yellow-orange"))
    ]
  }

  /** What the demonstration's list leaves for the keys it looks up and removes. */
  lemma DemonstrationAnswers()
    ensures LastValue(DemonstrationItems(), "apple") == Some(Some("red apple"))
    ensures LastValue(DemonstrationItems(), "banana") == Some(Some("yellow"))
    ensures LastValue(DemonstrationItems(), "grape") == Some(Some("purple"))
    ensures LastValue(DemonstrationItems(), "watermelon") == None
  {
    var items := DemonstrationItems();
    var front := items[..6];
    assert items[..|items| - 1] == front && front[..5] == items[..5];
    assert items[..5][..4] == items[..4] && items[..4][..3] == items[..3];
    assert items[..3][..2] == items[..2] && items[..2][..1] == items[..1];
    assert LastValue(items[..5], "apple") == Some(Some("red apple"));
    assert LastValue(items[..2], "banana") == Some(Some("yellow"));
    assert LastValue(items[..4], "grape") == Some(Some("purple"));
    assert LastValue(items[..3], "banana") == Some(Some("yellow"));
    assert LastValue(items[..4], "banana") == Some(Some("yellow"));
    assert LastValue(items[..5], "banana") == Some(Some("yellow"));
    assert LastValue(items[..5], "grape") == Some(Some("purple"));
    assert forall e :: 0 <= e < |items| ==> |items[e].0| < |"watermelon"|;
    LastValueMeaning(items, "watermelon");
  }

  /**
   * `demonstrate_open_addressing_table`: seven pairs (one an update) into a
   * linear-probing table of capacity 10, three lookups, one removal and the
   * probe statistics; then four pairs into a double-hashing table. The
   * results are the lookups and the removal the demonstration prints.
   */
  method DemonstrateOpenAddressingTable()
    returns (apple: Option<string>, banana: Option<string>, watermelon: Option<string>, removed: bool)
    ensures apple == Some("red apple") && banana == Some("yellow") && watermelon == None
    ensures removed
  {
    var linearTable := new OpenAddressingHashTable<string>(10, 0.75, "linear", None);
    var testItems := DemonstrationItems();
    AddDemonstrationItems(linearTable, testItems);
    DemonstrationAnswers();
    apple := linearTable.FindElement("apple");
    assert apple == Some("red apple");
    banana := linearTable.FindElement("banana");
    assert banana == Some("yellow");
    watermelon := linearTable.FindElement("watermelon");
    assert watermelon == None;
    removed := linearTable.RemoveElement("grape");
    assert removed;
    var totalProbes, averageProbes := linearTable.AnalyzeProbingStatistics();

    var doubleTable := new OpenAddressingHashTable<string>(10, 0.75, "double", None);
    AddDemonstrationItems(doubleTable, testItems[..4]);
    var doubleProbes, doubleAverage := doubleTable.AnalyzeProbingStatistics();
  }

  /** A primary hash that sends every key to slot 0, so that all keys share one probe sequence. */
  function ZeroHash(key: string, capacity: int): int
  {
    0
  }

  /** On the colliding linear prober, attempt `a` lands on slot `a` of four. */
  lemma CollidingIndex(p: Prober, a: int)
    requires p == Prober("linear", ZeroHash, false) && 0 <= a < 4
    ensures Index(p, 4, "a", a) == a && Index(p, 4, "b", a) == a
  {
  }

  /** The five tables of the tombstone scenario, on four slots where every key collides. */
  function TombstoneStates(): seq<seq<Slot<int>>>
  {
    [
      [Empty, Empty, Empty, Empty],
      [Occupied("a", Some(1)), Empty, Empty, Empty],
      [Occupied("a", Some(1)), Occupied("b", Some(2)), Empty, Empty],
      [Deleted, Occupied("b", Some(2)), Empty, Empty],
      [Occupied("b", Some(3)), Occupied("b", Some(2)), Empty, Empty]
    ]
  }

  /** The linear prober over `ZeroHash`. */
  function Colliding(): Prober
  {
    Prober("linear", ZeroHash, false)
  }

  /**
   * How the scenario's tables arise: `a` and `b` added, `a` removed, and
   * `b` re-added into `a`'s tombstone rather than onto its own slot.
   */
  lemma TombstoneSteps()
    ensures var s, p := TombstoneStates(), Colliding();
      && InsertAttempt(s[0], p, "a", 0) == 0 && s[1] == s[0][InsertIndex(s[0], p, "a") := Occupied("a", Some(1))]
      && InsertAttempt(s[1], p, "b", 0) == 1 && s[2] == s[1][InsertIndex(s[1], p, "b") := Occupied("b", Some(2))]
      && FindAttempt(s[2], p, "a", 0) == Some(0) && s[3] == s[2][Index(p, 4, "a", 0) := Deleted]
      && InsertAttempt(s[3], p, "b", 0) == 0 && s[4] == s[3][InsertIndex(s[3], p, "b") := Occupied("b", Some(3))]
  {
    var s, p := TombstoneStates(), Colliding();
    CollidingIndex(p, 0);
    CollidingIndex(p, 1);
    assert InsertAttempt(s[1], p, "b", 1) == 1;
  }

  /** The last table holds `b` twice and counts two pairs; `b` answers its new value. */
  lemma TombstoneDuplicates()
    ensures var s4, p := TombstoneStates()[4], Colliding();
      && !KeysDistinct(s4) && |Entries(s4)| == 2
      && FindAttempt(s4, p, "b", 0) == Some(0) && Lookup(s4, p, "b") == Some(Some(3))
  {
    var s4, p := TombstoneStates()[4], Colliding();
    CollidingIndex(p, 0);
    assert s4[0].Occupied? && s4[1].Occupied? && s4[0].key == s4[1].key;
    assert s4[..4][..3] == s4[..3] && s4[..3][..2] == s4[..2] && s4[..2][..1] == s4[..1] && s4[..4] == s4;
    assert s4[..1][..0] == [];
    assert |Entries(s4[..2])| == 2;
  }

  /** Removing `b` turns its new slot into a tombstone and uncovers the old value. */
  lemma TombstoneRemovalUncovers()
    ensures var s4, p := TombstoneStates()[4], Colliding();
      Lookup(s4[Index(p, 4, "b", 0) := Deleted], p, "b") == Some(Some(2))
  {
    var s4, p := TombstoneStates()[4], Colliding();
    CollidingIndex(p, 0);
    CollidingIndex(p, 1);
    var t := s4[0 := Deleted];
    assert FindAttempt(t, p, "b", 1) == Some(1);
  }

  /** An expansion re-inserts the pairs in slot order, so the old value of `b` comes last and wins. */
  lemma TombstoneExpansionRevives()
    ensures LastValue(Entries(TombstoneStates()[4]), "b") == Some(Some(2))
  {
    var s4 := TombstoneStates()[4];
    assert s4[..4][..3] == s4[..3] && s4[..3][..2] == s4[..2] && s4[..4] == s4;
  }
}
