// The tables and hashes that the lab05 test file builds for itself, and what
// its test cases assert about them: a chaining table without resizing, a
// linear-probing table that keeps no count, a double-hashing table that only
// fills empty slots, and a table that doubles its capacity without moving
// its pairs.

module HashTableTests {
  import opened Wrappers
  import opened HashFunctions
  import Chaining
  import opened Probing

  // ---------------------------------------------------------------------
  // The local hash functions
  // ---------------------------------------------------------------------

  /** `sum(ord(c) for c in key) % capacity`: the bucket or home slot of every local table. */
  function CharSumIndex(key: string, capacity: int): (r: int)
    ensures capacity >= 1 ==> 0 <= r < capacity && Ok(r) == CharacterSumHash(key, capacity)
  {
    if capacity >= 1 then CodeSum(key) % capacity else 0
  }

  /** The character-sum index maps into every positive capacity. */
  lemma CharSumInRange()
    ensures Chaining.InRange(CharSumIndex)
  {
  }

  /** The code-point sum of "experimental_key". */
  lemma ExperimentalKeySum()
    ensures CodeSum("experimental_key") == 1718
  {
    ExperimentalKeySumStart();
    assert "experimen"[..8] == "experime" && CodeSum("experimen") == 973;
    assert "experiment"[..9] == "experimen" && CodeSum("experiment") == 1089;
    assert "experimenta"[..10] == "experiment" && CodeSum("experimenta") == 1186;
    assert "experimental"[..11] == "experimenta" && CodeSum("experimental") == 1294;
    assert "experimental_"[..12] == "experimental" && CodeSum("experimental_") == 1389;
    assert "experimental_k"[..13] == "experimental_" && CodeSum("experimental_k") == 1496;
    assert "experimental_ke"[..14] == "experimental_k" && CodeSum("experimental_ke") == 1597;
    assert "experimental_key"[..15] == "experimental_ke" && CodeSum("experimental_key") == 1718;
  }

  /** The first half of the chain of `ExperimentalKeySum`. */
  lemma ExperimentalKeySumStart()
    ensures CodeSum("experime") == 863
  {
    assert "e"[..0] == "" && CodeSum("e") == 101;
    assert "ex"[..1] == "e" && CodeSum("ex") == 221;
    assert "exp"[..2] == "ex" && CodeSum("exp") == 333;
    assert "expe"[..3] == "exp" && CodeSum("expe") == 434;
    assert "exper"[..4] == "expe" && CodeSum("exper") == 548;
    assert "experi"[..5] == "exper" && CodeSum("experi") == 653;
    assert "experim"[..6] == "experi" && CodeSum("experim") == 762;
    assert "experime"[..7] == "experim" && CodeSum("experime") == 863;
  }

  /** The code-point sum of "different_key". */
  lemma DifferentKeySum()
    ensures CodeSum("different_key") == 1375
  {
    DifferentKeySumStart();
    assert "differe"[..6] == "differ" && CodeSum("differe") == 725;
    assert "differen"[..7] == "differe" && CodeSum("differen") == 835;
    assert "different"[..8] == "differen" && CodeSum("different") == 951;
    assert "different_"[..9] == "different" && CodeSum("different_") == 1046;
    assert "different_k"[..10] == "different_" && CodeSum("different_k") == 1153;
    assert "different_ke"[..11] == "different_k" && CodeSum("different_ke") == 1254;
    assert "different_key"[..12] == "different_ke" && CodeSum("different_key") == 1375;
  }

  /** The first half of the chain of `DifferentKeySum`. */
  lemma DifferentKeySumStart()
    ensures CodeSum("differ") == 624
  {
    assert "d"[..0] == "" && CodeSum("d") == 100;
    assert "di"[..1] == "d" && CodeSum("di") == 205;
    assert "dif"[..2] == "di" && CodeSum("dif") == 307;
    assert "diff"[..3] == "dif" && CodeSum("diff") == 409;
    assert "diffe"[..4] == "diff" && CodeSum("diffe") == 510;
    assert "differ"[..5] == "diffe" && CodeSum("differ") == 624;
  }

  /** Horner with base 31 over "hello" and "world", reduced by 100. */
  lemma HelloWorldHorner()
    ensures Horner("hello", 31, 100) == 22 && Horner("world", 31, 100) == 2
  {
    assert "h"[..0] == "" && Horner("h", 31, 100) == 4;
    assert "he"[..1] == "h" && Horner("he", 31, 100) == 25;
    assert "hel"[..2] == "he" && Horner("hel", 31, 100) == 83;
    assert "hell"[..3] == "hel" && Horner("hell", 31, 100) == 81;
    assert "hello"[..4] == "hell" && Horner("hello", 31, 100) == 22;
    assert "w"[..0] == "" && Horner("w", 31, 100) == 19;
    assert "wo"[..1] == "w" && Horner("wo", 31, 100) == 0;
    assert "wor"[..2] == "wo" && Horner("wor", 31, 100) == 14;
    assert "worl"[..3] == "wor" && Horner("worl", 31, 100) == 42;
    assert "world"[..4] == "worl" && Horner("world", 31, 100) == 2;
  }

  /** The unmasked DJB2 state of "verification_key". */
  lemma VerificationKeyDjb2()
    ensures Djb2Unmasked("verification_key") % 100 == 8
  {
    VerificationKeyDjb2Start();
    assert "verificat"[..8] == "verifica" && Djb2Unmasked("verificat") == 249910609708015394;
    assert "verificati"[..9] == "verificat" && Djb2Unmasked("verificati") == 8247050120364508107;
    assert "verificatio"[..10] == "verificati" && Djb2Unmasked("verificatio") == 272152653972028767642;
    assert "verification"[..11] == "verificatio" && Djb2Unmasked("verification") == 8981037581076949332296;
    assert "verification_"[..12] == "verification" && Djb2Unmasked("verification_") == 296374240175539327965863;
    assert "verification_k"[..13] == "verification_" && Djb2Unmasked("verification_k") == 9780349925792797822873586;
    assert "verification_ke"[..14] == "verification_k" && Djb2Unmasked("verification_ke") == 322751547551162328154828439;
    assert "verification_key"[..15] == "verification_ke" && Djb2Unmasked("verification_key") == 10650801069188356829109338608;
  }

  /** The first half of the chain of `VerificationKeyDjb2`. */
  lemma VerificationKeyDjb2Start()
    ensures Djb2Unmasked("verifica") == 7573048779030766
  {
    assert "v"[..0] == "" && Djb2Unmasked("v") == 177691;
    assert "ve"[..1] == "v" && Djb2Unmasked("ve") == 5863904;
    assert "ver"[..2] == "ve" && Djb2Unmasked("ver") == 193508946;
    assert "veri"[..3] == "ver" && Djb2Unmasked("veri") == 6385795323;
    assert "verif"[..4] == "veri" && Djb2Unmasked("verif") == 210731245761;
    assert "verifi"[..5] == "verif" && Djb2Unmasked("verifi") == 6954131110218;
    assert "verific"[..6] == "verifi" && Djb2Unmasked("verific") == 229486326637293;
    assert "verifica"[..7] == "verific" && Djb2Unmasked("verifica") == 7573048779030766;
  }

  /** The unmasked DJB2 state of "alternative_key". */
  lemma AlternativeKeyDjb2()
    ensures Djb2Unmasked("alternative_key") % 100 == 84
  {
    AlternativeKeyDjb2Start();
    assert "alternat"[..7] == "alterna" && Djb2Unmasked("alternat") == 7572162905967776;
    assert "alternati"[..8] == "alternat" && Djb2Unmasked("alternati") == 249881375896936713;
    assert "alternativ"[..9] == "alternati" && Djb2Unmasked("alternativ") == 8246085404598911647;
    assert "alternative"[..10] == "alternativ" && Djb2Unmasked("alternative") == 272120818351764084452;
    assert "alternative_"[..11] == "alternative" && Djb2Unmasked("alternative_") == 8979987005608214787011;
    assert "alternative_k"[..12] == "alternative_" && Djb2Unmasked("alternative_k") == 296339571185071087971470;
    assert "alternative_ke"[..13] == "alternative_k" && Djb2Unmasked("alternative_ke") == 9779205849107345903058611;
    assert "alternative_key"[..14] == "alternative_ke" && Djb2Unmasked("alternative_key") == 322713793020542414800934284;
  }

  /** The first half of the chain of `AlternativeKeyDjb2`. */
  lemma AlternativeKeyDjb2Start()
    ensures Djb2Unmasked("alterna") == 229459481999020
  {
    assert "a"[..0] == "" && Djb2Unmasked("a") == 177670;
    assert "al"[..1] == "a" && Djb2Unmasked("al") == 5863218;
    assert "alt"[..2] == "al" && Djb2Unmasked("alt") == 193486310;
    assert "alte"[..3] == "alt" && Djb2Unmasked("alte") == 6385048331;
    assert "alter"[..4] == "alte" && Djb2Unmasked("alter") == 210706595037;
    assert "altern"[..5] == "alter" && Djb2Unmasked("altern") == 6953317636331;
    assert "alterna"[..6] == "altern" && Djb2Unmasked("alterna") == 229459481999020;
  }

  /**
   * The three hash test cases. The local hashes are the character sum, the
   * polynomial hash with base 31 and the unmasked DJB2, and each gives its
   * two tested keys different buckets out of 100.
   */
  lemma HashFunctionTests()
    ensures CharacterSumHash("experimental_key", 100) == Ok(18) && CharacterSumHash("different_key", 100) == Ok(75)
    ensures PolynomialHash("hello", 100, 31) == Ok(22) && PolynomialHash("world", 100, 31) == Ok(2)
    ensures Djb2UnmaskedHash("verification_key", 100) == Ok(8) && Djb2UnmaskedHash("alternative_key", 100) == Ok(84)
  {
    ExperimentalKeySum();
    DifferentKeySum();
    HelloWorldHorner();
    VerificationKeyDjb2();
    AlternativeKeyDjb2();
  }

  // ---------------------------------------------------------------------
  // LocalHashTable: chaining over the character sum, never resized
  // ---------------------------------------------------------------------

  class LocalHashTable<V> {
    var capacity: int
    var storage: seq<seq<Chaining.Entry<V>>>
    var elementCount: int
    ghost var contents: map<string, Option<V>>

    /** The chains represent `contents` under the character-sum index, and the counter is the number of keys. */
    ghost predicate Valid()
      reads this
    {
      && capacity == |storage|
      && Chaining.Consistent(storage, CharSumIndex, contents)
      && elementCount == |contents|
    }

    /** `__init__`: `initialCapacity` empty chains and no pairs. */
    constructor (initialCapacity: int)
      requires initialCapacity >= 1
      ensures Valid() && contents == map[] && capacity == initialCapacity
    {
      capacity := initialCapacity;
      storage := Chaining.CreateEmptyStorage(initialCapacity);
      elementCount := 0;
      contents := map[];
      new;
      CharSumInRange();
      Chaining.EmptyConsistent<V>(initialCapacity, CharSumIndex);
    }

    /**
     * `add_element`: the key's pair overwritten in place, or appended to its
     * chain and counted. The capacity never changes.
     */
    method AddElement(key: string, value: Option<V>)
      requires Valid()
      modifies this
      ensures Valid() && capacity == old(capacity)
      ensures contents == old(contents)[key := value]
      ensures elementCount == old(elementCount) + (if key in old(contents) then 0 else 1)
      ensures storage == old(storage)[CharSumIndex(key, capacity) := Chaining.PutChain(old(storage)[CharSumIndex(key, capacity)], key, value)]
    {
      var b := CharSumIndex(key, capacity);
      var chain := storage[b];
      var p := Chaining.Locate(chain, key);
      Chaining.Lookup(storage, CharSumIndex, contents, key);
      Chaining.PutConsistent(storage, CharSumIndex, contents, key, value);
      if p < |chain| {
        storage := storage[b := chain[p := (key, value)]];
      } else {
        storage := storage[b := chain + [(key, value)]];
        elementCount := elementCount + 1;
      }
      contents := contents[key := value];
    }

    /** `find_element`: the stored value, or `None` for an absent key. */
    method FindElement(key: string) returns (r: Option<V>)
      requires Valid()
      ensures r == if key in contents then contents[key] else None
    {
      var chain := storage[CharSumIndex(key, capacity)];
      var p := Chaining.Locate(chain, key);
      Chaining.Lookup(storage, CharSumIndex, contents, key);
      if p < |chain| {
        return chain[p].1;
      }
      return None;
    }

    /** `remove_element`: True and one key fewer when the key was stored, False and no change otherwise. */
    method RemoveElement(key: string) returns (removed: bool)
      requires Valid()
      modifies this
      ensures Valid() && capacity == old(capacity)
      ensures removed == (key in old(contents))
      ensures contents == old(contents) - {key}
      ensures elementCount == old(elementCount) - (if removed then 1 else 0)
      ensures storage == old(storage)[CharSumIndex(key, capacity) := Chaining.DeleteChain(old(storage)[CharSumIndex(key, capacity)], key)]
    {
      var b := CharSumIndex(key, capacity);
      var chain := storage[b];
      var p := Chaining.Locate(chain, key);
      Chaining.Lookup(storage, CharSumIndex, contents, key);
      Chaining.DeleteConsistent(storage, CharSumIndex, contents, key);
      if p < |chain| {
        storage := storage[b := chain[..p] + chain[p + 1..]];
        elementCount := elementCount - 1;
        contents := contents - {key};
        return true;
      }
      return false;
    }
  }

  /** `test_addition_and_retrieval_operations`: both stored values come back, an unknown key gives None. */
  method AdditionAndRetrievalTest() returns (primary: Option<string>, secondary: Option<string>, missing: Option<string>)
    ensures primary == Some("primary_value") && secondary == Some("secondary_value") && missing == None
  {
    var table := new LocalHashTable<string>(10);
    table.AddElement("primary_key", Some("primary_value"));
    table.AddElement("secondary_key", Some("secondary_value"));
    primary := table.FindElement("primary_key");
    secondary := table.FindElement("secondary_key");
    missing := table.FindElement("nonexistent_key");
  }

  /** `test_value_update_operation`: re-adding a key replaces its value. */
  method ValueUpdateTest() returns (current: Option<string>)
    ensures current == Some("updated_value")
  {
    var table := new LocalHashTable<string>(10);
    table.AddElement("test_key", Some("initial_value"));
    table.AddElement("test_key", Some("updated_value"));
    current := table.FindElement("test_key");
  }

  /** `test_element_removal_operation`: the first removal succeeds, the key is then gone, a second removal fails. */
  method ElementRemovalTest() returns (removal: bool, afterwards: Option<string>, repeated: bool)
    ensures removal && afterwards == None && !repeated
  {
    var table := new LocalHashTable<string>(10);
    table.AddElement("removable_key", Some("temporary_value"));
    removal := table.RemoveElement("removable_key");
    afterwards := table.FindElement("removable_key");
    repeated := table.RemoveElement("removable_key");
  }

  /** `test_collision_handling_capability`: alpha, beta and gamma all come back. */
  method CollisionHandlingTest() returns (alpha: Option<int>, beta: Option<int>, gamma: Option<int>)
    ensures alpha == Some(1) && beta == Some(2) && gamma == Some(3)
  {
    var table := new LocalHashTable<int>(10);
    table.AddElement("alpha", Some(1));
    table.AddElement("beta", Some(2));
    table.AddElement("gamma", Some(3));
    alpha := table.FindElement("alpha");
    beta := table.FindElement("beta");
    gamma := table.FindElement("gamma");
  }

  // ---------------------------------------------------------------------
  // LinearProbingTable: linear probing over the character sum, no counter
  // ---------------------------------------------------------------------

  /** `_linear_hash` before the probe reduces it: the bare code-point sum. */
  function CodeSumHome(key: string, capacity: int): int
  {
    CodeSum(key)
  }

  /** The walk of `LinearProbingTable`: `(code sum + attempt) % capacity`. */
  function LinearProber(): (p: Prober)
    ensures p.strategy == "linear"
  {
    Prober("linear", CodeSumHome, false)
  }

  class LinearProbingTable<V> {
    const capacity: int
    var storage: seq<Slot<V>>

    /** Every stored pair is reachable by its walk, no key is stored twice, and no slot is a tombstone. */
    ghost predicate Valid()
      reads this
    {
      && capacity == |storage|
      && (capacity >= 1 ==> Reach(storage, LinearProber()) && Clean(storage))
    }

    /** `__init__`: `capacity` empty slots. */
    constructor (capacity: int)
      requires capacity >= 0
      ensures Valid() && this.capacity == capacity && storage == EmptySlots(capacity)
    {
      this.capacity := capacity;
      storage := EmptySlots(capacity);
      new;
      if capacity >= 1 {
        EmptySlotsFacts<V>(capacity, LinearProber());
      }
    }

    /**
     * `add_element`: the first attempt whose slot is empty, a tombstone or
     * holds `key` receives the pair. When every attempt meets another key the
     * pair is dropped without a word, which happens only when every slot
     * holds a pair.
     */
    method AddElement(key: string, value: Option<V>)
      requires Valid()
      modifies this
      ensures Valid()
      ensures capacity == 0 ==> storage == old(storage)
      ensures capacity >= 1 && old(InsertAttempt(storage, LinearProber(), key, 0)) < capacity ==>
        && storage == old(storage[InsertIndex(storage, LinearProber(), key) := Occupied(key, value)])
        && Lookup(storage, LinearProber(), key) == Some(value)
        && forall k :: k != key ==> Lookup(storage, LinearProber(), k) == old(Lookup(storage, LinearProber(), k))
      ensures capacity >= 1 && old(InsertAttempt(storage, LinearProber(), key, 0)) == capacity ==>
        && storage == old(storage)
        && |Entries(storage)| == capacity
    {
      if capacity == 0 {
        return;
      }
      var p := LinearProber();
      for attempt := 0 to capacity
        invariant storage == old(storage)
        invariant InsertAttempt(storage, p, key, attempt) == InsertAttempt(storage, p, key, 0)
      {
        var index := Index(p, capacity, key, attempt);
        var slot := storage[index];
        if !slot.Occupied? || slot.key == key {
          InsertAt(storage, p, key, value, attempt);
          storage := storage[index := Occupied(key, value)];
          return;
        }
      }
      ExhaustedBound(storage, p, key);
      assert Step(p, capacity, key) == 1;
      assert |Entries(storage)| * 1 == |Entries(storage)|;
    }

    /**
     * `find_element`: the walk ends with None at the first empty slot or
     * after the last attempt, and returns the value at the first slot
     * holding `key`.
     */
    method FindElement(key: string) returns (r: Option<V>)
      requires Valid()
      ensures capacity == 0 ==> r == None
      ensures capacity >= 1 ==>
        r == if Lookup(storage, LinearProber(), key).Some? then Lookup(storage, LinearProber(), key).value else None
    {
      if capacity == 0 {
        return None;
      }
      var p := LinearProber();
      for attempt := 0 to capacity
        invariant FindAttempt(storage, p, key, attempt) == FindAttempt(storage, p, key, 0)
      {
        var slot := storage[Index(p, capacity, key, attempt)];
        if slot == Empty {
          return None;
        }
        if slot.Occupied? && slot.key == key {
          return slot.value;
        }
      }
      return None;
    }
  }

  /** `test_linear_probing_implementation`: after alpha, beta and gamma in five slots, alpha comes back. */
  method LinearProbingTest() returns (alpha: Option<int>)
    ensures alpha == Some(1)
  {
    var table := new LinearProbingTable<int>(5);
    var p := LinearProber();
    assert InsertAttempt(table.storage, p, "alpha", 0) == 0;
    table.AddElement("alpha", Some(1));
    table.AddElement("beta", Some(2));
    assert Lookup(table.storage, p, "alpha") == Some(Some(1));
    table.AddElement("gamma", Some(3));
    assert Lookup(table.storage, p, "alpha") == Some(Some(1));
    alpha := table.FindElement("alpha");
  }

  /** `test_deletion_functionality`: after alpha and beta, alpha comes back. */
  method DeletionTest() returns (alpha: Option<int>)
    ensures alpha == Some(1)
  {
    var table := new LinearProbingTable<int>(5);
    var p := LinearProber();
    assert InsertAttempt(table.storage, p, "alpha", 0) == 0;
    table.AddElement("alpha", Some(1));
    table.AddElement("beta", Some(2));
    assert Lookup(table.storage, p, "alpha") == Some(Some(1));
    alpha := table.FindElement("alpha");
  }

  // ---------------------------------------------------------------------
  // DoubleHashingTable: fills only empty slots, searches every attempt
  // ---------------------------------------------------------------------

  /** The walk of `DoubleHashingTable`: the character-sum index plus whole steps of `1 + code sum % (capacity - 2)`. */
  function DoubleProber(): (p: Prober)
    ensures p.strategy == "double" && p.doubleAvailable
  {
    Prober("double", CharSumIndex, true)
  }

  /**
   * What `find_element` of the double-hashing table answers: the value at
   * the first attempt holding `key`; empty slots do not stop it.
   */
  function Held<V>(s: seq<Slot<V>>, p: Prober, key: string): Option<V>
    requires Walkable(s, p)
  {
    var h := HoldingAttempt(s, p, key, 0);
    if h < |s| then At(s, p, key, h).value else None
  }

  /**
   * Filling the first empty slot of `key`'s walk: from an attempt `a` up to
   * that slot, the walk now meets `key` at the earlier of its old holder and
   * the filled slot.
   */
  lemma {:induction false} HoldingFill<V>(s: seq<Slot<V>>, p: Prober, key: string, value: Option<V>, a: int)
    requires Walkable(s, p) && EmptyAttempt(s, p, key, 0) < |s| && 0 <= a <= EmptyAttempt(s, p, key, 0)
    ensures var e := EmptyAttempt(s, p, key, 0);
      var h := HoldingAttempt(s, p, key, a);
      HoldingAttempt(s[Index(p, |s|, key, e) := Occupied(key, value)], p, key, a) == if h < e then h else e
    decreases |s| - a
  {
    var e := EmptyAttempt(s, p, key, 0);
    var w := Index(p, |s|, key, e);
    var t := s[w := Occupied(key, value)];
    if a < e {
      assert At(s, p, key, a) != Empty;
      assert At(t, p, key, a) == At(s, p, key, a);
      HoldingFill(s, p, key, value, a + 1);
    }
  }

  /** Filling an empty slot with `key` moves no other key's first holder. */
  lemma {:induction false} HoldingFillOther<V>(s: seq<Slot<V>>, p: Prober, key: string, value: Option<V>, w: int, k: string, a: int)
    requires Walkable(s, p) && 0 <= w < |s| && s[w] == Empty && k != key && 0 <= a <= |s|
    ensures HoldingAttempt(s[w := Occupied(key, value)], p, k, a) == HoldingAttempt(s, p, k, a)
    decreases |s| - a
  {
    if a < |s| {
      HoldingFillOther(s, p, key, value, w, k, a + 1);
    }
  }

  /**
   * `add_element` of the double-hashing table writes `key` into the first
   * empty slot of its walk. Afterwards `key` answers the new value unless an
   * earlier attempt already held it, in which case the old value still
   * answers; every other key answers as before.
   */
  lemma FillHeld<V>(s: seq<Slot<V>>, p: Prober, key: string, value: Option<V>)
    requires Walkable(s, p) && EmptyAttempt(s, p, key, 0) < |s|
    ensures var e := EmptyAttempt(s, p, key, 0);
      var t := s[Index(p, |s|, key, e) := Occupied(key, value)];
      && Held(t, p, key) == (if HoldingAttempt(s, p, key, 0) < e then Held(s, p, key) else value)
      && forall k :: k != key ==> Held(t, p, k) == Held(s, p, k)
  {
    var e := EmptyAttempt(s, p, key, 0);
    var w := Index(p, |s|, key, e);
    var t := s[w := Occupied(key, value)];
    HoldingFill(s, p, key, value, 0);
    var h := HoldingAttempt(s, p, key, 0);
    if h < e {
      assert At(s, p, key, h) != Empty;
      assert At(t, p, key, h) == At(s, p, key, h);
    }
    forall k | k != key
      ensures Held(t, p, k) == Held(s, p, k)
    {
      HoldingFillOther(s, p, key, value, w, k, 0);
    }
  }

  class DoubleHashingTable<V> {
    const capacity: int
    var storage: seq<Slot<V>>

    /** The slots match the capacity. */
    ghost predicate Valid()
      reads this
    {
      capacity == |storage|
    }

    /** `__init__`: `capacity` empty slots. */
    constructor (capacity: int)
      requires capacity >= 0
      ensures Valid() && this.capacity == capacity && storage == EmptySlots(capacity)
    {
      this.capacity := capacity;
      storage := EmptySlots(capacity);
    }

    /**
     * `add_element`: the first attempt whose slot is empty receives the pair;
     * slots holding the same key are passed over, and when no attempt finds
     * an empty slot nothing is written. Capacity 2 divides by zero in the
     * secondary hash.
     */
    method AddElement(key: string, value: Option<V>) returns (outcome: Result<()>)
      requires Valid()
      modifies this
      ensures Valid()
      ensures capacity == 2 ==> outcome == Err(ZeroDivisionError) && storage == old(storage)
      ensures capacity != 2 ==> outcome == Ok(())
      ensures capacity == 0 ==> storage == old(storage)
      ensures capacity >= 1 && capacity != 2 ==>
        var e := old(EmptyAttempt(storage, DoubleProber(), key, 0));
        && (e < capacity ==> storage == old(storage[Index(DoubleProber(), capacity, key, e) := Occupied(key, value)]))
        && (e == capacity ==> storage == old(storage))
    {
      if capacity == 0 {
        return Ok(());
      }
      var p := DoubleProber();
      if capacity == 2 {
        // the secondary hash of the first attempt already divides by zero
        ProbeErrors(p, capacity, key, 0);
        return Err(Probe(p, capacity, key, 0).error);
      }
      for attempt := 0 to capacity
        invariant storage == old(storage)
        invariant EmptyAttempt(storage, p, key, attempt) == EmptyAttempt(storage, p, key, 0)
      {
        var index := Index(p, capacity, key, attempt);
        if storage[index] == Empty {
          storage := storage[index := Occupied(key, value)];
          return Ok(());
        }
      }
      return Ok(());
    }

    /**
     * `find_element`: the value at the first attempt holding `key`, or None
     * after the last attempt; empty slots do not end the search.
     */
    method FindElement(key: string) returns (r: Result<Option<V>>)
      requires Valid()
      ensures capacity == 2 ==> r == Err(ZeroDivisionError)
      ensures capacity == 0 ==> r == Ok(None)
      ensures capacity >= 1 && capacity != 2 ==> r == Ok(Held(storage, DoubleProber(), key))
    {
      if capacity == 0 {
        return Ok(None);
      }
      var p := DoubleProber();
      if capacity == 2 {
        ProbeErrors(p, capacity, key, 0);
        return Err(Probe(p, capacity, key, 0).error);
      }
      for attempt := 0 to capacity
        invariant HoldingAttempt(storage, p, key, attempt) == HoldingAttempt(storage, p, key, 0)
      {
        var slot := storage[Index(p, capacity, key, attempt)];
        if slot.Occupied? && slot.key == key {
          return Ok(slot.value);
        }
      }
      return Ok(None);
    }
  }

  /** `test_double_hashing_simulation`: after alpha and beta in five slots, beta comes back. */
  method DoubleHashingTest() returns (beta: Result<Option<int>>)
    ensures beta == Ok(Some(2))
  {
    var table := new DoubleHashingTable<int>(5);
    var p := DoubleProber();
    assert EmptyAttempt(table.storage, p, "alpha", 0) == 0;
    var added := table.AddElement("alpha", Some(1));
    ghost var s1 := table.storage;
    ghost var w := Index(p, 5, "alpha", 0);
    assert s1 == EmptySlots(5)[w := Occupied("alpha", Some(1))];
    EarlyAttemptsDistinct(p, 5, "beta", 0, 1);
    assert EmptyAttempt(s1, p, "beta", 0) <= 1;
    FillHeld(s1, p, "beta", Some(2));
    added := table.AddElement("beta", Some(2));
    beta := table.FindElement("beta");
  }

  // ---------------------------------------------------------------------
  // ScalableTable: doubles its capacity but never moves a pair
  // ---------------------------------------------------------------------

  class ScalableTable<V> {
    var capacity: int
    const threshold: real
    var storage: seq<seq<Chaining.Entry<V>>>
    var elementCount: int

    /** The capacity that divides the code sum stays positive, and there is at least one bucket. */
    ghost predicate Valid()
      reads this
    {
      capacity >= 1 && |storage| >= 1
    }

    /** `__init__`: `initialCapacity` empty buckets and a zero counter. */
    constructor (initialCapacity: int, expansionThreshold: real)
      requires initialCapacity >= 1
      ensures Valid() && capacity == initialCapacity && threshold == expansionThreshold
      ensures storage == Chaining.CreateEmptyStorage(initialCapacity) && elementCount == 0
    {
      capacity := initialCapacity;
      threshold := expansionThreshold;
      storage := Chaining.CreateEmptyStorage(initialCapacity);
      elementCount := 0;
    }

    /**
     * `add_element`: when the count per unit of capacity exceeds the
     * threshold, `_expand_capacity` doubles the capacity but leaves the
     * buckets as they are. The pair is then appended to bucket
     * `code sum % capacity` without looking for the key, and counted; a
     * bucket number past the old buckets raises IndexError after the
     * capacity has already doubled.
     */
    method AddElement(key: string, value: Option<V>) returns (outcome: Result<()>)
      requires Valid()
      modifies this
      ensures Valid() && |storage| == old(|storage|)
      ensures capacity == if old(elementCount as real / capacity as real > threshold) then 2 * old(capacity) else old(capacity)
      ensures CodeSum(key) % capacity >= |storage| ==>
        outcome == Err(IndexError) && storage == old(storage) && elementCount == old(elementCount)
      ensures CodeSum(key) % capacity < |storage| ==>
        && outcome == Ok(())
        && storage == old(storage)[CodeSum(key) % capacity := old(storage)[CodeSum(key) % capacity] + [(key, value)]]
        && elementCount == old(elementCount) + 1
    {
      if elementCount as real / capacity as real > threshold {
        ExpandCapacity();
      }
      var bucketIndex := CodeSum(key) % capacity;
      if bucketIndex >= |storage| {
        return Err(IndexError);
      }
      storage := storage[bucketIndex := storage[bucketIndex] + [(key, value)]];
      elementCount := elementCount + 1;
      return Ok(());
    }

    /** `_expand_capacity`: the capacity doubles; the buckets are not redistributed. */
    method ExpandCapacity()
      requires Valid()
      modifies this
      ensures Valid() && capacity == 2 * old(capacity)
      ensures storage == old(storage) && elementCount == old(elementCount)
    {
      capacity := capacity * 2;
    }
  }

  /** The code-point sum of "expansion_trigger". */
  lemma ExpansionTriggerSum()
    ensures CodeSum("expansion_trigger") == 1832
  {
    ExpansionTriggerSumStart();
    assert "expansion"[..8] == "expansio" && CodeSum("expansion") == 981;
    assert "expansion_"[..9] == "expansion" && CodeSum("expansion_") == 1076;
    assert "expansion_t"[..10] == "expansion_" && CodeSum("expansion_t") == 1192;
    assert "expansion_tr"[..11] == "expansion_t" && CodeSum("expansion_tr") == 1306;
    assert "expansion_tri"[..12] == "expansion_tr" && CodeSum("expansion_tri") == 1411;
    assert "expansion_trig"[..13] == "expansion_tri" && CodeSum("expansion_trig") == 1514;
    assert "expansion_trigg"[..14] == "expansion_trig" && CodeSum("expansion_trigg") == 1617;
    assert "expansion_trigge"[..15] == "expansion_trigg" && CodeSum("expansion_trigge") == 1718;
    assert "expansion_trigger"[..16] == "expansion_trigge" && CodeSum("expansion_trigger") == 1832;
  }

  /** The first half of the chain of `ExpansionTriggerSum`. */
  lemma ExpansionTriggerSumStart()
    ensures CodeSum("expansio") == 871
  {
    assert "e"[..0] == "" && CodeSum("e") == 101;
    assert "ex"[..1] == "e" && CodeSum("ex") == 221;
    assert "exp"[..2] == "ex" && CodeSum("exp") == 333;
    assert "expa"[..3] == "exp" && CodeSum("expa") == 430;
    assert "expan"[..4] == "expa" && CodeSum("expan") == 540;
    assert "expans"[..5] == "expan" && CodeSum("expans") == 655;
    assert "expansi"[..6] == "expans" && CodeSum("expansi") == 760;
    assert "expansio"[..7] == "expansi" && CodeSum("expansio") == 871;
  }

  /**
   * `test_capacity_expansion_functionality`: three keys fit five buckets;
   * the fourth finds the load 3/5 above 0.5, doubles the capacity to 10 and
   * still lands in one of the five buckets (1832 % 10 = 2).
   */
  method CapacityExpansionTest() returns (table: ScalableTable<string>, original: int, outcomes: seq<Result<()>>)
    ensures fresh(table) && table.Valid() && table.threshold == 0.5
    ensures original == 5 && table.capacity == 10 && table.capacity > original
    ensures |table.storage| == 5 && table.elementCount == 4
    ensures outcomes == [Ok(()), Ok(()), Ok(()), Ok(())]
  {
    table := new ScalableTable<string>(5, 0.5);
    original := table.capacity;
    var first := table.AddElement("key_0", Some("value_0"));
    assert table.capacity == 5 && table.elementCount == 1;
    var second := table.AddElement("key_1", Some("value_1"));
    assert table.capacity == 5 && table.elementCount == 2;
    var third := table.AddElement("key_2", Some("value_2"));
    assert table.capacity == 5 && table.elementCount == 3;
    ExpansionTriggerSum();
    var fourth := table.AddElement("expansion_trigger", Some("trigger_value"));
    outcomes := [first, second, third, fourth];
  }

  /** The code-point sum of "key_5". */
  lemma KeyFiveSum()
    ensures CodeSum("key_5") == 477
  {
    assert "k"[..0] == "" && CodeSum("k") == 107;
    assert "ke"[..1] == "k" && CodeSum("ke") == 208;
    assert "key"[..2] == "ke" && CodeSum("key") == 329;
    assert "key_"[..3] == "key" && CodeSum("key_") == 424;
    assert "key_5"[..4] == "key_" && CodeSum("key_5") == 477;
  }

  /**
   * Because the buckets are never redistributed, a key whose sum lands past
   * the five old buckets after the doubling raises IndexError: after the
   * four pairs of the expansion test, "key_5" (477 % 10 = 7) cannot be added.
   */
  method MissingBucketFails() returns (outcome: Result<()>)
    ensures outcome == Err(IndexError)
  {
    var table, original, outcomes := CapacityExpansionTest();
    KeyFiveSum();
    assert CodeSum("key_5") % table.capacity == 7;
    outcome := table.AddElement("key_5", Some("value_5"));
  }
}
