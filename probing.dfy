// Probe sequences and slot walks of the open-addressing tables of lab05.
// A table is a sequence of slots; a probe turns a key and an attempt number
// into a slot index, and every table operation walks the attempts
// 0, 1, ..., capacity - 1 of its key until a slot stops it.

module Probing {
  import opened Wrappers
  import HashFunctions

  /** A stored pair; Python's `None` as a value is `None`, any other value `Some`. */
  type Entry<V> = (string, Option<V>)

  /** A slot: `None`, the tombstone object, or a stored pair. */
  datatype Slot<V> = Empty | Deleted | Occupied(key: string, value: Option<V>)

  /**
   * How a table probes: the strategy string, the primary hash applied to
   * (key, capacity), and whether the double strategy can reach its
   * polynomial hash (it cannot when the table was given its own primary hash).
   */
  datatype Prober = Prober(strategy: string, primary: (string, int) -> int, doubleAvailable: bool)

  /**
   * `_compute_probe_index`: linear probing moves one slot per attempt,
   * double hashing moves `1 + (code sum mod (capacity - 2))` slots; any
   * other strategy raises ValueError.
   */
  function Probe(p: Prober, capacity: int, key: string, attempt: int): (r: Result<int>)
    requires capacity >= 1
    ensures r.Ok? ==> 0 <= r.value < capacity
  {
    var baseIndex := p.primary(key, capacity);
    if p.strategy == "linear" then Ok((baseIndex + attempt) % capacity)
    else if p.strategy == "double" then
      if !p.doubleAvailable then Err(NameError)
      else
        var step := HashFunctions.SecondaryStep(key, capacity);
        if step.Err? then Err(step.error) else Ok((baseIndex + attempt * step.value) % capacity)
    else Err(ValueError)
  }

  /** The configurations whose probe raises nothing at this capacity. */
  predicate Works(p: Prober, capacity: int)
  {
    p.strategy == "linear" || (p.strategy == "double" && p.doubleAvailable && capacity != 2)
  }

  /**
   * A configuration that never raises while the table only doubles: linear
   * probing, or double hashing with its polynomial hash from capacity 3 on.
   */
  predicate Sound(p: Prober, capacity: int)
  {
    && capacity >= 1
    && (p.strategy == "linear" || (p.strategy == "double" && p.doubleAvailable && capacity >= 3))
  }

  /** The probe raises exactly for the configurations that do not work: ValueError, NameError, ZeroDivisionError. */
  lemma ProbeErrors(p: Prober, capacity: int, key: string, attempt: int)
    requires capacity >= 1
    ensures Probe(p, capacity, key, attempt).Err? <==> !Works(p, capacity)
    ensures p.strategy != "linear" && p.strategy != "double" ==> Probe(p, capacity, key, attempt) == Err(ValueError)
    ensures p.strategy == "double" && !p.doubleAvailable ==> Probe(p, capacity, key, attempt) == Err(NameError)
    ensures p.strategy == "double" && p.doubleAvailable && capacity == 2 ==> Probe(p, capacity, key, attempt) == Err(ZeroDivisionError)
  {
  }

  /** Doubling keeps a sound configuration sound. */
  lemma SoundDoubles(p: Prober, capacity: int)
    requires Sound(p, capacity)
    ensures Sound(p, 2 * capacity) && Works(p, capacity)
  {
  }

  /** A double-hashing table that starts at capacity 1 raises ZeroDivisionError once it has doubled. */
  lemma DoubleFromOneFails(p: Prober, key: string, attempt: int)
    requires p.strategy == "double" && p.doubleAvailable
    ensures Probe(p, 1, key, attempt).Ok?
    ensures Probe(p, 2 * 1, key, attempt) == Err(ZeroDivisionError)
  {
  }

  /** The slot an attempt lands on, for a configuration that works. */
  function Index(p: Prober, capacity: int, key: string, attempt: int): (r: int)
    requires capacity >= 1 && Works(p, capacity)
    ensures 0 <= r < capacity
  {
    Probe(p, capacity, key, attempt).value
  }

  /** How far one attempt moves: 1 for linear probing, the secondary step for double hashing. */
  function Step(p: Prober, capacity: int, key: string): (r: int)
    requires capacity >= 1 && Works(p, capacity)
    ensures 1 <= r <= StepBound(p, key)
  {
    if p.strategy == "linear" then 1 else HashFunctions.SecondaryStep(key, capacity).value
  }

  /** A bound on the step that no capacity exceeds. */
  function StepBound(p: Prober, key: string): nat
  {
    if p.strategy == "linear" then 1 else 1 + HashFunctions.CodeSum(key)
  }

  /** Every attempt advances the primary hash by whole steps. */
  lemma IndexSteps(p: Prober, capacity: int, key: string, attempt: int)
    requires capacity >= 1 && Works(p, capacity)
    ensures Index(p, capacity, key, attempt) == (p.primary(key, capacity) + attempt * Step(p, capacity, key)) % capacity
  {
  }

  /** With the polynomial hash as primary, the double probe is `calculate_double_hash_value`. */
  lemma DoubleProbeIsDoubleHash(p: Prober, capacity: int, key: string, attempt: int)
    requires p.strategy == "double" && p.doubleAvailable && capacity >= 3
    requires Ok(p.primary(key, capacity)) == HashFunctions.PolynomialHash(key, capacity, 31)
    ensures Probe(p, capacity, key, attempt) == HashFunctions.DoubleHash(key, capacity, attempt)
  {
    HashFunctions.DoubleHashSteps(key, capacity, attempt);
  }

  /** Two numbers closer than `m` but not equal leave different remainders. */
  lemma ModDistinct(x: int, y: int, m: int)
    requires m > 0 && x < y < x + m
    ensures x % m != y % m
  {
    var d := y / m - x / m;
    assert y - x == m * d + (y % m - x % m);
    if d <= 0 {
      assert m * d <= 0;
    } else {
      assert m * d >= m;
    }
  }

  /** Attempts whose whole steps stay below the capacity land on different slots. */
  lemma EarlyAttemptsDistinct(p: Prober, capacity: int, key: string, a: int, b: int)
    requires capacity >= 1 && Works(p, capacity)
    requires 0 <= a < b && b * Step(p, capacity, key) < capacity
    ensures Index(p, capacity, key, a) != Index(p, capacity, key, b)
  {
    var s := Step(p, capacity, key);
    var h := p.primary(key, capacity);
    IndexSteps(p, capacity, key, a);
    IndexSteps(p, capacity, key, b);
    AttemptsApart(a, b, s, capacity);
    ModDistinct(h + a * s, h + b * s, capacity);
  }

  /** Whole steps of two attempts below the capacity lie less than the capacity apart. */
  lemma AttemptsApart(a: int, b: int, s: int, capacity: int)
    requires 0 <= a < b && s >= 1 && b * s < capacity
    ensures 0 <= a * s < b * s < a * s + capacity
  {
    var d := b - a;
    assert b * s == a * s + d * s;
    assert d * s >= s by {
      assert d * s == (d - 1) * s + s;
      assert (d - 1) * s >= 0;
    }
  }

  // ---------------------------------------------------------------------
  // Walks over the attempts of one key
  // ---------------------------------------------------------------------

  /** A slot sequence the probe can walk: at least one slot, and a working configuration. */
  predicate Walkable<V>(s: seq<Slot<V>>, p: Prober)
  {
    |s| >= 1 && Works(p, |s|)
  }

  /** The slot an attempt of `key` lands on. */
  function At<V>(s: seq<Slot<V>>, p: Prober, key: string, attempt: int): Slot<V>
    requires Walkable(s, p)
  {
    s[Index(p, |s|, key, attempt)]
  }

  /**
   * The attempt at which `_insert_entry` stops: the first from `a` on whose
   * slot is empty, a tombstone, or holds `key`; the capacity when every
   * attempt meets another key.
   */
  function InsertAttempt<V>(s: seq<Slot<V>>, p: Prober, key: string, a: int): (r: int)
    requires Walkable(s, p) && 0 <= a <= |s|
    ensures a <= r <= |s|
    ensures r < |s| ==> !At(s, p, key, r).Occupied? || At(s, p, key, r).key == key
    ensures forall b :: a <= b < r ==> At(s, p, key, b).Occupied? && At(s, p, key, b).key != key
    decreases |s| - a
  {
    if a == |s| then a
    else
      var slot := At(s, p, key, a);
      if !slot.Occupied? || slot.key == key then a else InsertAttempt(s, p, key, a + 1)
  }

  /**
   * The attempt at which `find_element` finds `key`: the walk from `a` ends
   * with nothing at the first empty slot or after the last attempt, passes
   * tombstones and other keys, and stops at the first slot holding `key`.
   */
  function FindAttempt<V>(s: seq<Slot<V>>, p: Prober, key: string, a: int): (r: Option<int>)
    requires Walkable(s, p) && 0 <= a <= |s|
    ensures r.Some? ==> a <= r.value < |s| && At(s, p, key, r.value).Occupied? && At(s, p, key, r.value).key == key
    decreases |s| - a
  {
    if a == |s| then None
    else
      match At(s, p, key, a)
      case Empty => None
      case Deleted => FindAttempt(s, p, key, a + 1)
      case Occupied(k, _) => if k == key then Some(a) else FindAttempt(s, p, key, a + 1)
  }

  /** What the walk from attempt `a` finds for `key`: the stored value, or nothing. */
  function LookupFrom<V>(s: seq<Slot<V>>, p: Prober, key: string, a: int): Option<Option<V>>
    requires Walkable(s, p) && 0 <= a <= |s|
  {
    var found := FindAttempt(s, p, key, a);
    if found.None? then None else Some(At(s, p, key, found.value).value)
  }

  /** What the table answers for `key`: the walk from the first attempt. */
  function Lookup<V>(s: seq<Slot<V>>, p: Prober, key: string): Option<Option<V>>
    requires Walkable(s, p)
  {
    LookupFrom(s, p, key, 0)
  }

  /**
   * The first attempt from `a` on whose slot holds `key`, passing empty
   * slots too; the capacity when none does. The probe statistics count up
   * to it, and the test file's double-hashing table searches this way.
   */
  function HoldingAttempt<V>(s: seq<Slot<V>>, p: Prober, key: string, a: int): (r: int)
    requires Walkable(s, p) && 0 <= a <= |s|
    ensures a <= r <= |s|
    ensures r < |s| ==> At(s, p, key, r).Occupied? && At(s, p, key, r).key == key
    ensures forall b :: a <= b < r ==> !(At(s, p, key, b).Occupied? && At(s, p, key, b).key == key)
    decreases |s| - a
  {
    if a == |s| then a
    else
      var slot := At(s, p, key, a);
      if slot.Occupied? && slot.key == key then a else HoldingAttempt(s, p, key, a + 1)
  }

  /** The first attempt from `a` on whose slot is empty; the capacity when none is. */
  function EmptyAttempt<V>(s: seq<Slot<V>>, p: Prober, key: string, a: int): (r: int)
    requires Walkable(s, p) && 0 <= a <= |s|
    ensures a <= r <= |s|
    ensures r < |s| ==> At(s, p, key, r) == Empty
    ensures forall b :: a <= b < r ==> At(s, p, key, b) != Empty
    decreases |s| - a
  {
    if a == |s| then a
    else if At(s, p, key, a) == Empty then a else EmptyAttempt(s, p, key, a + 1)
  }

  /** The walk of `key` from attempt `a` meets slot `i` before any empty slot. */
  predicate Visits<V>(s: seq<Slot<V>>, p: Prober, key: string, i: int, a: int)
    requires Walkable(s, p) && 0 <= a <= |s|
    decreases |s| - a
  {
    a < |s| && (Index(p, |s|, key, a) == i || (At(s, p, key, a) != Empty && Visits(s, p, key, i, a + 1)))
  }

  /**
   * Every stored pair is reachable: the walk of its key meets its slot
   * before any empty slot, which is how insertion placed it.
   */
  ghost predicate Reach<V>(s: seq<Slot<V>>, p: Prober)
    requires Walkable(s, p)
  {
    forall i :: 0 <= i < |s| && s[i].Occupied? ==> Visits(s, p, s[i].key, i, 0)
  }

  /** Filling slots keeps every walk's reach. */
  lemma {:induction false} VisitsMonotone<V>(s: seq<Slot<V>>, t: seq<Slot<V>>, p: Prober, key: string, i: int, a: int)
    requires Walkable(s, p) && |t| == |s| && 0 <= a <= |s|
    requires forall j :: 0 <= j < |s| && s[j] != Empty ==> t[j] != Empty
    requires Visits(s, p, key, i, a)
    ensures Visits(t, p, key, i, a)
    decreases |s| - a
  {
    if Index(p, |s|, key, a) != i {
      VisitsMonotone(s, t, p, key, i, a + 1);
    }
  }

  /** The walk of `key` meets the slot where insertion stops. */
  lemma {:induction false} InsertVisits<V>(s: seq<Slot<V>>, p: Prober, key: string, a: int)
    requires Walkable(s, p) && 0 <= a <= |s|
    requires InsertAttempt(s, p, key, a) < |s|
    ensures Visits(s, p, key, Index(p, |s|, key, InsertAttempt(s, p, key, a)), a)
    decreases |s| - a
  {
    if InsertAttempt(s, p, key, a) != a {
      InsertVisits(s, p, key, a + 1);
    }
  }

  /** The slot `_insert_entry` writes, when some attempt stops it. */
  function InsertIndex<V>(s: seq<Slot<V>>, p: Prober, key: string): (r: int)
    requires Walkable(s, p) && InsertAttempt(s, p, key, 0) < |s|
    ensures 0 <= r < |s|
  {
    Index(p, |s|, key, InsertAttempt(s, p, key, 0))
  }

  /** Writing `key` where insertion stops keeps every pair reachable. */
  lemma InsertReach<V>(s: seq<Slot<V>>, p: Prober, key: string, value: Option<V>)
    requires Walkable(s, p) && Reach(s, p)
    requires InsertAttempt(s, p, key, 0) < |s|
    ensures Reach(s[InsertIndex(s, p, key) := Occupied(key, value)], p)
  {
    var t := s[InsertIndex(s, p, key) := Occupied(key, value)];
    InsertVisits(s, p, key, 0);
    forall i | 0 <= i < |t| && t[i].Occupied?
      ensures Visits(t, p, t[i].key, i, 0)
    {
      VisitsMonotone(s, t, p, t[i].key, i, 0);
    }
  }

  /** A tombstone in place of a stored pair keeps every other pair reachable. */
  lemma RemoveReach<V>(s: seq<Slot<V>>, p: Prober, i: int)
    requires Walkable(s, p) && Reach(s, p) && 0 <= i < |s|
    ensures Reach(s[i := Deleted], p)
  {
    var t := s[i := Deleted];
    forall j | 0 <= j < |t| && t[j].Occupied?
      ensures Visits(t, p, t[j].key, j, 0)
    {
      VisitsMonotone(s, t, p, t[j].key, j, 0);
    }
  }

  /** Empty slots everywhere: nothing stored, nothing found. */
  lemma EmptyTable<V>(s: seq<Slot<V>>, p: Prober, key: string)
    requires Walkable(s, p) && forall j :: 0 <= j < |s| ==> s[j] == Empty
    ensures Reach(s, p) && Lookup(s, p, key) == None
  {
  }

  // ---------------------------------------------------------------------
  // What insertion and removal do to lookups
  // ---------------------------------------------------------------------

  /** After the write, the walk of `key` stops at the written slot: the key finds its new value. */
  lemma {:induction false} FindWritten<V>(s: seq<Slot<V>>, p: Prober, key: string, value: Option<V>, a: int)
    requires Walkable(s, p) && 0 <= a <= InsertAttempt(s, p, key, 0) < |s|
    ensures FindAttempt(s[InsertIndex(s, p, key) := Occupied(key, value)], p, key, a) == Some(InsertAttempt(s, p, key, 0))
    decreases |s| - a
  {
    var c := InsertAttempt(s, p, key, 0);
    var t := s[InsertIndex(s, p, key) := Occupied(key, value)];
    if a < c {
      assert At(s, p, key, a).Occupied? && At(s, p, key, a).key != key;
      assert At(t, p, key, a) == At(s, p, key, a);
      FindWritten(s, p, key, value, a + 1);
    }
  }

  /** The two slot sequences agree, slot by slot, on emptiness and on holding `key`. */
  ghost predicate SameFor<V>(s: seq<Slot<V>>, t: seq<Slot<V>>, key: string)
  {
    && |s| == |t|
    && (forall j :: 0 <= j < |s| ==> (s[j] == Empty <==> t[j] == Empty))
    && (forall j :: 0 <= j < |s| ==> (s[j].Occupied? && s[j].key == key <==> t[j].Occupied? && t[j].key == key))
  }

  /** Slot sequences that agree on emptiness and on `key` send its walk to the same attempt. */
  lemma {:induction false} FindSame<V>(s: seq<Slot<V>>, t: seq<Slot<V>>, p: Prober, key: string, a: int)
    requires Walkable(s, p) && SameFor(s, t, key) && 0 <= a <= |s|
    ensures FindAttempt(t, p, key, a) == FindAttempt(s, p, key, a)
    decreases |s| - a
  {
    if a < |s| {
      FindSame(s, t, p, key, a + 1);
    }
  }

  /**
   * A reachable pair cannot sit past an empty slot of its key's walk: with
   * every attempt from `a` to `e` missing `key` and attempt `e` empty, no
   * slot holding `key` is visited from `a`.
   */
  lemma {:induction false} NotPastEmpty<V>(s: seq<Slot<V>>, p: Prober, key: string, i: int, a: int, e: int)
    requires Walkable(s, p) && 0 <= a <= e < |s|
    requires At(s, p, key, e) == Empty
    requires forall b :: a <= b < e ==> !(At(s, p, key, b).Occupied? && At(s, p, key, b).key == key)
    requires 0 <= i < |s| && s[i].Occupied? && s[i].key == key
    ensures !Visits(s, p, key, i, a)
    decreases e - a
  {
    if a < e {
      assert !(At(s, p, key, a).Occupied? && At(s, p, key, a).key == key);
      NotPastEmpty(s, p, key, i, a + 1, e);
    } else {
      assert At(s, p, key, a) == Empty;
    }
  }

  /** Past an empty slot of its walk, a key is found nowhere, even once that slot is filled with another key. */
  lemma {:induction false} NoneBeyond<V>(s: seq<Slot<V>>, t: seq<Slot<V>>, p: Prober, key: string, w: int, e: int, a: int)
    requires Walkable(s, p) && Reach(s, p) && 0 <= e < a <= |s|
    requires 0 <= w < |s| == |t| && s[w] == Empty && t == s[w := t[w]] && t[w].Occupied? && t[w].key != key
    requires At(s, p, key, e) == Empty
    requires forall b :: 0 <= b < e ==> !(At(s, p, key, b).Occupied? && At(s, p, key, b).key == key)
    ensures FindAttempt(t, p, key, a) == None
    decreases |s| - a
  {
    if a < |s| {
      var q := Index(p, |s|, key, a);
      if t[q].Occupied? && t[q].key == key {
        assert q != w && s[q] == t[q];
        NotPastEmpty(s, p, key, q, 0, e);
        assert false;
      }
      NoneBeyond(s, t, p, key, w, e, a + 1);
    }
  }

  /**
   * Filling an empty slot with another key leaves the walk of `key`
   * unchanged; where it used to stop at that slot, it now finds nothing
   * past it.
   */
  lemma {:induction false} FindFilled<V>(s: seq<Slot<V>>, t: seq<Slot<V>>, p: Prober, key: string, w: int, a: int)
    requires Walkable(s, p) && Reach(s, p) && 0 <= a <= |s|
    requires 0 <= w < |s| == |t| && s[w] == Empty && t == s[w := t[w]] && t[w].Occupied? && t[w].key != key
    requires forall b :: 0 <= b < a ==> At(s, p, key, b) != Empty && !(At(s, p, key, b).Occupied? && At(s, p, key, b).key == key)
    ensures FindAttempt(t, p, key, a) == FindAttempt(s, p, key, a)
    decreases |s| - a
  {
    if a < |s| {
      var q := Index(p, |s|, key, a);
      if q == w {
        NoneBeyond(s, t, p, key, w, a, a + 1);
      } else if s[q] != Empty && !(s[q].Occupied? && s[q].key == key) {
        FindFilled(s, t, p, key, w, a + 1);
      }
    }
  }

  /** Writing `key` where insertion stops changes no other key's answer. */
  lemma LookupOther<V>(s: seq<Slot<V>>, p: Prober, key: string, value: Option<V>, other: string)
    requires Walkable(s, p) && Reach(s, p) && InsertAttempt(s, p, key, 0) < |s| && other != key
    ensures Lookup(s[InsertIndex(s, p, key) := Occupied(key, value)], p, other) == Lookup(s, p, other)
  {
    var w := InsertIndex(s, p, key);
    var t := s[w := Occupied(key, value)];
    if s[w] == Empty {
      FindFilled(s, t, p, other, w, 0);
    } else {
      FindSame(s, t, p, other, 0);
    }
  }

  /**
   * `_insert_entry` without exhaustion: `key` answers with its new value,
   * every other key as before, and every pair stays reachable.
   */
  lemma InsertLookups<V>(s: seq<Slot<V>>, p: Prober, key: string, value: Option<V>)
    requires Walkable(s, p) && Reach(s, p) && InsertAttempt(s, p, key, 0) < |s|
    ensures Reach(s[InsertIndex(s, p, key) := Occupied(key, value)], p)
    ensures forall k :: Lookup(s[InsertIndex(s, p, key) := Occupied(key, value)], p, k)
                     == if k == key then Some(value) else Lookup(s, p, k)
  {
    var t := s[InsertIndex(s, p, key) := Occupied(key, value)];
    InsertReach(s, p, key, value);
    FindWritten(s, p, key, value, 0);
    assert Lookup(t, p, key) == Some(value);
    forall k | k != key
      ensures Lookup(s[InsertIndex(s, p, key) := Occupied(key, value)], p, k) == Lookup(s, p, k)
    {
      LookupOther(s, p, key, value, k);
    }
  }

  /**
   * `remove_element` turns the slot its walk finds into a tombstone: other
   * keys answer as before, and `key` now answers with whatever its walk
   * finds beyond that slot.
   */
  lemma RemoveLookups<V>(s: seq<Slot<V>>, p: Prober, key: string)
    requires Walkable(s, p) && Reach(s, p) && FindAttempt(s, p, key, 0).Some?
    ensures Reach(s[Index(p, |s|, key, FindAttempt(s, p, key, 0).value) := Deleted], p)
    ensures forall k :: k != key ==>
      Lookup(s[Index(p, |s|, key, FindAttempt(s, p, key, 0).value) := Deleted], p, k) == Lookup(s, p, k)
    ensures Lookup(s[Index(p, |s|, key, FindAttempt(s, p, key, 0).value) := Deleted], p, key)
         == LookupFrom(s[Index(p, |s|, key, FindAttempt(s, p, key, 0).value) := Deleted], p, key, FindAttempt(s, p, key, 0).value + 1)
  {
    var c := FindAttempt(s, p, key, 0).value;
    var w := Index(p, |s|, key, c);
    var t := s[w := Deleted];
    RemoveReach(s, p, w);
    forall k | k != key
      ensures Lookup(t, p, k) == Lookup(s, p, k)
    {
      FindSame(s, t, p, k, 0);
    }
    FindPassed(s, t, p, key, c, 0);
  }

  /** Up to the removed attempt, the walk of `key` met only slots that still let it pass. */
  lemma {:induction false} FindPassed<V>(s: seq<Slot<V>>, t: seq<Slot<V>>, p: Prober, key: string, c: int, a: int)
    requires Walkable(s, p) && 0 <= a <= c < |s| && FindAttempt(s, p, key, a) == Some(c)
    requires t == s[Index(p, |s|, key, c) := Deleted]
    ensures FindAttempt(t, p, key, a) == FindAttempt(t, p, key, c + 1)
    decreases c - a
  {
    if a < c {
      var q := Index(p, |s|, key, a);
      assert q != Index(p, |s|, key, c);
      FindPassed(s, t, p, key, c, a + 1);
    }
  }

  /** No slot holds `key`: its walk finds nothing. */
  lemma {:induction false} FindAbsent<V>(s: seq<Slot<V>>, p: Prober, key: string, a: int)
    requires Walkable(s, p) && 0 <= a <= |s|
    requires forall j :: 0 <= j < |s| ==> !(s[j].Occupied? && s[j].key == key)
    ensures FindAttempt(s, p, key, a) == None
    decreases |s| - a
  {
    if a < |s| {
      FindAbsent(s, p, key, a + 1);
    }
  }

  /** Every key held in at most one slot. */
  ghost predicate KeysDistinct<V>(s: seq<Slot<V>>)
  {
    forall i, j :: 0 <= i < j < |s| && s[i].Occupied? && s[j].Occupied? ==> s[i].key != s[j].key
  }

  /** Without duplicates, a removed key answers nothing afterwards. */
  lemma RemoveDistinct<V>(s: seq<Slot<V>>, p: Prober, key: string)
    requires Walkable(s, p) && Reach(s, p) && KeysDistinct(s) && FindAttempt(s, p, key, 0).Some?
    ensures Lookup(s[Index(p, |s|, key, FindAttempt(s, p, key, 0).value) := Deleted], p, key) == None
  {
    var w := Index(p, |s|, key, FindAttempt(s, p, key, 0).value);
    assert s[w].Occupied? && s[w].key == key;
    var t := s[w := Deleted];
    forall j | 0 <= j < |t|
      ensures !(t[j].Occupied? && t[j].key == key)
    {
      assert j == w || !(s[j].Occupied? && s[j].key == key);
    }
    FindAbsent(t, p, key, 0);
  }

  // ---------------------------------------------------------------------
  // Stored pairs, their number, and exhausted probes
  // ---------------------------------------------------------------------

  /** The stored pairs in slot order: what the expansion loop re-inserts. */
  function Entries<V>(s: seq<Slot<V>>): (r: seq<Entry<V>>)
    ensures |r| <= |s|
  {
    if |s| == 0 then []
    else
      var last := s[|s| - 1];
      Entries(s[..|s| - 1]) + (if last.Occupied? then [(last.key, last.value)] else [])
  }

  /** One more slot adds its pair, if it holds one, to the end of the pairs. */
  lemma EntriesStep<V>(s: seq<Slot<V>>, i: int)
    requires 0 <= i < |s|
    ensures Entries(s[..i + 1]) == Entries(s[..i]) + (if s[i].Occupied? then [(s[i].key, s[i].value)] else [])
  {
    assert s[..i + 1][..i] == s[..i];
  }

  /** A prefix holds no more pairs than the whole. */
  lemma {:induction false} EntriesPrefix<V>(s: seq<Slot<V>>, i: int)
    requires 0 <= i <= |s|
    ensures |Entries(s[..i])| <= |Entries(s)|
    decreases |s| - i
  {
    if i < |s| {
      EntriesStep(s, i);
      EntriesPrefix(s, i + 1);
    } else {
      assert s[..i] == s;
    }
  }

  /** The positions of the stored pairs; there are as many as pairs. */
  ghost function Positions<V>(s: seq<Slot<V>>): (r: set<int>)
    ensures forall j :: j in r <==> 0 <= j < |s| && s[j].Occupied?
    ensures |r| == |Entries(s)|
  {
    if |s| == 0 then {}
    else
      var front := Positions(s[..|s| - 1]);
      assert |s| - 1 !in front;
      front + (if s[|s| - 1].Occupied? then {|s| - 1} else {})
  }

  /** Overwriting one slot changes the number of pairs by what it held and what it now holds. */
  lemma {:induction false} EntriesUpdate<V>(s: seq<Slot<V>>, i: int, x: Slot<V>)
    requires 0 <= i < |s|
    ensures |Entries(s[i := x])| == |Entries(s)| - (if s[i].Occupied? then 1 else 0) + (if x.Occupied? then 1 else 0)
  {
    var n := |s| - 1;
    var t := s[i := x];
    if i == n {
      assert t[..n] == s[..n];
    } else {
      assert t[..n] == s[..n][i := x];
      EntriesUpdate(s[..n], i, x);
    }
  }

  /** The slots the first `m` attempts of `key` land on. */
  ghost function Landed(p: Prober, capacity: int, key: string, m: int): set<int>
    requires capacity >= 1 && Works(p, capacity) && m >= 0
  {
    if m == 0 then {} else Landed(p, capacity, key, m - 1) + {Index(p, capacity, key, m - 1)}
  }

  /** An early attempt lands outside the slots of the attempts before it. */
  lemma {:induction false} LandedFresh(p: Prober, capacity: int, key: string, m: int, b: int)
    requires capacity >= 1 && Works(p, capacity) && 0 <= m <= b && b * Step(p, capacity, key) < capacity
    ensures Index(p, capacity, key, b) !in Landed(p, capacity, key, m)
  {
    if m > 0 {
      EarlyAttemptsDistinct(p, capacity, key, m - 1, b);
      LandedFresh(p, capacity, key, m - 1, b);
    }
  }

  /** Attempts whose steps stay below the capacity land on as many slots as there are attempts. */
  lemma {:induction false} LandedCount(p: Prober, capacity: int, key: string, m: int)
    requires capacity >= 1 && Works(p, capacity) && m >= 0
    requires (m - 1) * Step(p, capacity, key) < capacity
    ensures |Landed(p, capacity, key, m)| == m
  {
    if m > 0 {
      var st := Step(p, capacity, key);
      assert (m - 2) * st < (m - 1) * st;
      LandedCount(p, capacity, key, m - 1);
      LandedFresh(p, capacity, key, m - 1, m - 1);
    }
  }

  /** When the first `m` attempts all meet stored pairs, their slots are among the positions of pairs. */
  lemma {:induction false} LandedOccupied<V>(s: seq<Slot<V>>, p: Prober, key: string, m: int)
    requires Walkable(s, p) && 0 <= m <= |s|
    requires forall b :: 0 <= b < m ==> At(s, p, key, b).Occupied?
    ensures Landed(p, |s|, key, m) <= Positions(s)
  {
    if m > 0 {
      assert At(s, p, key, m - 1).Occupied?;
      LandedOccupied(s, p, key, m - 1);
    }
  }

  /**
   * When every attempt of `key` meets another key, the capacity is at most
   * the number of pairs times the step: the early attempts alone land on
   * that many different full slots.
   */
  /** Enough attempts to cover the capacity: `m` steps of size `st` reach `c` while `m - 1` do not. */
  lemma {:induction false} CoveringAttempts(c: int, st: int) returns (m: int)
    requires c >= 1 && st >= 1
    ensures 1 <= m <= c && (m - 1) * st < c <= m * st
    decreases c
  {
    if c <= st {
      m := 1;
    } else {
      var n := CoveringAttempts(c - st, st);
      m := n + 1;
      assert m * st == n * st + st && (m - 1) * st == (n - 1) * st + st;
    }
  }

  /** A subset is no larger than the set around it. */
  lemma SubsetSize<T>(a: set<T>, b: set<T>)
    requires a <= b
    ensures |a| <= |b|
  {
    assert b == a + (b - a);
  }

  /** The bound in the count of pairs follows from `c <= m * st` and `m` pairs at least. */
  lemma ScaleBound(c: int, m: int, n: int, st: int)
    requires st >= 1 && c <= m * st && m <= n
    ensures c <= n * st
  {
    assert m * st <= n * st;
  }

  /**
   * When every attempt of `key` meets another key, the capacity is at most
   * the number of pairs times the step: the early attempts alone land on
   * that many different full slots.
   */
  lemma ExhaustedBound<V>(s: seq<Slot<V>>, p: Prober, key: string)
    requires Walkable(s, p) && InsertAttempt(s, p, key, 0) == |s|
    ensures |s| <= |Entries(s)| * Step(p, |s|, key)
  {
    var st := Step(p, |s|, key);
    var m := CoveringAttempts(|s|, st);
    LandedCount(p, |s|, key, m);
    assert forall b :: 0 <= b < m ==> At(s, p, key, b).Occupied?;
    LandedOccupied(s, p, key, m);
    SubsetSize(Landed(p, |s|, key, m), Positions(s));
    ScaleBound(|s|, m, |Entries(s)|, st);
  }

  // ---------------------------------------------------------------------
  // Without duplicates, the table answers the last stored pair
  // ---------------------------------------------------------------------

  /** The value of the last pair for `k`, or nothing when no pair has key `k`. */
  function LastValue<V>(entries: seq<Entry<V>>, k: string): Option<Option<V>>
  {
    if |entries| == 0 then None
    else if entries[|entries| - 1].0 == k then Some(entries[|entries| - 1].1)
    else LastValue(entries[..|entries| - 1], k)
  }

  /** The last value is nothing exactly when no pair has key `k`, and otherwise one of the pairs for `k`. */
  lemma {:induction false} LastValueMeaning<V>(entries: seq<Entry<V>>, k: string)
    ensures LastValue(entries, k).None? <==> forall e :: 0 <= e < |entries| ==> entries[e].0 != k
    ensures LastValue(entries, k).Some? ==> (k, LastValue(entries, k).value) in entries
  {
    if |entries| > 0 && entries[|entries| - 1].0 != k {
      var front := entries[..|entries| - 1];
      LastValueMeaning(front, k);
      assert forall e :: 0 <= e < |front| ==> front[e] == entries[e];
    }
  }

  /** One more pair at the end answers for its own key and leaves the others alone. */
  lemma LastValueAppend<V>(entries: seq<Entry<V>>, pair: Entry<V>, k: string)
    ensures LastValue(entries + [pair], k) == if pair.0 == k then Some(pair.1) else LastValue(entries, k)
  {
    assert (entries + [pair])[..|entries|] == entries;
  }

  /** A pair for another key at the end leaves the answer for `k` alone. */
  lemma LastValueOther<V>(entries: seq<Entry<V>>, extra: seq<Entry<V>>, k: string)
    requires |extra| <= 1 && forall e :: 0 <= e < |extra| ==> extra[e].0 != k
    ensures LastValue(entries + extra, k) == LastValue(entries, k)
  {
    if |extra| == 1 {
      assert (entries + extra)[..|entries|] == entries;
    } else {
      assert entries + extra == entries;
    }
  }

  /** The single slot holding `k` supplies the last pair for `k`. */
  lemma {:induction false} EntriesHold<V>(s: seq<Slot<V>>, k: string, i: int)
    requires KeysDistinct(s) && 0 <= i < |s| && s[i].Occupied? && s[i].key == k
    ensures LastValue(Entries(s), k) == Some(s[i].value)
  {
    var n := |s| - 1;
    var front := s[..n];
    if i < n {
      assert !(s[n].Occupied? && s[n].key == k);
      assert front[i] == s[i];
      EntriesHold(front, k, i);
      LastValueOther(Entries(front), Entries(s)[|Entries(front)|..], k);
      assert Entries(front) + Entries(s)[|Entries(front)|..] == Entries(s);
    }
  }

  /** No slot holds `k`: no pair has key `k`. */
  lemma {:induction false} EntriesLack<V>(s: seq<Slot<V>>, k: string)
    requires forall j :: 0 <= j < |s| ==> !(s[j].Occupied? && s[j].key == k)
    ensures LastValue(Entries(s), k) == None
  {
    if |s| > 0 {
      var n := |s| - 1;
      var front := s[..n];
      assert forall j :: 0 <= j < |front| ==> front[j] == s[j];
      EntriesLack(front, k);
      LastValueOther(Entries(front), Entries(s)[|Entries(front)|..], k);
      assert Entries(front) + Entries(s)[|Entries(front)|..] == Entries(s);
    }
  }

  /** The walk that meets the only slot holding `key` finds that slot. */
  lemma {:induction false} FindVisited<V>(s: seq<Slot<V>>, p: Prober, key: string, i: int, a: int)
    requires Walkable(s, p) && KeysDistinct(s) && 0 <= a <= |s|
    requires 0 <= i < |s| && s[i].Occupied? && s[i].key == key && Visits(s, p, key, i, a)
    ensures FindAttempt(s, p, key, a).Some? && Index(p, |s|, key, FindAttempt(s, p, key, a).value) == i
    decreases |s| - a
  {
    if Index(p, |s|, key, a) != i {
      var q := Index(p, |s|, key, a);
      assert !(s[q].Occupied? && s[q].key == key);
      FindVisited(s, p, key, i, a + 1);
    }
  }

  /**
   * With every pair reachable and no key stored twice, the table answers
   * for each key the value of its last pair in slot order, the value that
   * re-inserting the pairs in that order leaves behind.
   */
  lemma LookupIsLast<V>(s: seq<Slot<V>>, p: Prober, k: string)
    requires Walkable(s, p) && Reach(s, p) && KeysDistinct(s)
    ensures Lookup(s, p, k) == LastValue(Entries(s), k)
  {
    if i :| 0 <= i < |s| && s[i].Occupied? && s[i].key == k {
      FindVisited(s, p, k, i, 0);
      EntriesHold(s, k, i);
    } else {
      FindAbsent(s, p, k, 0);
      EntriesLack(s, k);
    }
  }

  // ---------------------------------------------------------------------
  // Tables built by insertion alone
  // ---------------------------------------------------------------------

  /** No tombstones and no key stored twice: what an expansion leaves behind. */
  ghost predicate Clean<V>(s: seq<Slot<V>>)
  {
    && (forall i :: 0 <= i < |s| ==> s[i] != Deleted)
    && KeysDistinct(s)
  }

  /** Fresh storage of `n` empty slots. */
  function EmptySlots<V>(n: nat): (r: seq<Slot<V>>)
    ensures |r| == n && forall i :: 0 <= i < n ==> r[i] == Empty
  {
    seq(n, _ => Empty)
  }

  /** Fresh storage is clean, every pair in it reachable, and it holds no pairs. */
  lemma {:induction false} EmptySlotsFacts<V>(n: nat, p: Prober)
    requires n >= 1 && Works(p, n)
    ensures Clean(EmptySlots<V>(n)) && Reach(EmptySlots<V>(n), p) && Entries(EmptySlots<V>(n)) == []
    ensures forall k :: Lookup(EmptySlots<V>(n), p, k) == None
    decreases n
  {
    var s := EmptySlots<V>(n);
    var occupied := Positions(s);
    assert forall j :: j !in occupied;
    assert occupied == {};
    forall k
      ensures Lookup(s, p, k) == None
    {
      EmptyTable(s, p, k);
    }
  }

  /** Without tombstones, the walk of a stored key stops at a slot holding that key. */
  lemma {:induction false} WalkMeetsHolder<V>(s: seq<Slot<V>>, p: Prober, key: string, j: int, a: int)
    requires Walkable(s, p) && 0 <= a <= |s| && forall i :: 0 <= i < |s| ==> s[i] != Deleted
    requires 0 <= j < |s| && s[j].Occupied? && s[j].key == key && Visits(s, p, key, j, a)
    ensures InsertAttempt(s, p, key, a) < |s|
    ensures At(s, p, key, InsertAttempt(s, p, key, a)).Occupied?
    decreases |s| - a
  {
    var slot := At(s, p, key, a);
    if slot.Occupied? && slot.key != key {
      WalkMeetsHolder(s, p, key, j, a + 1);
    }
  }

  /** Inserting without exhaustion into a clean table keeps it clean. */
  lemma InsertClean<V>(s: seq<Slot<V>>, p: Prober, key: string, value: Option<V>)
    requires Walkable(s, p) && Reach(s, p) && Clean(s) && InsertAttempt(s, p, key, 0) < |s|
    ensures Clean(s[InsertIndex(s, p, key) := Occupied(key, value)])
  {
    var w := InsertIndex(s, p, key);
    var t := s[w := Occupied(key, value)];
    if !s[w].Occupied? {
      forall j | 0 <= j < |s| && s[j].Occupied?
        ensures s[j].key != key
      {
        if s[j].key == key {
          WalkMeetsHolder(s, p, s[j].key, j, 0);
        }
      }
    }
    assert forall j :: 0 <= j < |t| && j != w ==> t[j] == s[j];
  }

  /**
   * The write of one insertion, at the attempt that stops the walk: the
   * pair is reachable and answers for `key`, other keys answer as before,
   * the number of pairs grows unless `key` was there, and a clean table
   * stays clean.
   */
  lemma InsertAt<V>(s: seq<Slot<V>>, p: Prober, key: string, value: Option<V>, attempt: int)
    requires Walkable(s, p) && Reach(s, p) && 0 <= attempt < |s|
    requires InsertAttempt(s, p, key, attempt) == InsertAttempt(s, p, key, 0)
    requires !At(s, p, key, attempt).Occupied? || At(s, p, key, attempt).key == key
    ensures InsertAttempt(s, p, key, 0) == attempt && InsertIndex(s, p, key) == Index(p, |s|, key, attempt)
    ensures Reach(s[Index(p, |s|, key, attempt) := Occupied(key, value)], p)
    ensures Lookup(s[Index(p, |s|, key, attempt) := Occupied(key, value)], p, key) == Some(value)
    ensures forall k :: k != key ==> Lookup(s[Index(p, |s|, key, attempt) := Occupied(key, value)], p, k) == Lookup(s, p, k)
    ensures |Entries(s[Index(p, |s|, key, attempt) := Occupied(key, value)])|
         == |Entries(s)| + if At(s, p, key, attempt).Occupied? then 0 else 1
    ensures Clean(s) ==> Clean(s[Index(p, |s|, key, attempt) := Occupied(key, value)])
  {
    var w := Index(p, |s|, key, attempt);
    assert InsertAttempt(s, p, key, attempt) == attempt;
    assert InsertIndex(s, p, key) == w;
    InsertLookups(s, p, key, value);
    FindWritten(s, p, key, value, 0);
    EntriesUpdate(s, w, Occupied(key, value));
    if Clean(s) {
      InsertClean(s, p, key, value);
    }
  }

  // ---------------------------------------------------------------------
  // Insertion that looks past tombstones first
  // ---------------------------------------------------------------------

  /** With every pair reachable, a key held by some slot is found by its walk. */
  lemma {:induction false} FoundIfHeld<V>(s: seq<Slot<V>>, p: Prober, key: string, j: int, a: int)
    requires Walkable(s, p) && 0 <= a <= |s|
    requires 0 <= j < |s| && s[j].Occupied? && s[j].key == key && Visits(s, p, key, j, a)
    ensures FindAttempt(s, p, key, a).Some?
    decreases |s| - a
  {
    var slot := At(s, p, key, a);
    if !(slot.Occupied? && slot.key == key) {
      FoundIfHeld(s, p, key, j, a + 1);
    }
  }

  /**
   * The slot an insertion should write: the one its walk finds holding
   * `key`, and only when the walk finds none, the first free slot.
   */
  function CorrectedIndex<V>(s: seq<Slot<V>>, p: Prober, key: string): (r: int)
    requires Walkable(s, p)
    requires FindAttempt(s, p, key, 0).None? ==> InsertAttempt(s, p, key, 0) < |s|
    ensures 0 <= r < |s|
  {
    var found := FindAttempt(s, p, key, 0);
    if found.Some? then Index(p, |s|, key, found.value) else InsertIndex(s, p, key)
  }

  /**
   * Writing where the corrected insertion does keeps every pair reachable,
   * answers `value` for `key` and as before for other keys, and never
   * stores a key twice: the invariant the tombstone reuse breaks.
   */
  lemma CorrectedInsert<V>(s: seq<Slot<V>>, p: Prober, key: string, value: Option<V>)
    requires Walkable(s, p) && Reach(s, p) && KeysDistinct(s)
    requires FindAttempt(s, p, key, 0).None? ==> InsertAttempt(s, p, key, 0) < |s|
    ensures KeysDistinct(s[CorrectedIndex(s, p, key) := Occupied(key, value)])
    ensures Reach(s[CorrectedIndex(s, p, key) := Occupied(key, value)], p)
    ensures Lookup(s[CorrectedIndex(s, p, key) := Occupied(key, value)], p, key) == Some(value)
    ensures forall k :: k != key ==> Lookup(s[CorrectedIndex(s, p, key) := Occupied(key, value)], p, k) == Lookup(s, p, k)
  {
    var w := CorrectedIndex(s, p, key);
    var t := s[w := Occupied(key, value)];
    var found := FindAttempt(s, p, key, 0);
    if found.Some? {
      assert s[w].Occupied? && s[w].key == key;
      assert forall j :: 0 <= j < |s| ==> t[j].Occupied? == s[j].Occupied? && (t[j].Occupied? ==> t[j].key == s[j].key);
      forall j | 0 <= j < |t| && t[j].Occupied?
        ensures Visits(t, p, t[j].key, j, 0)
      {
        VisitsMonotone(s, t, p, t[j].key, j, 0);
      }
      forall k
        ensures FindAttempt(t, p, k, 0) == FindAttempt(s, p, k, 0)
      {
        FindSame(s, t, p, k, 0);
      }
    } else {
      forall j | 0 <= j < |s| && s[j].Occupied?
        ensures s[j].key != key
      {
        if s[j].key == key {
          FoundIfHeld(s, p, key, j, 0);
        }
      }
      InsertLookups(s, p, key, value);
      FindWritten(s, p, key, value, 0);
    }
  }
}
