// The test-data generators of lab04 (`generate_data.py` and the copies in
// the two benchmark scripts), the data-collection builder, its integrity
// check, and the regrouping of flat benchmark records into nested maps.
//
// `random.randint(lo, hi)` and `random.randrange(lo, hi)` are modelled by a
// parameter `draw` from the number of the call and the two bounds to a
// value: the requires clauses state the ranges the library guarantees.

module TestData {
  import opened Wrappers
  import opened Ordering

  function Max(a: int, b: int): int { if a >= b then a else b }

  /** `create_ascending_integer_sequence`: `range(n)`, empty for n <= 0. */
  function CreateAscendingIntegerSequence(n: int): (r: seq<int>)
    ensures |r| == Max(n, 0)
    ensures forall i :: 0 <= i < |r| ==> r[i] == i
  {
    seq(Max(n, 0), i => i)
  }

  /** `create_descending_integer_sequence`: `range(n, 0, -1)`, empty for n <= 0. */
  function CreateDescendingIntegerSequence(n: int): (r: seq<int>)
    ensures |r| == Max(n, 0)
    ensures forall i :: 0 <= i < |r| ==> r[i] == n - i
  {
    seq(Max(n, 0), i => n - i)
  }

  /** The ascending data is sorted without repeats; the descending data is its mirror image shifted by one. */
  lemma AscendingDescending(n: int)
    ensures StrictlySorted(CreateAscendingIntegerSequence(n))
    ensures forall i :: 0 <= i < Max(n, 0) ==>
      CreateDescendingIntegerSequence(n)[i] == CreateAscendingIntegerSequence(n)[Max(n, 0) - 1 - i] + 1
    ensures n >= 2 ==> !Sorted(CreateDescendingIntegerSequence(n))
  {
    if n >= 2 {
      assert CreateDescendingIntegerSequence(n)[0] > CreateDescendingIntegerSequence(n)[1];
    }
  }

  /** What `random.randint(lo, hi)` guarantees: a value in [lo, hi]. */
  ghost predicate IsRandint(draw: (int, int, int) -> int)
  {
    forall k, lo, hi :: lo <= hi ==> lo <= draw(k, lo, hi) <= hi
  }

  /** What `random.randrange(lo, hi)` guarantees: a value in [lo, hi). */
  ghost predicate IsRandrange(draw: (int, int, int) -> int)
  {
    forall k, lo, hi :: lo < hi ==> lo <= draw(k, lo, hi) < hi
  }

  /**
   * `create_random_integer_sequence`: n draws from [0, n * max_multiplier];
   * an empty range (a negative bound) raises ValueError at the first draw.
   */
  function CreateRandomIntegerSequence(n: int, maxMultiplier: int, draw: (int, int, int) -> int): (r: Result<seq<int>>)
    requires IsRandint(draw)
    ensures r.Err? <==> n > 0 && n * maxMultiplier < 0
    ensures r.Err? ==> r.error == ValueError
    ensures r.Ok? ==> |r.value| == Max(n, 0)
    ensures r.Ok? ==> forall i :: 0 <= i < |r.value| ==> 0 <= r.value[i] <= n * maxMultiplier
  {
    var upper := n * maxMultiplier;
    if n > 0 && upper < 0 then Err(ValueError)
    else Ok(seq(Max(n, 0), i => draw(i, 0, upper)))
  }

  /**
   * The swap count of `create_nearly_sorted_sequence`: `max(1, swap_count)`
   * when a count is given, else `max(1, int(n * percentage / 100))` with
   * `int` truncating toward zero.
   */
  function SwapsRequired(n: int, swapPercentage: int, swapCount: Option<int>): (r: int)
    ensures r >= 1
    ensures swapCount.Some? ==> r == Max(1, swapCount.value)
    ensures swapCount.None? && n >= 0 && swapPercentage >= 0 ==> r == Max(1, n * swapPercentage / 100)
  {
    match swapCount
    case Some(c) => Max(1, c)
    case None =>
      var product := n * swapPercentage;
      Max(1, if product >= 0 then product / 100 else -((-product) / 100))
  }

  /** The swap count of `generate_almost_sorted_array`: `max(1, size * swap_percent // 100)`, flooring. */
  function AlmostSortedSwaps(size: int, swapPercent: int): (r: int)
    ensures r >= 1
    ensures size * swapPercent >= 100 ==> r * 100 <= size * swapPercent < r * 100 + 100
  {
    Max(1, size * swapPercent / 100)
  }

  /**
   * The swap loop shared by the nearly-sorted generators: start from
   * `range(n)` and exchange two drawn positions `swaps` times. With no
   * position to draw (n <= 0) the first draw raises ValueError.
   */
  method SwapRandomPairs(n: int, swaps: int, draw: (int, int, int) -> int) returns (r: Result<seq<int>>)
    requires IsRandrange(draw)
    ensures r.Err? <==> n <= 0 && swaps >= 1
    ensures r.Err? ==> r.error == ValueError
    ensures r.Ok? ==> |r.value| == Max(n, 0)
    ensures r.Ok? ==> multiset(r.value) == multiset(CreateAscendingIntegerSequence(n))
  {
    var sequence := CreateAscendingIntegerSequence(n);
    var k := 0;
    while k < swaps
      invariant 0 <= k <= Max(swaps, 0)
      invariant k > 0 ==> n > 0
      invariant |sequence| == Max(n, 0)
      invariant multiset(sequence) == multiset(CreateAscendingIntegerSequence(n))
    {
      if n <= 0 {
        return Err(ValueError);
      }
      var positionA := draw(2 * k, 0, n);
      var positionB := draw(2 * k + 1, 0, n);
      sequence := sequence[positionA := sequence[positionB]][positionB := sequence[positionA]];
      k := k + 1;
    }
    return Ok(sequence);
  }

  /**
   * `create_nearly_sorted_sequence`: at least one swap always happens, so
   * the result is a permutation of `range(n)` and n <= 0 raises ValueError.
   */
  method CreateNearlySortedSequence(n: int, swapPercentage: int, swapCount: Option<int>, draw: (int, int, int) -> int)
    returns (r: Result<seq<int>>)
    requires IsRandrange(draw)
    ensures r.Err? <==> n <= 0
    ensures r.Ok? ==> |r.value| == n && multiset(r.value) == multiset(CreateAscendingIntegerSequence(n))
  {
    r := SwapRandomPairs(n, SwapsRequired(n, swapPercentage, swapCount), draw);
  }

  /**
   * `generate_almost_sorted_array`: the same swaps with `randint(0, size - 1)`
   * positions, which draw from the same range as `randrange(0, size)`.
   */
  method GenerateAlmostSortedArray(size: int, swapPercent: int, draw: (int, int, int) -> int)
    returns (r: Result<seq<int>>)
    requires IsRandrange(draw)
    ensures r.Err? <==> size <= 0
    ensures r.Ok? ==> |r.value| == size && multiset(r.value) == multiset(CreateAscendingIntegerSequence(size))
  {
    r := SwapRandomPairs(size, AlmostSortedSwaps(size, swapPercent), draw);
  }

  // ---------------------------------------------------------------------
  // Data collections
  // ---------------------------------------------------------------------

  type Collection = map<string, map<int, seq<int>>>

  /** The kinds of data `sequence_generators` knows. */
  predicate HasGenerator(t: string)
  {
    t == "random" || t == "sorted" || t == "reversed" || t == "almost_sorted"
  }

  /** What `verify_data_collection_integrity` accepts: every sequence is as long as its size key. */
  ghost predicate Intact(c: Collection)
  {
    forall t, n :: t in c && n in c[t] ==> |c[t][n]| == n
  }

  /** The data one generator produces for one size. */
  method Generate(t: string, n: int, draw: (int, int, int) -> int) returns (r: Result<seq<int>>)
    requires HasGenerator(t)
    requires IsRandint(draw) && IsRandrange(draw)
    ensures r.Err? <==> t == "almost_sorted" && n <= 0
    ensures r.Ok? ==> |r.value| == Max(n, 0)
    ensures r.Ok? && t == "sorted" ==> r.value == CreateAscendingIntegerSequence(n)
    ensures r.Ok? && t == "reversed" ==> r.value == CreateDescendingIntegerSequence(n)
    ensures r.Ok? && t == "almost_sorted" ==> multiset(r.value) == multiset(CreateAscendingIntegerSequence(n))
  {
    if t == "random" {
      r := CreateRandomIntegerSequence(n, 10, draw);
    } else if t == "sorted" {
      r := Ok(CreateAscendingIntegerSequence(n));
    } else if t == "reversed" {
      r := Ok(CreateDescendingIntegerSequence(n));
    } else {
      r := CreateNearlySortedSequence(n, 5, None, draw);
    }
  }

  /** The inner loop of `construct_data_collection`: one kind of data for every size. */
  method GenerateAllSizes(dataType: string, sizes: seq<int>, draw: (int, int, int) -> int)
    returns (r: Result<map<int, seq<int>>>)
    requires HasGenerator(dataType)
    requires IsRandint(draw) && IsRandrange(draw)
    ensures r.Err? <==> dataType == "almost_sorted" && exists k :: 0 <= k < |sizes| && sizes[k] <= 0
    ensures r.Ok? ==> r.value.Keys == set n | n in sizes
    ensures r.Ok? ==> forall n :: n in r.value ==> |r.value[n]| == Max(n, 0)
  {
    var inner: map<int, seq<int>> := map[];
    var j := 0;
    while j < |sizes|
      invariant 0 <= j <= |sizes|
      invariant dataType == "almost_sorted" ==> forall k :: 0 <= k < j ==> sizes[k] > 0
      invariant inner.Keys == set n | n in sizes[..j]
      invariant forall n :: n in inner ==> |inner[n]| == Max(n, 0)
    {
      var generated := Generate(dataType, sizes[j], draw);
      if generated.Err? {
        return Err(generated.error);
      }
      inner := inner[sizes[j] := generated.value];
      assert sizes[..j + 1] == sizes[..j] + [sizes[j]];
      j := j + 1;
    }
    assert sizes[..j] == sizes;
    return Ok(inner);
  }

  /**
   * `construct_data_collection`: the default sizes are 100, 1000, 5000 and
   * 10000 and the default kinds all four. The result has exactly the
   * requested kinds that have a generator, each mapping every requested
   * size to generated data; a non-positive size for "almost_sorted" raises
   * ValueError.
   */
  method ConstructDataCollection(sequenceSizes: Option<seq<int>>, includeTypes: Option<seq<string>>,
                                 draw: (int, int, int) -> int)
    returns (r: Result<Collection>)
    requires IsRandint(draw) && IsRandrange(draw)
    ensures var sizes := if sequenceSizes.Some? then sequenceSizes.value else [100, 1000, 5000, 10000];
            var types := if includeTypes.Some? then includeTypes.value else ["random", "sorted", "reversed", "almost_sorted"];
            && (r.Err? <==> "almost_sorted" in types && exists k :: 0 <= k < |sizes| && sizes[k] <= 0)
            && (r.Ok? ==> r.value.Keys == set t | t in types && HasGenerator(t))
            && (r.Ok? ==> forall t :: t in r.value ==> r.value[t].Keys == set n | n in sizes)
            && (r.Ok? ==> forall t, n :: t in r.value && n in r.value[t] ==> |r.value[t][n]| == Max(n, 0))
            && (r.Ok? ==> (Intact(r.value) <==> r.value == map[] || forall k :: 0 <= k < |sizes| ==> sizes[k] >= 0))
  {
    var sizes := if sequenceSizes.Some? then sequenceSizes.value else [100, 1000, 5000, 10000];
    var types := if includeTypes.Some? then includeTypes.value else ["random", "sorted", "reversed", "almost_sorted"];
    var data: Collection := map[];
    var i := 0;
    while i < |types|
      invariant 0 <= i <= |types|
      invariant "almost_sorted" in types[..i] ==> forall k :: 0 <= k < |sizes| ==> sizes[k] > 0
      invariant data.Keys == set t | t in types[..i] && HasGenerator(t)
      invariant forall t :: t in data ==> data[t].Keys == set n | n in sizes
      invariant forall t, n :: t in data && n in data[t] ==> |data[t][n]| == Max(n, 0)
    {
      var dataType := types[i];
      if HasGenerator(dataType) {
        var inner := GenerateAllSizes(dataType, sizes, draw);
        if inner.Err? {
          return Err(inner.error);
        }
        data := data[dataType := inner.value];
      }
      assert types[..i + 1] == types[..i] + [dataType];
      i := i + 1;
    }
    assert types[..i] == types;
    r := Ok(data);
    IntactWhenSizesNatural(data, sizes);
  }

  /** A collection of correctly sized data is intact exactly when no size is negative (or it is empty). */
  lemma IntactWhenSizesNatural(c: Collection, sizes: seq<int>)
    requires forall t :: t in c ==> c[t].Keys == set n | n in sizes
    requires forall t, n :: t in c && n in c[t] ==> |c[t][n]| == Max(n, 0)
    ensures Intact(c) <==> c == map[] || forall k :: 0 <= k < |sizes| ==> sizes[k] >= 0
  {
    if forall k :: 0 <= k < |sizes| ==> sizes[k] >= 0 {
      forall t, n | t in c && n in c[t] ensures |c[t][n]| == n {
        assert n in set m | m in sizes;
        assert n in sizes;
        var k :| 0 <= k < |sizes| && sizes[k] == n;
        assert n >= 0;
        assert |c[t][n]| == Max(n, 0);
      }
    }
    if c != map[] && !(forall k :: 0 <= k < |sizes| ==> sizes[k] >= 0) {
      var t :| t in c;
      var k :| 0 <= k < |sizes| && sizes[k] < 0;
      assert sizes[k] in c[t];
      assert |c[t][sizes[k]]| != sizes[k];
    }
  }

  lemma HasElement(s: set<int>)
    requires s != {}
    ensures exists x :: x in s
  {
    if forall x :: x !in s {
      assert false;
    }
  }

  /** The inner loop of `verify_data_collection_integrity`, over the sizes of one kind. */
  method SizesMatch(m: map<int, seq<int>>) returns (ok: bool)
    ensures ok <==> forall n :: n in m ==> |m[n]| == n
  {
    var sizes := m.Keys;
    while sizes != {}
      invariant sizes <= m.Keys
      invariant forall n :: n in m && n !in sizes ==> |m[n]| == n
      decreases sizes
    {
      HasElement(sizes);
      var n :| n in sizes;
      if |m[n]| != n {
        return false;
      }
      sizes := sizes - {n};
    }
    return true;
  }

  /**
   * `verify_data_collection_integrity`: False at the first sequence whose
   * length differs from its size key, True otherwise. (The elements are
   * ints by construction here.)
   */
  method VerifyDataCollectionIntegrity(c: Collection) returns (ok: bool)
    ensures ok <==> Intact(c)
  {
    var types := c.Keys;
    while types != {}
      invariant types <= c.Keys
      invariant forall t, n :: t in c && t !in types && n in c[t] ==> |c[t][n]| == n
      decreases types
    {
      var t :| t in types;
      var intact := SizesMatch(c[t]);
      if !intact {
        return false;
      }
      types := types - {t};
    }
    return true;
  }

  // ---------------------------------------------------------------------
  // Regrouping benchmark records
  // ---------------------------------------------------------------------

  /** One benchmark record; the time is carried along, never computed with. */
  datatype Measurement = Measurement(algorithm: string, dataType: string, size: int, timeMs: real)

  type Nested = map<string, map<string, map<int, real>>>

  predicate Recorded(nested: Nested, a: string, d: string, n: int)
  {
    a in nested && d in nested[a] && n in nested[a][d]
  }

  predicate Matches(m: Measurement, a: string, d: string, n: int)
  {
    m.algorithm == a && m.dataType == d && m.size == n
  }

  /** Record i is the last one in `results` for its triple. */
  predicate IsLast(results: seq<Measurement>, i: int)
    requires 0 <= i < |results|
  {
    forall j :: i < j < |results| ==> !Matches(results[j], results[i].algorithm, results[i].dataType, results[i].size)
  }

  /** The maps after `nested[algo][data_type][size] = time_ms`, creating the inner maps when missing. */
  function Store(nested: Nested, m: Measurement): Nested
  {
    var byType := if m.algorithm in nested then nested[m.algorithm] else map[];
    var bySize := if m.dataType in byType then byType[m.dataType] else map[];
    nested[m.algorithm := byType[m.dataType := bySize[m.size := m.timeMs]]]
  }

  /** Storing a record adds its triple with its time and leaves every other triple as it was. */
  lemma StoreEffect(nested: Nested, m: Measurement)
    ensures forall a, d, n :: Recorded(Store(nested, m), a, d, n) <==> Recorded(nested, a, d, n) || Matches(m, a, d, n)
    ensures Store(nested, m)[m.algorithm][m.dataType][m.size] == m.timeMs
    ensures forall a, d, n :: Recorded(nested, a, d, n) && !Matches(m, a, d, n) ==>
      Store(nested, m)[a][d][n] == nested[a][d][n]
  {
  }

  /** The nested maps hold exactly the triples of the first `k` records. */
  ghost predicate RecordsExactly(nested: Nested, results: seq<Measurement>, k: int)
    requires 0 <= k <= |results|
  {
    forall a, d, n :: Recorded(nested, a, d, n) <==> exists i :: 0 <= i < k && Matches(results[i], a, d, n)
  }

  /** Each triple among the first `k` records holds the time of the last of them that has it. */
  ghost predicate LastTimes(nested: Nested, results: seq<Measurement>, k: int)
    requires 0 <= k <= |results|
  {
    forall i :: 0 <= i < k && IsLast(results[..k], i) ==>
      Recorded(nested, results[i].algorithm, results[i].dataType, results[i].size)
      && nested[results[i].algorithm][results[i].dataType][results[i].size] == results[i].timeMs
  }

  /**
   * `convert_to_nested_format`: `nested[algorithm][data_type][size]` holds a
   * time for exactly the triples that occur, and it is the time of the
   * last record with that triple.
   */
  method ConvertToNestedFormat(results: seq<Measurement>) returns (nested: Nested)
    ensures forall a, d, n :: Recorded(nested, a, d, n) <==> exists i :: 0 <= i < |results| && Matches(results[i], a, d, n)
    ensures forall i :: 0 <= i < |results| && IsLast(results, i) ==>
      Recorded(nested, results[i].algorithm, results[i].dataType, results[i].size)
      && nested[results[i].algorithm][results[i].dataType][results[i].size] == results[i].timeMs
  {
    nested := map[];
    var k := 0;
    while k < |results|
      invariant 0 <= k <= |results|
      invariant RecordsExactly(nested, results, k) && LastTimes(nested, results, k)
    {
      ghost var before := nested;
      nested := StoreResult(nested, results[k]);
      StoreEffect(before, results[k]);
      RecordsStep(results, k, before, nested);
      LastTimesStep(results, k, before, nested);
      k := k + 1;
    }
    assert results[..k] == results;
  }

  /** The body of the loop: the inner maps created when missing, then the time stored. */
  method StoreResult(nested: Nested, result: Measurement) returns (updated: Nested)
    ensures updated == Store(nested, result)
  {
    var algo, dataType, size := result.algorithm, result.dataType, result.size;
    ghost var byType := if algo in nested then nested[algo] else map[];
    ghost var bySize := if dataType in byType then byType[dataType] else map[];
    updated := nested;
    if algo !in updated {
      updated := updated[algo := map[]];
    } else {
      assert nested == nested[algo := byType];
    }
    assert updated == nested[algo := byType];
    if dataType !in updated[algo] {
      updated := updated[algo := updated[algo][dataType := map[]]];
    } else {
      assert byType == byType[dataType := bySize];
    }
    assert updated == nested[algo := byType[dataType := bySize]];
    updated := updated[algo := updated[algo][dataType := updated[algo][dataType][size := result.timeMs]]];
    assert byType[dataType := bySize][dataType := bySize[size := result.timeMs]]
      == byType[dataType := bySize[size := result.timeMs]];
  }

  /** One more record adds its triple to the recorded ones. */
  lemma RecordsStep(results: seq<Measurement>, k: int, before: Nested, after: Nested)
    requires 0 <= k < |results|
    requires forall a, d, n :: Recorded(after, a, d, n) <==> Recorded(before, a, d, n) || Matches(results[k], a, d, n)
    requires RecordsExactly(before, results, k)
    ensures RecordsExactly(after, results, k + 1)
  {
    forall a, d, n
      ensures Recorded(after, a, d, n) <==> exists i :: 0 <= i < k + 1 && Matches(results[i], a, d, n)
    {
      if Matches(results[k], a, d, n) {
        assert Recorded(after, a, d, n);
      }
    }
  }

  /** One more record stores its time and keeps the times of the other triples. */
  lemma LastTimesStep(results: seq<Measurement>, k: int, before: Nested, after: Nested)
    requires 0 <= k < |results|
    requires after == Store(before, results[k])
    requires LastTimes(before, results, k)
    ensures LastTimes(after, results, k + 1)
  {
    StoreEffect(before, results[k]);
    forall i | 0 <= i < k + 1 && IsLast(results[..k + 1], i)
      ensures Recorded(after, results[i].algorithm, results[i].dataType, results[i].size)
      ensures after[results[i].algorithm][results[i].dataType][results[i].size] == results[i].timeMs
    {
      if i < k {
        assert !Matches(results[..k + 1][k], results[i].algorithm, results[i].dataType, results[i].size);
        assert IsLast(results[..k], i);
      }
    }
  }
}
