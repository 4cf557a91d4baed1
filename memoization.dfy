// The memoising decorator and the call-counting Fibonacci of lab03.

module Memoization {
  import opened Wrappers
  import opened Recursion

  /**
   * `cache_results` applied to a function of one argument tuple: `stored`
   * is the closure's dictionary and `target` the decorated function, whose
   * raising is an `Err` result.
   */
  class CachedFunction<A(==), R> {
    const target: A -> Result<R>
    var stored: map<A, R>

    constructor (f: A -> Result<R>)
      ensures target == f && stored == map[]
    {
      target := f;
      stored := map[];
    }

    /** Every stored result is what the target returns for that argument. */
    ghost predicate Valid()
      reads this
    {
      forall args :: args in stored ==> target(args) == Ok(stored[args])
    }

    /**
     * `cached_function`: a seen argument returns its stored result and
     * changes nothing; otherwise the target is called and a normal result
     * is stored, while a raised error propagates and leaves the cache as it was.
     */
    method Call(args: A) returns (r: Result<R>)
      requires Valid()
      modifies this
      ensures Valid()
      ensures r == target(args)
      ensures args in old(stored) ==> stored == old(stored)
      ensures args !in old(stored) && r.Ok? ==> stored == old(stored)[args := r.value]
      ensures r.Err? ==> stored == old(stored)
    {
      if args in stored {
        return Ok(stored[args]);
      }
      r := target(args);
      if r.Ok? {
        stored := stored[args := r.value];
      }
    }
  }

  /** The dictionary behind the decorated `compute_fibonacci_cached`. */
  class FibonacciCache {
    var stored: map<int, int>

    constructor ()
      ensures stored == map[]
    {
      stored := map[];
    }

    /** Every stored position is a Fibonacci index holding its number. */
    ghost predicate Valid()
      reads this
    {
      && (forall p :: p in stored ==> p >= 0)
      && (forall p :: p in stored ==> stored[p] == Fib(p))
    }

    /**
     * `compute_fibonacci_cached`, the recursive calls going through the
     * cache: ValueError for a negative position (nothing is stored), F(p)
     * otherwise. A stored position changes nothing; a new one is stored
     * together with at most the smaller positions the recursion visits.
     */
    method ComputeFibonacciCached(position: int) returns (r: Result<int>)
      requires Valid()
      modifies this
      ensures Valid()
      ensures position < 0 ==> r == Err(ValueError) && stored == old(stored)
      ensures position >= 0 ==> r == Ok(Fib(position)) && position in stored
      ensures position in old(stored) ==> stored == old(stored)
      ensures old(stored).Keys <= stored.Keys
      ensures forall p :: p in stored && p !in old(stored) ==> 0 <= p <= position
      decreases if position >= 0 then position else 0
    {
      if position in stored {
        return Ok(stored[position]);
      }
      if position < 0 {
        return Err(ValueError);
      }
      var value: int;
      if position == 0 {
        value := 0;
      } else if position == 1 {
        value := 1;
      } else {
        var previous1 := ComputeFibonacciCached(position - 1);
        var previous2 := ComputeFibonacciCached(position - 2);
        value := previous1.value + previous2.value;
      }
      stored := stored[position := value];
      r := Ok(value);
    }
  }

  /** The number of calls the plain double recursion makes for a position. */
  function Calls(position: int): nat
    decreases if position >= 0 then position else 0
  {
    if position < 2 then 1 else 1 + Calls(position - 1) + Calls(position - 2)
  }

  /** The call count in closed form: 2 F(n+1) - 1. */
  lemma {:induction false} CallsClosedForm(n: nat)
    ensures Calls(n) == 2 * Fib(n + 1) - 1
  {
    if n >= 2 {
      CallsClosedForm(n - 1);
      CallsClosedForm(n - 2);
      assert Fib(n + 1) == Fib(n) + Fib(n - 1);
    } else {
      assert Fib(2) == 1;
    }
  }

  /** `RecursionTracker`: counts every call of the tracked Fibonacci. */
  class RecursionTracker {
    var invocationCount: nat

    constructor ()
      ensures invocationCount == 0
    {
      invocationCount := 0;
    }

    /**
     * `compute_fibonacci_tracked`: the counter goes up on entry, before the
     * ValueError check, and once for every recursive call.
     */
    method ComputeFibonacciTracked(position: int) returns (r: Result<int>)
      modifies this
      ensures position < 0 ==> r == Err(ValueError)
      ensures position >= 0 ==> r == Ok(Fib(position))
      ensures invocationCount == old(invocationCount) + Calls(position)
      decreases if position >= 0 then position else 0
    {
      invocationCount := invocationCount + 1;
      if position < 0 {
        return Err(ValueError);
      }
      if position == 0 {
        return Ok(0);
      }
      if position == 1 {
        return Ok(1);
      }
      var previous1 := ComputeFibonacciTracked(position - 1);
      var previous2 := ComputeFibonacciTracked(position - 2);
      r := Ok(previous1.value + previous2.value);
    }

    /** `reset_tracker`. */
    method ResetTracker()
      modifies this
      ensures invocationCount == 0
    {
      invocationCount := 0;
    }
  }

  /**
   * The comparison in `evaluate_performance_difference`: after a reset the
   * tracked and cached results agree and the counter holds 2 F(n+1) - 1.
   */
  method CompareImplementations(position: nat, cache: FibonacciCache) returns (basic: Result<int>, cached: Result<int>, invocations: nat)
    requires cache.Valid()
    modifies cache
    ensures basic == cached == Ok(Fib(position))
    ensures invocations == 2 * Fib(position + 1) - 1
  {
    var tracker := new RecursionTracker();
    tracker.ResetTracker();
    basic := tracker.ComputeFibonacciTracked(position);
    invocations := tracker.invocationCount;
    cached := cache.ComputeFibonacciCached(position);
    CallsClosedForm(position);
  }
}
