// Recursive factorial, Fibonacci and fast exponentiation (lab03).

module Recursion {
  import opened Wrappers

  /** A Python argument: an int, or a value of some other type. */
  datatype Arg = IntArg(n: int) | NonInt

  /** n! by its textbook definition. */
  function Fact(n: nat): nat
  {
    if n == 0 then 1 else n * Fact(n - 1)
  }

  /** The Fibonacci numbers: F(0) = 0, F(1) = 1, F(n) = F(n-1) + F(n-2). */
  function Fib(n: nat): nat
  {
    if n < 2 then n else Fib(n - 1) + Fib(n - 2)
  }

  /** b^e by repeated multiplication. */
  function Pow(b: int, e: nat): int
  {
    if e == 0 then 1 else b * Pow(b, e - 1)
  }

  /**
   * `compute_factorial`: AssertionError for a non-int, ValueError for a
   * negative value; 0 and 1 give 1, otherwise value * (value - 1)!.
   */
  function ComputeFactorial(value: Arg): (r: Result<int>)
    ensures value.NonInt? ==> r == Err(AssertionError)
    ensures value.IntArg? && value.n < 0 ==> r == Err(ValueError)
    ensures value.IntArg? && value.n >= 0 ==> r.Ok? && r.value >= 1
    decreases if value.IntArg? && value.n >= 0 then value.n else 0
  {
    match value
    case NonInt => Err(AssertionError)
    case IntArg(v) =>
      if v < 0 then Err(ValueError)
      else if v == 0 || v == 1 then Ok(1)
      else
        var sub := ComputeFactorial(IntArg(v - 1));
        Ok(v * sub.value)
  }

  /** For every non-negative int the recursion computes n!. */
  lemma {:induction false} FactorialIsFact(n: nat)
    ensures ComputeFactorial(IntArg(n)) == Ok(Fact(n))
  {
    if n > 1 {
      FactorialIsFact(n - 1);
    }
  }

  /**
   * `generate_fibonacci_number`: TypeError for a non-int, ValueError for a
   * negative index, then the two-branch recursion.
   */
  function GenerateFibonacciNumber(index: Arg): (r: Result<int>)
    ensures index.NonInt? ==> r == Err(TypeError)
    ensures index.IntArg? && index.n < 0 ==> r == Err(ValueError)
    ensures index.IntArg? && index.n >= 0 ==> r.Ok? && r.value >= 0
    decreases if index.IntArg? && index.n >= 0 then index.n else 0
  {
    match index
    case NonInt => Err(TypeError)
    case IntArg(i) =>
      if i < 0 then Err(ValueError)
      else if i == 0 then Ok(0)
      else if i == 1 then Ok(1)
      else
        var previous1 := GenerateFibonacciNumber(IntArg(i - 1));
        var previous2 := GenerateFibonacciNumber(IntArg(i - 2));
        Ok(previous1.value + previous2.value)
  }

  /** For every non-negative index the recursion computes F(index). */
  lemma {:induction false} FibonacciIsFib(n: nat)
    ensures GenerateFibonacciNumber(IntArg(n)) == Ok(Fib(n))
  {
    if n > 1 {
      FibonacciIsFib(n - 1);
      FibonacciIsFib(n - 2);
      assert Fib(n) == Fib(n - 1) + Fib(n - 2);
    }
  }

  /**
   * `exponentiate_number` over integers: ValueError for a negative exponent;
   * 1 and the base for exponents 0 and 1; the half power squared for an even
   * exponent, one factor peeled off for an odd one.
   */
  function ExponentiateNumber(base: int, exponent: int): (r: Result<int>)
    ensures exponent < 0 <==> r == Err(ValueError)
    ensures exponent >= 0 && base >= 0 ==> r.Ok? && r.value >= 0
    decreases exponent
  {
    if exponent < 0 then Err(ValueError)
    else if exponent == 0 then Ok(1)
    else if exponent == 1 then Ok(base)
    else if exponent % 2 == 0 then
      var half := ExponentiateNumber(base, exponent / 2);
      Ok(half.value * half.value)
    else
      var rest := ExponentiateNumber(base, exponent - 1);
      Ok(base * rest.value)
  }

  lemma {:induction false} PowAdd(b: int, m: nat, n: nat)
    ensures Pow(b, m + n) == Pow(b, m) * Pow(b, n)
  {
    if m > 0 {
      PowAdd(b, m - 1, n);
    }
  }

  /** Fast exponentiation agrees with repeated multiplication. */
  lemma {:induction false} ExponentiateIsPow(b: int, e: nat)
    ensures ExponentiateNumber(b, e) == Ok(Pow(b, e))
    decreases e
  {
    if e >= 2 {
      if e % 2 == 0 {
        ExponentiateIsPow(b, e / 2);
        PowAdd(b, e / 2, e / 2);
      } else {
        ExponentiateIsPow(b, e - 1);
      }
    }
  }

  /** The expected values checked by `validate_algorithm_execution` and the demonstration. */
  lemma ExpectedValues()
    ensures ComputeFactorial(IntArg(0)) == Ok(1) && ComputeFactorial(IntArg(1)) == Ok(1)
    ensures ComputeFactorial(IntArg(5)) == Ok(120)
    ensures GenerateFibonacciNumber(IntArg(0)) == Ok(0) && GenerateFibonacciNumber(IntArg(1)) == Ok(1)
    ensures GenerateFibonacciNumber(IntArg(6)) == Ok(8) && GenerateFibonacciNumber(IntArg(10)) == Ok(55)
    ensures ExponentiateNumber(2, 3) == Ok(8) && ExponentiateNumber(5, 0) == Ok(1)
    ensures ExponentiateNumber(3, 4) == Ok(81) && ExponentiateNumber(2, 10) == Ok(1024)
    ensures ExponentiateNumber(5, 4) == Ok(625)
  {
    FactorialIsFact(5);
    FibonacciIsFib(10);
    ExponentiateIsPow(2, 3);
    ExponentiateIsPow(3, 4);
    ExponentiateIsPow(2, 10);
    ExponentiateIsPow(5, 4);
  }
}
