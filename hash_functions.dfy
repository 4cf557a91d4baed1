// The string hash functions of lab05: character sum, polynomial (Horner),
// DJB2 with and without the 32-bit mask, and the double-hashing probe.

module HashFunctions {
  import opened Wrappers
  import Recursion

  /** Python's `a % m` for a non-zero modulus: the result takes the sign of `m`. */
  function PyMod(a: int, m: int): (r: int)
    requires m != 0
    ensures m > 0 ==> 0 <= r < m && r == a % m
    ensures m < 0 ==> m < r <= 0
  {
    if m > 0 then a % m else -((-a) % (-m))
  }

  /** Python's `x % m`: ZeroDivisionError for a zero modulus. */
  function Mod(x: int, m: int): (r: Result<int>)
    ensures r.Err? <==> m == 0
    ensures r.Err? ==> r.error == ZeroDivisionError
    ensures m > 0 ==> r.Ok? && 0 <= r.value < m
  {
    if m == 0 then Err(ZeroDivisionError) else Ok(PyMod(x, m))
  }

  /** Adding a multiple of `m` does not change the remainder. */
  lemma AddMultiple(y: int, k: int, m: int)
    requires m > 0
    ensures (y + m * k) % m == y % m
  {
    var z := y + m * k;
    var d := z / m - y / m - k;
    assert m * d == y % m - z % m;
  }

  /** A value already in [0, m) is its own remainder. */
  lemma SmallMod(x: int, m: int)
    ensures 0 <= x < m ==> x % m == x
  {
    if 0 <= x < m {
      assert x / m == 0;
    }
  }

  /** The remainder of a natural number never exceeds it. */
  lemma ModAtMost(x: int, m: int)
    requires 0 <= x && m > 0
    ensures x % m <= x
  {
    assert x == m * (x / m) + x % m;
    assert x / m >= 0;
  }

  /** Reducing the accumulator before the next Horner step changes nothing mod `m`. */
  lemma ModMulAdd(x: int, b: int, c: int, m: int)
    requires m > 0
    ensures ((x % m) * b + c) % m == (x * b + c) % m
  {
    var q := x / m;
    assert x == m * q + x % m;
    assert x * b + c == (x % m) * b + c + m * (q * b);
    AddMultiple((x % m) * b + c, q * b, m);
  }

  /** Sum of the code points of a string. */
  function CodeSum(s: string): nat
  {
    if |s| == 0 then 0 else CodeSum(s[..|s| - 1]) + s[|s| - 1] as int
  }

  /** `calculate_character_sum_hash`: the code-point sum reduced by the capacity. */
  function CharacterSumHash(s: string, capacity: int): (r: Result<int>)
    ensures r.Err? <==> capacity == 0
    ensures capacity > 0 ==> r.Ok? && 0 <= r.value < capacity
    ensures capacity > 0 ==> r.value == CodeSum(s) % capacity
  {
    Mod(CodeSum(s), capacity)
  }

  /** The accumulator loop of `calculate_character_sum_hash`. */
  method CalculateCharacterSumHash(identifier: string, capacity: int) returns (r: Result<int>)
    ensures r == CharacterSumHash(identifier, capacity)
  {
    var accumulated := 0;
    for i := 0 to |identifier|
      invariant accumulated == CodeSum(identifier[..i])
    {
      assert identifier[..i + 1][..i] == identifier[..i];
      accumulated := accumulated + identifier[i] as int;
    }
    assert identifier[..|identifier|] == identifier;
    r := Mod(accumulated, capacity);
  }

  /** The number a string denotes in `base`, first character most significant. */
  function Poly(s: string, base: int): int
  {
    if |s| == 0 then 0 else Poly(s[..|s| - 1], base) * base + s[|s| - 1] as int
  }

  /** Horner evaluation reduced by `m` after every character. */
  function Horner(s: string, base: int, m: int): int
    requires m != 0
  {
    if |s| == 0 then 0 else PyMod(Horner(s[..|s| - 1], base, m) * base + s[|s| - 1] as int, m)
  }

  /**
   * `compute_polynomial_based_hash`: the empty string hashes to 0 for every
   * capacity; otherwise the first step already divides by the capacity.
   */
  function PolynomialHash(s: string, capacity: int, base: int): (r: Result<int>)
    ensures |s| == 0 ==> r == Ok(0)
    ensures r.Err? <==> |s| > 0 && capacity == 0
    ensures r.Err? ==> r.error == ZeroDivisionError
    ensures capacity > 0 ==> r.Ok? && 0 <= r.value < capacity
  {
    if |s| == 0 then Ok(0)
    else if capacity == 0 then Err(ZeroDivisionError)
    else Ok(Horner(s, base, capacity))
  }

  /** Reducing at every step gives the full polynomial reduced once. */
  lemma {:induction false} HornerIsPolyMod(s: string, base: int, m: int)
    requires m > 0
    ensures Horner(s, base, m) == Poly(s, base) % m
  {
    if |s| > 0 {
      var p := s[..|s| - 1];
      HornerIsPolyMod(p, base, m);
      ModMulAdd(Poly(p, base), base, s[|s| - 1] as int, m);
    }
  }

  /** The polynomial hash is sum of ord(s[i]) * base^(n-1-i), reduced by the capacity. */
  lemma PolynomialHashClosedForm(s: string, capacity: int, base: int)
    requires capacity > 0
    ensures PolynomialHash(s, capacity, base) == Ok(Poly(s, base) % capacity)
  {
    HornerIsPolyMod(s, base, capacity);
  }

  /** The accumulator loop of `compute_polynomial_based_hash`. */
  method ComputePolynomialBasedHash(identifier: string, capacity: int, base: int) returns (r: Result<int>)
    ensures r == PolynomialHash(identifier, capacity, base)
  {
    var current := 0;
    for i := 0 to |identifier|
      invariant capacity != 0 ==> current == Horner(identifier[..i], base, capacity)
      invariant capacity == 0 ==> i == 0 && current == 0
    {
      if capacity == 0 {
        return Err(ZeroDivisionError);
      }
      assert identifier[..i + 1][..i] == identifier[..i];
      current := PyMod(current * base + identifier[i] as int, capacity);
    }
    assert identifier[..|identifier|] == identifier;
    r := Ok(current);
  }

  /** 2^32, the bound of the mask `& 0xFFFFFFFF`. */
  const Two32: int := 0x1_0000_0000

  /** The DJB2 state after each character, masked to 32 bits at every step. */
  function Djb2(s: string): nat
  {
    if |s| == 0 then 5381 else (Djb2(s[..|s| - 1]) * 33 + s[|s| - 1] as int) % Two32
  }

  /** The DJB2 state without the mask: Python's unbounded integers. */
  function Djb2Unmasked(s: string): nat
  {
    if |s| == 0 then 5381 else Djb2Unmasked(s[..|s| - 1]) * 33 + s[|s| - 1] as int
  }

  /** Masking at every step is the same as masking once at the end. */
  lemma {:induction false} Djb2Masking(s: string)
    ensures Djb2(s) == Djb2Unmasked(s) % Two32
  {
    if |s| > 0 {
      var p := s[..|s| - 1];
      Djb2Masking(p);
      ModMulAdd(Djb2Unmasked(p), 33, s[|s| - 1] as int, Two32);
    }
  }

  /** The unmasked state is 5381 * 33^n + sum of ord(s[i]) * 33^(n-1-i). */
  lemma {:induction false} Djb2ClosedForm(s: string)
    ensures Djb2Unmasked(s) == 5381 * Recursion.Pow(33, |s|) + Poly(s, 33)
  {
    if |s| > 0 {
      var p := s[..|s| - 1];
      Djb2ClosedForm(p);
      assert Recursion.Pow(33, |s|) == 33 * Recursion.Pow(33, |p|);
    }
  }

  /** `generate_djb2_hash_code`: the masked state reduced by the capacity. */
  function Djb2Hash(s: string, capacity: int): (r: Result<int>)
    ensures r.Err? <==> capacity == 0
    ensures capacity > 0 ==> r.Ok? && 0 <= r.value < capacity
    ensures |s| == 0 && capacity > 0 ==> r.value == 5381 % capacity
    ensures capacity > 0 ==> r.value == (Djb2Unmasked(s) % Two32) % capacity
  {
    Djb2Masking(s);
    Mod(Djb2(s), capacity)
  }

  /** `compute_djb2_hash` of the benchmark and test files: no mask. */
  function Djb2UnmaskedHash(s: string, capacity: int): (r: Result<int>)
    ensures r.Err? <==> capacity == 0
    ensures capacity > 0 ==> r.Ok? && 0 <= r.value < capacity
    ensures capacity > 0 ==> r.value == (5381 * Recursion.Pow(33, |s|) + Poly(s, 33)) % capacity
  {
    Djb2ClosedForm(s);
    Mod(Djb2Unmasked(s), capacity)
  }

  /** The loop of `generate_djb2_hash_code`, masking after every character. */
  method GenerateDjb2HashCode(identifier: string, capacity: int) returns (r: Result<int>)
    ensures r == Djb2Hash(identifier, capacity)
  {
    var h: int := 5381;
    for i := 0 to |identifier|
      invariant h == Djb2(identifier[..i])
    {
      assert identifier[..i + 1][..i] == identifier[..i];
      h := (h * 33 + identifier[i] as int) % Two32;
    }
    assert identifier[..|identifier|] == identifier;
    r := Mod(h, capacity);
  }

  /** The loop of the unmasked `compute_djb2_hash`. */
  method ComputeDjb2Hash(identifier: string, capacity: int) returns (r: Result<int>)
    ensures r == Djb2UnmaskedHash(identifier, capacity)
  {
    var h: int := 5381;
    for i := 0 to |identifier|
      invariant h == Djb2Unmasked(identifier[..i])
    {
      assert identifier[..i + 1][..i] == identifier[..i];
      h := h * 33 + identifier[i] as int;
    }
    assert identifier[..|identifier|] == identifier;
    r := Mod(h, capacity);
  }

  /**
   * The step of double hashing, `1 + calculate_character_sum_hash(s, capacity - 2)`:
   * capacity 2 divides by zero; from capacity 3 on it lies in [1, capacity - 2];
   * for a positive capacity it never exceeds 1 + the code-point sum.
   */
  function SecondaryStep(s: string, capacity: int): (r: Result<int>)
    ensures r.Err? <==> capacity == 2
    ensures r.Err? ==> r.error == ZeroDivisionError
    ensures capacity >= 3 ==> r.Ok? && 1 <= r.value <= capacity - 2
    ensures capacity == 1 ==> r == Ok(1)
    ensures capacity >= 1 && r.Ok? ==> 1 <= r.value <= 1 + CodeSum(s)
  {
    var h := CharacterSumHash(s, capacity - 2);
    if h.Err? then Err(h.error)
    else
      assert capacity >= 3 ==> h.value <= CodeSum(s) by {
        if capacity >= 3 { ModAtMost(CodeSum(s), capacity - 2); }
      }
      assert capacity == 1 ==> h.value == 0 by {
        if capacity == 1 { var c: int := CodeSum(s); assert (-c) % 1 == 0; }
      }
      Ok(1 + h.value)
  }

  /**
   * `calculate_double_hash_value`: (polynomial + iteration * step) mod capacity.
   * Capacities 0 and 2 raise ZeroDivisionError; iteration 0 is the polynomial hash.
   */
  function DoubleHash(s: string, capacity: int, iteration: int): (r: Result<int>)
    ensures r.Err? <==> capacity == 0 || capacity == 2
    ensures r.Err? ==> r.error == ZeroDivisionError
    ensures capacity > 0 && r.Ok? ==> 0 <= r.value < capacity
    ensures iteration == 0 && capacity > 0 && capacity != 2 ==> r == PolynomialHash(s, capacity, 31)
  {
    var p := PolynomialHash(s, capacity, 31);
    if p.Err? then Err(p.error)
    else
      var t := SecondaryStep(s, capacity);
      if t.Err? then Err(t.error)
      else
        var probe := p.value + iteration * t.value;
        assert iteration == 0 ==> probe == p.value;
        SmallMod(p.value, capacity);
        Mod(probe, capacity)
  }

  /** The double hash is the polynomial hash advanced by whole steps. */
  lemma DoubleHashSteps(s: string, capacity: int, iteration: int)
    requires capacity >= 1 && capacity != 2
    ensures DoubleHash(s, capacity, iteration)
         == Ok((PolynomialHash(s, capacity, 31).value + iteration * SecondaryStep(s, capacity).value) % capacity)
  {
  }

  /** The step is not always odd: "a" at capacity 10 steps by 2. */
  lemma SecondaryStepCanBeEven()
    ensures SecondaryStep("a", 10) == Ok(2)
  {
    assert "a"[..0] == "";
    assert CodeSum("a") == 97;
  }

  /**
   * The step the comment describes: always odd, and still in [1, capacity - 2],
   * so that with an even capacity the probe does not stay on one parity class.
   */
  function OddSecondaryStep(s: string, capacity: int): (r: int)
    requires capacity >= 3
    ensures r % 2 == 1
    ensures 1 <= r <= capacity - 2
  {
    var half := (capacity - 1) / 2;
    ModAtMost(CodeSum(s), half);
    1 + 2 * (CodeSum(s) % half)
  }

  /** With the odd step "a" at capacity 10 steps by 3 instead of 2. */
  lemma OddSecondaryStepSample()
    ensures OddSecondaryStep("a", 10) == 3
  {
    assert "a"[..0] == "";
    assert CodeSum("a") == 97;
  }
}
