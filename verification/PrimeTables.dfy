/**
  The two prime tables of the googletest samples, over mathematical integers.
 */
module PrimeTables {
  import opened Common

  predicate Product(k: int, d: int, n: int) {
    k * d == n
  }

  ghost predicate Divides(d: int, n: int) {
    exists k: int :: Product(k, d, n)
  }

  /** Greater than one, and divisible by nothing strictly between one and itself. */
  ghost predicate Prime(n: int) {
    n > 1 && forall d :: 1 < d < n ==> !Divides(d, n)
  }

  /** `r` is the least prime above `p`. */
  ghost predicate IsNextPrime(p: int, r: int) {
    p < r && Prime(r) && forall q :: p < q < r ==> !Prime(q)
  }

  // ----- Divisibility -----

  /** The remainder test of the program. */
  lemma RemainderZero(d: int, n: int)
    requires d > 0
    ensures Divides(d, n) <==> n % d == 0
  {
    var q, r := n / d, n % d;
    assert n == q * d + r;
    if r == 0 {
      assert Product(q, d, n);
    }
    if k: int :| Product(k, d, n) {
      assert (k - q) * d == r;
      NoMultipleBelow(k - q, d, r);
    }
  }

  lemma NoMultipleBelow(m: int, d: int, r: int)
    requires m * d == r && 0 <= r < d
    ensures r == 0
  {
    if m >= 1 {
      MulMonotone(1, m, d);
    } else {
      MulMonotone(m, 0, d);
    }
  }

  lemma DividesTransitive(a: int, b: int, c: int)
    requires Divides(a, b) && Divides(b, c)
    ensures Divides(a, c)
  {
    var k: int :| Product(k, a, b);
    var m: int :| Product(m, b, c);
    assert m * (k * a) == (m * k) * a;
    assert Product(m * k, a, c);
  }

  /** Every number above one has a prime divisor. */
  lemma {:induction false} PrimeDivisor(n: int) returns (p: int)
    requires n > 1
    ensures 1 < p <= n && Prime(p) && Divides(p, n)
    decreases n
  {
    p := n;
    if Prime(n) {
      assert Product(1, n, n);
    } else {
      var d :| 1 < d < n && Divides(d, n);
      p := PrimeDivisor(d);
      DividesTransitive(p, d, n);
    }
  }

  /** Of two factors one is no larger than the square root. */
  lemma SmallFactor(d: int, e: int, n: int) returns (s: int)
    requires d > 1 && e > 1 && d * e == n
    ensures s > 1 && s * s <= n && Divides(s, n)
  {
    if d <= e {
      s := d;
      assert d * d <= d * e;
      assert e * d == n;
      assert Product(e, d, n);
    } else {
      s := e;
      assert e * e <= d * e;
      assert Product(d, e, n);
    }
  }

  /** A composite number has a divisor below any bound whose square exceeds it. */
  lemma CompositeHasSmallDivisor(n: int, bound: int) returns (s: int)
    requires n > 1 && !Prime(n) && bound >= 2 && bound * bound > n
    ensures 1 < s < bound && s < n && Divides(s, n)
  {
    var d :| 1 < d < n && Divides(d, n);
    var e: int :| Product(e, d, n);
    assert e > 1 by {
      if e <= 1 {
        MulMonotone(e, 1, d);
      }
    }
    s := SmallFactor(e, d, n);
    SquareBelow(s, bound, n);
    assert s < n by {
      MulMonotone(2, s, s);
    }
  }

  lemma SquareBelow(s: int, bound: int, n: int)
    requires s > 1 && bound > 1 && s * s <= n < bound * bound
    ensures s < bound
  {
    if s >= bound {
      MulMonotone(bound, s, bound);
      MulMonotone(bound, s, s);
    }
  }

  // ----- Primes do not end -----

  function Factorial(n: nat): (f: nat)
    ensures f >= 1
  {
    if n == 0 then 1 else n * Factorial(n - 1)
  }

  lemma {:induction false} FactorialDivisible(n: nat, d: nat)
    requires 1 <= d <= n
    ensures Divides(d, Factorial(n))
  {
    assert Product(n, Factorial(n - 1), Factorial(n));
    if d == n {
      assert Factorial(n - 1) * n == Factorial(n);
      assert Product(Factorial(n - 1), n, Factorial(n));
    } else {
      FactorialDivisible(n - 1, d);
      DividesTransitive(d, Factorial(n - 1), Factorial(n));
    }
  }

  /** No number above one divides two neighbours. */
  lemma NeighboursCoprime(d: int, n: int)
    requires d > 1 && Divides(d, n)
    ensures !Divides(d, n + 1)
  {
    var k: int :| Product(k, d, n);
    var next := n + 1;
    forall m: int
      ensures !Product(m, d, next)
    {
      assert (m - k) * d == m * d - k * d;
      if m > k {
        MulMonotone(1, m - k, d);
      } else {
        MulMonotone(m - k, 0, d);
      }
    }
  }

  lemma PrimeAbove(p: nat) returns (q: nat)
    ensures q > p && Prime(q)
  {
    var f := Factorial(p);
    q := PrimeDivisor(f + 1);
    if q <= p {
      FactorialDivisible(p, q);
      NeighboursCoprime(q, f);
    }
  }

  // ----- OnTheFlyPrimeTable -----

  method OnTheFlyIsPrime(n: int) returns (b: bool)
    ensures b <==> Prime(n)
  {
    if n <= 1 {
      return false;
    }
    var i := 2;
    while i * i <= n
      invariant 2 <= i
      invariant forall d :: 1 < d < i && d < n ==> !Divides(d, n)
      decreases n - i
    {
      assert i < n by {
        MulMonotone(2, i, i);
      }
      RemainderZero(i, n);
      if n % i == 0 {
        return false;
      }
      i := i + 1;
    }
    if !Prime(n) {
      var s := CompositeHasSmallDivisor(n, i);
    }
    return true;
  }

  /** From 0 on the least prime above `p` is always found; below 0 the loop is not entered. */
  method OnTheFlyGetNextPrime(p: int) returns (r: int)
    ensures p >= 0 ==> IsNextPrime(p, r)
    ensures p < 0 ==> r == -1
  {
    var n := p + 1;
    if n <= 0 {
      return -1;
    }
    ghost var bound := PrimeAbove(p);
    while n > 0
      invariant p < n <= bound
      invariant forall q :: p < q < n ==> !Prime(q)
      decreases bound - n
    {
      var b := OnTheFlyIsPrime(n);
      if b {
        return n;
      }
      n := n + 1;
    }
    return -1;
  }

  // ----- PreCalculatedPrimeTable -----

  class PreCalculatedPrimeTable {
    const isPrimeSize: nat
    const isPrime: array<bool>

    ghost predicate Valid()
      reads this, isPrime
    {
      && isPrimeSize == isPrime.Length
      && forall n :: 0 <= n < isPrimeSize ==> (isPrime[n] <==> Prime(n))
    }

    /** The constructor writes entries 0 and 1, so the table must hold them. */
    constructor (max: int)
      requires max >= 1
      ensures Valid() && fresh(isPrime) && isPrimeSize == max + 1
    {
      isPrimeSize := max + 1;
      isPrime := new bool[max + 1];
      new;
      CalculatePrimesUpTo(isPrime, max);
    }

    method IsPrime(n: int) returns (b: bool)
      requires Valid()
      ensures b <==> n < isPrimeSize && Prime(n)
    {
      b := 0 <= n < isPrimeSize && isPrime[n];
    }

    /** The loop reads the table from p + 1 on, which must not be below its start. */
    method GetNextPrime(p: int) returns (r: int)
      requires Valid() && p >= -1
      ensures if r == -1 then forall q :: p < q < isPrimeSize ==> !Prime(q)
              else r < isPrimeSize && IsNextPrime(p, r)
    {
      var n := p + 1;
      while n < isPrimeSize
        invariant p < n
        invariant forall q :: p < q < n && q < isPrimeSize ==> !Prime(q)
      {
        if isPrime[n] {
          return n;
        }
        n := n + 1;
      }
      return -1;
    }
  }

  lemma NoMultipleBetween(k: int, i: int)
    requires i > 0
    ensures forall n :: k * i < n < (k + 1) * i ==> !Divides(i, n)
  {
    forall n, m: int | k * i < n < (k + 1) * i
      ensures !Product(m, i, n)
    {
      if m <= k {
        MulMonotone(m, k, i);
      } else {
        MulMonotone(k + 1, m, i);
      }
    }
  }

  /** The multiples of a composite are multiples of a smaller number. */
  lemma CompositesAlreadyOut(i: int)
    requires i >= 2 && !Survives(i, i)
    ensures forall n :: Survives(n, i) <==> Survives(n, i + 1)
  {
    var d :| 1 < d < i && Divides(d, i);
    forall n | Survives(n, i)
      ensures Survives(n, i + 1)
    {
      if i < n && Divides(i, n) {
        DividesTransitive(d, i, n);
      }
    }
  }

  /** `n` survives the sieve by all numbers below `i`. */
  ghost predicate Survives(n: int, i: int) {
    n > 1 && forall d :: 1 < d < i && d < n ==> !Divides(d, n)
  }

  method CalculatePrimesUpTo(isPrime: array<bool>, max: int)
    requires max >= 1 && isPrime.Length == max + 1
    modifies isPrime
    ensures forall n :: 0 <= n <= max ==> (isPrime[n] <==> Prime(n))
  {
    for k := 0 to isPrime.Length
      invariant forall n :: 0 <= n < k ==> isPrime[n]
    {
      isPrime[k] := true;
    }
    isPrime[0], isPrime[1] := false, false;
    var i := 2;
    while i <= max
      invariant 2 <= i <= max + 1
      invariant forall n :: 0 <= n <= max ==> (isPrime[n] <==> Survives(n, i))
    {
      if isPrime[i] {
        CrossOut(isPrime, i, max);
      } else {
        CompositesAlreadyOut(i);
      }
      i := i + 1;
    }
  }

  /** Marks the multiples of `i` other than `i` itself. */
  method CrossOut(isPrime: array<bool>, i: int, max: int)
    requires 2 <= i <= max && isPrime.Length == max + 1
    modifies isPrime
    ensures forall n :: 0 <= n <= max ==> (isPrime[n] <==> old(isPrime[n]) && !(n > i && Divides(i, n)))
  {
    var j := 2 * i;
    ghost var k := 2;
    NoMultipleBetween(1, i);
    while j <= max
      invariant j == k * i && k >= 2
      invariant forall n :: 0 <= n <= max ==> (isPrime[n] <==> old(isPrime[n]) && !(i < n < j && Divides(i, n)))
    {
      NoMultipleBetween(k, i);
      assert Product(k, i, j);
      isPrime[j] := false;
      j := j + i;
      k := k + 1;
    }
  }
}
