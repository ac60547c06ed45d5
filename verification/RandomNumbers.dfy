/**
  googletest's random numbers: a linear congruential generator modulo 2^31, and what the
  low bits of its states give away.
 */
module RandomNumbers {
  import opened Common

  const MAX_RANGE := 0x8000_0000

  /** One step of the generator, in 32-bit arithmetic. */
  function NextState(state: nat): nat {
    (1103515245 * state + 12345) % 0x1_0000_0000 % MAX_RANGE
  }

  class Random {
    var state: nat

    constructor (seed: nat)
      ensures state == seed
    {
      state := seed;
    }

    method Reseed(seed: nat)
      modifies this
      ensures state == seed
    {
      state := seed;
    }

    method Generate(range: nat) returns (r: nat)
      requires 0 < range <= MAX_RANGE
      modifies this
      ensures state == NextState(old(state)) && r == state % range
    {
      state := NextState(state);
      r := state % range;
    }
  }

  /** The state `n` steps later. */
  function NthState(state: nat, n: nat): nat {
    if n == 0 then state else NextState(NthState(state, n - 1))
  }

  lemma {:induction false} NthStateOfSum(state: nat, m: nat, n: nat)
    ensures NthState(state, m + n) == NthState(NthState(state, m), n)
  {
    hide NextState;
    if n > 0 {
      NthStateOfSum(state, m, n - 1);
    }
  }

  // ----- Steps without the reduction -----

  function Pow2(e: nat): (m: nat)
    ensures m >= 1
  {
    if e == 0 then 1 else 2 * Pow2(e - 1)
  }

  function Linear(state: nat, n: nat): nat {
    if n == 0 then state else 1103515245 * Linear(state, n - 1) + 12345
  }

  lemma {:induction false} LinearOfSum(state: nat, m: nat, n: nat)
    ensures Linear(state, m + n) == Linear(Linear(state, m), n)
  {
    if n > 0 {
      LinearOfSum(state, m, n - 1);
    }
  }

  /** 2^e steps multiply by the slope and add the offset. */
  function Slope(e: nat): nat {
    if e == 0 then 1103515245 else Slope(e - 1) * Slope(e - 1)
  }

  function Offset(e: nat): nat {
    if e == 0 then 12345 else Offset(e - 1) * (Slope(e - 1) + 1)
  }

  lemma {:induction false} LinearByPow2(state: nat, e: nat)
    ensures Linear(state, Pow2(e)) == Slope(e) * state + Offset(e)
    decreases e
  {
    if e == 0 {
      assert Linear(state, 1) == 1103515245 * Linear(state, 0) + 12345;
    } else {
      var m, a, c := Pow2(e - 1), Slope(e - 1), Offset(e - 1);
      LinearOfSum(state, m, m);
      LinearByPow2(state, e - 1);
      LinearByPow2(a * state + c, e - 1);
      Twice(a, c, state);
    }
  }

  lemma Twice(a: nat, c: nat, x: nat)
    ensures a * (a * x + c) + c == (a * a) * x + c * (a + 1)
  {
    assert a * (a * x + c) == a * (a * x) + a * c;
    assert a * (a * x) == (a * a) * x;
  }

  lemma {:induction false} SlopeForm(e: nat) returns (x: nat)
    ensures Slope(e) == 1 + 4 * (Pow2(e) * x)
  {
    if e == 0 {
      x := 275878811;
    } else {
      var m := Pow2(e - 1);
      var x' := SlopeForm(e - 1);
      x := x' + 2 * (x' * (m * x'));
      Squared(m, x', m * x');
    }
  }

  lemma Squared(m: nat, x: nat, u: nat)
    requires u == m * x
    ensures (1 + 4 * u) * (1 + 4 * u) == 1 + 4 * ((2 * m) * (x + 2 * (x * u)))
  {
    assert m * (x + 2 * (x * u)) == m * x + 2 * (m * x * u);
  }

  /** The offset is an odd multiple of 2^e. */
  lemma {:induction false} OffsetForm(e: nat) returns (y: nat)
    ensures Offset(e) == Pow2(e) + 2 * (Pow2(e) * y)
  {
    if e == 0 {
      y := 6172;
    } else {
      var m := Pow2(e - 1);
      var y' := OffsetForm(e - 1);
      var x := SlopeForm(e - 1);
      var v := 1 + 2 * (m * x);
      y := y' * v + m * x;
      OddTimesEven(m, y', m * x, v, y);
    }
  }

  lemma OddTimesEven(m: nat, y: nat, u: nat, v: nat, z: nat)
    requires v == 1 + 2 * u && z == y * v + u
    ensures (m + 2 * (m * y)) * (2 * v) == 2 * m + 2 * (2 * m * z)
  {
    assert m * z == m * (y * v) + m * u;
    assert (m + 2 * (m * y)) * (2 * v) == 2 * (m * v) + 4 * (m * y * v);
    assert m * v == m + 2 * (m * u);
  }

  // ----- Low bits -----

  lemma {:induction false} Pow2Sum(d: nat, e: nat)
    ensures Pow2(d + e) == Pow2(d) * Pow2(e)
  {
    if d > 0 {
      Pow2Sum(d - 1, e);
    }
  }

  lemma ReductionKeepsLowBits(n: nat, e: nat)
    requires e <= 31
    ensures n % 0x1_0000_0000 % MAX_RANGE % Pow2(e) == n % Pow2(e)
  {
    Pow2Sum(31 - e, e);
    Pow2Sum(32 - e, e);
    assert Pow2(31) == MAX_RANGE && Pow2(32) == 0x1_0000_0000 by {
      Pow2Values();
    }
    ModOfMultiple(n, Pow2(32 - e), Pow2(e));
    ModOfMultiple(n % 0x1_0000_0000, Pow2(31 - e), Pow2(e));
  }

  lemma Pow2Values()
    ensures Pow2(31) == MAX_RANGE && Pow2(32) == 0x1_0000_0000
  {
    assert Pow2(8) == 256;
    Pow2Sum(8, 8);
    Pow2Sum(16, 8);
    assert Pow2(7) == 128;
    Pow2Sum(24, 7);
  }

  lemma NextLowBits(a: nat, b: nat, e: nat)
    requires e <= 31 && a % Pow2(e) == b % Pow2(e)
    ensures NextState(a) % Pow2(e) == (1103515245 * b + 12345) % Pow2(e)
  {
    ReductionKeepsLowBits(1103515245 * a + 12345, e);
    hide NextState;
    AffineMod(1103515245, a, 12345, Pow2(e));
    AffineMod(1103515245, b, 12345, Pow2(e));
  }

  lemma {:induction false} LowBitsLinear(state: nat, n: nat, e: nat)
    requires e <= 31
    ensures NthState(state, n) % Pow2(e) == Linear(state, n) % Pow2(e)
  {
    if n > 0 {
      LowBitsLinear(state, n - 1, e);
      NextLowBits(NthState(state, n - 1), Linear(state, n - 1), e);
    }
  }

  /** Every 2^e steps bit e of the state flips, and the bits below it are as before. */
  lemma BitFlips(state: nat, n: nat, e: nat)
    requires e <= 30
    ensures NthState(state, n + Pow2(e)) % Pow2(e + 1) == (NthState(state, n) + Pow2(e)) % Pow2(e + 1)
  {
    hide *;
    var m, t := Pow2(e), NthState(state, n);
    NthStateOfSum(state, n, m);
    LowBitsLinear(t, m, e + 1);
    var k := LinearFlips(t, e);
    AddMultiple(t + m, k, Pow2(e + 1));
  }

  lemma LinearFlips(t: nat, e: nat) returns (k: nat)
    ensures Linear(t, Pow2(e)) == t + Pow2(e) + k * Pow2(e + 1)
  {
    LinearByPow2(t, e);
    var x := SlopeForm(e);
    var y := OffsetForm(e);
    k := 2 * (x * t) + y;
    FlipSum(t, Pow2(e), x, y);
    assert Pow2(e + 1) == 2 * Pow2(e);
    hide *;
  }

  lemma FlipSum(t: nat, m: nat, x: nat, y: nat)
    ensures (1 + 4 * (m * x)) * t + (m + 2 * (m * y)) == t + m + (2 * (x * t) + y) * (2 * m)
  {
    FourTimes(m * x, t);
    assert (m * x) * t == m * (x * t);
    OutOfPair(x * t, y, m);
  }

  lemma FourTimes(u: nat, t: nat)
    ensures (1 + 4 * u) * t == t + 4 * (u * t)
  {
  }

  lemma OutOfPair(p: nat, y: nat, m: nat)
    ensures (2 * p + y) * (2 * m) == 4 * (m * p) + 2 * (m * y)
  {
  }

  /** So the low e bits repeat every 2^e steps. */
  lemma {:induction false} LowBitsRepeat(state: nat, n: nat, e: nat, q: nat)
    requires e <= 31
    ensures NthState(state, n + q * Pow2(e)) % Pow2(e) == NthState(state, n) % Pow2(e)
    decreases q
  {
    hide NthState;
    if q > 0 && e > 0 {
      var m, k := Pow2(e - 1), n + (q - 1) * Pow2(e);
      LowBitsRepeat(state, n, e, q - 1);
      assert k + m + m == n + q * Pow2(e);
      BitFlips(state, k, e - 1);
      BitFlips(state, k + m, e - 1);
      TwoFlips(NthState(state, k), NthState(state, k + m), NthState(state, k + m + m), m, Pow2(e));
    }
  }

  lemma TwoFlips(a: nat, b: nat, c: nat, m: nat, d: nat)
    requires d == 2 * m > 0 && b % d == (a + m) % d && c % d == (b + m) % d
    ensures c % d == a % d
  {
    AddMod(b, m, d);
    AddMod(a + m, m, d);
    AddMultiple(a, 1, d);
  }
}
