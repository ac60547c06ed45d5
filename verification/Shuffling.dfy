/**
  The Fisher-Yates shuffle that orders the tests, which orders it reaches, and its seeds.
 */
module Shuffling {
  import opened Common
  import opened RandomNumbers

  const MAX_RANDOM_SEED := 99999

  // ----- Fisher-Yates -----

  /** Choices for shuffling `width` elements: the k-th one is below `width - k`. */
  predicate ArePicks(picks: seq<nat>, width: nat) {
    && |picks| == (if width < 2 then 0 else width - 1)
    && forall k :: 0 <= k < |picks| ==> picks[k] < width - k
  }

  function Swapped<E>(v: seq<E>, i: nat, j: nat): (r: seq<E>)
    requires i < |v| && j < |v|
    ensures |r| == |v|
  {
    v[i := v[j]][j := v[i]]
  }

  lemma SwappedPermutes<E>(v: seq<E>, i: nat, j: nat)
    requires i < |v| && j < |v|
    ensures multiset(Swapped(v, i, j)) == multiset(v)
  {
  }

  /** The first `width` elements from `begin` on, shuffled by the given picks. */
  function ShuffledBy<E>(v: seq<E>, begin: nat, width: nat, picks: seq<nat>): (r: seq<E>)
    requires begin + width <= |v| && ArePicks(picks, width)
    ensures |r| == |v|
    decreases width
  {
    if width < 2 then v
    else ShuffledBy(Swapped(v, begin + picks[0], begin + width - 1), begin, width - 1, picks[1..])
  }

  /** One exchange: the picked element and the last one of the range change places, and the range gets shorter. */
  lemma OneExchange<E>(v: seq<E>, w: seq<E>, begin: nat, width: nat, picks: seq<nat>)
    requires begin + width <= |v| == |w| && width >= 2 && ArePicks(picks, width)
    requires var pick, last := begin + picks[0], begin + width - 1;
      w[last] == v[pick] && w[pick] == v[last] && forall k :: 0 <= k < |v| && k != pick && k != last ==> w[k] == v[k]
    ensures ArePicks(picks[1..], width - 1)
    ensures ShuffledBy(v, begin, width, picks) == ShuffledBy(w, begin, width - 1, picks[1..])
    ensures ShuffledBy(v, begin, 1, []) == v == ShuffledBy(v, begin, 0, [])
  {
    assert w == Swapped(v, begin + picks[0], begin + width - 1);
  }

  /** The picks that the generator makes from a given state, and the state it ends in. */
  function Picks(state: nat, width: nat): (picks: seq<nat>)
    ensures ArePicks(picks, width)
    decreases width
  {
    if width < 2 then [] else [NextState(state) % width] + Picks(NextState(state), width - 1)
  }

  function StateAfter(state: nat, width: nat): nat
    decreases width
  {
    if width < 2 then state else StateAfter(NextState(state), width - 1)
  }

  function Shuffled<E>(v: seq<E>, begin: nat, width: nat, state: nat): (r: seq<E>)
    requires begin + width <= |v|
    ensures |r| == |v|
  {
    ShuffledBy(v, begin, width, Picks(state, width))
  }

  /** Shuffling `width` elements takes one number fewer from the generator. */
  lemma {:induction false} StateAfterDraws(state: nat, width: nat)
    ensures StateAfter(state, width) == NthState(state, if width < 2 then 0 else width - 1)
    decreases width
  {
    if width >= 2 {
      hide NextState;
      StateAfterDraws(NextState(state), width - 1);
      NthStateOfSum(state, 1, width - 2);
      assert NthState(state, 1) == NextState(NthState(state, 0));
    }
  }

  method ShuffleRange<E>(random: Random, begin: nat, end: nat, v: seq<E>) returns (r: seq<E>)
    requires begin <= end <= |v| <= MAX_RANGE
    modifies random
    ensures r == Shuffled(v, begin, end - begin, old(random.state))
    ensures random.state == StateAfter(old(random.state), end - begin)
  {
    hide NextState;
    r := v;
    var width := end - begin;
    while width >= 2
      invariant |r| == |v| && 0 <= width <= end - begin
      invariant Shuffled(v, begin, end - begin, old(random.state)) == Shuffled(r, begin, width, random.state)
      invariant StateAfter(old(random.state), end - begin) == StateAfter(random.state, width)
    {
      ghost var before := random.state;
      var last := begin + width - 1;
      var pick := random.Generate(width);
      assert Picks(before, width)[1..] == Picks(random.state, width - 1);
      var selected := begin + pick;
      r := r[selected := r[last]][last := r[selected]];
      width := width - 1;
    }
  }

  /** `r` is `v` with the elements from `begin` up to `end` rearranged. */
  ghost predicate Rearranges<E>(v: seq<E>, begin: nat, end: nat, r: seq<E>) {
    && begin <= end <= |v| == |r|
    && (forall i :: (0 <= i < begin || end <= i < |v|) ==> r[i] == v[i])
    && multiset(r) == multiset(v)
  }

  /** Whatever the picks, the range is permuted and everything else stays where it is. */
  lemma {:induction false} ShuffledByPermutes<E>(v: seq<E>, begin: nat, width: nat, picks: seq<nat>)
    requires begin + width <= |v| && ArePicks(picks, width)
    ensures Rearranges(v, begin, begin + width, ShuffledBy(v, begin, width, picks))
    decreases width
  {
    if width >= 2 {
      var w := Swapped(v, begin + picks[0], begin + width - 1);
      ShuffledByPermutes(w, begin, width - 1, picks[1..]);
      SwapFirst(v, begin, width, picks[0], ShuffledBy(w, begin, width - 1, picks[1..]));
    }
  }

  lemma SwapFirst<E>(v: seq<E>, begin: nat, width: nat, pick: nat, r: seq<E>)
    requires begin + width <= |v| && pick < width
    requires Rearranges(Swapped(v, begin + pick, begin + width - 1), begin, begin + width - 1, r)
    ensures Rearranges(v, begin, begin + width, r)
  {
    SwappedPermutes(v, begin + pick, begin + width - 1);
  }

  /** Shuffling a range is shuffling a sequence of its own. */
  lemma {:induction false} ShuffledByInRange<E>(v: seq<E>, begin: nat, end: nat, width: nat, picks: seq<nat>)
    requires begin + width <= end <= |v| && ArePicks(picks, width)
    ensures ShuffledBy(v, begin, width, picks)[begin..end] == ShuffledBy(v[begin..end], 0, width, picks)
    decreases width
  {
    if width >= 2 {
      var w := Swapped(v, begin + picks[0], begin + width - 1);
      SwappedInRange(v, begin, end, picks[0], width - 1);
      ShuffledByInRange(w, begin, end, width - 1, picks[1..]);
    }
  }

  lemma SwappedInRange<E>(v: seq<E>, begin: nat, end: nat, i: nat, j: nat)
    requires begin <= end <= |v| && begin + i < end && begin + j < end
    ensures Swapped(v, begin + i, begin + j)[begin..end] == Swapped(v[begin..end], i, j)
  {
  }

  lemma RangeElements<E>(v: seq<E>, begin: nat, end: nat, r: seq<E>)
    requires Rearranges(v, begin, end, r)
    ensures multiset(r[begin..end]) == multiset(v[begin..end])
  {
    MultisetOfParts(v, begin, end);
    MultisetOfParts(r, begin, end);
    assert r[..begin] == v[..begin] && r[end..] == v[end..];
  }

  lemma MultisetOfParts<E>(v: seq<E>, begin: nat, end: nat)
    requires begin <= end <= |v|
    ensures multiset(v[begin..end]) == multiset(v) - multiset(v[..begin]) - multiset(v[end..])
  {
    assert v == v[..begin] + v[begin..end] + v[end..];
  }

  /** The choice that puts the wanted element in the last place of the range. */
  lemma PickFor<E>(v: seq<E>, begin: nat, width: nat, target: seq<E>) returns (pick: nat)
    requires width >= 2 && Rearranges(v, begin, begin + width, target)
    ensures pick < width
    ensures Rearranges(Swapped(v, begin + pick, begin + width - 1), begin, begin + width - 1, target)
  {
    var end := begin + width;
    RangeElements(v, begin, end, target);
    assert target[begin..end][width - 1] in multiset(v[begin..end]);
    pick :| 0 <= pick < width && v[begin..end][pick] == target[begin..end][width - 1];
    assert v[begin + pick] == target[begin + width - 1];
    hide Rearranges;
    LastPlaced(v, begin, width, target, pick);
  }

  lemma LastPlaced<E>(v: seq<E>, begin: nat, width: nat, target: seq<E>, pick: nat)
    requires width >= 2 && Rearranges(v, begin, begin + width, target)
    requires pick < width && v[begin + pick] == target[begin + width - 1]
    ensures Rearranges(Swapped(v, begin + pick, begin + width - 1), begin, begin + width - 1, target)
  {
    SwappedPermutes(v, begin + pick, begin + width - 1);
  }

  lemma NothingToRearrange<E>(v: seq<E>, begin: nat, end: nat, target: seq<E>)
    requires Rearranges(v, begin, end, target) && end <= begin + 1
    ensures target == v
  {
    if begin < end {
      RangeElements(v, begin, end, target);
      assert v[begin..end] == [v[begin]] && target[begin..end] == [target[begin]];
      assert target[begin] in multiset([v[begin]]);
    }
  }

  lemma ShuffledByStep<E>(v: seq<E>, begin: nat, width: nat, pick: nat, rest: seq<nat>)
    requires begin + width <= |v| && width >= 2 && pick < width && ArePicks(rest, width - 1)
    ensures ArePicks([pick] + rest, width)
    ensures ShuffledBy(v, begin, width, [pick] + rest)
         == ShuffledBy(Swapped(v, begin + pick, begin + width - 1), begin, width - 1, rest)
  {
    var picks := [pick] + rest;
    assert picks[1..] == rest;
    forall k | 0 <= k < |picks|
      ensures picks[k] < width - k
    {
      assert k > 0 ==> picks[k] == rest[k - 1];
    }
  }

  /** With an ideal generator no order would be out of reach: some picks give any rearrangement. */
  lemma {:induction false} PicksFor<E>(v: seq<E>, begin: nat, width: nat, target: seq<E>) returns (picks: seq<nat>)
    requires Rearranges(v, begin, begin + width, target)
    ensures ArePicks(picks, width) && ShuffledBy(v, begin, width, picks) == target
    decreases width
  {
    if width < 2 {
      picks := [];
      NothingToRearrange(v, begin, begin + width, target);
    } else {
      var pick := PickFor(v, begin, width, target);
      var rest := PicksFor(Swapped(v, begin + pick, begin + width - 1), begin, width - 1, target);
      picks := [pick] + rest;
      ShuffledByStep(v, begin, width, pick, rest);
    }
  }

  predicate Distinct<E(==)>(v: seq<E>, begin: nat, width: nat)
    requires begin + width <= |v|
  {
    forall i, j :: begin <= i < j < begin + width ==> v[i] != v[j]
  }

  /** And only those picks do, if the elements differ. */
  lemma {:induction false} PicksDetermined<E>(v: seq<E>, begin: nat, width: nat, picks: seq<nat>, others: seq<nat>)
    requires begin + width <= |v| && Distinct(v, begin, width)
    requires ArePicks(picks, width) && ArePicks(others, width)
    requires ShuffledBy(v, begin, width, picks) == ShuffledBy(v, begin, width, others)
    ensures picks == others
    decreases width
  {
    if width >= 2 {
      FirstPick(v, begin, width, picks);
      FirstPick(v, begin, width, others);
      hide ShuffledBy, Swapped;
      assert picks[0] == others[0];
      PicksDetermined(Swapped(v, begin + picks[0], begin + width - 1), begin, width - 1, picks[1..], others[1..]);
      assert picks == [picks[0]] + picks[1..] && others == [others[0]] + others[1..];
    }
  }

  /** The first pick decides which element comes last; the others only move those before it. */
  lemma FirstPick<E>(v: seq<E>, begin: nat, width: nat, picks: seq<nat>)
    requires begin + width <= |v| && width >= 2 && ArePicks(picks, width) && Distinct(v, begin, width)
    ensures ShuffledBy(v, begin, width, picks)[begin + width - 1] == v[begin + picks[0]]
    ensures var w := Swapped(v, begin + picks[0], begin + width - 1);
      && ArePicks(picks[1..], width - 1) && Distinct(w, begin, width - 1)
      && ShuffledBy(v, begin, width, picks) == ShuffledBy(w, begin, width - 1, picks[1..])
  {
    ShuffledByPermutes(Swapped(v, begin + picks[0], begin + width - 1), begin, width - 1, picks[1..]);
    SwappedDistinct(v, begin, width, picks[0]);
    hide Distinct;
  }

  lemma SwappedDistinct<E>(v: seq<E>, begin: nat, width: nat, pick: nat)
    requires begin + width <= |v| && pick < width && Distinct(v, begin, width)
    ensures Distinct(Swapped(v, begin + pick, begin + width - 1), begin, width - 1)
  {
    var last := begin + width - 1;
    var w := Swapped(v, begin + pick, last);
    forall i, j | begin <= i < j < last
      ensures w[i] != w[j]
    {
      assert v[if i == begin + pick then last else i] != v[if j == begin + pick then last else j];
    }
  }

  // ----- The orders that the generator reaches -----

  lemma PicksStep(state: nat, width: nat)
    requires width >= 2
    ensures Picks(state, width)[0] == NextState(state) % width
    ensures Picks(state, width)[1..] == Picks(NextState(state), width - 1)
  {
    hide NextState;
  }

  lemma {:induction false} PickOfState(state: nat, width: nat, k: nat)
    requires k + 1 < width
    ensures Picks(state, width)[k] == NthState(state, k + 1) % (width - k)
    decreases k
  {
    hide NextState, Picks;
    PicksStep(state, width);
    NthStateOfSum(state, 1, k);
    assert NthState(state, 1) == NextState(NthState(state, 0)) == NextState(state);
    if k > 0 {
      PickOfState(NextState(state), width - 1, k - 1);
      assert Picks(state, width)[k] == Picks(NextState(state), width - 1)[k - 1];
    }
  }

  /**
    The picks from numbers of elements divisible by 2^e have the same low e bits: they lie a
    multiple of 2^e steps apart, after which the generator's low bits are the same.
   */
  lemma LowBitsAgree(state: nat, width: nat, e: nat, i: nat, j: nat)
    requires i <= j && j + 1 < width && e <= 31
    requires (width - i) % Pow2(e) == 0 && (width - j) % Pow2(e) == 0
    ensures Picks(state, width)[i] % Pow2(e) == Picks(state, width)[j] % Pow2(e)
  {
    hide Picks, Pow2, NthState;
    PickOfState(state, width, i);
    PickOfState(state, width, j);
    var m := Pow2(e);
    var u, v := (width - i) / m, (width - j) / m;
    var q := Multiples(width - i, width - j, m, u, v);
    ModOfMultiple(NthState(state, i + 1), u, m);
    ModOfMultiple(NthState(state, j + 1), v, m);
    LowBitsRepeat(state, i + 1, e, q);
  }

  lemma Multiples(a: nat, b: nat, m: nat, u: nat, v: nat) returns (q: nat)
    requires m > 0 && 0 < b <= a && a % m == 0 && b % m == 0 && u == a / m && v == b / m
    ensures u > 0 && v > 0 && a == u * m && b == v * m && a - b == q * m
  {
    assert a == u * m && b == v * m;
    if u < v {
      MulMonotone(u + 1, v, m);
    }
    q := u - v;
  }

  /** So the picks from even numbers of elements are all even or all odd. */
  lemma EvenPicksAgree(state: nat, width: nat, i: nat, j: nat)
    requires i + 1 < width && j + 1 < width && (width - i) % 2 == 0 && (width - j) % 2 == 0
    ensures Picks(state, width)[i] % 2 == Picks(state, width)[j] % 2
  {
    hide Picks;
    assert Pow2(1) == 2 * Pow2(0) == 2;
    if i <= j {
      LowBitsAgree(state, width, 1, i, j);
    } else {
      LowBitsAgree(state, width, 1, j, i);
    }
  }

  /** The order that comes of one odd pick among even ones. */
  function Missed<E>(v: seq<E>, begin: nat, width: nat): seq<E>
    requires begin + width <= |v| && width >= 4
  {
    ShuffledBy(v, begin, width, OneOddPick(width))
  }

  function OneOddPick(width: nat): (picks: seq<nat>)
    requires width >= 4
    ensures ArePicks(picks, width)
  {
    seq(width - 1, k => if k == 2 + width % 2 then 1 else 0)
  }

  lemma MissedByAll<E>(v: seq<E>, begin: nat, width: nat, state: nat)
    requires begin + width <= |v| && width >= 4 && Distinct(v, begin, width)
    ensures Rearranges(v, begin, begin + width, Missed(v, begin, width))
    ensures Shuffled(v, begin, width, state) != Missed(v, begin, width)
  {
    hide ShuffledBy, Picks;
    ShuffledByPermutes(v, begin, width, OneOddPick(width));
    if Shuffled(v, begin, width, state) == Missed(v, begin, width) {
      PicksDetermined(v, begin, width, Picks(state, width), OneOddPick(width));
      EvenPicksAgree(state, width, width % 2, 2 + width % 2);
    }
  }

  /** One of the orders of four elements that no state gives. */
  lemma MissedOfFour(state: nat)
    ensures Shuffled([0, 1, 2, 3], 0, 4, state) != [2, 1, 3, 0]
  {
    MissedByAll([0, 1, 2, 3], 0, 4, state);
    hide Shuffled, Rearranges, Missed;
    MissedFromFour();
  }

  lemma MissedFromFour()
    ensures Missed([0, 1, 2, 3], 0, 4) == [2, 1, 3, 0]
  {
    hide ShuffledBy;
    assert OneOddPick(4) == [0] + ([0] + ([1] + []));
    TwoSwaps();
    ShuffledByStep([0, 1, 2, 3], 0, 4, 0, [0] + ([1] + []));
    ShuffledByStep([3, 1, 2, 0], 0, 3, 0, [1] + []);
    ShuffledByStep([2, 1, 3, 0], 0, 2, 1, []);
    NothingShuffled([2, 1, 3, 0], 0, []);
  }

  lemma NothingShuffled<E>(v: seq<E>, begin: nat, picks: seq<nat>)
    requires begin < |v| && ArePicks(picks, 1)
    ensures ShuffledBy(v, begin, 1, picks) == v
  {
  }

  lemma TwoSwaps()
    ensures Swapped([0, 1, 2, 3], 0, 3) == [3, 1, 2, 0] && Swapped([3, 1, 2, 0], 0, 2) == [2, 1, 3, 0]
    ensures Swapped([2, 1, 3, 0], 1, 1) == [2, 1, 3, 0]
  {
  }

  /** `next` follows `state`; the quotient `q` saves dividing. */
  predicate Steps(state: nat, q: nat, next: nat) {
    1103515245 * state + 12345 == MAX_RANGE * q + next && next < MAX_RANGE
  }

  lemma StepsTo(state: nat, q: nat, next: nat)
    requires Steps(state, q, next)
    ensures NextState(state) == next
  {
    DoubleRemainder(1103515245 * state + 12345, q, next);
  }

  lemma DoubleRemainder(n: nat, q: nat, r: nat)
    requires n == MAX_RANGE * q + r && r < MAX_RANGE
    ensures n % 0x1_0000_0000 % MAX_RANGE == r
  {
    assert q == 2 * (q / 2) + q % 2;
    assert n % 0x1_0000_0000 == MAX_RANGE * (q % 2) + r;
  }

  lemma PicksFromThree(state: nat, q: nat, a: nat, q': nat, b: nat)
    requires Steps(state, q, a) && Steps(a, q', b)
    ensures Picks(state, 3) == [a % 3, b % 2]
  {
    StepsTo(state, q, a);
    StepsTo(a, q', b);
    hide NextState, Steps;
    assert Picks(b, 1) == [];
    PicksStep(a, 2);
    hide Picks;
    PicksStep(state, 3);
  }

  lemma PicksFromFour(state: nat, q: nat, a: nat, q': nat, b: nat, q'': nat, c: nat)
    requires Steps(state, q, a) && Steps(a, q', b) && Steps(b, q'', c)
    ensures Picks(state, 4) == [a % 4, b % 3, c % 2]
  {
    StepsTo(state, q, a);
    PicksFromThree(a, q', b, q'', c);
    hide NextState, Picks, Steps;
    PicksStep(state, 4);
  }

  /** The picks from up to three elements are those of some seed. */
  lemma PicksOfSeeds(width: nat, picks: seq<nat>) returns (seed: nat)
    requires width <= 3 && ArePicks(picks, width)
    ensures 1 <= seed <= MAX_RANDOM_SEED && Picks(seed, width) == picks
  {
    if width == 3 {
      seed := ThreePicksOfSeeds(picks);
    } else if width == 2 {
      seed := 1 + picks[0];
    } else {
      seed := 1;
    }
  }

  lemma ThreePicksOfSeeds(picks: seq<nat>) returns (seed: nat)
    requires ArePicks(picks, 3)
    ensures 1 <= seed <= MAX_RANDOM_SEED && Picks(seed, 3) == picks
  {
    hide Picks;
    if 2 * picks[0] + picks[1] == 0 {
      seed := 6;
      PicksFromThree(6, 3, 178652871, 91803337, 1672197364);
    } else if 2 * picks[0] + picks[1] == 1 {
      seed := 1;
      PicksFromThree(1, 0, 1103527590, 567063465, 377401575);
    } else if 2 * picks[0] + picks[1] == 2 {
      seed := 2;
      PicksFromThree(2, 1, 59559187, 30605341, 1495354192);
    } else if 2 * picks[0] + picks[1] == 3 {
      seed := 3;
      PicksFromThree(3, 1, 1163074432, 597662463, 465823161);
    } else if 2 * picks[0] + picks[1] == 4 {
      seed := 4;
      PicksFromThree(4, 2, 119106029, 61204339, 1583775778);
    } else {
      seed := 5;
      PicksFromThree(5, 2, 1222621274, 628261461, 554244747);
    }
  }

  ghost predicate Reached<E>(v: seq<E>, begin: nat, width: nat, target: seq<E>)
    requires begin + width <= |v|
  {
    exists state: nat :: Shuffled(v, begin, width, state) == target
  }

  ghost predicate ReachedBySeed<E>(v: seq<E>, begin: nat, width: nat, target: seq<E>)
    requires begin + width <= |v|
  {
    exists seed: nat :: 1 <= seed <= MAX_RANDOM_SEED && Shuffled(v, begin, width, seed) == target
  }

  /**
    The shuffle reaches every order of distinct elements iff there are at most three of
    them; and those orders it reaches from the seeds that a run can have.
   */
  lemma EveryOrderReachedIff<E>(v: seq<E>, begin: nat, width: nat)
    requires begin + width <= |v| && Distinct(v, begin, width)
    ensures (forall target :: Rearranges(v, begin, begin + width, target) ==> Reached(v, begin, width, target))
       <==> width <= 3
    ensures width <= 3 ==>
      forall target :: Rearranges(v, begin, begin + width, target) ==> ReachedBySeed(v, begin, width, target)
  {
    hide Picks, ShuffledBy, Missed;
    if width <= 3 {
      forall target | Rearranges(v, begin, begin + width, target)
        ensures Reached(v, begin, width, target) && ReachedBySeed(v, begin, width, target)
      {
        var picks := PicksFor(v, begin, width, target);
        var seed := PicksOfSeeds(width, picks);
        assert Shuffled(v, begin, width, seed) == target;
      }
    } else {
      MissedByAll(v, begin, width, 0);
      forall state: nat
        ensures Shuffled(v, begin, width, state) != Missed(v, begin, width)
      {
        MissedByAll(v, begin, width, state);
      }
      assert !Reached(v, begin, width, Missed(v, begin, width));
    }
  }

  /** Picks whose low bits agree as those of the generator do. */
  ghost predicate Agreeing(picks: seq<nat>, width: nat) {
    forall e: nat, i: nat, j: nat :: e <= 31 && i <= j < |picks| < width && (width - i) % Pow2(e) == 0 == (width - j) % Pow2(e) ==>
      picks[i] % Pow2(e) == picks[j] % Pow2(e)
  }

  /** What every order that is reached, of any number of distinct elements, has in common. */
  lemma ReachedOrdersAgree<E>(v: seq<E>, begin: nat, width: nat, picks: seq<nat>)
    requires begin + width <= |v| && Distinct(v, begin, width) && ArePicks(picks, width)
    requires Reached(v, begin, width, ShuffledBy(v, begin, width, picks))
    ensures Agreeing(picks, width)
  {
    hide Picks, ShuffledBy;
    var state: nat :| Shuffled(v, begin, width, state) == ShuffledBy(v, begin, width, picks);
    PicksDetermined(v, begin, width, Picks(state, width), picks);
    forall e: nat, i: nat, j: nat | e <= 31 && i <= j < |picks| < width && (width - i) % Pow2(e) == 0 == (width - j) % Pow2(e)
      ensures picks[i] % Pow2(e) == picks[j] % Pow2(e)
    {
      LowBitsAgree(state, width, e, i, j);
    }
  }

  /** Of the orders of four elements, exactly those of picks with equal low bits are reached. */
  lemma ReachedOfFourIff<E>(v: seq<E>, begin: nat, picks: seq<nat>)
    requires begin + 4 <= |v| && Distinct(v, begin, 4) && ArePicks(picks, 4)
    ensures Reached(v, begin, 4, ShuffledBy(v, begin, 4, picks)) <==> picks[2] == picks[0] % 2
    ensures Reached(v, begin, 4, ShuffledBy(v, begin, 4, picks))
       <==> ReachedBySeed(v, begin, 4, ShuffledBy(v, begin, 4, picks))
  {
    hide Picks, ShuffledBy;
    if picks[2] == picks[0] % 2 {
      var seed := FourPicksOfSeeds(picks);
      assert Shuffled(v, begin, 4, seed) == ShuffledBy(v, begin, 4, picks);
    }
    if Reached(v, begin, 4, ShuffledBy(v, begin, 4, picks)) {
      var state: nat :| Shuffled(v, begin, 4, state) == ShuffledBy(v, begin, 4, picks);
      PicksDetermined(v, begin, 4, Picks(state, 4), picks);
      EvenPicksAgree(state, 4, 0, 2);
    }
  }

  lemma FourPicksOfSeeds(picks: seq<nat>) returns (seed: nat)
    requires ArePicks(picks, 4) && picks[2] == picks[0] % 2
    ensures 1 <= seed <= MAX_RANDOM_SEED && Picks(seed, 4) == picks
  {
    hide Picks, NextState;
    match picks[0]
    case 0 => seed := FourPicksFrom0(picks);
    case 1 => seed := FourPicksFrom1(picks);
    case 2 => seed := FourPicksFrom2(picks);
    case _ => seed := FourPicksFrom3(picks);
  }

  lemma FourPicksFrom0(picks: seq<nat>) returns (seed: nat)
    requires ArePicks(picks, 4) && picks[0] == 0 && picks[2] == 0
    ensures 1 <= seed <= MAX_RANDOM_SEED && Picks(seed, 4) == picks
  {
    hide Picks;
    if picks[1] == 0 {
      seed := 3;
      PicksFromFour(3, 1, 1163074432, 597662463, 465823161, 239369906, 679304702);
    } else if picks[1] == 1 {
      seed := 43;
      PicksFromFour(43, 22, 206527624, 106127179, 86771233, 44588641, 1008917062);
    } else {
      seed := 91;
      PicksFromFour(91, 46, 1635651832, 840503132, 61405649, 31554172, 1404451894);
    }
  }

  lemma FourPicksFrom1(picks: seq<nat>) returns (seed: nat)
    requires ArePicks(picks, 4) && picks[0] == 1 && picks[2] == 1
    ensures 1 <= seed <= MAX_RANDOM_SEED && Picks(seed, 4) == picks
  {
    hide Picks;
    if picks[1] == 0 {
      seed := 68;
      PicksFromFour(68, 34, 2024604973, 1040372277, 118299234, 60789756, 1214924787);
    } else if picks[1] == 1 {
      seed := 4;
      PicksFromFour(4, 2, 119106029, 61204339, 1583775778, 813845878, 687545011);
    } else {
      seed := 20;
      PicksFromFour(20, 10, 595480765, 305996324, 143664818, 73824225, 819389955);
    }
  }

  lemma FourPicksFrom2(picks: seq<nat>) returns (seed: nat)
    requires ArePicks(picks, 4) && picks[0] == 2 && picks[2] == 0
    ensures 1 <= seed <= MAX_RANDOM_SEED && Picks(seed, 4) == picks
  {
    hide Picks;
    if picks[1] == 0 {
      seed := 1;
      PicksFromFour(1, 0, 1103527590, 567063465, 377401575, 193933207, 662824084);
    } else if picks[1] == 1 {
      seed := 45;
      PicksFromFour(45, 23, 266074466, 136726177, 175192819, 90025340, 1025397680);
    } else {
      seed := 93;
      PicksFromFour(93, 47, 1695198674, 871102130, 149827235, 76990871, 1420932512);
    }
  }

  lemma FourPicksFrom3(picks: seq<nat>) returns (seed: nat)
    requires ArePicks(picks, 4) && picks[0] == 3 && picks[2] == 1
    ensures 1 <= seed <= MAX_RANDOM_SEED && Picks(seed, 4) == picks
  {
    hide Picks;
    if picks[1] == 0 {
      seed := 66;
      PicksFromFour(66, 33, 1965058131, 1009773279, 29877648, 15353057, 1198444169);
    } else if picks[1] == 1 {
      seed := 2;
      PicksFromFour(2, 1, 59559187, 30605341, 1495354192, 768409179, 671064393);
    } else {
      seed := 18;
      PicksFromFour(18, 9, 535933923, 275397326, 55243232, 28387526, 802909337);
    }
  }

  // ----- Seeds -----

  /** `flag` as given by --gtest_random_seed; 0 means the time of day is used. */
  function RandomSeedFromFlag(flag: int, timeInMillis: nat): (seed: nat)
    requires -0x8000_0000 <= flag < 0x8000_0000
    ensures 1 <= seed <= MAX_RANDOM_SEED
    ensures 1 <= flag <= MAX_RANDOM_SEED ==> seed == flag
  {
    var raw := if flag == 0 then timeInMillis % 0x1_0000_0000 else flag % 0x1_0000_0000;
    (raw - 1) % 0x1_0000_0000 % MAX_RANDOM_SEED + 1
  }

  /** The seed is the flag, or the time for flag 0, as 32 bits, counted from 1 and reduced modulo 99999. */
  lemma SeedOfFlag(flag: int, timeInMillis: nat, raw: nat)
    requires -0x8000_0000 <= flag < 0x8000_0000
    requires raw == if flag > 0 then flag else if flag < 0 then flag + 0x1_0000_0000 else timeInMillis % 0x1_0000_0000
    ensures raw > 0 ==> (raw - RandomSeedFromFlag(flag, timeInMillis)) % 99999 == 0
    ensures raw == 0 ==> RandomSeedFromFlag(flag, timeInMillis) == 10246
  {
    hide RandomSeedFromFlag;
    if raw > 0 {
      SeedOfRaw(flag, timeInMillis, raw);
      CountedFrom1(raw);
    } else {
      SeedOfZero(flag, timeInMillis);
    }
  }

  lemma SeedOfZero(flag: int, timeInMillis: nat)
    requires flag == 0 && timeInMillis % 0x1_0000_0000 == 0
    ensures RandomSeedFromFlag(flag, timeInMillis) == 10246
  {
  }

  lemma SeedOfRaw(flag: int, timeInMillis: nat, raw: nat)
    requires -0x8000_0000 <= flag < 0x8000_0000 && raw > 0
    requires raw == if flag > 0 then flag else if flag < 0 then flag + 0x1_0000_0000 else timeInMillis % 0x1_0000_0000
    ensures RandomSeedFromFlag(flag, timeInMillis) == (raw - 1) % 99999 + 1
  {
  }

  lemma CountedFrom1(raw: int)
    ensures (raw - ((raw - 1) % 99999 + 1)) % 99999 == 0
  {
    var q := (raw - 1) / 99999;
    assert raw - ((raw - 1) % 99999 + 1) == 99999 * q;
  }

  function NextRandomSeed(seed: nat): (next: nat)
    requires 1 <= seed <= MAX_RANDOM_SEED
    ensures 1 <= next <= MAX_RANDOM_SEED
  {
    if seed + 1 > MAX_RANDOM_SEED then 1 else seed + 1
  }

  /** The seed of the `n`-th iteration. */
  function SeedAt(first: nat, n: nat): (seed: nat)
    requires 1 <= first <= MAX_RANDOM_SEED
    ensures 1 <= seed <= MAX_RANDOM_SEED
  {
    if n == 0 then first else NextRandomSeed(SeedAt(first, n - 1))
  }

  /** Seeds repeat after exactly MAX_RANDOM_SEED iterations. */
  lemma SeedsCycle(first: nat, m: nat, n: nat)
    requires 1 <= first <= MAX_RANDOM_SEED
    ensures SeedAt(first, m) == SeedAt(first, n) <==> m % MAX_RANDOM_SEED == n % MAX_RANDOM_SEED
  {
    hide SeedAt;
    SeedAtValue(first, m);
    SeedAtValue(first, n);
    SameRemainder(first - 1, m, n);
  }

  lemma SameRemainder(a: nat, m: nat, n: nat)
    requires a < MAX_RANDOM_SEED
    ensures (a + m) % MAX_RANDOM_SEED == (a + n) % MAX_RANDOM_SEED <==> m % MAX_RANDOM_SEED == n % MAX_RANDOM_SEED
  {
    ModAdd(a, m);
    ModAdd(a, n);
  }

  lemma ModAdd(a: nat, n: nat)
    requires a < MAX_RANDOM_SEED
    ensures var r := a + n % MAX_RANDOM_SEED;
      (a + n) % MAX_RANDOM_SEED == if r < MAX_RANDOM_SEED then r else r - MAX_RANDOM_SEED
  {
    var q, r := n / MAX_RANDOM_SEED, a + n % MAX_RANDOM_SEED;
    assert a + n == MAX_RANDOM_SEED * q + r;
  }

  lemma {:induction false} SeedAtValue(first: nat, n: nat)
    requires 1 <= first <= MAX_RANDOM_SEED
    ensures SeedAt(first, n) == (first - 1 + n) % MAX_RANDOM_SEED + 1
  {
    if n > 0 {
      SeedAtValue(first, n - 1);
    }
  }
}
