/**
  UnitTestImpl, the object that keeps the test cases, updated in place. Test cases and
  tests are values in its vectors; an index stands for a pointer to one. Each method is
  tied to the functions of module TestRegistry.
 */
module UnitTests {
  import opened Common
  import opened GlobFilter
  import opened RandomNumbers
  import opened Shuffling
  import opened TestRegistry

  datatype TestInfo = TestInfo(name: string, isDisabled: bool, matchesFilter: bool, shouldRun: bool)

  datatype TestCase = TestCase(name: string, tests: seq<TestInfo>, testIndices: seq<int>, shouldRun: bool)

  function NamesOf(cases: seq<TestCase>): (names: seq<string>)
    ensures |names| == |cases| && forall i :: 0 <= i < |names| ==> names[i] == cases[i].name
  {
    seq(|cases|, i requires 0 <= i < |cases| => cases[i].name)
  }

  function TestNames(tests: seq<TestInfo>): (names: seq<string>)
    ensures |names| == |tests| && forall j :: 0 <= j < |tests| ==> names[j] == tests[j].name
  {
    seq(|tests|, j requires 0 <= j < |tests| => tests[j].name)
  }

  function SuiteOf(cases: seq<TestCase>): (suite: seq<SuiteCase>)
    ensures |suite| == |cases|
    ensures forall i :: 0 <= i < |suite| ==> suite[i] == SuiteCase(cases[i].name, TestNames(cases[i].tests))
  {
    seq(|cases|, i requires 0 <= i < |cases| => SuiteCase(cases[i].name, TestNames(cases[i].tests)))
  }

  function OrdersOf(cases: seq<TestCase>): (orders: seq<seq<int>>)
    ensures |orders| == |cases| && forall i :: 0 <= i < |orders| ==> orders[i] == cases[i].testIndices
  {
    seq(|cases|, i requires 0 <= i < |cases| => cases[i].testIndices)
  }

  /** `more` are the same test cases with other orders of their tests. */
  predicate Reordered(cases: seq<TestCase>, more: seq<TestCase>) {
    |more| == |cases| && forall i :: 0 <= i < |cases| ==> more[i] == cases[i].(testIndices := more[i].testIndices)
  }

  predicate IsPermutation(indices: seq<int>, n: nat) {
    |indices| == n && multiset(indices) == multiset(Identity(n))
  }

  lemma IdentityGrows(n: nat)
    ensures Identity(n) + [n] == Identity(n + 1)
    ensures IsPermutation(Identity(n + 1), n + 1)
  {
  }

  predicate NoRepeats(names: seq<string>) {
    forall i, j :: 0 <= i < j < |names| ==> names[i] != names[j]
  }

  lemma RegisterKeeps(r: Registry, name: string)
    requires Ordered(r) && NoRepeats(r.names)
    ensures Ordered(Register(r, name)) && NoRepeats(Register(r, name).names)
  {
    hide IsDeath;
    if name !in r.names {
      var at := if IsDeath(name) then r.lastDeath + 1 else |r.names|;
      InsertedText(r.names, at, name);
      InsertedOnce(r.names, at, name);
      hide Inserted, NoRepeats;
    }
  }

  lemma InsertedOnce(names: seq<string>, at: nat, name: string)
    requires at <= |names| && NoRepeats(names) && name !in names
    ensures NoRepeats(Inserted(names, at, name))
  {
  }

  lemma InsertedText<T>(s: seq<T>, at: nat, x: T)
    requires at <= |s|
    ensures Inserted(s, at, x) == s[..at] + [x] + s[at..]
    ensures at == |s| ==> Inserted(s, at, x) == s + [x]
  {
  }

  /** A test case added at `at`, as seen in the names. */
  lemma InsertedNames(cases: seq<TestCase>, at: nat, c: TestCase)
    requires at <= |cases|
    ensures NamesOf(Inserted(cases, at, c)) == Inserted(NamesOf(cases), at, c.name)
  {
  }

  predicate OrdersComplete(cases: seq<TestCase>) {
    forall i :: 0 <= i < |cases| ==> IsPermutation(cases[i].testIndices, |cases[i].tests|)
  }

  ghost predicate ValidCases(cases: seq<TestCase>, lastDeath: int) {
    && Ordered(Registry(NamesOf(cases), lastDeath))
    && NoRepeats(NamesOf(cases))
    && OrdersComplete(cases)
  }

  predicate UnshuffledCases(cases: seq<TestCase>) {
    forall i :: 0 <= i < |cases| ==> cases[i].testIndices == Identity(|cases[i].tests|)
  }

  function NewCase(name: string): TestCase {
    TestCase(name, [], [], false)
  }

  function NewTest(name: string): TestInfo {
    TestInfo(name, false, false, false)
  }

  /** The test cases with a new test at the end of the c-th one. */
  function AppendTest(cases: seq<TestCase>, c: nat, name: string): seq<TestCase> {
    if c >= |cases| then cases
    else
      var tests := cases[c].tests + [NewTest(name)];
      cases[c := cases[c].(tests := tests, testIndices := Identity(|tests|))]
  }

  /** Where a new test case goes. */
  function NewIndex(name: string, count: nat, lastDeath: int): (at: nat)
    requires -1 <= lastDeath < count
    ensures at <= count
  {
    if IsDeath(name) then lastDeath + 1 else count
  }

  lemma InsertedIsRegistered(cases: seq<TestCase>, lastDeath: int, name: string)
    requires ValidCases(cases, lastDeath) && UnshuffledCases(cases)
    requires name !in NamesOf(cases)
    ensures var more := Inserted(cases, NewIndex(name, |cases|, lastDeath), NewCase(name));
      var last := if IsDeath(name) then lastDeath + 1 else lastDeath;
      && ValidCases(more, last) && UnshuffledCases(more)
      && Registry(NamesOf(more), last) == Register(Registry(NamesOf(cases), lastDeath), name)
  {
    hide IsDeath;
    var at := NewIndex(name, |cases|, lastDeath);
    RegisterKeeps(Registry(NamesOf(cases), lastDeath), name);
    InsertedNames(cases, at, NewCase(name));
    InsertedText(NamesOf(cases), at, name);
    assert Identity(0) == [];
  }

  /** `std::find_if` with TestCaseNameIs. */
  method FindCase(cases: seq<TestCase>, name: string) returns (at: Option<nat>)
    ensures at.None? ==> name !in NamesOf(cases)
    ensures at.Some? ==> at.value < |cases| && cases[at.value].name == name && name in NamesOf(cases)
  {
    var i := 0;
    while i < |cases|
      invariant 0 <= i <= |cases|
      invariant forall k :: 0 <= k < i ==> cases[k].name != name
    {
      if cases[i].name == name {
        assert NamesOf(cases)[i] == name;
        return Some(i);
      }
      i := i + 1;
    }
    return None;
  }

  // ----- A sequence of registrations -----

  datatype Registration = Registration(caseName: string, testName: string)

  function CaseNames(registrations: seq<Registration>): (names: seq<string>)
    ensures |names| == |registrations|
    ensures forall k :: 0 <= k < |names| ==> names[k] == registrations[k].caseName
  {
    seq(|registrations|, k requires 0 <= k < |registrations| => registrations[k].caseName)
  }

  /** The tests registered under a test case, in order. */
  function TestsOf(registrations: seq<Registration>, caseName: string): seq<string> {
    if registrations == [] then []
    else
      var before, last := TestsOf(registrations[..|registrations| - 1], caseName), registrations[|registrations| - 1];
      if last.caseName == caseName then before + [last.testName] else before
  }

  /** The cases are those registered, where registration puts them, and each holds exactly its own tests, in order. */
  ghost predicate Holds(cases: seq<TestCase>, lastDeath: int, registrations: seq<Registration>) {
    && Registry(NamesOf(cases), lastDeath) == RegisterAll(CaseNames(registrations))
    && forall i :: 0 <= i < |cases| ==> TestNames(cases[i].tests) == TestsOf(registrations, cases[i].name)
  }

  lemma {:induction false} NoTestsOf(registrations: seq<Registration>, caseName: string)
    requires caseName !in CaseNames(registrations)
    ensures TestsOf(registrations, caseName) == []
  {
    if registrations != [] {
      var before := registrations[..|registrations| - 1];
      assert CaseNames(registrations)[|before|] != caseName;
      assert CaseNames(before) == CaseNames(registrations)[..|before|];
      NoTestsOf(before, caseName);
    }
  }

  lemma OneMoreName(registrations: seq<Registration>, r: Registration)
    ensures RegisterAll(CaseNames(registrations + [r])) == Register(RegisterAll(CaseNames(registrations)), r.caseName)
    ensures forall name :: TestsOf(registrations + [r], name)
                        == TestsOf(registrations, name) + (if name == r.caseName then [r.testName] else [])
  {
    hide Register;
    var names := CaseNames(registrations + [r]);
    assert names[..|registrations|] == CaseNames(registrations);
    assert (registrations + [r])[..|registrations|] == registrations;
  }

  lemma SameNames(cases: seq<TestCase>, c: nat, testName: string)
    ensures NamesOf(AppendTest(cases, c, testName)) == NamesOf(cases)
    ensures c < |cases| ==> AppendTest(cases, c, testName)[c].name == cases[c].name
  {
    hide Identity;
  }

  /** A test case just created holds no tests, as none were registered under its name. */
  lemma CreatedHolds(cases: seq<TestCase>, lastDeath: int, registrations: seq<Registration>, name: string, at: nat)
    requires Holds(cases, lastDeath, registrations) && name !in NamesOf(cases) && at <= |cases|
    ensures forall i :: 0 <= i <= |cases| ==>
      var c := Inserted(cases, at, NewCase(name))[i]; TestNames(c.tests) == TestsOf(registrations, c.name)
  {
    RegisteredNames(CaseNames(registrations), name);
    NoTestsOf(registrations, name);
    hide Register, RegisterAll, TestsOf;
    assert TestNames([]) == [];
  }

  lemma AppendedHolds(cases: seq<TestCase>, registrations: seq<Registration>, c: nat, r: Registration)
    requires c < |cases| && cases[c].name == r.caseName && NoRepeats(NamesOf(cases))
    requires forall i :: 0 <= i < |cases| ==> TestNames(cases[i].tests) == TestsOf(registrations, cases[i].name)
    ensures var more := AppendTest(cases, c, r.testName);
      && NamesOf(more) == NamesOf(cases)
      && forall i :: 0 <= i < |cases| ==> TestNames(more[i].tests) == TestsOf(registrations + [r], more[i].name)
  {
    OneMoreName(registrations, r);
    hide Register, RegisterAll, TestsOf;
    var more := AppendTest(cases, c, r.testName);
    assert NamesOf(more) == NamesOf(cases);
    assert TestNames(more[c].tests) == TestNames(cases[c].tests) + [r.testName];
    forall i | 0 <= i < |cases| && i != c
      ensures cases[i].name != r.caseName
    {
      assert NamesOf(cases)[i] != NamesOf(cases)[c];
    }
  }

  // ----- The order of the tests within the test cases -----

  /** The generator's state after the test cases have been shuffled. */
  function StateAfterIndices(n: nat, deaths: nat, state: nat): nat
    requires deaths <= n
  {
    StateAfter(StateAfter(state, deaths), n - deaths)
  }

  /** The generator's state when the shuffle of the i-th test case begins. */
  function StateBefore(orders: seq<seq<int>>, state: nat, i: nat): nat
    requires i <= |orders|
  {
    if i == 0 then state else StateAfter(StateBefore(orders, state, i - 1), |orders[i - 1]|)
  }

  /** How many numbers it takes to shuffle `width` elements. */
  function Draws(width: nat): nat {
    if width < 2 then 0 else width - 1
  }

  function DrawsBefore(orders: seq<seq<int>>, i: nat): nat
    requires i <= |orders|
  {
    if i == 0 then 0 else DrawsBefore(orders, i - 1) + Draws(|orders[i - 1]|)
  }

  /** The shuffles take the generator's numbers one after the other, none twice and none left out. */
  lemma {:induction false} ConsecutiveStates(orders: seq<seq<int>>, n: nat, deaths: nat, state: nat, i: nat)
    requires i <= |orders| && deaths <= n
    ensures StateAfterIndices(n, deaths, state) == NthState(state, Draws(deaths) + Draws(n - deaths))
    ensures StateBefore(orders, state, i) == NthState(state, DrawsBefore(orders, i))
  {
    StateAfterDraws(state, deaths);
    StateAfterDraws(StateAfter(state, deaths), n - deaths);
    NthStateOfSum(state, Draws(deaths), Draws(n - deaths));
    hide StateAfter, NthState;
    if i == 0 {
      assert NthState(state, 0) == state by {
        NthStateOfNone(state);
      }
    } else {
      ConsecutiveStates(orders, n, deaths, state, i - 1);
      var before, width := DrawsBefore(orders, i - 1), |orders[i - 1]|;
      StateAfterDraws(NthState(state, before), width);
      NthStateOfSum(state, before, Draws(width));
    }
  }

  lemma NthStateOfNone(state: nat)
    ensures NthState(state, 0) == state
  {
  }

  function ShuffledOrders(orders: seq<seq<int>>, state: nat): (r: seq<seq<int>>)
    ensures |r| == |orders|
    ensures forall i :: 0 <= i < |r| ==> r[i] == Shuffled(orders[i], 0, |orders[i]|, StateBefore(orders, state, i))
  {
    seq(|orders|, i requires 0 <= i < |orders| => Shuffled(orders[i], 0, |orders[i]|, StateBefore(orders, state, i)))
  }

  lemma ShuffledOrdersPermute(orders: seq<seq<int>>, state: nat)
    ensures forall i :: 0 <= i < |orders| ==> multiset(ShuffledOrders(orders, state)[i]) == multiset(orders[i])
  {
    forall i | 0 <= i < |orders|
      ensures multiset(ShuffledOrders(orders, state)[i]) == multiset(orders[i])
    {
      var n := |orders[i]|;
      ShuffledByPermutes(orders[i], 0, n, Picks(StateBefore(orders, state, i), n));
    }
  }

  /** The order in which an iteration with the given seed visits `n` test cases. */
  function Order(n: nat, deaths: nat, seed: nat): seq<int>
    requires deaths <= n
  {
    ShuffledIndices(Identity(n), deaths, seed)
  }

  // ----- Which tests run, and in which order -----

  /** The j-th test of the i-th test case. */
  datatype TestId = TestId(i: int, j: int)

  predicate ShouldRun(c: TestCase, j: int) {
    c.shouldRun && 0 <= j < |c.tests| && c.tests[j].shouldRun
  }

  /** What runs when the tests of the i-th case are visited in the given order. */
  function RanInCase(c: TestCase, i: int, indices: seq<int>): seq<TestId> {
    if indices == [] then []
    else
      var before, j := RanInCase(c, i, indices[..|indices| - 1]), indices[|indices| - 1];
      if ShouldRun(c, j) then before + [TestId(i, j)] else before
  }

  /** What runs when the test cases are visited in the given order. */
  function Ran(cases: seq<TestCase>, order: seq<int>): seq<TestId> {
    if order == [] then []
    else
      var before, i := Ran(cases, order[..|order| - 1]), order[|order| - 1];
      if 0 <= i < |cases| then before + RanInCase(cases[i], i, cases[i].testIndices) else before
  }

  function ShuffledCases(cases: seq<TestCase>, state: nat): (r: seq<TestCase>)
    ensures Reordered(cases, r) && OrdersOf(r) == ShuffledOrders(OrdersOf(cases), state)
  {
    var orders := ShuffledOrders(OrdersOf(cases), state);
    seq(|cases|, i requires 0 <= i < |cases| => cases[i].(testIndices := orders[i]))
  }

  /** What runs in an iteration with the given seed. */
  function RanBySeed(cases: seq<TestCase>, deaths: nat, seed: nat): seq<TestId>
    requires deaths <= |cases|
  {
    Ran(ShuffledCases(cases, StateAfterIndices(|cases|, deaths, seed)), Order(|cases|, deaths, seed))
  }

  lemma {:induction false} RanInCaseCount(c: TestCase, i: int, indices: seq<int>, id: TestId)
    ensures multiset(RanInCase(c, i, indices))[id]
         == if id.i == i && ShouldRun(c, id.j) then multiset(indices)[id.j] else 0
  {
    if indices != [] {
      var before, j := indices[..|indices| - 1], indices[|indices| - 1];
      RanInCaseCount(c, i, before, id);
      assert indices == before + [j];
      hide ShouldRun;
      assert multiset(RanInCase(c, i, indices))
          == multiset(RanInCase(c, i, before)) + if ShouldRun(c, j) then multiset{TestId(i, j)} else multiset{};
    }
  }

  ghost predicate Precedes(indices: seq<int>, a: int, b: int) {
    exists x, y :: 0 <= x < y < |indices| && indices[x] == a && indices[y] == b
  }

  /** `s` is due before `t`: its case is, or it is the same case and its test is. */
  ghost predicate DueBefore(cases: seq<TestCase>, order: seq<int>, s: TestId, t: TestId) {
    exists p, q :: 0 <= p <= q < |order| && order[p] == s.i && order[q] == t.i
      && (p == q ==> 0 <= s.i < |cases| && Precedes(cases[s.i].testIndices, s.j, t.j))
  }

  lemma {:induction false} RanInCaseOrder(c: TestCase, i: int, indices: seq<int>, a: nat, b: nat)
    requires b < |RanInCase(c, i, indices)|
    ensures var ran := RanInCase(c, i, indices);
      ran[b].i == i && ran[b].j in indices && (a < b ==> Precedes(indices, ran[a].j, ran[b].j))
  {
    if indices != [] {
      hide ShouldRun;
      var before, last := indices[..|indices| - 1], |indices| - 1;
      var ran := RanInCase(c, i, before);
      if b < |ran| {
        RanInCaseOrder(c, i, before, a, b);
        if a < b {
          var x, y :| 0 <= x < y < |before| && before[x] == ran[a].j && before[y] == ran[b].j;
          assert indices[x] == before[x] && indices[y] == before[y];
        }
      } else if a < b {
        RanInCaseOrder(c, i, before, 0, a);
        var x :| 0 <= x < |before| && before[x] == ran[a].j;
        assert indices[x] == before[x] && indices[last] == RanInCase(c, i, indices)[b].j;
      } else {
        assert indices[last] == RanInCase(c, i, indices)[b].j;
      }
    }
  }

  /** What runs runs in the order of the cases and, within a case, of its tests. */
  lemma {:induction false} RanInOrder(cases: seq<TestCase>, order: seq<int>, a: nat, b: nat)
    requires b < |Ran(cases, order)|
    ensures var ran := Ran(cases, order);
      ran[b].i in order && (a < b ==> DueBefore(cases, order, ran[a], ran[b]))
  {
    if order != [] {
      hide RanInCase, Precedes;
      var before, last := order[..|order| - 1], |order| - 1;
      var ran := Ran(cases, before);
      if b < |ran| {
        RanInOrder(cases, before, a, b);
        if a < b {
          DueBeforeLonger(cases, order, ran[a], ran[b]);
        }
      } else {
        var i := order[last];
        var c := cases[i];
        RanInCaseOrder(c, i, c.testIndices, if a < |ran| then 0 else a - |ran|, b - |ran|);
        if a < |ran| {
          RanInOrder(cases, before, 0, a);
          var p :| 0 <= p < |before| && before[p] == ran[a].i;
          assert order[p] == before[p] && order[last] == i;
        } else if a < b {
          RanInCaseOrder(c, i, c.testIndices, 0, a - |ran|);
          assert order[last] == i;
        }
      }
    }
  }

  lemma DueBeforeLonger(cases: seq<TestCase>, order: seq<int>, s: TestId, t: TestId)
    requires order != [] && DueBefore(cases, order[..|order| - 1], s, t)
    ensures DueBefore(cases, order, s, t)
  {
    hide Precedes;
    var before := order[..|order| - 1];
    var p, q :| 0 <= p <= q < |before| && before[p] == s.i && before[q] == t.i
      && (p == q ==> 0 <= s.i < |cases| && Precedes(cases[s.i].testIndices, s.j, t.j));
    assert order[p] == before[p] && order[q] == before[q];
  }

  /** No test of a death test case runs after one of another case, whatever the seed. */
  lemma DeathTestsRunFirst(cases: seq<TestCase>, lastDeath: int, seed: nat, a: nat, b: nat)
    requires Ordered(Registry(NamesOf(cases), lastDeath))
    requires a < b < |RanBySeed(cases, lastDeath + 1, seed)|
    ensures var s, t := RanBySeed(cases, lastDeath + 1, seed)[a].i, RanBySeed(cases, lastDeath + 1, seed)[b].i;
      && 0 <= s < |cases| && 0 <= t < |cases|
      && (IsDeath(cases[t].name) ==> IsDeath(cases[s].name))
  {
    assert 0 <= lastDeath + 1 <= |NamesOf(cases)| == |cases|;
    hide *;
    var order := Order(|cases|, lastDeath + 1, seed);
    var shuffled := ShuffledCases(cases, StateAfterIndices(|cases|, lastDeath + 1, seed));
    RanOfSeed(cases, lastDeath + 1, seed);
    DeathsComeFirst(Registry(NamesOf(cases), lastDeath), seed);
    RanInOrder(shuffled, order, a, b);
    DueInOrder(cases, shuffled, order, Ran(shuffled, order)[a], Ran(shuffled, order)[b]);
  }

  lemma RanOfSeed(cases: seq<TestCase>, deaths: nat, seed: nat)
    requires deaths <= |cases|
    ensures RanBySeed(cases, deaths, seed)
         == Ran(ShuffledCases(cases, StateAfterIndices(|cases|, deaths, seed)), Order(|cases|, deaths, seed))
  {
  }

  lemma DueInOrder(cases: seq<TestCase>, shuffled: seq<TestCase>, order: seq<int>, s: TestId, t: TestId)
    requires DeathsFirst(NamesOf(cases), order) && DueBefore(shuffled, order, s, t)
    ensures 0 <= s.i < |cases| && 0 <= t.i < |cases|
    ensures IsDeath(cases[t.i].name) ==> IsDeath(cases[s.i].name)
  {
    hide Precedes, IsDeath;
    var p, q :| 0 <= p <= q < |order| && order[p] == s.i && order[q] == t.i;
    assert NamesOf(cases)[order[p]] == cases[s.i].name && NamesOf(cases)[order[q]] == cases[t.i].name;
  }

  lemma {:induction false} IdentityOnce(n: nat, i: int)
    ensures multiset(Identity(n))[i] == if 0 <= i < n then 1 else 0
  {
    if n > 0 {
      IdentityOnce(n - 1, i);
      assert Identity(n) == Identity(n - 1) + [n - 1];
    }
  }

  lemma {:induction false} RanCount(cases: seq<TestCase>, order: seq<int>, id: TestId)
    requires OrdersComplete(cases)
    ensures multiset(Ran(cases, order))[id]
         == if 0 <= id.i < |cases| && ShouldRun(cases[id.i], id.j) then multiset(order)[id.i] else 0
  {
    hide ShouldRun, RanInCase, IsPermutation;
    if order != [] {
      var before, i := order[..|order| - 1], order[|order| - 1];
      RanCount(cases, before, id);
      assert order == before + [i];
      if 0 <= i < |cases| {
        CaseRunsOnce(cases[i], i, id);
      }
    }
  }

  lemma CaseRunsOnce(c: TestCase, i: int, id: TestId)
    requires IsPermutation(c.testIndices, |c.tests|)
    ensures multiset(RanInCase(c, i, c.testIndices))[id] == if id.i == i && ShouldRun(c, id.j) then 1 else 0
  {
    RanInCaseCount(c, i, c.testIndices, id);
    IdentityOnce(|c.tests|, id.j);
  }

  /** Whatever the seed: each test that should run runs exactly once in an iteration, and nothing else does. */
  lemma EachTestOnce(cases: seq<TestCase>, deaths: nat, seed: nat, id: TestId)
    requires deaths <= |cases| && OrdersComplete(cases)
    ensures multiset(RanBySeed(cases, deaths, seed))[id]
         == if 0 <= id.i < |cases| && ShouldRun(cases[id.i], id.j) then 1 else 0
  {
    var state, order := StateAfterIndices(|cases|, deaths, seed), Order(|cases|, deaths, seed);
    ShuffleKeepsBlocks(|cases|, deaths, seed);
    ShuffledComplete(cases, state);
    hide ShuffledOrders, Order;
    RanCount(ShuffledCases(cases, state), order, id);
    IdentityOnce(|cases|, id.i);
  }

  lemma ShuffledComplete(cases: seq<TestCase>, state: nat)
    requires OrdersComplete(cases)
    ensures OrdersComplete(ShuffledCases(cases, state))
  {
    ShuffledOrdersPermute(OrdersOf(cases), state);
    hide ShuffledOrders;
    var r := ShuffledCases(cases, state);
    forall i | 0 <= i < |r|
      ensures IsPermutation(r[i].testIndices, |r[i].tests|)
    {
      assert r[i].testIndices == OrdersOf(r)[i];
      assert IsPermutation(cases[i].testIndices, |cases[i].tests|);
    }
  }

  /** Nothing is to be run. */
  predicate Idle(cases: seq<TestCase>) {
    forall c, j :: c in cases && 0 <= j < |c.tests| ==> !ShouldRun(c, j)
  }

  lemma {:induction false} NothingInCase(c: TestCase, i: int, indices: seq<int>)
    requires forall j :: 0 <= j < |c.tests| ==> !ShouldRun(c, j)
    ensures RanInCase(c, i, indices) == []
  {
    if indices != [] {
      NothingInCase(c, i, indices[..|indices| - 1]);
    }
  }

  lemma {:induction false} NothingInCases(cases: seq<TestCase>, order: seq<int>)
    requires Idle(cases)
    ensures Ran(cases, order) == []
  {
    if order != [] {
      NothingInCases(cases, order[..|order| - 1]);
      var i := order[|order| - 1];
      if 0 <= i < |cases| {
        NothingInCase(cases[i], i, cases[i].testIndices);
      }
    }
  }

  lemma NothingRuns(cases: seq<TestCase>, deaths: nat, seed: nat)
    requires deaths <= |cases| && Idle(cases)
    ensures RanBySeed(cases, deaths, seed) == []
  {
    var r := ShuffledCases(cases, StateAfterIndices(|cases|, deaths, seed));
    hide ShuffledCases, Order;
    forall c, j | c in r && 0 <= j < |c.tests|
      ensures !ShouldRun(c, j)
    {
      var i :| 0 <= i < |r| && r[i] == c;
      assert cases[i] in cases && !ShouldRun(cases[i], j);
    }
    NothingInCases(r, Order(|cases|, deaths, seed));
  }

  lemma SameOrders(cases: seq<TestCase>, a: seq<TestCase>, b: seq<TestCase>)
    requires Reordered(cases, a) && Reordered(cases, b) && OrdersOf(a) == OrdersOf(b)
    ensures a == b
  {
    forall i | 0 <= i < |a|
      ensures a[i] == b[i]
    {
      assert OrdersOf(a)[i] == OrdersOf(b)[i];
    }
  }

  /** The k-th run is that of the k-th seed. */
  predicate BySeed(runs: seq<seq<TestId>>, cases: seq<TestCase>, deaths: int, firstSeed: nat)
    requires 1 <= firstSeed <= MAX_RANDOM_SEED
  {
    0 <= deaths <= |cases| && forall k :: 0 <= k < |runs| ==> runs[k] == RanBySeed(cases, deaths, SeedAt(firstSeed, k))
  }

  lemma NoRuns(cases: seq<TestCase>, deaths: int, firstSeed: nat)
    requires 1 <= firstSeed <= MAX_RANDOM_SEED
    ensures 0 <= deaths <= |cases| ==> BySeed([], cases, deaths, firstSeed)
  {
  }

  lemma OneMoreRun(runs: seq<seq<TestId>>, cases: seq<TestCase>, deaths: int, firstSeed: nat, run: seq<TestId>)
    requires 1 <= firstSeed <= MAX_RANDOM_SEED
    requires BySeed(runs, cases, deaths, firstSeed) && run == RanBySeed(cases, deaths, SeedAt(firstSeed, |runs|))
    ensures BySeed(runs + [run], cases, deaths, firstSeed)
  {
    hide RanBySeed;
  }

  class UnitTestImpl {
    var testCases: seq<TestCase>
    var testCaseIndices: seq<int>
    var lastDeathTestCase: int
    const random: Random

    function View(): Registry
      reads this
    {
      Registry(NamesOf(testCases), lastDeathTestCase)
    }

    ghost predicate Valid()
      reads this
    {
      IsPermutation(testCaseIndices, |testCases|) && ValidCases(testCases, lastDeathTestCase)
    }

    /** No shuffle is in force. */
    predicate Unshuffled()
      reads this
    {
      testCaseIndices == Identity(|testCases|) && UnshuffledCases(testCases)
    }

    constructor (random: Random)
      ensures Valid() && Unshuffled() && View() == RegisterAll([]) && testCases == []
      ensures this.random == random && Holds(testCases, lastDeathTestCase, [])
    {
      this.random := random;
      testCases, testCaseIndices, lastDeathTestCase := [], [], -1;
    }

    /** Finds or creates a test case; the source excludes registration while a shuffle is in force. */
    method GetTestCase(name: string) returns (c: nat)
      requires Valid() && Unshuffled()
      modifies this`testCases, this`testCaseIndices, this`lastDeathTestCase
      ensures Valid() && Unshuffled()
      ensures View() == Register(old(View()), name)
      ensures c < |testCases| && testCases[c].name == name
      ensures if name in NamesOf(old(testCases)) then testCases == old(testCases)
              else
                && c == NewIndex(name, |old(testCases)|, old(lastDeathTestCase))
                && testCases == Inserted(old(testCases), c, NewCase(name))
    {
      hide IsDeath, ValidCases, UnshuffledCases, IsPermutation;
      var found := FindCase(testCases, name);
      if found.Some? {
        return found.value;
      }
      c := CreateTestCase(name);
    }

    /** No test case has the name yet. */
    method CreateTestCase(name: string) returns (c: nat)
      requires Valid() && Unshuffled() && name !in NamesOf(testCases)
      modifies this`testCases, this`testCaseIndices, this`lastDeathTestCase
      ensures Valid() && Unshuffled()
      ensures View() == Register(old(View()), name)
      ensures c == NewIndex(name, |old(testCases)|, old(lastDeathTestCase))
      ensures testCases == Inserted(old(testCases), c, NewCase(name))
    {
      ghost var at := NewIndex(name, |testCases|, lastDeathTestCase);
      ghost var more := Inserted(testCases, at, NewCase(name));
      InsertedIsRegistered(testCases, lastDeathTestCase, name);
      InsertedText(testCases, at, NewCase(name));
      IsDeathByFilter(name);
      IdentityGrows(|testCaseIndices|);
      hide FilterMatches, ValidCases, UnshuffledCases, Register, IsPermutation, NamesOf, Inserted, Identity;
      var death := MatchesFilter(name, DEATH_TEST_CASE_FILTER);
      assert at == if death then lastDeathTestCase + 1 else |testCases|;
      hide IsDeath, NewIndex;
      if death {
        lastDeathTestCase := lastDeathTestCase + 1;
        c := lastDeathTestCase;
        testCases := testCases[..c] + [NewCase(name)] + testCases[c..];
      } else {
        c := |testCases|;
        testCases := testCases + [NewCase(name)];
      }
      assert testCases == more;
      testCaseIndices := testCaseIndices + [|testCaseIndices|];
    }

    /** Registers a test under its test case. */
    method AddTestInfo(testCaseName: string, testName: string) returns (c: nat)
      requires Valid() && Unshuffled()
      modifies this`testCases, this`testCaseIndices, this`lastDeathTestCase
      ensures Valid() && Unshuffled()
      ensures View() == Register(old(View()), testCaseName)
      ensures c < |testCases| && testCases[c].name == testCaseName
      ensures var cases := old(testCases);
        testCases == AppendTest(
          if testCaseName in NamesOf(cases) then cases
          else Inserted(cases, NewIndex(testCaseName, |cases|, old(lastDeathTestCase)), NewCase(testCaseName)), c, testName)
    {
      c := GetTestCase(testCaseName);
      ghost var names := NamesOf(testCases);
      var test := NewTest(testName);
      IdentityGrows(|testCases[c].testIndices|);
      var tests, indices := testCases[c].tests + [test], testCases[c].testIndices + [|testCases[c].testIndices|];
      testCases := testCases[c := testCases[c].(tests := tests, testIndices := indices)];
      assert NamesOf(testCases) == names;
    }

    /** Registers one test after those registered before. */
    method RegisterOne(r: Registration, ghost past: seq<Registration>)
      requires Valid() && Unshuffled() && Holds(testCases, lastDeathTestCase, past)
      modifies this`testCases, this`testCaseIndices, this`lastDeathTestCase
      ensures Valid() && Unshuffled() && Holds(testCases, lastDeathTestCase, past + [r])
    {
      ghost var cases, view := testCases, View();
      ghost var at := NewIndex(r.caseName, |cases|, lastDeathTestCase);
      hide IsPermutation, UnshuffledCases, Identity, IsDeath, Register, RegisterAll, TestsOf, NewIndex;
      ghost var mid := if r.caseName in NamesOf(cases) then cases else Inserted(cases, at, NewCase(r.caseName));
      if r.caseName !in NamesOf(cases) {
        CreatedHolds(cases, lastDeathTestCase, past, r.caseName, at);
      }
      var c := AddTestInfo(r.caseName, r.testName);
      SameNames(mid, c, r.testName);
      AppendedHolds(mid, past, c, r);
      OneMoreName(past, r);
    }

    /** Registers a sequence of tests, after those registered before. */
    method RegisterTests(registrations: seq<Registration>, ghost past: seq<Registration>)
      requires Valid() && Unshuffled() && Holds(testCases, lastDeathTestCase, past)
      modifies this`testCases, this`testCaseIndices, this`lastDeathTestCase
      ensures Valid() && Unshuffled() && Holds(testCases, lastDeathTestCase, past + registrations)
    {
      hide Holds, UnitTestImpl.Valid, UnitTestImpl.Unshuffled;
      assert past + registrations[..0] == past;
      for k := 0 to |registrations|
        invariant Valid() && Unshuffled() && Holds(testCases, lastDeathTestCase, past + registrations[..k])
      {
        assert past + registrations[..k] + [registrations[k]] == past + registrations[..k + 1];
        RegisterOne(registrations[k], past + registrations[..k]);
      }
      assert registrations[..|registrations|] == registrations;
    }

    /** The i-th test case of the current order, if there is one. */
    method GetMutableTestCase(i: int) returns (c: Option<nat>)
      requires Valid()
      ensures c == if 0 <= i < |testCases| then Some(testCaseIndices[i]) else None
      ensures c.Some? ==> c.value < |testCases|
    {
      PermutationRange(testCaseIndices, |testCases|);
      if i < 0 || i >= |testCaseIndices| {
        return None;
      }
      c := Some(testCaseIndices[i]);
    }

    method ShuffleTests()
      requires Valid() && |testCases| <= MAX_RANGE && forall i :: 0 <= i < |testCases| ==> |testCases[i].tests| <= MAX_RANGE
      modifies this`testCases, this`testCaseIndices, random
      ensures Valid() && Reordered(old(testCases), testCases)
      ensures testCaseIndices == ShuffledIndices(old(testCaseIndices), lastDeathTestCase + 1, old(random.state))
      ensures OrdersOf(testCases) == ShuffledOrders(old(OrdersOf(testCases)),
                StateAfterIndices(|testCases|, lastDeathTestCase + 1, old(random.state)))
    {
      ShuffleCaseOrder();
      ghost var names := NamesOf(testCases);
      ShuffledOrdersPermute(OrdersOf(testCases), random.state);
      testCases := ShuffleEachCase(random, testCases);
      assert NamesOf(testCases) == names;
    }

    /** The first half of the shuffle: the death test cases, then the others. */
    method ShuffleCaseOrder()
      requires Valid() && |testCases| <= MAX_RANGE
      modifies this`testCaseIndices, random
      ensures Valid()
      ensures testCaseIndices == ShuffledIndices(old(testCaseIndices), lastDeathTestCase + 1, old(random.state))
      ensures random.state == StateAfterIndices(|testCases|, lastDeathTestCase + 1, old(random.state))
    {
      hide ShuffledBy, Picks, StateAfter;
      var deaths := lastDeathTestCase + 1;
      ShuffledIndicesPermutes(testCaseIndices, deaths, random.state);
      testCaseIndices := ShuffleRange(random, 0, deaths, testCaseIndices);
      testCaseIndices := ShuffleRange(random, deaths, |testCases|, testCaseIndices);
    }

    method UnshuffleTests()
      requires Valid()
      modifies this`testCases, this`testCaseIndices
      ensures Valid() && Unshuffled() && Reordered(old(testCases), testCases)
    {
      ghost var names := NamesOf(testCases);
      var i := 0;
      while i < |testCases|
        invariant 0 <= i <= |testCases| == |testCaseIndices|
        invariant Reordered(old(testCases), testCases)
        invariant forall k :: 0 <= k < i ==> testCaseIndices[k] == k
        invariant forall k :: 0 <= k < i ==> testCases[k].testIndices == Identity(|testCases[k].tests|)
        invariant forall k :: i <= k < |testCases| ==> testCases[k] == old(testCases)[k]
      {
        var indices := UnshuffledIndices(testCases[i].testIndices);
        testCases := testCases[i := testCases[i].(testIndices := indices)];
        testCaseIndices := testCaseIndices[i := i];
        i := i + 1;
      }
      assert testCaseIndices == Identity(|testCases|);
      assert NamesOf(testCases) == names;
    }

    lemma OrderOfIteration(seed: nat)
      requires Valid()
      ensures 0 <= lastDeathTestCase + 1 <= |testCases|
      ensures var order := Order(|testCases|, lastDeathTestCase + 1, seed);
        IsPermutation(order, |testCases|) && DeathsFirst(NamesOf(testCases), order)
    {
      DeathsComeFirst(View(), seed);
    }

    /** The loop over the test cases in their current order. */
    method RunCases() returns (visited: seq<nat>, ran: seq<TestId>)
      requires Valid()
      ensures visited == testCaseIndices && ran == Ran(testCases, testCaseIndices)
    {
      PermutationRange(testCaseIndices, |testCases|);
      hide RanInCase, IsPermutation;
      visited, ran := [], [];
      for testIndex := 0 to |testCases|
        invariant visited == testCaseIndices[..testIndex]
        invariant ran == Ran(testCases, testCaseIndices[..testIndex])
      {
        var c := GetMutableTestCase(testIndex);
        assert testCaseIndices[..testIndex + 1][..testIndex] == testCaseIndices[..testIndex];
        var inCase := RunCase(testCases[c.value], c.value);
        visited := visited + [c.value];
        ran := ran + inCase;
      }
      assert testCaseIndices[..|testCases|] == testCaseIndices;
    }

    /**
      One iteration of the run loop: reseed, shuffle, run, unshuffle. The order is a
      function of the seed; every test case is visited once, death test cases first; and
      the registry is afterwards as it was before.
     */
    method RunIteration(seed: nat) returns (visited: seq<nat>, ran: seq<TestId>)
      requires Valid() && Unshuffled()
      requires |testCases| <= MAX_RANGE && forall i :: 0 <= i < |testCases| ==> |testCases[i].tests| <= MAX_RANGE
      modifies this`testCases, this`testCaseIndices, random
      ensures Valid() && Unshuffled() && testCases == old(testCases) && testCaseIndices == old(testCaseIndices)
      ensures visited == Order(|testCases|, lastDeathTestCase + 1, seed)
      ensures IsPermutation(visited, |testCases|)
      ensures DeathsFirst(NamesOf(testCases), visited)
      ensures ran == RanBySeed(testCases, lastDeathTestCase + 1, seed)
    {
      hide UnitTestImpl.Valid, ShuffledIndices, ShuffledOrders, DeathsFirst, IsPermutation, Ran;
      OrderOfIteration(seed);
      random.Reseed(seed);
      ShuffleTests();
      ghost var state := StateAfterIndices(|testCases|, lastDeathTestCase + 1, seed);
      assert testCases == ShuffledCases(old(testCases), state) by {
        SameOrders(old(testCases), testCases, ShuffledCases(old(testCases), state));
      }
      visited, ran := RunCases();
      UnshuffleTests();
      assert testCases == old(testCases);
    }

    /** The loop over the iterations. */
    method Iterate(hasTestsToRun: bool, repeat: nat, firstSeed: nat) returns (runs: seq<seq<TestId>>)
      requires Valid() && Unshuffled() && 1 <= firstSeed <= MAX_RANDOM_SEED
      requires |testCases| <= MAX_RANGE && forall i :: 0 <= i < |testCases| ==> |testCases[i].tests| <= MAX_RANGE
      requires hasTestsToRun || Idle(testCases)
      modifies this`testCases, this`testCaseIndices, random
      ensures Valid() && Unshuffled() && testCases == old(testCases) && testCaseIndices == old(testCaseIndices)
      ensures |runs| == repeat && BySeed(runs, testCases, lastDeathTestCase + 1, firstSeed)
    {
      hide UnitTestImpl.Valid, UnitTestImpl.Unshuffled, IsPermutation, DeathsFirst, RanBySeed, Order;
      hide BySeed, NextRandomSeed, Idle;
      NoRuns(testCases, lastDeathTestCase + 1, firstSeed);
      OrderOfIteration(firstSeed);
      runs := [];
      var seed := firstSeed;
      var i := 0;
      while i != repeat
        invariant 0 <= i <= repeat && |runs| == i
        invariant Valid() && Unshuffled() && testCases == old(testCases) && testCaseIndices == old(testCaseIndices)
        invariant seed == SeedAt(firstSeed, i)
        invariant BySeed(runs, testCases, lastDeathTestCase + 1, firstSeed)
      {
        var visited, ran := [], [];
        if hasTestsToRun {
          visited, ran := RunIteration(seed);
        } else {
          NothingRuns(testCases, lastDeathTestCase + 1, seed);
        }
        OneMoreRun(runs, testCases, lastDeathTestCase + 1, firstSeed, ran);
        runs := runs + [ran];
        seed := NextRandomSeed(seed);
        i := i + 1;
      }
    }

    /**
      The whole run: decide which tests run, then iterate. Each iteration's order depends
      on its own seed only, and in each the tests selected by the options and the shard
      run exactly once, and no others.
     */
    method RunAllTests(o: Options, shard: Option<Shard>, repeat: nat, firstSeed: nat) returns (runs: seq<seq<TestId>>)
      requires shard.Some? ==> shard.value.index < shard.value.total
      requires Valid() && Unshuffled() && 1 <= firstSeed <= MAX_RANDOM_SEED
      requires |testCases| <= MAX_RANGE && forall i :: 0 <= i < |testCases| ==> |testCases[i].tests| <= MAX_RANGE
      modifies this`testCases, this`testCaseIndices, random
      ensures Valid() && Unshuffled() && SuiteOf(testCases) == old(SuiteOf(testCases))
      ensures AllDecided(o, shard, testCases)
      ensures |runs| == repeat && BySeed(runs, testCases, lastDeathTestCase + 1, firstSeed)
      ensures forall k, id :: 0 <= k < repeat ==>
        multiset(runs[k])[id] == Bit(IsSelected(o, shard, SuiteOf(testCases), id))
      ensures o.filter == "*" && shard.None? ==> forall k, id :: 0 <= k < repeat ==>
        multiset(runs[k])[id] == Bit(Listed(o.alsoRunDisabled, SuiteOf(testCases), id))
    {
      hide *;
      var selected := FilterRegistered(o, shard);
      if selected == 0 {
        NoneShouldRun(o, shard, testCases);
      }
      runs := Iterate(selected > 0, repeat, firstSeed);
      SelectedInEachRun(o, shard, testCases, lastDeathTestCase + 1, firstSeed, runs);
      if o.filter == "*" && shard.None? {
        ListedInEachRun(o.alsoRunDisabled, SuiteOf(testCases), runs);
      }
    }

    /** Filtering leaves the registry as it is but for the decisions. */
    method FilterRegistered(o: Options, shard: Option<Shard>) returns (selected: nat)
      requires shard.Some? ==> shard.value.index < shard.value.total
      requires Valid() && Unshuffled()
      requires |testCases| <= MAX_RANGE && forall i :: 0 <= i < |testCases| ==> |testCases[i].tests| <= MAX_RANGE
      modifies this`testCases
      ensures Valid() && Unshuffled() && SuiteOf(testCases) == old(SuiteOf(testCases))
      ensures |testCases| <= MAX_RANGE && forall i :: 0 <= i < |testCases| ==> |testCases[i].tests| <= MAX_RANGE
      ensures AllDecided(o, shard, testCases) && OrdersComplete(testCases)
      ensures selected == SelectedBefore(o, shard, SuiteOf(testCases), |testCases|, 0)
    {
      hide Identity, AllDecided, SelectedBefore, IsPermutation;
      selected := FilterTests(o, shard);
      FilteredStaysValid(old(testCases), testCases, lastDeathTestCase);
    }

    /**
      Decides which tests run; the shard, when sharding is on, is the one that the
      environment names.
     */
    method FilterTests(o: Options, shard: Option<Shard>) returns (selected: nat)
      requires shard.Some? ==> shard.value.index < shard.value.total
      modifies this`testCases
      ensures SuiteOf(testCases) == SuiteOf(old(testCases)) && OrdersOf(testCases) == OrdersOf(old(testCases))
      ensures AllDecided(o, shard, testCases)
      ensures selected == SelectedBefore(o, shard, SuiteOf(testCases), |testCases|, 0)
    {
      hide Selected, Runnable;
      ghost var suite, orders := SuiteOf(testCases), OrdersOf(testCases);
      var runnable := 0;
      selected := 0;
      var i := 0;
      while i < |testCases|
        invariant 0 <= i <= |testCases|
        invariant SuiteOf(testCases) == suite && OrdersOf(testCases) == orders
        invariant runnable == RunnableBefore(o, suite, i, 0)
        invariant selected == SelectedBefore(o, shard, suite, i, 0)
        invariant forall k :: 0 <= k < i ==> Decided(o, shard, suite, k, testCases[k])
      {
        var testCase;
        testCase, runnable, selected := FilterCase(o, shard, suite, i, testCases[i], runnable, selected);
        testCases := testCases[i := testCase];
        assert SuiteOf(testCases) == suite && OrdersOf(testCases) == orders;
        i := i + 1;
      }
    }
  }

  /** Visiting the names in the given order, no death test case comes after another one. */
  predicate DeathsFirst(names: seq<string>, order: seq<int>) {
    && InRange(order, |names|)
    && forall i, j :: 0 <= i < j < |order| && IsDeath(names[order[j]]) ==> IsDeath(names[order[i]])
  }

  lemma DeathsComeFirst(r: Registry, seed: nat)
    requires Ordered(r)
    ensures var order := Order(|r.names|, r.lastDeath + 1, seed);
      IsPermutation(order, |r.names|) && DeathsFirst(r.names, order)
  {
    ShuffleKeepsBlocks(|r.names|, r.lastDeath + 1, seed);
  }

  /** The loop over the tests of a case in their current order. */
  method RunCase(c: TestCase, i: int) returns (ran: seq<TestId>)
    requires IsPermutation(c.testIndices, |c.tests|)
    ensures ran == RanInCase(c, i, c.testIndices)
  {
    ran := [];
    if !c.shouldRun {
      NothingInCase(c, i, c.testIndices);
      return;
    }
    PermutationRange(c.testIndices, |c.tests|);
    hide IsPermutation;
    for k := 0 to |c.tests|
      invariant ran == RanInCase(c, i, c.testIndices[..k])
    {
      var j := c.testIndices[k];
      assert c.testIndices[..k + 1][..k] == c.testIndices[..k];
      if c.tests[j].shouldRun {
        ran := ran + [TestId(i, j)];
      }
    }
    assert c.testIndices[..|c.tests|] == c.testIndices;
  }

  method ShuffleVector(random: Random, v: seq<int>) returns (r: seq<int>)
    requires |v| <= MAX_RANGE
    modifies random
    ensures r == Shuffled(v, 0, |v|, old(random.state))
    ensures random.state == StateAfter(old(random.state), |v|)
  {
    r := ShuffleRange(random, 0, |v|, v);
  }

  /** The loop that shuffles the tests inside each test case. */
  method ShuffleEachCase(random: Random, cases: seq<TestCase>) returns (r: seq<TestCase>)
    requires forall i :: 0 <= i < |cases| ==> |cases[i].testIndices| <= MAX_RANGE
    modifies random
    ensures Reordered(cases, r) && OrdersOf(r) == ShuffledOrders(OrdersOf(cases), old(random.state))
  {
    hide Shuffled, StateAfter, ShuffledOrders, OrdersOf;
    ghost var orders, state := OrdersOf(cases), random.state;
    r := cases;
    var i := 0;
    while i < |r|
      invariant 0 <= i <= |r|
      invariant Reordered(cases, r)
      invariant random.state == StateBefore(orders, state, i)
      invariant forall k :: i <= k < |r| ==> r[k] == cases[k]
      invariant forall k :: 0 <= k < i ==> r[k].testIndices == ShuffledOrders(orders, state)[k]
    {
      var indices := ShuffleVector(random, r[i].testIndices);
      r := r[i := r[i].(testIndices := indices)];
      i := i + 1;
    }
  }

  method UnshuffledIndices(indices: seq<int>) returns (r: seq<int>)
    ensures r == Identity(|indices|)
  {
    r := indices;
    var i := 0;
    while i < |r|
      invariant 0 <= i <= |r| == |indices|
      invariant forall k :: 0 <= k < i ==> r[k] == k
    {
      r := r[i := i];
      i := i + 1;
    }
  }

  /** The tests that run are the selected ones, and the case runs iff one of its tests does. */
  ghost predicate Decided(o: Options, shard: Option<Shard>, suite: seq<SuiteCase>, i: nat, c: TestCase)
    requires i < |suite| && suite[i] == SuiteCase(c.name, TestNames(c.tests))
    requires shard.Some? ==> shard.value.index < shard.value.total
  {
    && (forall j :: 0 <= j < |c.tests| ==> (c.tests[j].shouldRun <==> Selected(o, shard, suite, i, j)))
    && (c.shouldRun <==> exists j :: 0 <= j < |c.tests| && c.tests[j].shouldRun)
  }

  ghost predicate AllDecided(o: Options, shard: Option<Shard>, cases: seq<TestCase>)
    requires shard.Some? ==> shard.value.index < shard.value.total
  {
    forall i :: 0 <= i < |cases| ==> Decided(o, shard, SuiteOf(cases), i, cases[i])
  }

  ghost predicate IsSelected(o: Options, shard: Option<Shard>, suite: seq<SuiteCase>, id: TestId)
    requires shard.Some? ==> shard.value.index < shard.value.total
  {
    0 <= id.i < |suite| && 0 <= id.j < |suite[id.i].tests| && Selected(o, shard, suite, id.i, id.j)
  }

  lemma DecidedRuns(o: Options, shard: Option<Shard>, cases: seq<TestCase>, id: TestId)
    requires shard.Some? ==> shard.value.index < shard.value.total
    requires AllDecided(o, shard, cases)
    ensures IsSelected(o, shard, SuiteOf(cases), id) <==> 0 <= id.i < |cases| && ShouldRun(cases[id.i], id.j)
  {
    hide Selected;
    if 0 <= id.i < |cases| {
      assert Decided(o, shard, SuiteOf(cases), id.i, cases[id.i]);
    }
  }

  /** In an iteration with any seed the selected tests run exactly once, and no others. */
  lemma SelectedOnce(o: Options, shard: Option<Shard>, cases: seq<TestCase>, deaths: nat, seed: nat, id: TestId)
    requires shard.Some? ==> shard.value.index < shard.value.total
    requires AllDecided(o, shard, cases) && OrdersComplete(cases) && deaths <= |cases|
    ensures multiset(RanBySeed(cases, deaths, seed))[id] == Bit(IsSelected(o, shard, SuiteOf(cases), id))
  {
    hide AllDecided, OrdersComplete, RanBySeed, ShouldRun, IsSelected, SuiteOf;
    EachTestOnce(cases, deaths, seed, id);
    DecidedRuns(o, shard, cases, id);
  }

  /** Without sharding: the test is not disabled, or those run too, and the filter selects its full name. */
  lemma SelectedUnsharded(o: Options, suite: seq<SuiteCase>, id: TestId)
    ensures IsSelected(o, None, suite, id) <==>
      && 0 <= id.i < |suite| && 0 <= id.j < |suite[id.i].tests|
      && (o.alsoRunDisabled || !(Disabled(suite[id.i].name) || Disabled(suite[id.i].tests[id.j])))
      && Selects(o.filter, suite[id.i].name + "." + suite[id.i].tests[id.j])
  {
    if 0 <= id.i < |suite| && 0 <= id.j < |suite[id.i].tests| {
      Unsharded(o, suite, id.i, id.j);
      hide Selected, Disabled, Selects;
    }
  }

  /** Without disabling, every test; otherwise every test whose own and whose case's name are not disabled. */
  predicate Listed(alsoRunDisabled: bool, suite: seq<SuiteCase>, id: TestId) {
    && 0 <= id.i < |suite| && 0 <= id.j < |suite[id.i].tests|
    && (alsoRunDisabled || !(Disabled(suite[id.i].name) || Disabled(suite[id.i].tests[id.j])))
  }

  /** By default, with the filter `*` and no sharding, the names alone decide what runs. */
  lemma SelectedByDefault(alsoRunDisabled: bool, suite: seq<SuiteCase>, id: TestId)
    ensures IsSelected(Options("*", alsoRunDisabled), None, suite, id) <==> Listed(alsoRunDisabled, suite, id)
  {
    if 0 <= id.i < |suite| && 0 <= id.j < |suite[id.i].tests| {
      Unsharded(Options("*", alsoRunDisabled), suite, id.i, id.j);
      UniversalFilter(alsoRunDisabled, suite[id.i].name, suite[id.i].tests[id.j]);
      hide Wanted, Selected, Disabled;
    }
  }

  lemma ListedInEachRun(alsoRunDisabled: bool, suite: seq<SuiteCase>, runs: seq<seq<TestId>>)
    requires forall k, id :: 0 <= k < |runs| ==>
      multiset(runs[k])[id] == Bit(IsSelected(Options("*", alsoRunDisabled), None, suite, id))
    ensures forall k, id :: 0 <= k < |runs| ==> multiset(runs[k])[id] == Bit(Listed(alsoRunDisabled, suite, id))
  {
    hide *;
    forall k, id | 0 <= k < |runs|
      ensures multiset(runs[k])[id] == Bit(Listed(alsoRunDisabled, suite, id))
    {
      SelectedByDefault(alsoRunDisabled, suite, id);
    }
  }

  lemma SelectedInEachRun(o: Options, shard: Option<Shard>, cases: seq<TestCase>, deaths: int, firstSeed: nat,
                          runs: seq<seq<TestId>>)
    requires shard.Some? ==> shard.value.index < shard.value.total
    requires AllDecided(o, shard, cases) && OrdersComplete(cases)
    requires 1 <= firstSeed <= MAX_RANDOM_SEED && BySeed(runs, cases, deaths, firstSeed)
    ensures forall k, id :: 0 <= k < |runs| ==> multiset(runs[k])[id] == Bit(IsSelected(o, shard, SuiteOf(cases), id))
  {
    hide AllDecided, OrdersComplete, RanBySeed, IsSelected, SuiteOf, SeedAt;
    forall k, id | 0 <= k < |runs|
      ensures multiset(runs[k])[id] == Bit(IsSelected(o, shard, SuiteOf(cases), id))
    {
      SelectedOnce(o, shard, cases, deaths, SeedAt(firstSeed, k), id);
    }
  }

  lemma {:induction false} NoneSelected(o: Options, shard: Option<Shard>, suite: seq<SuiteCase>, i: nat, j: nat, i': nat, j': nat)
    requires shard.Some? ==> shard.value.index < shard.value.total
    requires i <= |suite| && (if i == |suite| then j == 0 else j <= |suite[i].tests|)
    requires SelectedBefore(o, shard, suite, i, j) == 0
    requires i' < |suite| && j' < |suite[i'].tests| && (i' < i || (i' == i && j' < j))
    ensures !Selected(o, shard, suite, i', j')
    decreases i, j
  {
    hide Selected;
    if j > 0 {
      if (i', j') != (i, j - 1) {
        NoneSelected(o, shard, suite, i, j - 1, i', j');
      }
    } else {
      NoneSelected(o, shard, suite, i - 1, |suite[i - 1].tests|, i', j');
    }
  }

  lemma NoneShouldRun(o: Options, shard: Option<Shard>, cases: seq<TestCase>)
    requires shard.Some? ==> shard.value.index < shard.value.total
    requires AllDecided(o, shard, cases) && SelectedBefore(o, shard, SuiteOf(cases), |cases|, 0) == 0
    ensures Idle(cases)
  {
    hide AllDecided, Selected, SelectedBefore, ShouldRun;
    forall c, j | c in cases && 0 <= j < |c.tests|
      ensures !ShouldRun(c, j)
    {
      var i :| 0 <= i < |cases| && cases[i] == c;
      NoneSelected(o, shard, SuiteOf(cases), |cases|, 0, i, j);
      DecidedRuns(o, shard, cases, TestId(i, j));
    }
  }

  /** What filtering leaves alone is all that the registry's validity depends on. */
  lemma FilteredStaysValid(before: seq<TestCase>, after: seq<TestCase>, lastDeath: int)
    requires ValidCases(before, lastDeath) && UnshuffledCases(before)
    requires SuiteOf(before) == SuiteOf(after) && OrdersOf(before) == OrdersOf(after)
    ensures ValidCases(after, lastDeath) && UnshuffledCases(after) && OrdersComplete(after)
    ensures |after| == |before| && forall i :: 0 <= i < |after| ==> |after[i].tests| == |before[i].tests|
  {
    forall i | 0 <= i < |after|
      ensures |after[i].tests| == |before[i].tests| && after[i].testIndices == before[i].testIndices
      ensures after[i].name == before[i].name
    {
      assert SuiteOf(before)[i] == SuiteOf(after)[i] && OrdersOf(before)[i] == OrdersOf(after)[i];
    }
    hide IsPermutation, Identity, IsDeath;
    assert NamesOf(after) == NamesOf(before);
  }

  lemma Unfold(o: Options, shard: Option<Shard>, suite: seq<SuiteCase>, i: nat, j: nat)
    requires i < |suite| && j < |suite[i].tests|
    requires shard.Some? ==> shard.value.index < shard.value.total
    ensures Runnable(o, suite, i, j) == Wanted(o, suite[i].name, suite[i].tests[j])
    ensures Selected(o, shard, suite, i, j)
         == (Wanted(o, suite[i].name, suite[i].tests[j]) && OnShard(shard, RunnableBefore(o, suite, i, j)))
  {
    hide Wanted, OnShard;
  }

  /** The body of the loop over the test cases: `c` is the i-th of the suite. */
  method FilterCase(o: Options, shard: Option<Shard>, ghost suite: seq<SuiteCase>, ghost i: nat, c: TestCase,
                    runnable0: nat, selected0: nat)
    returns (r: TestCase, runnable: nat, selected: nat)
    requires i < |suite| && suite[i] == SuiteCase(c.name, TestNames(c.tests))
    requires shard.Some? ==> shard.value.index < shard.value.total
    requires runnable0 == RunnableBefore(o, suite, i, 0)
    requires selected0 == SelectedBefore(o, shard, suite, i, 0)
    ensures r.name == c.name && TestNames(r.tests) == TestNames(c.tests) && r.testIndices == c.testIndices
    ensures Decided(o, shard, suite, i, r)
    ensures runnable == RunnableBefore(o, suite, i + 1, 0)
    ensures selected == SelectedBefore(o, shard, suite, i + 1, 0)
  {
    hide Wanted, OnShard, Runnable, Selected, TestNames;
    r, runnable, selected := c.(shouldRun := false), runnable0, selected0;
    var j := 0;
    while j < |c.tests|
      invariant 0 <= j <= |c.tests|
      invariant r == c.(tests := r.tests, shouldRun := r.shouldRun) && TestNames(r.tests) == TestNames(c.tests)
      invariant runnable == RunnableBefore(o, suite, i, j)
      invariant selected == SelectedBefore(o, shard, suite, i, j)
      invariant forall k :: 0 <= k < j ==> (r.tests[k].shouldRun <==> Selected(o, shard, suite, i, k))
      invariant r.shouldRun <==> exists k :: 0 <= k < j && r.tests[k].shouldRun
    {
      assert suite[i].tests[j] == TestNames(r.tests)[j];
      Unfold(o, shard, suite, i, j);
      var test, isRunnable := Decide(o, shard, c.name, r.tests[j], runnable);
      assert isRunnable == Runnable(o, suite, i, j) && test.shouldRun == Selected(o, shard, suite, i, j);
      runnable := runnable + Bit(isRunnable);
      selected := selected + Bit(test.shouldRun);
      r := r.(tests := r.tests[j := test], shouldRun := r.shouldRun || test.shouldRun);
      assert TestNames(r.tests) == TestNames(c.tests);
      j := j + 1;
    }
  }

  /** The body of the loop over the tests; `id` is the number of runnable tests before this one. */
  method Decide(o: Options, shard: Option<Shard>, caseName: string, test: TestInfo, id: nat)
    returns (r: TestInfo, isRunnable: bool)
    requires shard.Some? ==> shard.value.index < shard.value.total
    ensures r.name == test.name
    ensures r.isDisabled <==> Disabled(caseName) || Disabled(test.name)
    ensures r.matchesFilter <==> Selects(o.filter, caseName + "." + test.name)
    ensures isRunnable <==> Wanted(o, caseName, test.name)
    ensures r.shouldRun <==> isRunnable && OnShard(shard, id)
  {
    DisabledNames(caseName);
    DisabledNames(test.name);
    var caseDisabled := MatchesFilter(caseName, DISABLE_TEST_FILTER);
    var testDisabled := MatchesFilter(test.name, DISABLE_TEST_FILTER);
    var isDisabled := caseDisabled || testDisabled;
    var matches := FilterMatchesTest(caseName, test.name, o.filter);
    isRunnable := (o.alsoRunDisabled || !isDisabled) && matches;
    var isSelected := isRunnable && (shard.None? || id % shard.value.total == shard.value.index);
    r := TestInfo(test.name, isDisabled, matches, isSelected);
  }
}
