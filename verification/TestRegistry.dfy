/**
  googletest's registry of test cases: registration, which keeps death test cases first;
  shuffling and unshuffling of the order in which they run; filtering and sharding.
 */
module TestRegistry {
  import opened Common
  import opened GlobFilter
  import opened RandomNumbers
  import opened Shuffling

  function Identity(n: nat): (ids: seq<int>)
    ensures |ids| == n && forall i :: 0 <= i < n ==> ids[i] == i
  {
    seq(n, i => i)
  }

  function Inserted<T>(s: seq<T>, at: nat, x: T): (r: seq<T>)
    requires at <= |s|
    ensures |r| == |s| + 1
    ensures forall i :: 0 <= i < |r| ==> r[i] == if i < at then s[i] else if i == at then x else s[i - 1]
  {
    s[..at] + [x] + s[at..]
  }

  // ----- Registration, as a function of the names -----

  /** What the filter for death test cases accepts (GlobFilter.DeathTestCaseNames). */
  predicate IsDeath(name: string) {
    EndsWith(name, "DeathTest") || Contains(name, "DeathTest/")
  }

  lemma IsDeathByFilter(name: string)
    ensures FilterMatches(name, DEATH_TEST_CASE_FILTER) <==> IsDeath(name)
  {
    DeathTestCaseNames(name);
  }

  /** The names of the test cases, in the order they are kept, and the index of the last death test case. */
  datatype Registry = Registry(names: seq<string>, lastDeath: int)

  predicate Ordered(r: Registry) {
    && -1 <= r.lastDeath < |r.names|
    && forall i :: 0 <= i < |r.names| ==> (IsDeath(r.names[i]) <==> i <= r.lastDeath)
  }

  function Register(r: Registry, name: string): Registry
    requires Ordered(r)
  {
    if name in r.names then r
    else if IsDeath(name) then
      Registry(Inserted(r.names, r.lastDeath + 1, name), r.lastDeath + 1)
    else Registry(r.names + [name], r.lastDeath)
  }

  function RegisterAll(names: seq<string>): (r: Registry)
    ensures Ordered(r)
  {
    if names == [] then Registry([], -1) else Register(RegisterAll(names[..|names| - 1]), names[|names| - 1])
  }

  /** The names without later repetitions. */
  function FirstOccurrences(names: seq<string>): seq<string> {
    if names == [] then []
    else
      var firsts, name := FirstOccurrences(names[..|names| - 1]), names[|names| - 1];
      if name in firsts then firsts else firsts + [name]
  }

  /** The death test cases among `names`, or the others, in the same order. */
  function Kind(names: seq<string>, death: bool): seq<string> {
    if names == [] then []
    else
      var kept, name := Kind(names[..|names| - 1], death), names[|names| - 1];
      if IsDeath(name) == death then kept + [name] else kept
  }

  /** Registration is a stable partition: the death test cases first, each kind in order of first mention. */
  lemma {:induction false} RegistrationPartitions(names: seq<string>)
    ensures var firsts := FirstOccurrences(names);
      RegisterAll(names) == Registry(Kind(firsts, true) + Kind(firsts, false), |Kind(firsts, true)| - 1)
  {
    if names != [] {
      var before, name := names[..|names| - 1], names[|names| - 1];
      RegistrationPartitions(before);
      var firsts := FirstOccurrences(before);
      KindMembers(firsts, name);
      if name !in firsts {
        assert (firsts + [name])[..|firsts|] == firsts;
        var d, o := Kind(firsts, true), Kind(firsts, false);
        if IsDeath(name) {
          assert (d + o)[..|d|] == d && (d + o)[|d|..] == o;
        } else {
          assert d + o + [name] == d + (o + [name]);
        }
      }
    }
  }

  lemma {:induction false} KindMembers(names: seq<string>, name: string)
    ensures name in Kind(names, true) + Kind(names, false) <==> name in names
  {
    if names != [] {
      KindMembers(names[..|names| - 1], name);
      assert names == names[..|names| - 1] + [names[|names| - 1]];
    }
  }

  lemma {:induction false} RegisteredNames(names: seq<string>, name: string)
    ensures name in RegisterAll(names).names <==> name in names
  {
    hide IsDeath;
    if names != [] {
      var before, last := names[..|names| - 1], names[|names| - 1];
      RegisteredNames(before, name);
      var r := RegisterAll(before);
      assert names == before + [last];
      if last !in r.names && IsDeath(last) {
        InsertedMembers(r.names, r.lastDeath + 1, last, name);
      }
    }
  }

  lemma InsertedMembers<T>(s: seq<T>, at: nat, x: T, y: T)
    requires at <= |s|
    ensures y in Inserted(s, at, x) <==> y in s || y == x
  {
    assert s == s[..at] + s[at..];
  }

  // ----- The order of one iteration -----

  /** The indices after shuffling the death test cases, then the others. */
  function ShuffledIndices(indices: seq<int>, deaths: nat, state: nat): (r: seq<int>)
    requires deaths <= |indices|
    ensures |r| == |indices|
  {
    Shuffled(Shuffled(indices, 0, deaths, state), deaths, |indices| - deaths, StateAfter(state, deaths))
  }

  lemma ShuffledIndicesPermutes(indices: seq<int>, deaths: nat, state: nat)
    requires deaths <= |indices|
    ensures multiset(ShuffledIndices(indices, deaths, state)) == multiset(indices)
  {
    hide ShuffledBy, Picks, StateAfter;
    ShuffledByPermutes(indices, 0, deaths, Picks(state, deaths));
    var after := StateAfter(state, deaths);
    ShuffledByPermutes(Shuffled(indices, 0, deaths, state), deaths, |indices| - deaths, Picks(after, |indices| - deaths));
  }

  /** Whatever the generator's state, the two blocks are permuted separately. */
  lemma ShuffleKeepsBlocks(n: nat, deaths: nat, state: nat)
    requires deaths <= n
    ensures var r := ShuffledIndices(Identity(n), deaths, state);
      && multiset(r) == multiset(Identity(n))
      && forall k :: 0 <= k < n ==> 0 <= r[k] < n && (k < deaths <==> r[k] < deaths)
  {
    var ids := Identity(n);
    var once, after := Shuffled(ids, 0, deaths, state), StateAfter(state, deaths);
    ShuffledByPermutes(ids, 0, deaths, Picks(state, deaths));
    BoundsKept(ids, 0, deaths, once);
    ShuffledByPermutes(once, deaths, n - deaths, Picks(after, n - deaths));
    BoundsKept(once, deaths, n, ShuffledIndices(ids, deaths, state));
  }

  /** Each block is shuffled by itself, the second with the generator's numbers after those for the first. */
  lemma BlocksShuffledApart(indices: seq<int>, deaths: nat, state: nat)
    requires deaths <= |indices|
    ensures var r, others := ShuffledIndices(indices, deaths, state), |indices| - deaths;
      && r[..deaths] == Shuffled(indices[..deaths], 0, deaths, state)
      && r[deaths..] == Shuffled(indices[deaths..], 0, others, NthState(state, if deaths < 2 then 0 else deaths - 1))
  {
    var n, after := |indices|, StateAfter(state, deaths);
    StateAfterDraws(state, deaths);
    hide ShuffledBy, Picks, StateAfter, NthState;
    var once := Shuffled(indices, 0, deaths, state);
    var r := Shuffled(once, deaths, n - deaths, after);
    ShuffledByInRange(indices, 0, deaths, deaths, Picks(state, deaths));
    ShuffledByInRange(once, deaths, n, n - deaths, Picks(after, n - deaths));
    ShuffledByPermutes(indices, 0, deaths, Picks(state, deaths));
    ShuffledByPermutes(once, deaths, n - deaths, Picks(after, n - deaths));
    assert once[deaths..n] == indices[deaths..] && once[0..deaths] == r[..deaths] && r[deaths..n] == r[deaths..];
    assert indices[0..deaths] == indices[..deaths];
  }

  lemma BoundsKept(v: seq<int>, begin: nat, end: nat, r: seq<int>)
    requires Rearranges(v, begin, end, r)
    requires forall k :: begin <= k < end ==> begin <= v[k] < end
    ensures forall k :: begin <= k < end ==> begin <= r[k] < end
  {
    RangeElements(v, begin, end, r);
    forall k | begin <= k < end
      ensures begin <= r[k] < end
    {
      assert r[begin..end][k - begin] in multiset(v[begin..end]);
      var m :| 0 <= m < end - begin && v[begin..end][m] == r[k];
      assert v[begin + m] == r[k];
    }
  }

  predicate InRange(indices: seq<int>, n: nat) {
    forall k :: 0 <= k < |indices| ==> 0 <= indices[k] < n
  }

  /** The items at the given indices. */
  function Gather<T>(items: seq<T>, indices: seq<int>): (r: seq<T>)
    requires InRange(indices, |items|)
    ensures |r| == |indices| && forall k :: 0 <= k < |r| ==> r[k] == items[indices[k]]
  {
    seq(|indices|, k requires 0 <= k < |indices| => items[indices[k]])
  }

  lemma PermutationRange(indices: seq<int>, n: nat)
    requires multiset(indices) == multiset(Identity(n))
    ensures |indices| == n && InRange(indices, n)
  {
    assert |indices| == |multiset(indices)| == |multiset(Identity(n))| == n;
    forall k | 0 <= k < |indices|
      ensures 0 <= indices[k] < n
    {
      assert indices[k] in multiset(indices);
    }
  }

  lemma DropLastIndex(a: seq<int>, b: seq<int>, n: nat)
    requires multiset(a + [n] + b) == multiset(Identity(n + 1))
    ensures multiset(a + b) == multiset(Identity(n))
  {
    assert Identity(n + 1) == Identity(n) + [n];
    assert multiset(a + [n] + b) == multiset(a + b) + multiset{n};
    assert multiset(a + b) == multiset(a + [n] + b) - multiset{n};
    assert multiset(Identity(n)) == multiset(Identity(n) + [n]) - multiset{n};
  }

  /** Taking elements by a permutation of their indices takes each exactly once. */
  lemma {:induction false} PermutationTakesAll<T>(items: seq<T>, indices: seq<int>)
    requires multiset(indices) == multiset(Identity(|items|))
    ensures InRange(indices, |items|) && multiset(Gather(items, indices)) == multiset(items)
    decreases |items|
  {
    PermutationRange(indices, |items|);
    if items == [] {
      assert Gather(items, indices) == items;
    } else {
      var n := |items| - 1;
      assert Identity(n + 1)[n] in multiset(indices);
      var at :| 0 <= at < |indices| && indices[at] == n;
      var a, b, rest := indices[..at], indices[at + 1..], items[..n];
      assert indices == a + [n] + b;
      DropLastIndex(a, b, n);
      PermutationTakesAll(rest, a + b);
      hide Identity, Gather;
      GatherSplit(items, a, b);
      LastApart(items);
    }
  }

  lemma LastApart<T>(items: seq<T>)
    requires items != []
    ensures multiset(items) == multiset(items[..|items| - 1]) + multiset{items[|items| - 1]}
  {
    assert items == items[..|items| - 1] + [items[|items| - 1]];
  }

  lemma GatherSplit<T>(items: seq<T>, a: seq<int>, b: seq<int>)
    requires items != [] && InRange(a + b, |items| - 1)
    ensures var n := |items| - 1;
      InRange(a + [n] + b, n + 1) &&
      multiset(Gather(items, a + [n] + b)) == multiset(Gather(items[..n], a + b)) + multiset{items[n]}
  {
    var n, at := |items| - 1, |a|;
    forall k | 0 <= k < |a + [n] + b|
      ensures 0 <= (a + [n] + b)[k] < n + 1
    {
      assert (a + [n] + b)[k] == if k < at then (a + b)[k] else if k == at then n else (a + b)[k - 1];
    }
    var all, others := Gather(items, a + [n] + b), Gather(items[..n], a + b);
    forall k | 0 <= k < |all|
      ensures all[k] == (others[..at] + [items[n]] + others[at..])[k]
    {
      assert (a + [n] + b)[k] == if k < at then (a + b)[k] else if k == at then n else (a + b)[k - 1];
    }
    assert all == others[..at] + [items[n]] + others[at..];
    assert others == others[..at] + others[at..];
  }

  // ----- Filtering and sharding -----

  datatype SuiteCase = SuiteCase(name: string, tests: seq<string>)

  datatype Options = Options(filter: string, alsoRunDisabled: bool)

  datatype Shard = Shard(total: nat, index: nat)

  /** What the filter for disabled tests accepts (GlobFilter.DisabledNames). */
  predicate Disabled(name: string) {
    "DISABLED_" <= name || Contains(name, "/DISABLED_")
  }

  ghost predicate Wanted(o: Options, caseName: string, testName: string) {
    && (o.alsoRunDisabled || !(Disabled(caseName) || Disabled(testName)))
    && Selects(o.filter, caseName + "." + testName)
  }

  ghost predicate Runnable(o: Options, suite: seq<SuiteCase>, i: nat, j: nat)
    requires i < |suite| && j < |suite[i].tests|
  {
    Wanted(o, suite[i].name, suite[i].tests[j])
  }

  function Bit(b: bool): nat {
    if b then 1 else 0
  }

  /** The number of runnable tests before the j-th test of the i-th case. */
  ghost function RunnableBefore(o: Options, suite: seq<SuiteCase>, i: nat, j: nat): nat
    requires i <= |suite| && (if i == |suite| then j == 0 else j <= |suite[i].tests|)
  {
    if j > 0 then RunnableBefore(o, suite, i, j - 1) + Bit(Runnable(o, suite, i, j - 1))
    else if i > 0 then RunnableBefore(o, suite, i - 1, |suite[i - 1].tests|)
    else 0
  }

  /** Whether the shard, if there is one, takes the runnable test of the given number. */
  predicate OnShard(shard: Option<Shard>, id: nat)
    requires shard.Some? ==> shard.value.index < shard.value.total
  {
    shard.Some? ==> id % shard.value.total == shard.value.index
  }

  ghost predicate Selected(o: Options, shard: Option<Shard>, suite: seq<SuiteCase>, i: nat, j: nat)
    requires i < |suite| && j < |suite[i].tests|
    requires shard.Some? ==> shard.value.index < shard.value.total
  {
    Runnable(o, suite, i, j) && OnShard(shard, RunnableBefore(o, suite, i, j))
  }

  ghost function SelectedBefore(o: Options, shard: Option<Shard>, suite: seq<SuiteCase>, i: nat, j: nat): nat
    requires i <= |suite| && (if i == |suite| then j == 0 else j <= |suite[i].tests|)
    requires shard.Some? ==> shard.value.index < shard.value.total
  {
    if j > 0 then SelectedBefore(o, shard, suite, i, j - 1) + Bit(Selected(o, shard, suite, i, j - 1))
    else if i > 0 then SelectedBefore(o, shard, suite, i - 1, |suite[i - 1].tests|)
    else 0
  }

  /** Without sharding every runnable test is selected, and the count is that of the runnable tests. */
  lemma {:induction false} Unsharded(o: Options, suite: seq<SuiteCase>, i: nat, j: nat)
    requires i <= |suite| && (if i == |suite| then j == 0 else j <= |suite[i].tests|)
    ensures SelectedBefore(o, None, suite, i, j) == RunnableBefore(o, suite, i, j)
    ensures i < |suite| && j < |suite[i].tests| ==> (Selected(o, None, suite, i, j) <==> Runnable(o, suite, i, j))
    decreases i, j
  {
    if j > 0 {
      Unsharded(o, suite, i, j - 1);
    } else if i > 0 {
      Unsharded(o, suite, i - 1, |suite[i - 1].tests|);
    }
  }

  /** With the filter `*` the names alone decide. */
  lemma UniversalFilter(alsoRunDisabled: bool, caseName: string, testName: string)
    ensures Wanted(Options("*", alsoRunDisabled), caseName, testName)
       <==> alsoRunDisabled || !(Disabled(caseName) || Disabled(testName))
  {
    var name := caseName + "." + testName;
    hide Disabled;
    SelectsParts("*", "", name);
    StarAlone(name);
    assert '-' !in "*";
  }

  /** The selected tests before the j-th one of the i-th case. */
  ghost function SelectedTests(o: Options, shard: Option<Shard>, suite: seq<SuiteCase>, i: nat, j: nat): set<(nat, nat)>
    requires shard.Some? ==> shard.value.index < shard.value.total
  {
    set x: nat, y: nat | x < |suite| && y < |suite[x].tests| && (x < i || (x == i && y < j)) && Selected(o, shard, suite, x, y)
      :: (x, y)
  }

  /** The count is the number of those tests. */
  lemma {:induction false} CountsSelected(o: Options, shard: Option<Shard>, suite: seq<SuiteCase>, i: nat, j: nat)
    requires i <= |suite| && (if i == |suite| then j == 0 else j <= |suite[i].tests|)
    requires shard.Some? ==> shard.value.index < shard.value.total
    ensures |SelectedTests(o, shard, suite, i, j)| == SelectedBefore(o, shard, suite, i, j)
    decreases i, j
  {
    hide Selected;
    if j > 0 {
      CountsSelected(o, shard, suite, i, j - 1);
      OneMoreSelected(o, shard, suite, i, j - 1);
    } else if i > 0 {
      CountsSelected(o, shard, suite, i - 1, |suite[i - 1].tests|);
      assert SelectedTests(o, shard, suite, i, 0) == SelectedTests(o, shard, suite, i - 1, |suite[i - 1].tests|);
    } else {
      assert SelectedTests(o, shard, suite, 0, 0) == {};
    }
  }

  lemma OneMoreSelected(o: Options, shard: Option<Shard>, suite: seq<SuiteCase>, i: nat, j: nat)
    requires i < |suite| && j < |suite[i].tests|
    requires shard.Some? ==> shard.value.index < shard.value.total
    ensures (i, j) !in SelectedTests(o, shard, suite, i, j)
    ensures SelectedTests(o, shard, suite, i, j + 1)
         == SelectedTests(o, shard, suite, i, j) + if Selected(o, shard, suite, i, j) then {(i, j)} else {}
  {
    hide Selected;
  }

  /** The shards, out of `total`, that select a test. */
  ghost function Runners(o: Options, total: nat, suite: seq<SuiteCase>, i: nat, j: nat): set<nat>
    requires i < |suite| && j < |suite[i].tests|
  {
    set k: nat | k < total && Selected(o, Some(Shard(total, k)), suite, i, j)
  }

  /** Every runnable test runs on exactly one of the shards, any other test on none. */
  lemma ShardsPartition(o: Options, total: nat, suite: seq<SuiteCase>, i: nat, j: nat)
    requires i < |suite| && j < |suite[i].tests| && total >= 1
    ensures |Runners(o, total, suite, i, j)| == Bit(Runnable(o, suite, i, j))
  {
    if Runnable(o, suite, i, j) {
      assert Runners(o, total, suite, i, j) == {RunnableBefore(o, suite, i, j) % total};
    } else {
      assert Runners(o, total, suite, i, j) == {};
    }
  }

  /** Of the numbers below `n`, how many leave remainder `k`. */
  function Share(n: nat, total: nat, k: nat): nat
    requires k < total
  {
    if n == 0 then 0 else Share(n - 1, total, k) + Bit((n - 1) % total == k)
  }

  lemma {:induction false} SelectedIsShare(o: Options, total: nat, k: nat, suite: seq<SuiteCase>, i: nat, j: nat)
    requires k < total
    requires i <= |suite| && (if i == |suite| then j == 0 else j <= |suite[i].tests|)
    ensures SelectedBefore(o, Some(Shard(total, k)), suite, i, j) == Share(RunnableBefore(o, suite, i, j), total, k)
    decreases i, j
  {
    if j > 0 {
      SelectedIsShare(o, total, k, suite, i, j - 1);
    } else if i > 0 {
      SelectedIsShare(o, total, k, suite, i - 1, |suite[i - 1].tests|);
    }
  }

  lemma {:induction false} ShareSize(n: nat, total: nat, k: nat)
    requires k < total
    ensures Share(n, total, k) == n / total + Bit(k < n % total)
  {
    if n > 0 {
      ShareSize(n - 1, total, k);
      NextRemainder(n - 1, total);
    }
  }

  lemma NextRemainder(n: nat, total: nat)
    requires total > 0
    ensures if n % total + 1 == total then (n + 1) / total == n / total + 1 && (n + 1) % total == 0
            else (n + 1) / total == n / total && (n + 1) % total == n % total + 1
  {
    var q, r := n / total, n % total;
    assert n == q * total + r;
    if r + 1 == total {
      assert n + 1 == (q + 1) * total;
      DivModUnique(n + 1, total, q + 1, 0);
    } else {
      DivModUnique(n + 1, total, q, r + 1);
    }
  }

  /** Shard k runs the k-th share of the runnable tests; so shard sizes differ by at most one. */
  lemma ShardSize(o: Options, total: nat, k: nat, suite: seq<SuiteCase>)
    requires k < total
    ensures var runnable := RunnableBefore(o, suite, |suite|, 0);
      SelectedBefore(o, Some(Shard(total, k)), suite, |suite|, 0) == runnable / total + Bit(k < runnable % total)
  {
    SelectedIsShare(o, total, k, suite, |suite|, 0);
    ShareSize(RunnableBefore(o, suite, |suite|, 0), total, k);
  }
}
