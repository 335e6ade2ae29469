/** The load balancer: values in descending order, each appended to the group with the least sum.
    The heaviest group is at most (4m - 1) / 3m times as heavy as in any other assignment to m groups. */
module LoadBalance {

  // ----- Totals over values and over groups

  type Measure = nat -> nat

  function Total(s: seq<nat>, f: Measure): nat {
    if s == [] then 0 else Total(s[..|s| - 1], f) + f(s[|s| - 1])
  }

  function Over(groups: seq<seq<nat>>, f: Measure): nat {
    if groups == [] then 0 else Total(groups[0], f) + Over(groups[1..], f)
  }

  function Flatten(groups: seq<seq<nat>>): seq<nat> {
    if groups == [] then [] else groups[0] + Flatten(groups[1..])
  }

  /** The values held by the groups together. */
  function Items(groups: seq<seq<nat>>): multiset<nat> {
    multiset(Flatten(groups))
  }

  function Identity(): Measure {
    (x: nat) => x
  }

  function Each(): Measure {
    (x: nat) => 1
  }

  function AtLeast(t: nat): Measure {
    (x: nat) => if x >= t then 1 else 0
  }

  function Above(t: nat): Measure {
    (x: nat) => if x > t then 1 else 0
  }

  function Sum(s: seq<nat>): nat {
    Total(s, Identity())
  }

  lemma {:induction false} TotalConcat(a: seq<nat>, b: seq<nat>, f: Measure)
    ensures Total(a + b, f) == Total(a, f) + Total(b, f)
  {
    if b == [] {
      assert a + b == a;
    } else {
      var n := |b| - 1;
      assert (a + b)[..|a + b| - 1] == a + b[..n];
      TotalConcat(a, b[..n], f);
    }
  }

  lemma {:induction false} TotalPermutation(a: seq<nat>, b: seq<nat>, f: Measure)
    requires multiset(a) == multiset(b)
    ensures Total(a, f) == Total(b, f)
  {
    if a == [] {
      assert |multiset(b)| == 0;
    } else {
      var n := |a| - 1;
      var x := a[n];
      assert a == a[..n] + [x];
      assert x in multiset(b);
      var k :| 0 <= k < |b| && b[k] == x;
      var rest := b[..k] + b[k + 1..];
      assert b == b[..k] + [x] + b[k + 1..];
      assert multiset(rest) == multiset(b) - multiset{x};
      assert multiset(a[..n]) == multiset(a) - multiset{x};
      TotalPermutation(a[..n], rest, f);
      TotalConcat(b[..k] + [x], b[k + 1..], f);
      TotalConcat(b[..k], [x], f);
      TotalConcat(b[..k], b[k + 1..], f);
    }
  }

  lemma {:induction false} OverIsTotal(groups: seq<seq<nat>>, f: Measure)
    ensures Over(groups, f) == Total(Flatten(groups), f)
  {
    if groups != [] {
      OverIsTotal(groups[1..], f);
      TotalConcat(groups[0], Flatten(groups[1..]), f);
    }
  }

  /** A measure totals the same however the same values are grouped. */
  lemma OverItems(groups: seq<seq<nat>>, s: seq<nat>, f: Measure)
    requires Items(groups) == multiset(s)
    ensures Over(groups, f) == Total(s, f)
  {
    OverIsTotal(groups, f);
    TotalPermutation(Flatten(groups), s, f);
  }

  lemma {:induction false} OverAtMost(groups: seq<seq<nat>>, f: Measure, h: Measure, c: nat)
    requires forall g | g in groups :: Total(g, f) + Total(g, h) <= c
    ensures Over(groups, f) + Over(groups, h) <= |groups| * c
  {
    if groups != [] {
      OverAtMost(groups[1..], f, h, c);
      assert |groups| * c == |groups[1..]| * c + c;
      assert groups[0] in groups;
    }
  }

  lemma {:induction false} OverAtLeast(groups: seq<seq<nat>>, f: Measure, h: Measure, c: nat)
    requires forall g | g in groups :: Total(g, f) + Total(g, h) >= c
    ensures Over(groups, f) + Over(groups, h) >= |groups| * c
  {
    if groups != [] {
      OverAtLeast(groups[1..], f, h, c);
      assert |groups| * c == |groups[1..]| * c + c;
      assert groups[0] in groups;
    }
  }

  function Nothing(): Measure {
    (x: nat) => 0
  }

  lemma {:induction false} TotalNothing(s: seq<nat>)
    ensures Total(s, Nothing()) == 0
  {
    if s != [] {
      TotalNothing(s[..|s| - 1]);
    }
  }

  lemma {:induction false} TotalEach(s: seq<nat>)
    ensures Total(s, Each()) == |s|
  {
    if s != [] {
      TotalEach(s[..|s| - 1]);
    }
  }

  // ----- Counts and sums of one group

  /** A group is at least as heavy as its values of at least `x <= y`, those of at least `y` counted as `y`. */
  lemma {:induction false} SumAtLeast(g: seq<nat>, x: nat, y: nat)
    requires x <= y
    ensures Total(g, AtLeast(y)) <= Total(g, AtLeast(x))
    ensures Sum(g) >= y * Total(g, AtLeast(y)) + x * (Total(g, AtLeast(x)) - Total(g, AtLeast(y)))
  {
    if g != [] {
      var n := |g| - 1;
      SumAtLeast(g[..n], x, y);
      var cy, cx := Total(g[..n], AtLeast(y)), Total(g[..n], AtLeast(x));
      OneMore(y, cy);
      OneMore(x, cx - cy);
      if x <= g[n] < y {
        assert cx + 1 - cy == (cx - cy) + 1;
      }
    }
  }

  lemma OneMore(a: nat, b: nat)
    ensures a * (b + 1) == a * b + a
  {
  }

  lemma {:induction false} MemberAtMostSum(g: seq<nat>, v: nat)
    requires v in g
    ensures v <= Sum(g)
  {
    var n := |g| - 1;
    if g[n] != v {
      assert v in g[..n];
      MemberAtMostSum(g[..n], v);
    }
  }

  /** With less than `3 x` in a group it has at most two values of at least `x`; with less than `y + x` and a
      value of at least `y` it has only that one. */
  lemma FewLarge(g: seq<nat>, x: nat, y: nat, heaviest: nat)
    requires x <= y && Sum(g) <= heaviest < 3 * x
    ensures Total(g, AtLeast(x)) <= 2
    ensures y + x > heaviest ==> Total(g, AtLeast(x)) + Total(g, AtLeast(y)) <= 2
  {
    SumAtLeast(g, x, y);
    SumAtLeast(g, x, x);
    var cx, cy := Total(g, AtLeast(x)), Total(g, AtLeast(y));
    FewerThan(x, cx, 3);
    if cy >= 1 && cx >= 2 {
      TwoLarge(x, y, cx, cy);
    }
  }

  lemma FewerThan(x: nat, a: nat, b: nat)
    ensures x * a < x * b ==> a < b
  {
    if a >= b {
      assert x * a == x * b + x * (a - b);
    }
  }

  lemma TwoLarge(x: nat, y: nat, cx: nat, cy: nat)
    requires x <= y && 1 <= cy <= cx && 2 <= cx
    ensures y * cy + x * (cx - cy) >= y + x
  {
    if cy >= 2 {
      assert y * cy == y * 2 + y * (cy - 2);
    } else {
      assert x * (cx - cy) == x + x * (cx - 2);
    }
  }

  /** A group heavier than `y` has two values or one above `y`. */
  lemma HeavyGroup(g: seq<nat>, y: nat)
    requires Sum(g) > y
    ensures Total(g, Each()) + Total(g, Above(y)) >= 2
  {
    TotalEach(g);
    if |g| == 1 {
      assert g == [] + [g[0]];
      assert g[..0] == [];
    }
  }

  // ----- Sorting

  /** Ascending by a key. */
  predicate Sorted<T>(s: seq<T>, key: T -> int) {
    forall i, j | 0 <= i < j < |s| :: key(s[i]) <= key(s[j])
  }

  lemma SortedCons<T>(x: T, s: seq<T>, key: T -> int)
    requires Sorted(s, key) && forall y | y in s :: key(x) <= key(y)
    ensures Sorted([x] + s, key)
  {
    var r := [x] + s;
    forall i, j | 0 <= i < j < |r|
      ensures key(r[i]) <= key(r[j])
    {
      assert r[j] in s;
    }
  }

  /** Inserting before the first element with at least the same key. */
  function Insert<T>(x: T, s: seq<T>, key: T -> int): (r: seq<T>)
    requires Sorted(s, key)
    ensures Sorted(r, key) && multiset(r) == multiset(s) + multiset{x} && |r| == |s| + 1
    ensures forall y | y in r :: y == x || y in s
  {
    if s == [] then [x]
    else
      SortedTail(s, key);
      if key(x) <= key(s[0]) then
        SortedCons(x, s, key);
        [x] + s
      else
        var r := Insert(x, s[1..], key);
        SortedCons(s[0], r, key);
        [s[0]] + r
  }

  lemma SortedTail<T>(s: seq<T>, key: T -> int)
    requires Sorted(s, key) && s != []
    ensures Sorted(s[1..], key) && multiset(s) == multiset{s[0]} + multiset(s[1..])
    ensures forall y | y in s :: key(s[0]) <= key(y) && (y == s[0] || y in s[1..])
  {
    assert s == [s[0]] + s[1..];
  }

  /** Python's stable `list.sort`. */
  function StableSort<T>(s: seq<T>, key: T -> int): (r: seq<T>)
    ensures Sorted(r, key) && multiset(r) == multiset(s) && |r| == |s|
  {
    if s == [] then []
    else
      assert s == [s[0]] + s[1..];
      Insert(s[0], StableSort(s[1..], key), key)
  }

  /** The elements with a given key, in order. */
  function WithKey<T>(s: seq<T>, key: T -> int, k: int): seq<T> {
    if s == [] then []
    else if key(s[0]) == k then [s[0]] + WithKey(s[1..], key, k)
    else WithKey(s[1..], key, k)
  }

  lemma WithKeyCons<T>(x: T, s: seq<T>, key: T -> int, k: int)
    ensures WithKey([x] + s, key, k) == if key(x) == k then [x] + WithKey(s, key, k) else WithKey(s, key, k)
  {
    assert ([x] + s)[1..] == s;
  }

  lemma {:induction false} InsertIsStable<T>(x: T, s: seq<T>, key: T -> int, k: int)
    requires Sorted(s, key)
    ensures WithKey(Insert(x, s, key), key, k) == if key(x) == k then [x] + WithKey(s, key, k) else WithKey(s, key, k)
  {
    if s == [] || key(x) <= key(s[0]) {
      WithKeyCons(x, s, key, k);
    } else {
      InsertIsStable(x, s[1..], key, k);
      WithKeyCons(s[0], Insert(x, s[1..], key), key, k);
    }
  }

  /** The sort is stable: elements of equal key keep their order. */
  lemma {:induction false} SortIsStable<T>(s: seq<T>, key: T -> int, k: int)
    ensures WithKey(StableSort(s, key), key, k) == WithKey(s, key, k)
  {
    if s != [] {
      SortIsStable(s[1..], key, k);
      InsertIsStable(s[0], StableSort(s[1..], key), key, k);
    }
  }

  lemma {:induction false} SortedStays<T>(s: seq<T>, key: T -> int)
    requires Sorted(s, key)
    ensures StableSort(s, key) == s
  {
    if s != [] {
      SortedStays(s[1..], key);
      assert s[1..] != [] ==> key(s[0]) <= key(s[1..][0]);
      assert s == [s[0]] + s[1..];
    }
  }

  function BySum(): seq<nat> -> int {
    (g: seq<nat>) => Sum(g)
  }

  /** `load_balance_groups.sort(key=lambda x: sum(x))` */
  function SortBySum(groups: seq<seq<nat>>): (r: seq<seq<nat>>)
    ensures SortedBySum(r) && multiset(r) == multiset(groups) && |r| == |groups|
  {
    StableSort(groups, BySum())
  }

  predicate SortedBySum(groups: seq<seq<nat>>) {
    Sorted(groups, BySum())
  }

  function Negated(): nat -> int {
    (v: nat) => -(v as int)
  }

  predicate Descending(s: seq<nat>) {
    forall i, j | 0 <= i < j < |s| :: s[i] >= s[j]
  }

  /** `values.sort(reverse=True)` */
  function SortDescending(s: seq<nat>): (r: seq<nat>)
    ensures Descending(r) && multiset(r) == multiset(s) && |r| == |s|
  {
    var r := StableSort(s, Negated());
    assert forall i, j | 0 <= i < j < |r| :: Negated()(r[i]) <= Negated()(r[j]);
    r
  }

  lemma DescendingStays(s: seq<nat>)
    requires Descending(s)
    ensures SortDescending(s) == s
  {
    assert Sorted(s, Negated());
    SortedStays(s, Negated());
  }

  // ----- Reordering groups keeps what they hold

  lemma ItemsCons(g: seq<nat>, groups: seq<seq<nat>>)
    ensures Items([g] + groups) == multiset(g) + Items(groups)
  {
    assert ([g] + groups)[1..] == groups;
  }

  lemma {:induction false} ItemsInsert(g: seq<nat>, groups: seq<seq<nat>>)
    requires SortedBySum(groups)
    ensures Items(Insert(g, groups, BySum())) == multiset(g) + Items(groups)
  {
    hide Items, BySum;
    if groups == [] || BySum()(g) <= BySum()(groups[0]) {
      assert Insert(g, groups, BySum()) == [g] + groups;
      ItemsCons(g, groups);
    } else {
      var h, rest := groups[0], groups[1..];
      ItemsInsert(g, rest);
      assert Insert(g, groups, BySum()) == [h] + Insert(g, rest, BySum());
      ItemsCons(h, rest);
      ItemsCons(h, Insert(g, rest, BySum()));
      assert groups == [h] + rest;
    }
  }

  lemma {:induction false} ItemsSort(groups: seq<seq<nat>>)
    ensures Items(SortBySum(groups)) == Items(groups)
  {
    if groups != [] {
      ItemsSort(groups[1..]);
      ItemsInsert(groups[0], SortBySum(groups[1..]));
    }
  }

  // ----- The bound

  function Heaviest(groups: seq<seq<nat>>): (h: nat)
    ensures forall g | g in groups :: Sum(g) <= h
    ensures groups != [] ==> exists g :: g in groups && h == Sum(g)
  {
    if groups == [] then 0
    else
      var h := Heaviest(groups[1..]);
      assert forall g | g in groups :: g == groups[0] || g in groups[1..];
      if Sum(groups[0]) >= h then Sum(groups[0])
      else
        var g :| g in groups[1..] && h == Sum(g);
        assert g in groups;
        h
  }

  lemma HeaviestGroup(groups: seq<seq<nat>>) returns (g: seq<nat>)
    requires groups != []
    ensures g in groups && Heaviest(groups) == Sum(g)
  {
    if Sum(groups[0]) >= Heaviest(groups[1..]) {
      g := groups[0];
    } else {
      g := HeaviestGroup(groups[1..]);
    }
  }

  /** Any way to put the values into `m` groups. */
  predicate Assignment(groups: seq<seq<nat>>, values: seq<nat>, m: nat) {
    |groups| == m && Items(groups) == multiset(values)
  }

  /** The first `k` values of a descending sequence are all at least its value at `k - 1`. */
  lemma {:induction false} CountFirst(s: seq<nat>, k: nat, t: nat)
    requires k <= |s| && forall i | 0 <= i < k :: s[i] >= t
    ensures Total(s, AtLeast(t)) >= k
  {
    if s != [] {
      var n := |s| - 1;
      CountFirst(s[..n], if k <= n then k else n, t);
    }
  }

  lemma {:induction false} CountAbove(s: seq<nat>, k: nat, t: nat)
    requires k <= |s| && forall i | k <= i < |s| :: s[i] <= t
    ensures Total(s, Above(t)) <= k
  {
    if s != [] {
      var n := |s| - 1;
      CountAbove(s[..n], if k <= n then k else n, t);
    }
  }

  lemma {:induction false} TotalPrefix(s: seq<nat>, k: nat)
    requires k <= |s|
    ensures Sum(s[..k]) <= Sum(s)
  {
    if k == |s| {
      assert s[..k] == s;
    } else {
      TotalPrefix(s[..|s| - 1], k);
      assert s[..|s| - 1][..k] == s[..k];
    }
  }

  /** When every value placed so far is more than a third of the heaviest group of another assignment, the
      value placed next still fits under that group. */
  lemma LargeValues(values: seq<nat>, i: nat, groups: seq<seq<nat>>, other: seq<seq<nat>>, m: nat)
    requires Descending(values) && i < |values| && 1 <= m
    requires Assignment(groups, values[..i], m) && SortedBySum(groups)
    requires Assignment(other, values, m) && 3 * values[i] > Heaviest(other)
    ensures Sum(groups[0]) + values[i] <= Heaviest(other)
  {
    var x, heaviest, lightest := values[i], Heaviest(other), Sum(groups[0]);
    if i < m {
      EmptyGroup(groups, values[..i]);
      ValueFits(other, values, x);
    } else {
      ManyLarge(values, i, other, m);
      var k := 2 * m - i - 1;
      var y := values[k];
      PairFits(values, i, other, m, k);
      LightestBelow(values, i, groups, m, k);
    }
  }

  /** With fewer values than groups some group is empty, so the lightest one is. */
  lemma EmptyGroup(groups: seq<seq<nat>>, placed: seq<nat>)
    requires SortedBySum(groups) && Items(groups) == multiset(placed) && |placed| < |groups|
    ensures Sum(groups[0]) == 0
  {
    OverItems(groups, placed, Each());
    OverItems(groups, placed, Nothing());
    TotalEach(placed);
    TotalNothing(placed);
    if forall g | g in groups :: |g| >= 1 {
      forall g | g in groups
        ensures Total(g, Each()) + Total(g, Nothing()) >= 1
      {
        TotalEach(g);
      }
      OverAtLeast(groups, Each(), Nothing(), 1);
    }
    var j :| 0 <= j < |groups| && |groups[j]| < 1;
    assert Sum(groups[j]) == 0;
  }

  lemma {:induction false} ValueInSomeGroup(groups: seq<seq<nat>>, v: nat)
    requires v in Items(groups)
    ensures exists g :: g in groups && v in g
  {
    assert v in Flatten(groups);
    if v in groups[0] {
      assert groups[0] in groups;
    } else {
      assert v in Flatten(groups[1..]);
      ValueInSomeGroup(groups[1..], v);
    }
  }

  lemma ValueFits(other: seq<seq<nat>>, values: seq<nat>, v: nat)
    requires Items(other) == multiset(values) && v in values
    ensures v <= Heaviest(other)
  {
    assert v in multiset(values);
    ValueInSomeGroup(other, v);
    var g :| g in other && v in g;
    MemberAtMostSum(g, v);
  }

  /** At most two values above a third of the heaviest group fit into each group. */
  lemma ManyLarge(values: seq<nat>, i: nat, other: seq<seq<nat>>, m: nat)
    requires Descending(values) && i < |values|
    requires Assignment(other, values, m) && 3 * values[i] > Heaviest(other)
    ensures i + 1 <= 2 * m
  {
    var x := values[i];
    forall g | g in other
      ensures Total(g, AtLeast(x)) + Total(g, Nothing()) <= 2
    {
      FewLarge(g, x, x, Heaviest(other));
      TotalNothing(g);
    }
    OverAtMost(other, AtLeast(x), Nothing(), 2);
    OverItems(other, values, AtLeast(x));
    CountFirst(values, i + 1, x);
  }

  /** The value placed next fits together with the one that pairs with it from the other end. */
  lemma PairFits(values: seq<nat>, i: nat, other: seq<seq<nat>>, m: nat, k: nat)
    requires Descending(values) && m <= i < |values| && i + 1 <= 2 * m && k == 2 * m - i - 1
    requires Assignment(other, values, m) && 3 * values[i] > Heaviest(other)
    ensures values[k] + values[i] <= Heaviest(other)
  {
    var x, y := values[i], values[k];
    if y + x > Heaviest(other) {
      forall g | g in other
        ensures Total(g, AtLeast(x)) + Total(g, AtLeast(y)) <= 2
      {
        FewLarge(g, x, y, Heaviest(other));
      }
      OverAtMost(other, AtLeast(x), AtLeast(y), 2);
      OverItems(other, values, AtLeast(x));
      OverItems(other, values, AtLeast(y));
      CountFirst(values, i + 1, x);
      CountFirst(values, k + 1, y);
    }
  }

  /** The lightest group is no heavier than the value at `k = 2 m - i - 1`. */
  lemma LightestBelow(values: seq<nat>, i: nat, groups: seq<seq<nat>>, m: nat, k: nat)
    requires Descending(values) && m <= i < |values| && i + 1 <= 2 * m && k == 2 * m - i - 1
    requires Assignment(groups, values[..i], m) && SortedBySum(groups)
    ensures Sum(groups[0]) <= values[k]
  {
    var y := values[k];
    if Sum(groups[0]) > y {
      forall g | g in groups
        ensures Total(g, Each()) + Total(g, Above(y)) >= 2
      {
        HeavyGroup(g, y);
      }
      OverAtLeast(groups, Each(), Above(y), 2);
      OverItems(groups, values[..i], Each());
      OverItems(groups, values[..i], Above(y));
      TotalEach(values[..i]);
      CountAbove(values[..i], k, y);
    }
  }

  /** The group that is extended satisfies the bound against every other assignment of all the values. */
  lemma ExtendedGroup(values: seq<nat>, i: nat, groups: seq<seq<nat>>, other: seq<seq<nat>>, m: nat)
    requires Descending(values) && i < |values| && 1 <= m
    requires Assignment(groups, values[..i], m) && SortedBySum(groups)
    requires Assignment(other, values, m)
    ensures 3 * m * (Sum(groups[0]) + values[i]) <= (4 * m - 1) * Heaviest(other)
  {
    var x, heaviest, s := values[i], Heaviest(other), Sum(groups[0]);
    if 3 * x > heaviest {
      LargeValues(values, i, groups, other, m);
      FitsBound(m, s + x, heaviest);
    } else {
      AverageLoad(values, i, groups, other, m);
      AverageBound(m, s, x, heaviest);
    }
  }

  lemma FitsBound(m: nat, load: nat, heaviest: nat)
    requires 1 <= m && load <= heaviest
    ensures 3 * m * load <= (4 * m - 1) * heaviest
  {
    Monotone(3 * m, load, heaviest);
    assert (4 * m - 1) * heaviest == 3 * m * heaviest + (m - 1) * heaviest;
  }

  lemma Monotone(a: nat, b: nat, c: nat)
    requires b <= c
    ensures a * b <= a * c
  {
  }

  lemma AverageBound(m: nat, s: nat, x: nat, heaviest: nat)
    requires 1 <= m && m * s + x <= m * heaviest && 3 * x <= heaviest
    ensures 3 * m * (s + x) <= (4 * m - 1) * heaviest
  {
    Monotone(m - 1, 3 * x, heaviest);
    var ms, mx, mh := m * s, m * x, m * heaviest;
    assert 3 * m * (s + x) == 3 * ms + 3 * mx;
    assert (m - 1) * (3 * x) == 3 * mx - 3 * x;
    assert (4 * m - 1) * heaviest == 4 * mh - heaviest;
    assert (m - 1) * heaviest == mh - heaviest;
  }

  lemma LightestAverage(groups: seq<seq<nat>>, placed: seq<nat>, m: nat)
    requires 1 <= m && Assignment(groups, placed, m) && SortedBySum(groups)
    ensures m * Sum(groups[0]) <= Sum(placed)
  {
    hide Total, Items;
    var lightest := Sum(groups[0]);
    forall g | g in groups
      ensures Total(g, Identity()) + Total(g, Nothing()) >= lightest
    {
      var j :| 0 <= j < |groups| && groups[j] == g;
      assert BySum()(groups[0]) <= BySum()(groups[j]);
      TotalNothing(g);
    }
    OverAtLeast(groups, Identity(), Nothing(), lightest);
    OverItems(groups, placed, Identity());
    OverItems(groups, placed, Nothing());
    TotalNothing(placed);
  }

  lemma HeaviestAverage(groups: seq<seq<nat>>, values: seq<nat>, m: nat)
    requires Assignment(groups, values, m)
    ensures Sum(values) <= m * Heaviest(groups)
  {
    hide Total, Items;
    forall g | g in groups
      ensures Total(g, Identity()) + Total(g, Nothing()) <= Heaviest(groups)
    {
      TotalNothing(g);
    }
    OverAtMost(groups, Identity(), Nothing(), Heaviest(groups));
    OverItems(groups, values, Identity());
  }

  /** The lightest group is at most the average, and the average at most the heaviest of the other groups. */
  lemma AverageLoad(values: seq<nat>, i: nat, groups: seq<seq<nat>>, other: seq<seq<nat>>, m: nat)
    requires i < |values| && 1 <= m
    requires Assignment(groups, values[..i], m) && SortedBySum(groups)
    requires Assignment(other, values, m)
    ensures m * Sum(groups[0]) + values[i] <= m * Heaviest(other)
  {
    LightestAverage(groups, values[..i], m);
    HeaviestAverage(other, values, m);
    TotalPrefix(values, i + 1);
    assert values[..i + 1][..i] == values[..i];
    hide Items;
  }

  // ----- The balancer

  /** A group is within the bound of every other assignment of the values. */
  ghost predicate GroupWithinBound(g: seq<nat>, values: seq<nat>, m: nat) {
    forall other | Assignment(other, values, m) :: 3 * m * Sum(g) <= (4 * m - 1) * Heaviest(other)
  }

  ghost predicate WithinBound(groups: seq<seq<nat>>, values: seq<nat>, m: nat) {
    forall g | g in groups :: GroupWithinBound(g, values, m)
  }

  /** No two groups differ by more than `gap`. */
  predicate Balanced(groups: seq<seq<nat>>, gap: nat) {
    forall g, h | g in groups && h in groups :: Sum(g) <= Sum(h) + gap
  }

  /** `[[] for grp in range(1, groups + 1)]` */
  function EmptyGroups(m: nat): (groups: seq<seq<nat>>)
    ensures |groups| == m && forall g | g in groups :: g == []
    ensures Items(groups) == multiset{}
  {
    if m == 0 then [] else [[]] + EmptyGroups(m - 1)
  }

  lemma SumSnoc(g: seq<nat>, v: nat)
    ensures Sum(g + [v]) == Sum(g) + v
  {
    assert (g + [v])[..|g + [v]| - 1] == g;
  }

  /** Appending the next value to the lightest group keeps the bound. */
  lemma StepKeepsBound(values: seq<nat>, i: nat, groups: seq<seq<nat>>, m: nat)
    requires Descending(values) && i < |values| && 1 <= m
    requires Assignment(groups, values[..i], m) && SortedBySum(groups)
    requires WithinBound(groups, values, m)
    ensures WithinBound(groups[0 := groups[0] + [values[i]]], values, m)
  {
    var extended := groups[0] + [values[i]];
    SumSnoc(groups[0], values[i]);
    forall other | Assignment(other, values, m)
      ensures 3 * m * Sum(extended) <= (4 * m - 1) * Heaviest(other)
    {
      ExtendedGroup(values, i, groups, other, m);
    }
    assert GroupWithinBound(extended, values, m);
    forall g | g in groups[0 := extended]
      ensures g == extended || g in groups
    {
    }
  }

  lemma StepKeepsBalance(groups: seq<seq<nat>>, v: nat, gap: nat)
    requires groups != [] && SortedBySum(groups) && Balanced(groups, gap) && v <= gap
    ensures Balanced(groups[0 := groups[0] + [v]], gap)
  {
    var next := groups[0 := groups[0] + [v]];
    SumSnoc(groups[0], v);
    forall g | g in next
      ensures Sum(groups[0]) <= Sum(g) && (g == next[0] || g in groups)
    {
      if g != next[0] {
        var j :| 1 <= j < |groups| && groups[j] == g;
        assert BySum()(groups[0]) <= BySum()(groups[j]);
      }
    }
    assert groups[0] in groups;
  }

  lemma StepItems(groups: seq<seq<nat>>, v: nat)
    requires groups != []
    ensures Items(groups[0 := groups[0] + [v]]) == Items(groups) + multiset{v}
  {
    var next := groups[0 := groups[0] + [v]];
    assert next[1..] == groups[1..];
    assert Flatten(next) == groups[0] + [v] + Flatten(groups[1..]);
  }

  lemma SortKeeps(groups: seq<seq<nat>>, values: seq<nat>, m: nat, gap: nat)
    requires WithinBound(groups, values, m) && Balanced(groups, gap)
    ensures WithinBound(SortBySum(groups), values, m) && Balanced(SortBySum(groups), gap)
    ensures |SortBySum(groups)| == |groups|
  {
    var sorted := SortBySum(groups);
    forall g
      ensures g in sorted <==> g in groups
    {
      assert g in multiset(sorted) <==> g in multiset(groups);
    }
    assert |multiset(sorted)| == |multiset(groups)|;
  }

  lemma EmptyWithinBound(values: seq<nat>, m: nat, gap: nat)
    requires 1 <= m
    ensures WithinBound(EmptyGroups(m), values, m) && Balanced(EmptyGroups(m), gap)
  {
    hide Heaviest, Assignment;
    assert Sum([]) == 0;
    forall other | Assignment(other, values, m)
      ensures 3 * m * Sum([]) <= (4 * m - 1) * Heaviest(other)
    {
      Monotone(4 * m - 1, 0, Heaviest(other));
    }
    assert GroupWithinBound([], values, m);
  }

  lemma SameValues(a: seq<nat>, b: seq<nat>, m: nat, g: seq<nat>)
    requires multiset(a) == multiset(b) && GroupWithinBound(g, a, m)
    ensures GroupWithinBound(g, b, m)
  {
    forall other | Assignment(other, b, m)
      ensures 3 * m * Sum(g) <= (4 * m - 1) * Heaviest(other)
    {
      assert Assignment(other, a, m);
    }
  }

  /** One round: sort by sum and append the value to the first group. */
  function Place(groups: seq<seq<nat>>, v: nat): (r: seq<seq<nat>>)
    requires groups != []
    ensures |r| == |groups|
  {
    var sorted := SortBySum(groups);
    sorted[0 := sorted[0] + [v]]
  }

  /** The sort of the groups is stable. */
  lemma SortBySumIsStable(groups: seq<seq<nat>>, sum: int)
    ensures WithKey(SortBySum(groups), BySum(), sum) == WithKey(groups, BySum(), sum)
  {
    SortIsStable(groups, BySum(), sum);
  }

  /** Where the groups end up: a lightest one, the first of equally light ones, comes to the front with the value at
      its end; the others follow by sum, equal ones in their order. */
  lemma PlaceOrder(groups: seq<seq<nat>>, v: nat) returns (g: seq<nat>)
    requires groups != []
    ensures Place(groups, v)[0] == g + [v]
    ensures Sorted([g] + Place(groups, v)[1..], BySum())
    ensures forall sum :: WithKey([g] + Place(groups, v)[1..], BySum(), sum) == WithKey(groups, BySum(), sum)
  {
    hide StableSort, WithKey, BySum;
    var sorted := SortBySum(groups);
    g := sorted[0];
    assert [g] + Place(groups, v)[1..] == sorted;
    forall sum
      ensures WithKey(sorted, BySum(), sum) == WithKey(groups, BySum(), sum)
    {
      SortBySumIsStable(groups, sum);
    }
  }

  /** A run of rounds ends with the round of its last value, and no values leave the groups as they are. */
  lemma {:induction false} PlaceAllSnoc(groups: seq<seq<nat>>, ordered: seq<nat>, v: nat)
    requires groups != []
    ensures PlaceAll(groups, []) == groups
    ensures PlaceAll(groups, ordered) != []
    ensures PlaceAll(groups, ordered + [v]) == Place(PlaceAll(groups, ordered), v)
    decreases |ordered|
  {
    hide Place;
    if ordered == [] {
      assert [] + [v] == [v] && [v][1..] == [];
      assert PlaceAll(groups, [v]) == PlaceAll(Place(groups, v), []);
    } else {
      assert (ordered + [v])[1..] == ordered[1..] + [v];
      PlaceAllSnoc(Place(groups, ordered[0]), ordered[1..], v);
    }
  }

  function PlaceAll(groups: seq<seq<nat>>, ordered: seq<nat>): seq<seq<nat>>
    requires groups != []
    decreases |ordered|
  {
    if ordered == [] then groups else PlaceAll(Place(groups, ordered[0]), ordered[1..])
  }

  /** The program of `make_team.py` for any number of groups and any values. */
  method MakeTeam(values: seq<nat>, groupCount: nat) returns (groups: seq<seq<nat>>)
    requires 1 <= groupCount
    ensures groups == PlaceAll(EmptyGroups(groupCount), SortDescending(values))
    ensures |groups| == groupCount && (values == [] ==> groups == EmptyGroups(groupCount))
    ensures values != [] ==> exists g ::
              groups[0] == g + [SortDescending(values)[|values| - 1]] && Sorted([g] + groups[1..], BySum())
    ensures Assignment(groups, values, groupCount)
    ensures forall other | Assignment(other, values, groupCount) ::
              3 * groupCount * Heaviest(groups) <= (4 * groupCount - 1) * Heaviest(other)
    ensures forall g, h | g in groups && h in groups :: exists v | v in values + [0] :: Sum(g) <= Sum(h) + v
  {
    hide Items, Heaviest, Descending, Balanced, WithinBound, SortDescending, Sorted;
    var ordered := SortDescending(values);
    groups := Balance(ordered, groupCount);
    LastRound(values, groupCount);
    ghost var heaviest := HeaviestGroup(groups);
    HeaviestWithinBound(groups, ordered, values, groupCount, heaviest);
    SmallGap(groups, ordered, values);
  }

  lemma HeaviestWithinBound(groups: seq<seq<nat>>, ordered: seq<nat>, values: seq<nat>, m: nat, heaviest: seq<nat>)
    requires WithinBound(groups, ordered, m) && multiset(ordered) == multiset(values)
    requires heaviest in groups && Heaviest(groups) == Sum(heaviest)
    ensures forall other | Assignment(other, values, m) :: 3 * m * Heaviest(groups) <= (4 * m - 1) * Heaviest(other)
  {
    hide Heaviest, Items, Sum;
    SameValues(ordered, values, m, heaviest);
  }

  lemma SmallGap(groups: seq<seq<nat>>, ordered: seq<nat>, values: seq<nat>)
    requires Balanced(groups, Largest(ordered)) && multiset(ordered) == multiset(values)
    ensures forall g, h | g in groups && h in groups :: exists v | v in values + [0] :: Sum(g) <= Sum(h) + v
  {
    hide Sum;
    var v := Largest(ordered);
    assert v in values + [0] by {
      if ordered != [] {
        assert v in multiset(ordered);
      }
    }
  }

  function Largest(ordered: seq<nat>): nat {
    if ordered == [] then 0 else ordered[0]
  }

  /** The loop over the sorted values. */
  method Balance(ordered: seq<nat>, groupCount: nat) returns (groups: seq<seq<nat>>)
    requires 1 <= groupCount && Descending(ordered)
    ensures groups == PlaceAll(EmptyGroups(groupCount), ordered)
    ensures Assignment(groups, ordered, groupCount)
    ensures WithinBound(groups, ordered, groupCount) && Balanced(groups, Largest(ordered))
  {
    hide Items, Descending, Balanced, WithinBound, Place;
    groups := EmptyGroups(groupCount);
    ghost var gap := Largest(ordered);
    EmptyWithinBound(ordered, groupCount, gap);
    for i := 0 to |ordered|
      invariant Assignment(groups, ordered[..i], groupCount)
      invariant PlaceAll(groups, ordered[i..]) == PlaceAll(EmptyGroups(groupCount), ordered)
      invariant WithinBound(groups, ordered, groupCount) && Balanced(groups, gap)
    {
      assert ordered[i] <= gap by { First(ordered, i); }
      assert ordered[i..][1..] == ordered[i + 1..];
      groups := Step(groups, ordered, i, groupCount, gap);
    }
    assert ordered[..|ordered|] == ordered;
  }

  /** How the program leaves the groups: the smallest value was the last one appended, to the first group, and
      before that the groups were in order. */
  lemma LastRound(values: seq<nat>, m: nat)
    requires 1 <= m
    ensures var groups := PlaceAll(EmptyGroups(m), SortDescending(values));
            && groups != []
            && (values == [] ==> groups == EmptyGroups(m))
            && (values != [] ==> exists g ::
                  groups[0] == g + [SortDescending(values)[|values| - 1]] && Sorted([g] + groups[1..], BySum()))
  {
    hide Place, SortDescending, Sorted;
    var ordered := SortDescending(values);
    if values == [] {
      PlaceAllSnoc(EmptyGroups(m), [], 0);
    } else {
      var n := |ordered| - 1;
      assert ordered == ordered[..n] + [ordered[n]];
      PlaceAllSnoc(EmptyGroups(m), ordered[..n], ordered[n]);
      var g := PlaceOrder(PlaceAll(EmptyGroups(m), ordered[..n]), ordered[n]);
    }
  }

  lemma First(s: seq<nat>, i: nat)
    requires Descending(s) && i < |s|
    ensures s[i] <= s[0]
  {
  }

  /** The loop body: sort by sum, append to the first group. */
  method Step(before: seq<seq<nat>>, ordered: seq<nat>, i: nat, groupCount: nat, ghost gap: nat)
    returns (groups: seq<seq<nat>>)
    requires 1 <= groupCount && Descending(ordered) && i < |ordered| && ordered[i] <= gap
    requires Assignment(before, ordered[..i], groupCount)
    requires WithinBound(before, ordered, groupCount) && Balanced(before, gap)
    ensures Assignment(groups, ordered[..i + 1], groupCount)
    ensures WithinBound(groups, ordered, groupCount) && Balanced(groups, gap)
    ensures groups == Place(before, ordered[i])
  {
    hide WithinBound, Balanced, SortBySum, SortedBySum, Items, Descending;
    SortKeeps(before, ordered, groupCount, gap);
    ItemsSort(before);
    groups := SortBySum(before);
    assert SortedBySum(groups);
    StepKeepsBound(ordered, i, groups, groupCount);
    StepKeepsBalance(groups, ordered[i], gap);
    StepItems(groups, ordered[i]);
    groups := groups[0 := groups[0] + [ordered[i]]];
    assert ordered[..i + 1] == ordered[..i] + [ordered[i]];
  }
}
