/** The bound on the load balancer is the best possible, for every number of groups. */
module LoadBalanceWorstCase {
  import opened LoadBalance

  // ----- The values: 2m - 1, 2m - 1, 2m - 2, 2m - 2, ..., m + 1, m + 1, m, m, m

  function Worst(m: nat, j: nat): nat
    requires 1 <= m && j <= 2 * m
  {
    if j < 2 * m then 2 * m - 1 - j / 2 else m
  }

  function Values(m: nat): (s: seq<nat>)
    requires 1 <= m
    ensures |s| == 2 * m + 1 && forall j | 0 <= j <= 2 * m :: s[j] == Worst(m, j)
  {
    seq(2 * m + 1, j requires 0 <= j <= 2 * m => Worst(m, j))
  }

  // ----- What the balancer does with them

  /** The groups with one of the `n` largest values each. */
  function Singles(m: nat, n: nat): multiset<seq<nat>>
    requires 1 <= m && n <= m
  {
    if n == 0 then multiset{} else Singles(m, n - 1) + multiset{[Worst(m, n - 1)]}
  }

  /** The groups of two after the first `n` of them were formed: the next value joins the smallest single one. */
  function Pairs(m: nat, n: nat): multiset<seq<nat>>
    requires 1 <= m && n <= m
  {
    if n == 0 then multiset{}
    else Pairs(m, n - 1) + multiset{[Worst(m, m - n), Worst(m, m + n - 1)]}
  }

  function Empties(n: nat): multiset<seq<nat>> {
    if n == 0 then multiset{} else Empties(n - 1) + multiset{[]}
  }

  /** The groups after `r` rounds. */
  function AfterRound(m: nat, r: nat): multiset<seq<nat>>
    requires 1 <= m && r <= 2 * m
  {
    if r <= m then Singles(m, r) + Empties(m - r) else Singles(m, 2 * m - r) + Pairs(m, r - m)
  }

  lemma {:induction false} SinglesAre(m: nat, n: nat, g: seq<nat>)
    requires 1 <= m && n <= m && g in Singles(m, n)
    ensures |g| == 1 && Sum(g) == g[0] >= Worst(m, n - 1)
    ensures n >= 1
  {
    if g == [Worst(m, n - 1)] {
      SumOne(g);
    } else {
      SinglesAre(m, n - 1, g);
    }
  }

  lemma SumOne(g: seq<nat>)
    requires |g| == 1
    ensures Sum(g) == g[0]
  {
    assert g == [] + [g[0]];
    SumSnoc([], g[0]);
  }

  /** Every group of two has the same sum. */
  lemma {:induction false} PairsAre(m: nat, n: nat, g: seq<nat>)
    requires 1 <= m && n <= m && g in Pairs(m, n)
    ensures Sum(g) == 3 * m - 1
  {
    var v, w := Worst(m, m - n), Worst(m, m + n - 1);
    if g == [v, w] {
      SumOne([v]);
      SumSnoc([v], w);
      assert [v] + [w] == g;
      assert (m - n) / 2 + (m + n - 1) / 2 == m - 1;
    } else {
      PairsAre(m, n - 1, g);
    }
  }

  lemma {:induction false} EmptiesAre(n: nat, g: seq<nat>)
    requires g in Empties(n)
    ensures g == []
  {
    if g != [] {
      EmptiesAre(n - 1, g);
    }
  }

  lemma FirstIsLightest(groups: seq<seq<nat>>)
    requires groups != []
    ensures var sorted := SortBySum(groups);
      |sorted| == |groups| && sorted[0] in groups && forall h | h in groups :: Sum(sorted[0]) <= Sum(h)
  {
    hide Sum;
    var sorted := SortBySum(groups);
    assert sorted[0] in multiset(sorted);
    forall h | h in groups
      ensures Sum(sorted[0]) <= Sum(h)
    {
      assert h in multiset(groups);
      assert h in sorted;
      assert BySum()(sorted[0]) <= BySum()(h);
    }
  }

  /** One round replaces a lightest group by itself with the value. */
  lemma PlaceLightest(groups: seq<seq<nat>>, v: nat) returns (g: seq<nat>)
    requires groups != []
    ensures g in groups && forall h | h in groups :: Sum(g) <= Sum(h)
    ensures multiset(Place(groups, v)) == multiset(groups) - multiset{g} + multiset{g + [v]}
  {
    hide Sum, SortedBySum;
    FirstIsLightest(groups);
    var sorted := SortBySum(groups);
    g := sorted[0];
    hide SortBySum;
    assert sorted == [g] + sorted[1..] && Place(groups, v) == [g + [v]] + sorted[1..];
  }

  lemma Replaced<T>(whole: multiset<T>, rest: multiset<T>, x: T, y: T)
    requires whole == rest + multiset{x}
    ensures whole - multiset{x} + multiset{y} == rest + multiset{y}
  {
  }

  lemma Moved<T>(a: multiset<T>, b: multiset<T>, x: T, y: T)
    ensures a + multiset{x} + b - multiset{x} + multiset{y} == a + (b + multiset{y})
  {
  }

  /** While there are empty groups, the lightest group is empty. */
  lemma EmptyIsLightest(m: nat, r: nat, groups: seq<seq<nat>>, g: seq<nat>)
    requires 1 <= m && r < m && multiset(groups) == AfterRound(m, r)
    requires g in groups && forall h | h in groups :: Sum(g) <= Sum(h)
    ensures g == []
  {
    hide Sum;
    assert [] in Empties(m - r);
    assert [] in multiset(groups) && [] in groups;
    SumOfNone();
    assert g in multiset(groups);
    if g in Singles(m, r) {
      SinglesAre(m, r, g);
    } else {
      EmptiesAre(m - r, g);
    }
  }

  lemma SumOfNone()
    ensures Sum([]) == 0
  {
  }

  /** Afterwards the lightest group is the smallest value that is still alone. */
  lemma SmallestIsLightest(m: nat, r: nat, groups: seq<seq<nat>>, g: seq<nat>)
    requires 1 <= m && m <= r < 2 * m && multiset(groups) == Singles(m, 2 * m - r) + Pairs(m, r - m)
    requires g in groups && forall h | h in groups :: Sum(g) <= Sum(h)
    ensures g == [Worst(m, 2 * m - r - 1)]
  {
    hide Sum, Pairs;
    var n := 2 * m - r;
    var last := [Worst(m, n - 1)];
    assert last in Singles(m, n);
    assert last in multiset(groups) && last in groups;
    SumOne(last);
    assert g in multiset(groups);
    if g in Singles(m, n) {
      SinglesAre(m, n, g);
    } else {
      PairsAre(m, r - m, g);
    }
  }

  lemma Halfway(m: nat)
    requires 1 <= m
    ensures AfterRound(m, m) == Singles(m, m) + Pairs(m, 0)
  {
  }

  lemma FirstRounds(m: nat, r: nat, groups: seq<seq<nat>>)
    requires 1 <= m && r < m && groups != [] && multiset(groups) == AfterRound(m, r)
    ensures multiset(Place(groups, Worst(m, r))) == AfterRound(m, r + 1)
  {
    hide Sum, Place, Worst;
    var v := Worst(m, r);
    var g := PlaceLightest(groups, v);
    EmptyIsLightest(m, r, groups, g);
    assert [] + [v] == [v];
    Replaced(AfterRound(m, r), Singles(m, r) + Empties(m - r - 1), [], [v]);
  }

  lemma SecondHalf(m: nat, r: nat)
    requires 1 <= m && m <= r <= 2 * m
    ensures AfterRound(m, r) == Singles(m, 2 * m - r) + Pairs(m, r - m)
    ensures r < 2 * m ==> var n := 2 * m - r;
      && Singles(m, n) == Singles(m, n - 1) + multiset{[Worst(m, n - 1)]}
      && Pairs(m, r + 1 - m) == Pairs(m, r - m) + multiset{[Worst(m, n - 1), Worst(m, r)]}
  {
    hide Worst;
    if r == m {
      Halfway(m);
    }
    if r < 2 * m {
      assert m - (r + 1 - m) == 2 * m - r - 1 && m + (r + 1 - m) - 1 == r;
    }
  }

  lemma LaterRounds(m: nat, r: nat, groups: seq<seq<nat>>)
    requires 1 <= m && m <= r < 2 * m && groups != [] && multiset(groups) == AfterRound(m, r)
    ensures multiset(Place(groups, Worst(m, r))) == AfterRound(m, r + 1)
  {
    hide Sum, Place, Worst, AfterRound, Singles, Pairs;
    SecondHalf(m, r);
    SecondHalf(m, r + 1);
    var single, v := Worst(m, 2 * m - r - 1), Worst(m, r);
    var g := PlaceLightest(groups, v);
    SmallestIsLightest(m, r, groups, g);
    assert [single] + [v] == [single, v];
    Moved(Singles(m, 2 * m - r - 1), Pairs(m, r - m), g, [single, v]);
  }

  lemma {:induction false} FromRound(m: nat, r: nat, groups: seq<seq<nat>>)
    requires 1 <= m && r <= 2 * m && groups != [] && multiset(groups) == AfterRound(m, r)
    ensures Heaviest(PlaceAll(groups, Values(m)[r..])) == 4 * m - 1
    decreases 2 * m - r
  {
    hide AfterRound, Place, Heaviest, Values, Worst;
    var rest := Values(m)[r..];
    assert rest[0] == Worst(m, r) && rest[1..] == Values(m)[r + 1..];
    if r < 2 * m {
      if r < m {
        FirstRounds(m, r, groups);
      } else {
        LaterRounds(m, r, groups);
      }
      FromRound(m, r + 1, Place(groups, Worst(m, r)));
    } else {
      WorstLast(m);
      assert rest == [m];
      LastRound(m, groups);
    }
  }

  lemma WorstLast(m: nat)
    requires 1 <= m
    ensures Worst(m, 2 * m) == m
    ensures m >= 2 ==> Worst(m, 2 * m - 2) == m
    ensures Worst(m, 2 * m - 1) == m
  {
  }

  /** The last value makes one of the equal groups of two the heaviest. */
  lemma LastRound(m: nat, groups: seq<seq<nat>>)
    requires 1 <= m && groups != [] && multiset(groups) == AfterRound(m, 2 * m)
    ensures Heaviest(PlaceAll(groups, [m])) == 4 * m - 1
  {
    hide Sum, Place, Heaviest, Pairs;
    var g := PlaceLightest(groups, m);
    var placed := Place(groups, m);
    assert PlaceAll(groups, [m]) == PlaceAll(placed, []) == placed;
    OnlyPairs(m, groups);
    SumSnoc(g, m);
    forall h | h in placed
      ensures Sum(h) <= 4 * m - 1
    {
      assert h in multiset(placed);
      assert h == g + [m] || h in multiset(groups);
    }
    assert g + [m] in multiset(placed);
    assert g + [m] in placed;
    var heaviest := HeaviestGroup(placed);
  }

  lemma OnlyPairs(m: nat, groups: seq<seq<nat>>)
    requires 1 <= m && multiset(groups) == AfterRound(m, 2 * m)
    ensures forall g | g in groups :: Sum(g) == 3 * m - 1
  {
    hide Sum;
    forall g | g in groups
      ensures Sum(g) == 3 * m - 1
    {
      assert g in multiset(groups);
      PairsAre(m, m, g);
    }
  }

  // ----- A better assignment: groups of sum 3m

  /** The `j`-th largest value with the `j`-th smallest one above `m`, and the three smallest values together. */
  function Matched(m: nat, j: nat): (groups: seq<seq<nat>>)
    requires 1 <= m && j < m
    ensures |groups| == m - j
    decreases m - j
  {
    if j == m - 1 then [[m, m, m]] else [[Worst(m, j), Worst(m, 2 * m - 3 - j)]] + Matched(m, j + 1)
  }

  lemma MatchedStep(m: nat, j: nat)
    requires 1 <= m && j + 1 < m
    ensures Items(Matched(m, j)) == multiset{Worst(m, j)} + Items(Matched(m, j + 1)) + multiset{Worst(m, 2 * m - 3 - j)}
  {
    hide Worst, Items;
    MoreItems(Worst(m, j), Worst(m, 2 * m - 3 - j), Matched(m, j + 1));
  }

  function Middle(m: nat, j: nat): multiset<nat>
    requires 1 <= m && j < m
  {
    multiset(Values(m)[j..2 * m - 2 - j])
  }

  lemma MiddleStep(m: nat, j: nat)
    requires 1 <= m && j + 1 < m
    ensures Middle(m, j) == multiset{Worst(m, j)} + Middle(m, j + 1) + multiset{Worst(m, 2 * m - 3 - j)}
  {
    hide Worst, Values;
    Ends(Values(m), j, 2 * m - 2 - j);
  }

  lemma {:induction false} MatchedItems(m: nat, j: nat)
    requires 1 <= m && j < m
    ensures Items(Matched(m, j)) == Middle(m, j) + multiset([m, m, m])
    decreases m - j
  {
    hide Items, Worst, Values;
    if j == m - 1 {
      ItemsOfOne([m, m, m]);
    } else {
      MatchedItems(m, j + 1);
      MatchedStep(m, j);
      MiddleStep(m, j);
      Between(multiset{Worst(m, j)}, Middle(m, j + 1), multiset([m, m, m]), multiset{Worst(m, 2 * m - 3 - j)});
    }
  }

  lemma Between(a: multiset<nat>, b: multiset<nat>, c: multiset<nat>, d: multiset<nat>)
    ensures a + (b + c) + d == a + b + d + c
  {
  }

  lemma ItemsOfOne(g: seq<nat>)
    ensures Items([g]) == multiset(g)
  {
    assert Flatten([g]) == g + Flatten([]) == g;
  }

  lemma Ends(s: seq<nat>, j: nat, k: nat)
    requires j + 1 < k <= |s|
    ensures multiset(s[j..k]) == multiset{s[j]} + multiset(s[j + 1..k - 1]) + multiset{s[k - 1]}
  {
    assert s[j..k] == [s[j]] + s[j + 1..k - 1] + [s[k - 1]];
  }

  lemma MoreItems(v: nat, w: nat, groups: seq<seq<nat>>)
    ensures Items([[v, w]] + groups) == multiset{v} + Items(groups) + multiset{w}
  {
    var more := [[v, w]] + groups;
    assert more[1..] == groups;
    assert [v, w] == [v] + [w];
  }

  lemma {:induction false} MatchedSums(m: nat, j: nat, g: seq<nat>)
    requires 1 <= m && j < m && g in Matched(m, j)
    ensures Sum(g) == 3 * m
    decreases m - j
  {
    if j == m - 1 {
      assert g == [m, m] + [m] && [m, m] == [m] + [m];
      SumOne([m]);
      SumSnoc([m], m);
      SumSnoc([m, m], m);
    } else if g == Matched(m, j)[0] {
      var v, w := Worst(m, j), Worst(m, 2 * m - 3 - j);
      assert g == [v] + [w];
      SumOne([v]);
      SumSnoc([v], w);
      assert j / 2 + (2 * m - 3 - j) / 2 == m - 2;
    } else {
      assert g in Matched(m, j)[1..];
      MatchedSums(m, j + 1, g);
    }
  }

  /** For every number of groups there are values with which the program reaches its bound. */
  lemma BoundIsAttained(m: nat)
    requires 1 <= m
    ensures var greedy, other := PlaceAll(EmptyGroups(m), SortDescending(Values(m))), Matched(m, 0);
      && Assignment(other, Values(m), m)
      && Heaviest(greedy) == 4 * m - 1 && Heaviest(other) == 3 * m
      && 3 * m * Heaviest(greedy) == (4 * m - 1) * Heaviest(other)
  {
    hide Heaviest, PlaceAll, Items, Matched, SortDescending, Values;
    GreedyLoad(m);
    MatchedLoad(m);
  }

  lemma GreedyLoad(m: nat)
    requires 1 <= m
    ensures Heaviest(PlaceAll(EmptyGroups(m), SortDescending(Values(m)))) == 4 * m - 1
  {
    DescendingStays(Values(m));
    hide Heaviest, PlaceAll, SortDescending, Values, AfterRound;
    EmptyGroupsAre(m);
    assert Values(m)[0..] == Values(m);
    FromRound(m, 0, EmptyGroups(m));
  }

  lemma MatchedLoad(m: nat)
    requires 1 <= m
    ensures Items(Matched(m, 0)) == multiset(Values(m)) && Heaviest(Matched(m, 0)) == 3 * m
  {
    hide Sum, Heaviest, Items, Matched, Values;
    MatchedItems(m, 0);
    ThreeLast(m);
    var g := HeaviestGroup(Matched(m, 0));
    MatchedSums(m, 0, g);
  }

  lemma ThreeLast(m: nat)
    requires 1 <= m
    ensures multiset(Values(m)) == multiset(Values(m)[0..2 * m - 2]) + multiset([m, m, m])
  {
    WorstLast(m);
    hide Worst;
    assert Values(m) == Values(m)[0..2 * m - 2] + [m, m, m];
  }

  lemma EmptyGroupsAre(m: nat)
    requires 1 <= m
    ensures multiset(EmptyGroups(m)) == AfterRound(m, 0)
  {
    ManyEmpties(m);
  }

  lemma {:induction false} ManyEmpties(n: nat)
    ensures multiset(EmptyGroups(n)) == Empties(n)
  {
    if n > 0 {
      ManyEmpties(n - 1);
    }
  }
}
