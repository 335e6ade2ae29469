/** A pool whose items can be linked into several hash tables at once, each with a next field of its own: to each
    table it looks like a pool with that table alone. */
module PoolTables {
  import opened Chains
  import opened PoolStates

  /** `held` are the items handed out to the caller, linked or not; each table is a sequence of chains. */
  datatype Pool = Pool(free: seq<nat>, tables: seq<seq<seq<nat>>>, held: set<nat>, keys: seq<int>)

  datatype Call = Alloc | Free(item: nat) | Write(item: nat, key: int) | Link(table: nat, item: nat, bucket: nat)
                | Unlink(table: nat, bucket: nat, key: int)

  function LinkedIn(chains: seq<seq<nat>>): set<nat> {
    set i | i in Linked(chains)
  }

  /** The pool as the users of table `t` see it. */
  function View(p: Pool, t: nat): State
    requires t < |p.tables|
  {
    State(p.free, p.tables[t], p.held - LinkedIn(p.tables[t]), p.keys)
  }

  predicate Unlinked(p: Pool, i: nat) {
    forall t | 0 <= t < |p.tables| :: i !in LinkedIn(p.tables[t])
  }

  /** What a well-behaved caller does: frees and rewrites an item only when it is in no table. */
  predicate Permitted(p: Pool, call: Call) {
    match call
    case Alloc => true
    case Free(i) => i in p.held && Unlinked(p, i)
    case Write(i, _) => i in p.held && i < |p.keys| && Unlinked(p, i)
    case Link(t, i, b) => t < |p.tables| && b < |p.tables[t]| && i in p.held && i !in LinkedIn(p.tables[t])
    case Unlink(t, b, _) => t < |p.tables| && b < |p.tables[t]|
  }

  function Next(p: Pool, call: Call): Pool
    requires Permitted(p, call)
  {
    match call
    case Alloc => if p.free == [] then p else p.(free := p.free[1..], held := p.held + {p.free[0]})
    case Free(i) => p.(free := p.free + [i], held := p.held - {i})
    case Write(i, key) => p.(keys := p.keys[i := key])
    case Link(t, i, b) => p.(tables := p.tables[t := Step(View(p, t), Op.Link(i, b)).chains])
    case Unlink(t, b, key) => p.(tables := p.tables[t := Step(View(p, t), Op.Unlink(b, key)).chains])
  }

  /** What a call is to table `t`: the calls on other tables are none. */
  function Seen(call: Call, t: nat): seq<Op> {
    match call
    case Alloc => [Op.Alloc]
    case Free(i) => [Op.Free(i)]
    case Write(i, key) => [Op.Write(i, key)]
    case Link(u, i, b) => if u == t then [Op.Link(i, b)] else []
    case Unlink(u, b, key) => if u == t then [Op.Unlink(b, key)] else []
  }

  /** The free and the held items are all items, once; linked items are held; and every table by itself is
      conserved. */
  ghost predicate PoolConserved(p: Pool) {
    && multiset(p.free) + multiset(p.held) == AllItems(|p.keys|)
    && forall t | 0 <= t < |p.tables| :: LinkedIn(p.tables[t]) <= p.held && Conserved(View(p, t))
  }

  // ----- One call

  lemma HeldOrFree(p: Pool, i: nat)
    requires PoolConserved(p)
    ensures i in p.free ==> i !in p.held && i < |p.keys|
    ensures i in p.held ==> i < |p.keys|
  {
    AllItemsOnce(|p.keys|);
    assert (multiset(p.free) + multiset(p.held))[i] == multiset(p.free)[i] + multiset(p.held)[i];
    assert i in p.free ==> i in multiset(p.free);
    assert i in p.held ==> i in multiset(p.held);
  }

  lemma LinkedOnce(s: State, i: nat)
    requires Conserved(s)
    ensures Linked(s.chains)[i] <= 1
  {
    AllItemsOnce(|s.keys|);
    assert Contents(s)[i] == multiset(s.free)[i] + Linked(s.chains)[i] + multiset(s.detached)[i];
  }

  lemma LinkView(p: Pool, t: nat, i: nat, b: nat)
    requires PoolConserved(p) && Permitted(p, Call.Link(t, i, b))
    ensures i in View(p, t).detached && i < |p.keys|
    ensures View(Next(p, Call.Link(t, i, b)), t) == Step(View(p, t), Op.Link(i, b))
    ensures LinkedIn(Next(p, Call.Link(t, i, b)).tables[t]) <= p.held
    ensures Find(View(p, t), p.tables[t][b], p.keys[i]) == |p.tables[t][b]| ==>
              i in LinkedIn(Next(p, Call.Link(t, i, b)).tables[t])
  {
    hide Linked, Find, Conserved;
    HeldOrFree(p, i);
    var s := View(p, t);
    var c := s.chains[b];
    LinkedUpdate(s.chains, b, c + [i]);
    assert multiset(c + [i]) == multiset(c) + multiset{i};
    Cancel(Linked(s.chains[b := c + [i]]), multiset(c), Linked(s.chains), multiset{i});
    assert LinkedIn(s.chains[b := c + [i]]) == LinkedIn(s.chains) + {i};
  }

  lemma UnlinkView(p: Pool, t: nat, b: nat, key: int)
    requires PoolConserved(p) && Permitted(p, Call.Unlink(t, b, key))
    ensures View(Next(p, Call.Unlink(t, b, key)), t) == Step(View(p, t), Op.Unlink(b, key))
    ensures LinkedIn(Next(p, Call.Unlink(t, b, key)).tables[t]) <= p.held
    ensures Find(View(p, t), p.tables[t][b], key) == |p.tables[t][b]| ==> Next(p, Call.Unlink(t, b, key)) == p
  {
    hide Linked, Find, Conserved;
    var s := View(p, t);
    var c := s.chains[b];
    var k := Find(s, c, key);
    if k < |c| {
      var x, rest := c[k], Linked(s.chains[b := Without(c, k)]);
      WithoutItem(c, k);
      LinkedUpdate(s.chains, b, Without(c, k));
      Cancel(Linked(s.chains), multiset(Without(c, k)), rest, multiset{x});
      LinkedOnce(s, x);
      assert rest[x] == 0;
      assert LinkedIn(s.chains[b := Without(c, k)]) == LinkedIn(s.chains) - {x} && x in LinkedIn(s.chains);
    }
  }

  lemma AllocView(p: Pool, t: nat)
    requires PoolConserved(p) && t < |p.tables|
    ensures View(Next(p, Call.Alloc), t) == Step(View(p, t), Op.Alloc)
  {
    hide Linked, Conserved;
    if p.free != [] {
      HeldOrFree(p, p.free[0]);
    }
  }

  /** To table `t` a call is what it sees of it. */
  lemma CallSeen(p: Pool, call: Call, t: nat)
    requires PoolConserved(p) && Permitted(p, call) && t < |p.tables|
    ensures t < |Next(p, call).tables| && WellBehaved(View(p, t), Seen(call, t))
    ensures View(Next(p, call), t) == Run(View(p, t), Seen(call, t))
  {
    hide Linked, Step, Conserved;
    match call
    case Alloc => AllocView(p, t);
    case Free(i) => FreeView(p, t, i);
    case Write(i, key) => WriteView(p, t, i, key);
    case Link(u, i, b) => LinkView(p, u, i, b);
    case Unlink(u, b, key) => UnlinkView(p, u, b, key);
    assert |Seen(call, t)| <= 1;
    assert Seen(call, t) != [] ==> Seen(call, t)[1..] == [];
  }

  lemma FreeView(p: Pool, t: nat, i: nat)
    requires t < |p.tables| && Permitted(p, Call.Free(i))
    ensures i in View(p, t).detached
    ensures View(Next(p, Call.Free(i)), t) == Step(View(p, t), Op.Free(i))
  {
    hide Linked;
  }

  lemma WriteView(p: Pool, t: nat, i: nat, key: int)
    requires t < |p.tables| && Permitted(p, Call.Write(i, key))
    ensures i in View(p, t).detached
    ensures View(Next(p, Call.Write(i, key)), t) == Step(View(p, t), Op.Write(i, key))
  {
    hide Linked;
  }

  lemma CallConserves(p: Pool, call: Call)
    requires PoolConserved(p) && Permitted(p, call)
    ensures PoolConserved(Next(p, call)) && |Next(p, call).keys| == |p.keys|
  {
    var q := Next(p, call);
    HeldConserved(p, call);
    forall t | 0 <= t < |q.tables|
      ensures LinkedIn(q.tables[t]) <= q.held && Conserved(View(q, t))
    {
      hide Next, Linked, Conserved, View, Seen;
      CallSeen(p, call, t);
      RunConserves(View(p, t), Seen(call, t));
      StillHeld(p, call, t);
    }
  }

  lemma HeldConserved(p: Pool, call: Call)
    requires PoolConserved(p) && Permitted(p, call)
    ensures var q := Next(p, call);
      multiset(q.free) + multiset(q.held) == AllItems(|q.keys|) && |q.keys| == |p.keys| && |q.tables| == |p.tables|
  {
    hide Linked, Step, AllItems, Conserved;
    if call.Alloc? && p.free != [] {
      HeldOrFree(p, p.free[0]);
      assert p.free == [p.free[0]] + p.free[1..];
      Detach(p.held, p.free[0]);
    }
    if call.Free? {
      Detach(p.held, call.item);
    }
  }

  lemma StillHeld(p: Pool, call: Call, t: nat)
    requires PoolConserved(p) && Permitted(p, call) && t < |Next(p, call).tables|
    ensures LinkedIn(Next(p, call).tables[t]) <= Next(p, call).held
  {
    hide Linked, Step, Conserved;
    match call
    case Alloc =>
    case Free(i) =>
    case Write(i, key) =>
    case Link(u, i, b) => LinkView(p, u, i, b);
    case Unlink(u, b, key) => UnlinkView(p, u, b, key);
  }

  // ----- Runs

  predicate WellBehavedCalls(p: Pool, calls: seq<Call>)
    decreases |calls|
  {
    calls == [] || (Permitted(p, calls[0]) && WellBehavedCalls(Next(p, calls[0]), calls[1..]))
  }

  function RunCalls(p: Pool, calls: seq<Call>): Pool
    requires WellBehavedCalls(p, calls)
    decreases |calls|
  {
    if calls == [] then p else RunCalls(Next(p, calls[0]), calls[1..])
  }

  function SeenAll(calls: seq<Call>, t: nat): seq<Op> {
    if calls == [] then [] else Seen(calls[0], t) + SeenAll(calls[1..], t)
  }

  lemma {:induction false} RunAppend(s: State, first: seq<Op>, rest: seq<Op>)
    requires WellBehaved(s, first) && WellBehaved(Run(s, first), rest)
    ensures WellBehaved(s, first + rest) && Run(s, first + rest) == Run(Run(s, first), rest)
    decreases |first|
  {
    hide Step, Allowed;
    if first == [] {
      assert first + rest == rest;
    } else {
      RunAppend(Step(s, first[0]), first[1..], rest);
      assert (first + rest)[1..] == first[1..] + rest;
    }
  }

  /** Over every run of a well-behaved caller the free and held items stay a partition and every table stays
      conserved; and each table goes through a run of the single-table pool, whatever happens in the others. */
  lemma {:induction false} TablesIndependent(p: Pool, calls: seq<Call>)
    requires PoolConserved(p) && WellBehavedCalls(p, calls)
    ensures PoolConserved(RunCalls(p, calls)) && |RunCalls(p, calls).tables| == |p.tables|
    ensures forall t | 0 <= t < |p.tables| ::
      && WellBehaved(View(p, t), SeenAll(calls, t))
      && View(RunCalls(p, calls), t) == Run(View(p, t), SeenAll(calls, t))
    decreases |calls|
  {
    hide Next, Permitted, View, Seen, PoolConserved;
    if calls != [] {
      var q, rest := Next(p, calls[0]), calls[1..];
      CallConserves(p, calls[0]);
      SameTables(p, calls[0]);
      TablesIndependent(q, rest);
      forall t | 0 <= t < |p.tables|
        ensures WellBehaved(View(p, t), SeenAll(calls, t))
        ensures View(RunCalls(p, calls), t) == Run(View(p, t), SeenAll(calls, t))
      {
        CallSeen(p, calls[0], t);
        RunAppend(View(p, t), Seen(calls[0], t), SeenAll(rest, t));
      }
    }
  }

  lemma SameTables(p: Pool, call: Call)
    requires Permitted(p, call)
    ensures |Next(p, call).tables| == |p.tables|
  {
    hide Step;
  }

  /** The pool after initialisation, with any number of empty tables. */
  function InitialPool(buckets: seq<nat>, keys: seq<int>): Pool {
    Pool(Upto(|keys|), seq(|buckets|, t requires 0 <= t < |buckets| => NoChains(buckets[t])), {}, keys)
  }

  lemma InitialPoolConserved(buckets: seq<nat>, keys: seq<int>)
    ensures PoolConserved(InitialPool(buckets, keys))
    ensures InitialPool(buckets, keys).free == Upto(|keys|) && InitialPool(buckets, keys).keys == keys
    ensures |InitialPool(buckets, keys).tables| == |buckets|
    ensures forall t | 0 <= t < |buckets| :: View(InitialPool(buckets, keys), t) == Initial(buckets[t], keys)
  {
    UptoIsAll(|keys|);
    forall t | 0 <= t < |buckets|
      ensures View(InitialPool(buckets, keys), t) == Initial(buckets[t], keys)
    {
      InitialView(buckets, keys, t);
    }
    hide View, Initial, Conserved, Linked, AllItems;
    assert InitialPool(buckets, keys).held == {};
    forall t | 0 <= t < |buckets|
      ensures LinkedIn(InitialPool(buckets, keys).tables[t]) == {}
      ensures Conserved(View(InitialPool(buckets, keys), t))
    {
      InitialView(buckets, keys, t);
      InitialConserved(buckets[t], keys);
    }
  }

  lemma InitialView(buckets: seq<nat>, keys: seq<int>, t: nat)
    requires t < |buckets|
    ensures LinkedIn(InitialPool(buckets, keys).tables[t]) == {}
    ensures View(InitialPool(buckets, keys), t) == Initial(buckets[t], keys)
  {
  }
}
