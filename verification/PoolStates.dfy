/** The pool as a state machine: which items are free, linked and detached, and what each call does to that. */
module PoolStates {
  import opened Chains

  /** `free` in queue order, one chain per bucket, the items handed out to the caller, and the key of each item. */
  datatype State = State(free: seq<nat>, chains: seq<seq<nat>>, detached: set<nat>, keys: seq<int>)

  datatype Op = Alloc | Free(item: nat) | Write(item: nat, key: int) | Link(item: nat, bucket: nat)
              | Unlink(bucket: nat, key: int)

  /** What a well-behaved caller does: frees, writes and links only items it holds. */
  predicate Allowed(s: State, op: Op) {
    match op
    case Alloc => true
    case Free(i) => i in s.detached
    case Write(i, _) => i in s.detached
    case Link(i, b) => i in s.detached && b < |s.chains|
    case Unlink(b, _) => b < |s.chains|
  }

  predicate Matches(s: State, i: nat, key: int) {
    i < |s.keys| && s.keys[i] == key
  }

  /** The position of the first item with the key, or the length of the chain. */
  function Find(s: State, c: seq<nat>, key: int): (k: nat)
    ensures k <= |c|
    ensures forall j | 0 <= j < k :: !Matches(s, c[j], key)
    ensures k < |c| ==> Matches(s, c[k], key)
  {
    if c == [] || Matches(s, c[0], key) then 0 else 1 + Find(s, c[1..], key)
  }

  function Step(s: State, op: Op): State
    requires Allowed(s, op)
  {
    match op
    case Alloc =>
      if s.free == [] then s else s.(free := s.free[1..], detached := s.detached + {s.free[0]})
    case Free(i) => s.(free := s.free + [i], detached := s.detached - {i})
    case Write(i, key) => if i < |s.keys| then s.(keys := s.keys[i := key]) else s
    case Link(i, b) =>
      if i < |s.keys| && Find(s, s.chains[b], s.keys[i]) < |s.chains[b]| then s
      else s.(chains := s.chains[b := s.chains[b] + [i]], detached := s.detached - {i})
    case Unlink(b, key) =>
      var c := s.chains[b];
      var k := Find(s, c, key);
      if k == |c| then s else s.(chains := s.chains[b := Without(c, k)], detached := s.detached + {c[k]})
  }

  // ----- Conservation

  /** The linked items, with multiplicity. */
  function Linked(chains: seq<seq<nat>>): multiset<nat> {
    if chains == [] then multiset{} else Linked(chains[..|chains| - 1]) + multiset(chains[|chains| - 1])
  }

  function Contents(s: State): multiset<nat> {
    multiset(s.free) + Linked(s.chains) + multiset(s.detached)
  }

  /** The items `0, 1, ..., n - 1`, each once. */
  function AllItems(n: nat): multiset<nat> {
    if n == 0 then multiset{} else AllItems(n - 1) + multiset{n - 1}
  }

  lemma {:induction false} AllItemsOnce(n: nat)
    ensures forall i: nat :: AllItems(n)[i] == if i < n then 1 else 0
  {
    if n > 0 {
      AllItemsOnce(n - 1);
    }
  }

  predicate DistinctKeys(s: State, c: seq<nat>) {
    forall i, j | 0 <= i < j < |c| && c[i] < |s.keys| && c[j] < |s.keys| :: s.keys[c[i]] != s.keys[c[j]]
  }

  /** Every item is in exactly one place once, and no bucket holds two items of one key. */
  ghost predicate Conserved(s: State) {
    && Contents(s) == AllItems(|s.keys|)
    && forall b | 0 <= b < |s.chains| :: DistinctKeys(s, s.chains[b])
  }

  lemma AddToBoth<T>(a: multiset<T>, b: multiset<T>, c: multiset<T>, d: multiset<T>, x: multiset<T>)
    requires a + b == c + d
    ensures (a + x) + b == (c + x) + d
  {
    forall t: T
      ensures ((a + x) + b)[t] == ((c + x) + d)[t]
    {
      assert (a + b)[t] == (c + d)[t];
    }
  }

  lemma Cancel<T>(a: multiset<T>, b: multiset<T>, c: multiset<T>, x: multiset<T>)
    requires a + b == c + (b + x)
    ensures a == c + x
  {
    forall t: T
      ensures a[t] == (c + x)[t]
    {
      assert (a + b)[t] == (c + (b + x))[t];
    }
  }

  lemma {:induction false} LinkedUpdate(chains: seq<seq<nat>>, b: nat, c: seq<nat>)
    requires b < |chains|
    ensures Linked(chains[b := c]) + multiset(chains[b]) == Linked(chains) + multiset(c)
  {
    var n, updated := |chains| - 1, chains[b := c];
    if b < n {
      LinkedUpdate(chains[..n], b, c);
      assert updated[..n] == chains[..n][b := c] && updated[n] == chains[n];
      AddToBoth(Linked(updated[..n]), multiset(chains[b]), Linked(chains[..n]), multiset(c), multiset(chains[n]));
    } else {
      assert updated[..n] == chains[..n] && updated[n] == c;
    }
  }

  lemma {:induction false} LinkedHas(chains: seq<seq<nat>>, a: nat, i: nat)
    requires a < |chains|
    ensures Linked(chains)[i] >= multiset(chains[a])[i]
    ensures forall b | 0 <= b < |chains| && b != a ::
              Linked(chains)[i] >= multiset(chains[a])[i] + multiset(chains[b])[i]
  {
    var n := |chains| - 1;
    if a < n {
      LinkedHas(chains[..n], a, i);
    } else {
      forall b | 0 <= b < n
        ensures Linked(chains[..n])[i] >= multiset(chains[b])[i]
      {
        LinkedHas(chains[..n], b, i);
      }
    }
  }

  lemma InChain(s: State, a: nat, i: nat)
    requires Contents(s) == AllItems(|s.keys|) && a < |s.chains| && i in s.chains[a]
    ensures i < |s.keys| && i !in s.free && i !in s.detached
    ensures forall b | 0 <= b < |s.chains| && b != a :: i !in s.chains[b]
  {
    AllItemsOnce(|s.keys|);
    LinkedHas(s.chains, a, i);
    assert i in multiset(s.chains[a]);
    assert Contents(s)[i] == multiset(s.free)[i] + Linked(s.chains)[i] + multiset(s.detached)[i];
    assert i in s.free ==> i in multiset(s.free);
    forall b | 0 <= b < |s.chains| && b != a
      ensures i !in s.chains[b]
    {
      MemberCount(s.chains[b], i);
    }
  }

  lemma MemberCount(c: seq<nat>, i: nat)
    ensures i in c <==> multiset(c)[i] >= 1
  {
    assert i in c <==> i in multiset(c);
  }

  lemma NotInChain(s: State, i: nat)
    requires Contents(s) == AllItems(|s.keys|) && (i in s.free || i in s.detached)
    ensures i < |s.keys| && (i in s.detached ==> i !in s.free)
  {
    AllItemsOnce(|s.keys|);
    assert Contents(s)[i] == multiset(s.free)[i] + Linked(s.chains)[i] + multiset(s.detached)[i];
    assert i in s.free ==> i in multiset(s.free);
    assert i in s.detached ==> i in multiset(s.detached);
  }

  /** Conservation means that the places are disjoint. */
  lemma PlacesDisjoint(s: State)
    requires Contents(s) == AllItems(|s.keys|)
    ensures forall i | i in s.detached :: i < |s.keys| && i !in s.free
    ensures forall i | i in s.free :: i < |s.keys| && i !in s.detached
    ensures forall a: nat, i: nat | a < |s.chains| && i in s.chains[a] :: i < |s.keys|
    ensures forall a: nat, i: nat | a < |s.chains| && i in s.chains[a] :: i !in s.free && i !in s.detached
    ensures forall a: nat, b: nat, i: nat | a < |s.chains| && b < |s.chains| && a != b && i in s.chains[a] ::
              i !in s.chains[b]
  {
    hide Contents, AllItems;
    forall a: nat, i: nat | a < |s.chains| && i in s.chains[a]
      ensures i < |s.keys|
    {
      InChain(s, a, i);
    }
    forall a: nat, i: nat | a < |s.chains| && i in s.chains[a]
      ensures i !in s.free && i !in s.detached
    {
      InChain(s, a, i);
    }
    forall a: nat, b: nat, i: nat | a < |s.chains| && b < |s.chains| && a != b && i in s.chains[a]
      ensures i !in s.chains[b]
    {
      InChain(s, a, i);
    }
    forall i | i in s.free || i in s.detached
      ensures i < |s.keys| && (i in s.detached ==> i !in s.free)
    {
      NotInChain(s, i);
    }
  }

  lemma WithoutItem(c: seq<nat>, k: nat)
    requires k < |c|
    ensures multiset(Without(c, k)) + multiset{c[k]} == multiset(c)
  {
    assert c == c[..k] + [c[k]] + c[k + 1..];
  }

  /** Moving an item between the caller and another place. */
  lemma Detach(d: set<nat>, i: nat)
    ensures i in d ==> multiset(d - {i}) + multiset{i} == multiset(d)
    ensures i !in d ==> multiset(d + {i}) == multiset(d) + multiset{i}
  {
  }

  lemma AllocConserves(s: State)
    requires Contents(s) == AllItems(|s.keys|)
    ensures Contents(Step(s, Alloc)) == Contents(s)
  {
    hide AllItems, Linked;
    PlacesDisjoint(s);
    if s.free != [] {
      assert s.free == [s.free[0]] + s.free[1..];
      Detach(s.detached, s.free[0]);
    }
  }

  lemma FreeConserves(s: State, i: nat)
    requires i in s.detached
    ensures Contents(Step(s, Free(i))) == Contents(s)
  {
    hide Linked;
    Detach(s.detached, i);
  }

  lemma LinkConserves(s: State, i: nat, b: nat)
    requires i in s.detached && b < |s.chains|
    ensures Contents(Step(s, Link(i, b))) == Contents(s)
  {
    hide Linked, Find;
    var c := s.chains[b];
    LinkedUpdate(s.chains, b, c + [i]);
    Detach(s.detached, i);
    assert multiset(c + [i]) == multiset(c) + multiset{i};
    Cancel(Linked(s.chains[b := c + [i]]), multiset(c), Linked(s.chains), multiset{i});
  }

  lemma UnlinkConserves(s: State, b: nat, key: int)
    requires Contents(s) == AllItems(|s.keys|) && b < |s.chains|
    ensures Contents(Step(s, Unlink(b, key))) == Contents(s)
  {
    hide Linked, Find, AllItems;
    var c := s.chains[b];
    var k := Find(s, c, key);
    if k < |c| {
      PlacesDisjoint(s);
      assert c[k] in c;
      WithoutItem(c, k);
      LinkedUpdate(s.chains, b, Without(c, k));
      Detach(s.detached, c[k]);
      Cancel(Linked(s.chains), multiset(Without(c, k)), Linked(s.chains[b := Without(c, k)]), multiset{c[k]});
    }
  }

  /** Every call keeps every item in exactly one place. */
  lemma StepConserves(s: State, op: Op)
    requires Allowed(s, op) && Contents(s) == AllItems(|s.keys|)
    ensures Contents(Step(s, op)) == AllItems(|Step(s, op).keys|)
    ensures |Step(s, op).keys| == |s.keys| && |Step(s, op).chains| == |s.chains|
  {
    hide Linked, AllItems, Find;
    match op
    case Alloc => AllocConserves(s);
    case Free(i) => FreeConserves(s, i);
    case Write(_, _) =>
    case Link(i, b) => LinkConserves(s, i, b);
    case Unlink(b, key) => UnlinkConserves(s, b, key);
  }

  lemma DistinctWithout(s: State, c: seq<nat>, k: nat)
    requires DistinctKeys(s, c) && k < |c|
    ensures DistinctKeys(s, Without(c, k))
  {
    var d := Without(c, k);
    forall i, j | 0 <= i < j < |d| && d[i] < |s.keys| && d[j] < |s.keys|
      ensures s.keys[d[i]] != s.keys[d[j]]
    {
      var p, q := if i < k then i else i + 1, if j < k then j else j + 1;
      assert d[i] == c[p] && d[j] == c[q];
    }
  }

  lemma StepKeepsKeysDistinct(s: State, op: Op)
    requires Allowed(s, op) && Conserved(s)
    ensures forall b | 0 <= b < |Step(s, op).chains| :: DistinctKeys(Step(s, op), Step(s, op).chains[b])
  {
    hide Linked, AllItems;
    PlacesDisjoint(s);
    var t := Step(s, op);
    forall b | 0 <= b < |t.chains|
      ensures DistinctKeys(t, t.chains[b])
    {
      var c := s.chains[b];
      assert DistinctKeys(s, c);
      if op.Write? {
        assert forall j | 0 <= j < |c| :: c[j] in c && c[j] != op.item;
      } else if op.Unlink? && b == op.bucket && t.chains[b] != c {
        DistinctWithout(s, c, Find(s, c, op.key));
      }
    }
  }

  // ----- Runs

  predicate WellBehaved(s: State, ops: seq<Op>)
    decreases |ops|
  {
    ops == [] || (Allowed(s, ops[0]) && WellBehaved(Step(s, ops[0]), ops[1..]))
  }

  function Run(s: State, ops: seq<Op>): State
    requires WellBehaved(s, ops)
    decreases |ops|
  {
    if ops == [] then s else Run(Step(s, ops[0]), ops[1..])
  }

  /** The state after `list_info_init` and `index_table_init`. */
  function Initial(buckets: nat, keys: seq<int>): State {
    State(Upto(|keys|), NoChains(buckets), {}, keys)
  }

  function NoChains(n: nat): (chains: seq<seq<nat>>)
    ensures |chains| == n && forall b | 0 <= b < n :: chains[b] == []
    ensures Linked(chains) == multiset{}
  {
    if n == 0 then [] else NoChains(n - 1) + [[]]
  }

  lemma {:induction false} UptoIsAll(n: nat)
    ensures multiset(Upto(n)) == AllItems(n)
  {
    if n > 0 {
      UptoIsAll(n - 1);
    }
  }

  lemma InitialConserved(buckets: nat, keys: seq<int>)
    ensures Conserved(Initial(buckets, keys))
  {
    UptoIsAll(|keys|);
  }

  /** Over every run of a well-behaved caller the items stay partitioned and the keys of a bucket distinct. */
  lemma {:induction false} RunConserves(s: State, ops: seq<Op>)
    requires WellBehaved(s, ops) && Conserved(s)
    ensures Conserved(Run(s, ops)) && |Run(s, ops).keys| == |s.keys|
    decreases |ops|
  {
    if ops != [] {
      StepConserves(s, ops[0]);
      StepKeepsKeysDistinct(s, ops[0]);
      RunConserves(Step(s, ops[0]), ops[1..]);
    }
  }

  // ----- The free list is a queue

  /** The item that a call hands out, and the one that it takes back. */
  function IssuedBy(s: State, op: Op): seq<nat> {
    if op.Alloc? && s.free != [] then [s.free[0]] else []
  }

  function FreedBy(op: Op): seq<nat> {
    if op.Free? then [op.item] else []
  }

  /** The items handed out by the successful allocations of a run, in order. */
  function Issued(s: State, ops: seq<Op>): seq<nat>
    requires WellBehaved(s, ops)
    decreases |ops|
  {
    if ops == [] then []
    else IssuedBy(s, ops[0]) + Issued(Step(s, ops[0]), ops[1..])
  }

  /** The items freed in a run, in order. */
  function Freed(ops: seq<Op>): seq<nat> {
    if ops == [] then [] else FreedBy(ops[0]) + Freed(ops[1..])
  }

  /** Items are handed out in the order in which they became free: those issued during a run followed by those
      still free are the ones free at its start followed by those freed during it. */
  lemma {:induction false} FirstFreedFirstIssued(s: State, ops: seq<Op>)
    requires WellBehaved(s, ops)
    ensures Issued(s, ops) + Run(s, ops).free == s.free + Freed(ops)
    decreases |ops|
  {
    hide Step;
    if ops != [] {
      var t, rest := Step(s, ops[0]), ops[1..];
      FirstFreedFirstIssued(t, rest);
      QueueStep(s, ops[0]);
      var issued, freed := IssuedBy(s, ops[0]), FreedBy(ops[0]);
      assert issued + Issued(t, rest) + Run(t, rest).free == issued + (t.free + Freed(rest));
      assert issued + (t.free + Freed(rest)) == (issued + t.free) + Freed(rest);
      assert (s.free + freed) + Freed(rest) == s.free + (freed + Freed(rest));
    }
  }

  lemma QueueStep(s: State, op: Op)
    requires Allowed(s, op)
    ensures IssuedBy(s, op) + Step(s, op).free == s.free + FreedBy(op)
  {
    hide Find, Without;
  }

  // ----- A bucket is a map from keys to items

  /** The keys of the items of a chain. */
  function KeysOf(s: State, c: seq<nat>): set<int> {
    set j | 0 <= j < |c| && c[j] < |s.keys| :: s.keys[c[j]]
  }

  lemma FindsKey(s: State, c: seq<nat>, key: int)
    ensures key in KeysOf(s, c) <==> Find(s, c, key) < |c|
  {
    var k := Find(s, c, key);
    if k < |c| {
      assert c[k] < |s.keys| && s.keys[c[k]] == key;
    }
  }

  /** The items of a bucket by key. */
  function Entries(s: State, b: nat): map<int, nat>
    requires b < |s.chains|
  {
    map key | key in KeysOf(s, s.chains[b]) :: FindsKey(s, s.chains[b], key); s.chains[b][Find(s, s.chains[b], key)]
  }

  /** In a chain of distinct keys the search finds the one item that matches. */
  lemma FindIs(s: State, c: seq<nat>, k: nat, key: int)
    requires DistinctKeys(s, c) && k < |c| && Matches(s, c[k], key)
    ensures Find(s, c, key) == k
  {
    var j := Find(s, c, key);
    assert j <= k;
  }

  /** What a chain and the same chain with an item at the end find. */
  lemma FindAppended(s: State, c: seq<nat>, i: nat, key: int)
    requires i < |s.keys| && DistinctKeys(s, c + [i])
    ensures key != s.keys[i] && Find(s, c, key) < |c| ==> Find(s, c + [i], key) == Find(s, c, key)
    ensures key != s.keys[i] && Find(s, c, key) == |c| ==> Find(s, c + [i], key) == |c| + 1
    ensures key == s.keys[i] ==> Find(s, c + [i], key) == |c|
  {
    var d := c + [i];
    var k := Find(s, c, key);
    assert d[|c|] == i;
    if key == s.keys[i] {
      FindIs(s, d, |c|, key);
    } else if k < |c| {
      assert d[k] == c[k];
      FindIs(s, d, k, key);
    } else {
      forall j | 0 <= j < |d|
        ensures !Matches(s, d[j], key)
      {
        assert d[j] == if j < |c| then c[j] else i;
      }
    }
  }

  /** Linking an item whose key is not in the bucket adds its entry, at the end of the chain; linking one whose
      key is there changes nothing. */
  lemma LinkIsMapUpdate(s: State, i: nat, b: nat)
    requires Conserved(s) && Allowed(s, Link(i, b))
    ensures i < |s.keys|
    ensures s.keys[i] in Entries(s, b) ==> Step(s, Link(i, b)) == s
    ensures s.keys[i] !in Entries(s, b) ==>
              && Step(s, Link(i, b)).chains[b] == s.chains[b] + [i]
              && Entries(Step(s, Link(i, b)), b) == Entries(s, b)[s.keys[i] := i]
  {
    hide Linked, AllItems, Contents, KeysOf, Find;
    assert i < |s.keys| by { PlacesDisjoint(s); }
    var c, key, t := s.chains[b], s.keys[i], Step(s, Link(i, b));
    FindsKey(s, c, key);
    if key !in Entries(s, b) {
      StepKeepsKeysDistinct(s, Link(i, b));
      var d := c + [i];
      assert t.chains[b] == d && DistinctKeys(t, d) && t.keys == s.keys;
      hide Step, DistinctKeys, Allowed, Conserved;
      SameFind(s, t, c);
      forall q
        ensures q in Entries(t, b) <==> q in Entries(s, b) || q == key
        ensures q in Entries(t, b) ==> Entries(t, b)[q] == if q == key then i else Entries(s, b)[q]
      {
        FindsKey(s, c, q);
        FindsKey(t, d, q);
        FindAppended(t, c, i, q);
      }
    }
  }

  /** Linking moves the item from the caller to the one bucket, or nothing. */
  lemma LinkLeavesOthers(s: State, i: nat, b: nat)
    requires Allowed(s, Link(i, b)) && i < |s.keys|
    ensures var t := Step(s, Link(i, b));
            && t.free == s.free && t.keys == s.keys && |t.chains| == |s.chains|
            && (forall a | 0 <= a < |s.chains| && a != b :: t.chains[a] == s.chains[a])
            && t.detached == if s.keys[i] in Entries(s, b) then s.detached else s.detached - {i}
  {
    FindsKey(s, s.chains[b], s.keys[i]);
  }

  /** Writing an item records its new key and leaves the other keys and all places. */
  lemma WriteIsRecorded(s: State, i: nat, key: int)
    requires Allowed(s, Write(i, key)) && i < |s.keys|
    ensures var t := Step(s, Write(i, key));
            && Matches(t, i, key) && (forall other | Matches(t, i, other) :: other == key)
            && (forall j, k | j != i :: Matches(t, j, k) <==> Matches(s, j, k))
            && t.free == s.free && t.chains == s.chains && t.detached == s.detached
  {
  }

  lemma {:induction false} SameFind(s: State, t: State, c: seq<nat>)
    requires s.keys == t.keys
    ensures forall key :: Find(t, c, key) == Find(s, c, key)
  {
    if c != [] {
      SameFind(s, t, c[1..]);
    }
  }

  /** What a chain finds after its item with a given key was taken out. */
  lemma FindRemoved(s: State, c: seq<nat>, removed: int, key: int)
    requires DistinctKeys(s, c) && Find(s, c, removed) < |c|
    ensures var d := Without(c, Find(s, c, removed));
            && (key == removed ==> Find(s, d, key) == |d|)
            && (key != removed ==> (Find(s, d, key) < |d| <==> Find(s, c, key) < |c|))
            && (key != removed && Find(s, c, key) < |c| ==> d[Find(s, d, key)] == c[Find(s, c, key)])
  {
    var r := Find(s, c, removed);
    var d := Without(c, r);
    DistinctWithout(s, c, r);
    var k, m := Find(s, c, key), Find(s, d, key);
    if m < |d| {
      var p := if m < r then m else m + 1;
      assert d[m] == c[p] && Matches(s, c[p], key);
      FindIs(s, c, p, key);
    }
    if k < |c| && k != r {
      var j := if k < r then k else k - 1;
      assert d[j] == c[k];
      FindIs(s, d, j, key);
    }
  }

  /** Unlinking a key removes exactly its entry and keeps the order of the others; an absent key changes nothing. */
  lemma UnlinkIsMapRemove(s: State, b: nat, key: int)
    requires Conserved(s) && b < |s.chains|
    ensures key !in Entries(s, b) ==> Step(s, Unlink(b, key)) == s
    ensures key in Entries(s, b) ==>
              && Entries(Step(s, Unlink(b, key)), b) == Entries(s, b) - {key}
              && Step(s, Unlink(b, key)).detached == s.detached + {Entries(s, b)[key]}
              && Step(s, Unlink(b, key)).chains == s.chains[b := Without(s.chains[b], Find(s, s.chains[b], key))]
  {
    hide Linked, AllItems, Contents, KeysOf, Find, Without;
    var c, t := s.chains[b], Step(s, Unlink(b, key));
    assert DistinctKeys(s, c);
    FindsKey(s, c, key);
    if key in Entries(s, b) {
      var d := Without(c, Find(s, c, key));
      SameFind(s, t, d);
      forall q
        ensures q in Entries(t, b) <==> q in Entries(s, b) && q != key
        ensures q in Entries(t, b) ==> Entries(t, b)[q] == Entries(s, b)[q]
      {
        FindsKey(s, c, q);
        FindsKey(t, d, q);
        FindRemoved(s, c, key, q);
      }
    }
  }
}
