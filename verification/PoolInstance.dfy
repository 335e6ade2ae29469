/** A pool in memory with any number of hash tables: every call on memory carries out one step of the state
    machine. The example program has one table, threaded through the field of the free list. */
module PoolInstance {
  import opened Chains
  import opened ItemPool
  import opened PoolStates
  import opened PoolTables

  /** The bucket heads of a table, and the offset of the next field that threads its chains. */
  datatype Table = Table(heads: array<u32>, offset: nat)

  class Instance {
    const info: ListInfo
    const tables: seq<Table>
    /** The key of each item, which `is_same_item` compares. */
    const keys: array<int>
    ghost var state: Pool

    /** Each table has its own heads and its own next field; one of them may share the field of the free list. */
    static predicate Compatible(info: ListInfo, tables: seq<Table>) {
      && (forall t | 0 <= t < |tables| :: info.FieldFits(tables[t].offset))
      && (forall t | 0 <= t < |tables| ::
            tables[t].offset == info.nextOffset || Apart(tables[t].offset, info.nextOffset))
      && (forall t, u | 0 <= t < |tables| && 0 <= u < |tables| && t != u :: Apart(tables[t].offset, tables[u].offset))
      && forall t, u | 0 <= t < u < |tables| :: tables[t].heads != tables[u].heads
    }

    predicate Layout() {
      info.Geometry() && keys.Length == info.itemTotal && Compatible(info, tables)
    }

    predicate Shares(t: nat)
      requires t < |tables|
    {
      tables[t].offset == info.nextOffset
    }

    ghost function HeadArrays(): set<array<u32>> {
      set t: Table | t in tables :: t.heads
    }

    ghost predicate Valid()
      reads this, info, info.itemBase, keys, HeadArrays()
    {
      && Layout() && |state.tables| == |tables| && state.keys == keys[..]
      && PoolConserved(state)
      && info.FreeList(state.free)
      && forall t | 0 <= t < |tables| :: TableValid(t)
    }

    ghost predicate TableValid(t: nat)
      requires Layout() && t < |tables| && |state.tables| == |tables|
      reads this, info.itemBase, HeadArrays()
    {
      Represents(View(state, t), info.Links(tables[t].offset), tables[t].heads[..], Shares(t))
    }

    /** The state of a table in memory: its chains, and clear fields in the items that are in none; only a field
        that is shared with the free list may be in use in a free item. */
    static ghost predicate Represents(s: State, links: seq<u32>, heads: seq<u32>, shared: bool) {
      && |links| == |s.keys| && |heads| == |s.chains|
      && (forall b | 0 <= b < |heads| :: IsChain(links, heads[b], s.chains[b]))
      && (forall i | i in s.detached && i < |links| :: links[i] == INVALID)
      && (!shared ==> forall i | i in s.free && i < |links| :: links[i] == INVALID)
    }

    ghost function Buckets(): (n: seq<nat>) {
      seq(|tables|, t requires 0 <= t < |tables| => tables[t].heads.Length)
    }

    /** `list_info_init`, and `index_table_init` for each table. A field that the free list does not use must be
        clear beforehand. */
    constructor (info: ListInfo, tables: seq<Table>, keys: array<int>)
      requires info.Geometry() && keys.Length == info.itemTotal
      requires Compatible(info, tables)
      requires forall t, i | 0 <= t < |tables| && tables[t].offset != info.nextOffset && 0 <= i < info.itemTotal ::
                 info.Links(tables[t].offset)[i] == INVALID
      modifies info, info.itemBase, set t: Table | t in tables :: t.heads
      ensures this.info == info && this.tables == tables && this.keys == keys
      ensures Valid() && state == InitialPool(Buckets(), keys[..])
    {
      this.info, this.tables, this.keys := info, tables, keys;
      new;
      hide ListInfo.Links, ListInfo.Bytes, ListInfo.FreeList;
      info.Init();
      for t := 0 to |tables|
        invariant forall u, b | 0 <= u < t && 0 <= b < tables[u].heads.Length :: tables[u].heads[b] == INVALID
        modifies HeadArrays()
      {
        assert tables[t] in tables;
        IndexTableInit(tables[t].heads);
      }
      state := InitialPool(Buckets(), keys[..]);
      hide InitialPool;
      InitialValid();
    }

    lemma InitialValid()
      requires Layout() && state == InitialPool(Buckets(), keys[..])
      requires info.FreeList(Upto(info.itemTotal))
      requires forall t, b | 0 <= t < |tables| && 0 <= b < tables[t].heads.Length :: tables[t].heads[b] == INVALID
      requires forall t, i | 0 <= t < |tables| && !Shares(t) && 0 <= i < info.itemTotal ::
                 info.Links(tables[t].offset)[i] == INVALID
      ensures Valid()
    {
      hide PoolConserved, InitialPool, Represents, Initial, View, ListInfo.Links, ListInfo.Bytes, ListInfo.FreeList;
      InitialPoolConserved(Buckets(), keys[..]);
      forall t | 0 <= t < |tables|
        ensures TableValid(t)
      {
        InitialRepresented(info.Links(tables[t].offset), tables[t].heads[..], keys[..], Shares(t));
      }
    }

    static lemma InitialRepresented(links: seq<u32>, heads: seq<u32>, keys: seq<int>, shared: bool)
      requires |links| == |keys| && forall b | 0 <= b < |heads| :: heads[b] == INVALID
      requires !shared ==> forall i | 0 <= i < |links| :: links[i] == INVALID
      ensures Represents(Initial(|heads|, keys), links, heads, shared)
    {
    }

    /** A change of links outside a chain keeps the chain. */
    static lemma ChainKept(links: seq<u32>, links': seq<u32>, head: u32, c: seq<nat>, changed: set<nat>)
      requires IsChain(links, head, c) && |links'| == |links|
      requires forall i | 0 <= i < |links| && i !in changed :: links'[i] == links[i]
      requires forall i | i in c :: i !in changed
      ensures IsChain(links', head, c)
    {
      forall k | 0 <= k < |c|
        ensures links'[c[k]] == links[c[k]]
      {
        assert c[k] in c;
      }
      ChainFrame(links, links', head, c);
    }

    /** All buckets but one are kept when only items outside them change. */
    static lemma OthersKept(s: State, links: seq<u32>, links': seq<u32>, heads: seq<u32>, heads': seq<u32>,
                            except: int, changed: set<nat>)
      requires |heads| == |heads'| == |s.chains| && |links'| == |links|
      requires forall b | 0 <= b < |heads| :: IsChain(links, heads[b], s.chains[b])
      requires forall b | 0 <= b < |heads| && b != except :: heads'[b] == heads[b]
      requires forall i | 0 <= i < |links| && i !in changed :: links'[i] == links[i]
      requires forall b, i | 0 <= b < |s.chains| && b != except && i in s.chains[b] :: i !in changed
      ensures forall b | 0 <= b < |heads| && b != except :: IsChain(links', heads'[b], s.chains[b])
    {
      forall b | 0 <= b < |heads| && b != except
        ensures IsChain(links', heads'[b], s.chains[b])
      {
        ChainKept(links, links', heads[b], s.chains[b], changed);
      }
    }

    // ----- The free list

    /** What an allocation does to a table: nothing, or in a shared field it clears the next field of the item. */
    static lemma AllocKept(s: State, links: seq<u32>, links': seq<u32>, heads: seq<u32>, shared: bool)
      requires Conserved(s) && Represents(s, links, heads, shared) && s.free != [] && s.free[0] < |links|
      requires links' == if shared then links[s.free[0] := INVALID] else links
      ensures Represents(Step(s, Op.Alloc), links', heads, shared)
    {
      hide Conserved, IsChain;
      assert Contents(s) == AllItems(|s.keys|) by { ContentsOf(s); }
      PlacesDisjoint(s);
      assert s.free[0] in s.free;
      OthersKept(s, links, links', heads, heads, -1, {s.free[0]});
    }

    static lemma ContentsOf(s: State)
      requires Conserved(s)
      ensures Contents(s) == AllItems(|s.keys|)
    {
    }

    /** `list_alloc_item` */
    method Alloc() returns (item: u32)
      requires Valid()
      modifies this`state, info, info.itemBase
      ensures Valid() && state == Next(old(state), Call.Alloc)
      ensures item == if old(state).free == [] then INVALID else old(state).free[0]
    {
      hide PoolConserved, Conserved, IsChain, ListInfo.Links, Represents, View, Step;
      ghost var p := state;
      item := info.AllocItem(p.free);
      state := Next(p, Call.Alloc);
      CallConserves(p, Call.Alloc);
      forall t | 0 <= t < |tables|
        ensures TableValid(t)
      {
        TableConserved(p, t);
        AllocView(p, t);
        assert old(TableValid(t));
        if p.free != [] {
          HeldOrFree(p, p.free[0]);
          AllocKept(View(p, t), old(info.Links(tables[t].offset)), info.Links(tables[t].offset), tables[t].heads[..],
                    Shares(t));
        }
      }
    }

    static lemma TableConserved(p: Pool, t: nat)
      requires PoolConserved(p) && t < |p.tables|
      ensures Conserved(View(p, t)) && View(p, t).free == p.free && View(p, t).keys == p.keys
    {
    }

    /** What a release does to a table: nothing, or in a shared field it changes the next fields of the item and
        of the last free one. */
    static lemma FreeKept(s: State, i: nat, links: seq<u32>, links': seq<u32>, heads: seq<u32>, shared: bool)
      requires Conserved(s) && Represents(s, links, heads, shared) && i in s.detached && |links'| == |links|
      requires forall j | 0 <= j < |links| && links'[j] != links[j] ::
                 shared && (j == i || (s.free != [] && j == s.free[|s.free| - 1]))
      ensures Represents(Step(s, Op.Free(i)), links', heads, shared)
    {
      hide Conserved, IsChain;
      assert Contents(s) == AllItems(|s.keys|) by { ContentsOf(s); }
      PlacesDisjoint(s);
      var changed := if s.free == [] then {i} else {i, s.free[|s.free| - 1]};
      assert forall j | j in changed :: j in s.free || j in s.detached;
      if shared {
        OthersKept(s, links, links', heads, heads, -1, changed);
      } else {
        assert links' == links;
      }
    }

    /** `list_free_item` */
    method Release(item: u32)
      requires Valid() && Permitted(state, Call.Free(item))
      modifies this`state, info, info.itemBase
      ensures Valid() && state == Next(old(state), Call.Free(item))
    {
      hide PoolConserved, Conserved, IsChain, ListInfo.Links, Represents, View, Step;
      ghost var p := state;
      HeldOrFree(p, item);
      if p.free != [] {
        assert p.free[|p.free| - 1] in p.free;
        HeldOrFree(p, p.free[|p.free| - 1]);
      }
      info.FreeItem(item, p.free);
      state := Next(p, Call.Free(item));
      CallConserves(p, Call.Free(item));
      forall t | 0 <= t < |tables|
        ensures TableValid(t)
      {
        TableConserved(p, t);
        FreeView(p, t, item);
        assert old(TableValid(t));
        assert Shares(t) || info.Links(tables[t].offset) == old(info.Links(tables[t].offset));
        FreeKept(View(p, t), item, old(info.Links(tables[t].offset)), info.Links(tables[t].offset),
                 tables[t].heads[..], Shares(t));
      }
    }

    /** The caller fills in an item it holds, linked in no table. */
    method Write(item: u32, key: int)
      requires Valid() && Permitted(state, Call.Write(item, key))
      modifies this`state, keys
      ensures Valid() && state == Next(old(state), Call.Write(item, key))
      ensures keys[..] == old(keys[..])[item := key]
    {
      hide PoolConserved, Conserved, IsChain, ListInfo.Links;
      CallConserves(state, Call.Write(item, key));
      ghost var p := state;
      state := Next(p, Call.Write(item, key));
      keys[item] := key;
      forall t | 0 <= t < |tables|
        ensures TableValid(t)
      {
        assert old(TableValid(t));
      }
    }

    // ----- A table

    /** `is_same_item` for a key: reads the item's data. */
    static function SameItem(keys: seq<int>, key: int): (matches: nat -> bool)
    {
      (i: nat) => i < |keys| && keys[i] == key
    }

    static lemma FirstMatch(s: State, c: seq<nat>, key: int, k: nat)
      requires k < |c| && SameItem(s.keys, key)(c[k])
      requires forall j | 0 <= j < k :: !SameItem(s.keys, key)(c[j])
      ensures Find(s, c, key) == k
    {
      var m := Find(s, c, key);
      assert m < |c| ==> Matches(s, c[m], key);
    }

    static lemma NoMatch(s: State, c: seq<nat>, key: int)
      ensures (exists k :: 0 <= k < |c| && SameItem(s.keys, key)(c[k])) <==> Find(s, c, key) < |c|
    {
      var m := Find(s, c, key);
      if m < |c| {
        assert SameItem(s.keys, key)(c[m]);
      }
    }

    /** What linking does to the table itself and, in a shared field, to the free list. */
    static lemma LinkKept(s: State, i: nat, b: nat, links: seq<u32>, links': seq<u32>, heads: seq<u32>,
                          heads': seq<u32>, shared: bool, freeHead: u32)
      requires Conserved(s) && Represents(s, links, heads, shared) && i in s.detached && i < |s.keys|
      requires b < |heads| == |heads'| && Find(s, s.chains[b], s.keys[i]) == |s.chains[b]|
      requires forall a | 0 <= a < |heads| && a != b :: heads'[a] == heads[a]
      requires var c := s.chains[b];
               && IsChain(links', heads'[b], c + [i]) && |links'| == |links|
               && forall j | 0 <= j < |links| && links'[j] != links[j] :: c != [] && j == c[|c| - 1]
      ensures Represents(Step(s, Op.Link(i, b)), links', heads', shared)
      ensures IsChain(links, freeHead, s.free) ==> IsChain(links', freeHead, s.free)
    {
      hide Conserved, IsChain, Find;
      assert Contents(s) == AllItems(|s.keys|) by { ContentsOf(s); }
      PlacesDisjoint(s);
      var c := s.chains[b];
      var changed := if c == [] then {} else {c[|c| - 1]};
      assert c != [] ==> c[|c| - 1] in c;
      OthersKept(s, links, links', heads, heads', b, changed);
      if IsChain(links, freeHead, s.free) {
        ChainKept(links, links', freeHead, s.free, changed);
      }
    }

    /** `index_list_prelink2` for the key of an item, then `index_list_do_link` unless an item of that key is
        there. */
    method Link(table: nat, item: u32, bucket: nat) returns (linked: bool)
      requires Valid() && Permitted(state, Call.Link(table, item, bucket))
      modifies this`state, info.itemBase, tables[table].heads
      ensures Valid() && state == Next(old(state), Call.Link(table, item, bucket))
      ensures linked <==> item in LinkedIn(state.tables[table])
    {
      hide PoolConserved, Conserved, IsChain, Find, ListInfo.Links, Represents, Linked;
      ghost var s := View(state, table);
      var heads, off := tables[table].heads, tables[table].offset;
      HeldOrFree(state, item);
      assert TableValid(table);
      Threaded(s, info.Links(off), heads[..], Shares(table), item, bucket);
      var key := keys[item];
      NoMatch(s, s.chains[bucket], key);
      var address := info.Prelink2(heads, bucket, SameItem(keys[..], key), off, s.chains[bucket]);
      forall t | 0 <= t < |tables|
        ensures TableValid(t)
      {
        assert old(TableValid(t));
      }
      if address == Null {
        return false;
      }
      LinkAt(table, item, bucket, address);
      return true;
    }

    /** Linking an item whose key is not in the bucket at the address that the prelink search returned. */
    method LinkAt(table: nat, item: u32, bucket: nat, address: LinkAddress)
      requires Valid() && Permitted(state, Call.Link(table, item, bucket)) && item < keys.Length
      requires var c := state.tables[table][bucket];
               && Find(View(state, table), c, keys[item]) == |c|
               && address == if c == [] then BucketHead(bucket) else NextField(c[|c| - 1], tables[table].offset)
      modifies this`state, info.itemBase, tables[table].heads
      ensures Valid() && state == Next(old(state), Call.Link(table, item, bucket))
      ensures item in LinkedIn(state.tables[table])
    {
      hide PoolConserved, Conserved, IsChain, Find, ListInfo.Links, Represents, Linked, Step;
      ghost var p, s := state, View(state, table);
      ghost var c := s.chains[bucket];
      var heads, off := tables[table].heads, tables[table].offset;
      TableConserved(p, table);
      CallConserves(p, Call.Link(table, item, bucket));
      LinkView(p, table, item, bucket);
      assert TableValid(table);
      Threaded(s, info.Links(off), heads[..], Shares(table), item, bucket);
      ghost var links, headsBefore := info.Links(off), heads[..];
      info.DoLink(heads, address, item, bucket, off, c);
      LinkKept(s, item, bucket, links, info.Links(off), headsBefore, heads[..], Shares(table), info.freeHead);
      state := Next(p, Call.Link(table, item, bucket));
      forall t | 0 <= t < |tables|
        ensures TableValid(t)
      {
        assert old(TableValid(t));
      }
    }

    /** What unlinking does to the table itself and, in a shared field, to the free list. */
    static lemma UnlinkKept(s: State, b: nat, key: int, links: seq<u32>, links': seq<u32>, heads: seq<u32>,
                            heads': seq<u32>, shared: bool, freeHead: u32)
      requires Conserved(s) && Represents(s, links, heads, shared) && b < |heads| == |heads'|
      requires Find(s, s.chains[b], key) < |s.chains[b]|
      requires forall a | 0 <= a < |heads| && a != b :: heads'[a] == heads[a]
      requires forall i | 0 <= i < |s.chains[b]| :: s.chains[b][i] < |links|
      requires var c, k := s.chains[b], Find(s, s.chains[b], key);
               IsChain(links', heads'[b], Without(c, k)) && links' == ListInfo.Unlinked(links, c, k)
      ensures Represents(Step(s, Op.Unlink(b, key)), links', heads', shared)
      ensures IsChain(links, freeHead, s.free) ==> IsChain(links', freeHead, s.free)
    {
      hide Conserved, IsChain, Find, Without;
      assert Contents(s) == AllItems(|s.keys|) by { ContentsOf(s); }
      PlacesDisjoint(s);
      var c, k := s.chains[b], Find(s, s.chains[b], key);
      assert c[k] in c && (k > 0 ==> c[k - 1] in c);
      var changed := if k == 0 then {c[0]} else {c[k - 1], c[k]};
      OthersKept(s, links, links', heads, heads', b, changed);
      if IsChain(links, freeHead, s.free) {
        ChainKept(links, links', freeHead, s.free, changed);
      }
    }

    /** `index_list_unlink2`: takes the item with the key out of the bucket, if there is one. */
    method Unlink(table: nat, bucket: nat, key: int) returns (item: u32)
      requires Valid() && Permitted(state, Call.Unlink(table, bucket, key))
      modifies this`state, info.itemBase, tables[table].heads
      ensures Valid() && state == Next(old(state), Call.Unlink(table, bucket, key))
      ensures var entries := Entries(old(View(state, table)), bucket);
              item == if key in entries then entries[key] else INVALID
    {
      hide PoolConserved, Conserved, IsChain, Find, Without, KeysOf, ListInfo.Links, Represents, Linked, Step;
      ghost var p, s := state, View(state, table);
      ghost var c := s.chains[bucket];
      var heads, off := tables[table].heads, tables[table].offset;
      TableConserved(p, table);
      CallConserves(p, Call.Unlink(table, bucket, key));
      UnlinkView(p, table, bucket, key);
      assert TableValid(table);
      Threaded(s, info.Links(off), heads[..], Shares(table), 0, bucket);
      NoMatch(s, c, key);
      FindsKey(s, c, key);
      ghost var links, headsBefore, at := info.Links(off), heads[..], 0;
      item, at := info.Unlink2(heads, bucket, SameItem(keys[..], key), off, c);
      state := Next(p, Call.Unlink(table, bucket, key));
      if item != INVALID {
        FirstMatch(s, c, key, at);
        UnlinkKept(s, bucket, key, links, info.Links(off), headsBefore, heads[..], Shares(table), info.freeHead);
      } else {
        assert heads[..] == headsBefore;
      }
      forall t | 0 <= t < |tables|
        ensures TableValid(t)
      {
        assert old(TableValid(t));
      }
    }

    static lemma Threaded(s: State, links: seq<u32>, heads: seq<u32>, shared: bool, i: nat, b: nat)
      requires Represents(s, links, heads, shared) && b < |s.chains|
      ensures |links| == |s.keys| && |heads| == |s.chains|
      ensures IsChain(links, heads[b], s.chains[b]) && forall k | 0 <= k < |s.chains[b]| :: s.chains[b][k] < |links|
      ensures i in s.detached && i < |links| ==> links[i] == INVALID
    {
    }
  }
}
