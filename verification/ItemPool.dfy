/** The item pool: a block of memory holding items of a fixed size, each with 4-byte next fields at fixed
    offsets, and a free list and bucket chains threaded through those fields by item index. */
module ItemPool {
  import opened Chains

  type byte = b: nat | b < 256

  // ----- Four-byte fields in memory

  function Word(b0: byte, b1: byte, b2: byte, b3: byte): u32 {
    b0 + 0x100 * b1 + 0x1_0000 * b2 + 0x100_0000 * b3
  }

  /** The field at address `a`. */
  function ReadWord(mem: seq<byte>, a: nat): u32
    requires a + 4 <= |mem|
  {
    Word(mem[a], mem[a + 1], mem[a + 2], mem[a + 3])
  }

  lemma WordOfBytes(v: u32)
    ensures Word(v % 256, v / 256 % 256, v / 256 / 256 % 256, v / 256 / 256 / 256) == v
    ensures v / 256 / 256 / 256 < 256
  {
  }

  /** Item `i` lies within the memory of `total` items, and below any later item. */
  lemma ItemBounds(size: nat, total: nat, i: nat)
    requires i < total
    ensures 0 <= i * size && i * size + size <= total * size
    ensures forall j: nat | i < j :: i * size + size <= j * size
  {
    Scaled(i + 1, total, size);
    forall j: nat | i < j
      ensures i * size + size <= j * size
    {
      Scaled(i + 1, j, size);
    }
  }

  lemma Scaled(a: nat, b: nat, size: nat)
    requires 1 <= a <= b
    ensures a * size <= b * size && a * size == (a - 1) * size + size
  {
    assert b * size == a * size + (b - a) * size;
  }

  /** The next fields at offset `off` of the first `n` items. */
  function LinksIn(mem: seq<byte>, size: nat, n: nat, off: nat): (links: seq<u32>)
    requires off + 4 <= size && n * size <= |mem|
    ensures |links| == n
  {
    if n == 0 then []
    else
      Scaled(n, n, size);
      LinksIn(mem, size, n - 1, off) + [ReadWord(mem, (n - 1) * size + off)]
  }

  lemma {:induction false} LinkAt(mem: seq<byte>, size: nat, n: nat, off: nat, i: nat)
    requires off + 4 <= size && n * size <= |mem| && i < n
    ensures i * size + off + 4 <= |mem|
    ensures LinksIn(mem, size, n, off)[i] == ReadWord(mem, i * size + off)
  {
    hide ReadWord;
    Scaled(n, n, size);
    LastItem(size, n, i);
    if i < n - 1 {
      LinkAt(mem, size, n - 1, off, i);
    }
  }

  /** The bytes at offset `off` of the first `n` items. */
  function BytesIn(mem: seq<byte>, size: nat, n: nat, off: nat): (bytes: seq<byte>)
    requires off < size && n * size <= |mem|
    ensures |bytes| == n
  {
    if n == 0 then []
    else
      Scaled(n, n, size);
      BytesIn(mem, size, n - 1, off) + [mem[(n - 1) * size + off]]
  }

  lemma {:induction false} ByteAt(mem: seq<byte>, size: nat, n: nat, off: nat, i: nat)
    requires off < size && n * size <= |mem| && i < n
    ensures i * size + off < |mem|
    ensures BytesIn(mem, size, n, off)[i] == mem[i * size + off]
  {
    Scaled(n, n, size);
    LastItem(size, n, i);
    if i < n - 1 {
      ByteAt(mem, size, n - 1, off, i);
    }
  }

  /** A link is made of the four bytes at its offset in its item, lowest byte first. */
  lemma LinkBytes(mem: seq<byte>, size: nat, n: nat, off: nat, i: nat)
    requires off + 4 <= size && n * size <= |mem| && i < n
    ensures LinksIn(mem, size, n, off)[i]
         == BytesIn(mem, size, n, off)[i] as int + 0x100 * BytesIn(mem, size, n, off + 1)[i] as int
            + 0x1_0000 * BytesIn(mem, size, n, off + 2)[i] as int
            + 0x100_0000 * BytesIn(mem, size, n, off + 3)[i] as int
  {
    hide LinksIn, BytesIn;
    LinkAt(mem, size, n, off, i);
    ByteAt(mem, size, n, off, i);
    ByteAt(mem, size, n, off + 1, i);
    ByteAt(mem, size, n, off + 2, i);
    ByteAt(mem, size, n, off + 3, i);
    var a := i * size + off;
    assert i * size + (off + 1) == a + 1 && i * size + (off + 2) == a + 2 && i * size + (off + 3) == a + 3;
  }

  lemma LastItem(size: nat, n: nat, i: nat)
    requires i < n
    ensures i * size + size <= n * size
  {
    Scaled(i + 1, n, size);
  }

  /** Two fields of an item do not share a byte. */
  predicate Apart(off: nat, other: nat) {
    off + 4 <= other || other + 4 <= off
  }

  /** Fields of different items, or separate fields of one item, do not share an address. */
  lemma FieldsApart(size: nat, i: nat, o: nat, idx: nat, off: nat)
    requires o + 4 <= size && off + 4 <= size
    requires if i == idx then Apart(o, off) else o == off || Apart(o, off)
    ensures i * size + o + 4 <= idx * size + off || idx * size + off + 4 <= i * size + o
  {
    if i < idx {
      ItemBounds(size, idx, i);
    } else if idx < i {
      ItemBounds(size, i, idx);
    }
  }

  lemma SameLink(mem: seq<byte>, mem': seq<byte>, size: nat, total: nat, i: nat, o: nat, changed: nat)
    requires o + 4 <= size && total * size <= |mem| == |mem'| && i < total
    requires i * size + o + 4 <= changed || changed + 4 <= i * size + o
    requires forall a: nat | a < |mem| && !(changed <= a < changed + 4) :: mem'[a] == mem[a]
    ensures LinksIn(mem', size, total, o)[i] == LinksIn(mem, size, total, o)[i]
  {
    hide LinksIn;
    LinkAt(mem, size, total, o, i);
    LinkAt(mem', size, total, o, i);
  }

  /** Changing the four bytes of one field changes that link and no other, at this or any separate offset. */
  lemma FieldFrame(mem: seq<byte>, mem': seq<byte>, size: nat, total: nat, idx: nat, off: nat, next: u32)
    requires off + 4 <= size && total * size <= |mem| == |mem'| && idx < total
    requires idx * size + off + 4 <= |mem|
    requires forall a: nat | a < |mem| && !(idx * size + off <= a < idx * size + off + 4) :: mem'[a] == mem[a]
    requires ReadWord(mem', idx * size + off) == next
    ensures LinksIn(mem', size, total, off) == LinksIn(mem, size, total, off)[idx := next]
    ensures forall o: nat | o + 4 <= size && Apart(o, off) ::
              LinksIn(mem', size, total, o) == LinksIn(mem, size, total, o)
  {
    hide LinksIn, ReadWord;
    LinkAt(mem', size, total, off, idx);
    forall i: nat | i < total && i != idx
      ensures LinksIn(mem', size, total, off)[i] == LinksIn(mem, size, total, off)[i]
    {
      FieldsApart(size, i, off, idx, off);
      SameLink(mem, mem', size, total, i, off, idx * size + off);
    }
    forall o: nat | o + 4 <= size && Apart(o, off)
      ensures LinksIn(mem', size, total, o) == LinksIn(mem, size, total, o)
    {
      forall i: nat | i < total
        ensures LinksIn(mem', size, total, o)[i] == LinksIn(mem, size, total, o)[i]
      {
        FieldsApart(size, i, o, idx, off);
        SameLink(mem, mem', size, total, i, o, idx * size + off);
      }
    }
  }

  /** Writing a field changes no byte of an item outside the field. */
  lemma ByteFrame(mem: seq<byte>, mem': seq<byte>, size: nat, total: nat, idx: nat, off: nat)
    requires off + 4 <= size && total * size <= |mem| == |mem'| && idx < total
    requires idx * size + off + 4 <= |mem|
    requires forall a: nat | a < |mem| && !(idx * size + off <= a < idx * size + off + 4) :: mem'[a] == mem[a]
    ensures forall o: nat | o < size && !(off <= o < off + 4) ::
              BytesIn(mem', size, total, o) == BytesIn(mem, size, total, o)
  {
    hide BytesIn;
    forall o: nat | o < size && !(off <= o < off + 4)
      ensures BytesIn(mem', size, total, o) == BytesIn(mem, size, total, o)
    {
      forall i: nat | i < total
        ensures BytesIn(mem', size, total, o)[i] == BytesIn(mem, size, total, o)[i]
      {
        ByteApart(size, i, o, idx, off);
        ByteAt(mem, size, total, o, i);
        ByteAt(mem', size, total, o, i);
      }
    }
  }

  lemma ByteApart(size: nat, i: nat, o: nat, idx: nat, off: nat)
    requires o < size && off + 4 <= size && !(off <= o < off + 4)
    ensures !(idx * size + off <= i * size + o < idx * size + off + 4)
  {
    if i < idx {
      LastItem(size, idx, i);
    } else if idx < i {
      LastItem(size, i, idx);
    }
  }

  /** What the prelink search returns: nothing, the head of a bucket, or the next field of an item. */
  datatype LinkAddress = Null | BucketHead(bucket: nat) | NextField(item: nat, offset: nat)

  /** `struct list_info` with the memory it describes. */
  class ListInfo {
    const itemBase: array<byte>
    const itemTotal: nat
    const itemSize: nat
    const nextOffset: nat
    var freeHead: u32
    var freeTail: u32

    /** The geometry that all functions rely on. */
    predicate Geometry() {
      && itemBase.Length == itemTotal * itemSize
      && 1 <= itemTotal < 0x8000_0000
      && FieldFits(nextOffset)
    }

    predicate FieldFits(off: nat) {
      off + 4 <= itemSize
    }

    /** The next fields at an offset. */
    function Links(off: nat): (links: seq<u32>)
      requires Geometry() && FieldFits(off)
      reads itemBase
      ensures |links| == itemTotal
    {
      LinksIn(itemBase[..], itemSize, itemTotal, off)
    }

    /** The bytes at an offset of all items. */
    function Bytes(off: nat): (bytes: seq<byte>)
      requires Geometry() && off < itemSize
      reads itemBase
      ensures |bytes| == itemTotal
    {
      BytesIn(itemBase[..], itemSize, itemTotal, off)
    }

    /** All next fields that do not overlap the one at `off`, and all bytes outside it, are as before. */
    twostate predicate OthersUnchanged(off: nat)
      requires Geometry()
      reads itemBase
    {
      && (forall o: nat | FieldFits(o) && Apart(o, off) :: Links(o) == old(Links(o)))
      && forall o: nat | o < itemSize && !(off <= o < off + 4) :: Bytes(o) == old(Bytes(o))
    }

    constructor (itemBase: array<byte>, itemTotal: nat, itemSize: nat, nextOffset: nat)
      ensures this.itemBase == itemBase && this.itemTotal == itemTotal
      ensures this.itemSize == itemSize && this.nextOffset == nextOffset
    {
      this.itemBase, this.itemTotal, this.itemSize, this.nextOffset := itemBase, itemTotal, itemSize, nextOffset;
      freeHead, freeTail := INVALID, INVALID;
    }

    /** `item_set_next2` */
    method ItemSetNext2(idx: u32, next: u32, off: nat)
      requires Geometry() && FieldFits(off) && idx < itemTotal
      modifies itemBase
      ensures Links(off) == old(Links(off))[idx := next]
      ensures OthersUnchanged(off)
    {
      ghost var before := itemBase[..];
      ItemBounds(itemSize, itemTotal, idx);
      WordOfBytes(next);
      var a := idx * itemSize + off;
      itemBase[a] := next % 256;
      itemBase[a + 1] := next / 256 % 256;
      itemBase[a + 2] := next / 256 / 256 % 256;
      itemBase[a + 3] := next / 256 / 256 / 256;
      FieldFrame(before, itemBase[..], itemSize, itemTotal, idx, off, next);
      ByteFrame(before, itemBase[..], itemSize, itemTotal, idx, off);
    }

    /** `item_get_next2` */
    method ItemGetNext2(idx: u32, off: nat) returns (next: u32)
      requires Geometry() && FieldFits(off) && idx < itemTotal
      ensures next == Links(off)[idx]
    {
      hide LinksIn, Word;
      LinkAt(itemBase[..], itemSize, itemTotal, off, idx);
      var a := idx * itemSize + off;
      next := Word(itemBase[a], itemBase[a + 1], itemBase[a + 2], itemBase[a + 3]);
    }

    // ----- The free list

    /** The free list visits `free` in order, and `freeTail` is its true end. */
    ghost predicate FreeList(free: seq<nat>)
      requires Geometry()
      reads this, itemBase
    {
      && IsChain(Links(nextOffset), freeHead, free)
      && freeTail == (if free == [] then INVALID else free[|free| - 1])
    }

    /** `list_info_init` */
    method Init()
      requires Geometry()
      modifies this, itemBase
      ensures FreeList(Upto(itemTotal))
      ensures freeHead == 0 && freeTail == itemTotal - 1
      ensures forall k | 0 <= k < itemTotal :: Links(nextOffset)[k] == if k < itemTotal - 1 then k + 1 else 0xffff_ffff
      ensures OthersUnchanged(nextOffset)
    {
      freeHead := 0;
      freeTail := itemTotal - 1;
      for i := 0 to itemTotal
        invariant freeHead == 0 && freeTail == itemTotal - 1
        invariant forall k | 0 <= k < i :: Links(nextOffset)[k] == k + 1
        invariant OthersUnchanged(nextOffset)
      {
        ItemSetNext2(i, i + 1, nextOffset);
      }
      ItemSetNext2(itemTotal - 1, INVALID, nextOffset);
      UptoIsChain(Links(nextOffset));
    }

    /** `list_free_item` */
    method FreeItem(idx: u32, ghost free: seq<nat>)
      requires Geometry() && FreeList(free)
      requires idx < itemTotal && idx !in free
      modifies this, itemBase
      ensures FreeList(free + [idx])
      ensures freeHead == (if free == [] then idx else free[0]) && freeTail == idx
      ensures Links(nextOffset) == (if free == [] then old(Links(nextOffset))
                                    else old(Links(nextOffset))[free[|free| - 1] := idx])[idx := 0xffff_ffff]
      ensures OthersUnchanged(nextOffset)
    {
      ghost var links := Links(nextOffset);
      if freeHead != INVALID {
        ItemSetNext2(freeTail, idx, nextOffset);
        freeTail := idx;
      } else {
        freeHead := idx;
        freeTail := idx;
      }
      ItemSetNext2(idx, INVALID, nextOffset);
      if free == [] {
        ChainSingle(links, idx);
      } else {
        ChainAppend(links, freeHead, free, idx);
      }
    }

    /** `list_alloc_item`: the item that has been free longest, or `INVALID` when there is none. */
    method AllocItem(ghost free: seq<nat>) returns (idx: u32)
      requires Geometry() && FreeList(free)
      modifies this, itemBase
      ensures idx == (if free == [] then 0xffff_ffff else free[0])
      ensures FreeList(if free == [] then [] else free[1..])
      ensures |free| <= 1 ==> freeHead == 0xffff_ffff && freeTail == 0xffff_ffff
      ensures |free| >= 2 ==> freeHead == free[1] && freeTail == free[|free| - 1]
      ensures Links(nextOffset) == if free == [] then old(Links(nextOffset))
                                   else old(Links(nextOffset))[free[0] := 0xffff_ffff]
      ensures OthersUnchanged(nextOffset)
    {
      if freeHead == INVALID {
        return INVALID;
      }
      ghost var links := Links(nextOffset);
      idx := freeHead;
      freeHead := ItemGetNext2(idx, nextOffset);
      ChainPop(links, idx, free);
      if freeHead == INVALID {
        freeTail := INVALID;
      }
      ItemSetNext2(idx, INVALID, nextOffset);
    }

    // ----- The index table

    /** The chain of a bucket, threaded through the fields at `off`. */
    predicate Bucket(head: u32, off: nat, c: seq<nat>)
      requires Geometry() && FieldFits(off)
      reads itemBase
    {
      IsChain(Links(off), head, c)
    }

    /** `index_list_prelink2`: `Null` when an item of the bucket matches, otherwise where a new item goes. */
    method Prelink2(table: array<u32>, bucket: nat, matches: nat -> bool, off: nat, ghost c: seq<nat>)
      returns (address: LinkAddress)
      requires Geometry() && FieldFits(off) && bucket < table.Length
      requires Bucket(table[bucket], off, c)
      ensures address == Null <==> exists k :: 0 <= k < |c| && matches(c[k])
      ensures address != Null ==> address == if c == [] then BucketHead(bucket) else NextField(c[|c| - 1], off)
    {
      var head := table[bucket];
      if head != INVALID {
        if matches(head) {
          return Null;
        }
        ghost var k := 0;
        var next := ItemGetNext2(head, off);
        while next != INVALID
          invariant 0 <= k < |c| && head == c[k] && next == After(c, k)
          invariant forall j | 0 <= j <= k :: !matches(c[j])
          decreases |c| - k
        {
          head := next;
          k := k + 1;
          if matches(head) {
            return Null;
          }
          next := ItemGetNext2(head, off);
        }
        return NextField(head, off);
      } else {
        return BucketHead(bucket);
      }
    }

    /** `index_list_do_link` at the address that the prelink search returned: the new item becomes the last of the
        bucket exactly when its own next field is clear, since nothing here clears it. */
    method DoLink(table: array<u32>, address: LinkAddress, item: u32, ghost bucket: nat, ghost off: nat,
                  ghost c: seq<nat>)
      requires Geometry() && FieldFits(off) && bucket < table.Length
      requires Bucket(table[bucket], off, c)
      requires address == if c == [] then BucketHead(bucket) else NextField(c[|c| - 1], off)
      requires item < itemTotal && item !in c
      modifies table, itemBase
      ensures Bucket(table[bucket], off, c + [item]) <==> old(Links(off)[item]) == 0xffff_ffff
      ensures table[bucket] == if c == [] then item else old(table[bucket])
      ensures forall b | 0 <= b < table.Length && b != bucket :: table[b] == old(table[b])
      ensures Links(off) == if c == [] then old(Links(off)) else old(Links(off))[c[|c| - 1] := item]
      ensures OthersUnchanged(off)
    {
      ghost var links := Links(off);
      match address {
        case BucketHead(b) => table[b] := item;
        case NextField(last, o) => ItemSetNext2(last, item, o);
      }
      ChainAppendIff(links, old(table[bucket]), c, item);
    }

    /** Taking the first item of a bucket out and clearing its next field. */
    method UnlinkHead(table: array<u32>, bucket: nat, off: nat, ghost c: seq<nat>)
      requires Geometry() && FieldFits(off) && bucket < table.Length
      requires Bucket(table[bucket], off, c) && c != []
      modifies table, itemBase
      ensures Bucket(table[bucket], off, Without(c, 0))
      ensures Links(off) == Unlinked(old(Links(off)), c, 0) && Links(off)[c[0]] == INVALID
      ensures forall b | 0 <= b < table.Length && b != bucket :: table[b] == old(table[b])
      ensures OthersUnchanged(off)
    {
      ghost var links := Links(off);
      var head := table[bucket];
      table[bucket] := ItemGetNext2(head, off);
      ItemSetNext2(head, INVALID, off);
      ChainPop(links, head, c);
      assert Without(c, 0) == c[1..];
    }

    /** Taking the item `current` after `head` out and clearing its next field. */
    method UnlinkAfter(head: u32, current: u32, off: nat, ghost first: u32, ghost c: seq<nat>, ghost k: nat)
      requires Geometry() && FieldFits(off)
      requires Bucket(first, off, c) && 1 <= k < |c| && head == c[k - 1] && current == c[k]
      modifies itemBase
      ensures Bucket(first, off, Without(c, k))
      ensures Links(off) == Unlinked(old(Links(off)), c, k) && Links(off)[c[k]] == INVALID
      ensures OthersUnchanged(off)
    {
      ghost var links := Links(off);
      var next := ItemGetNext2(current, off);
      ItemSetNext2(head, next, off);
      ItemSetNext2(current, INVALID, off);
      ChainRemove(links, first, c, k);
    }

    /** The next fields after item `k` of a chain was taken out. */
    static function Unlinked(links: seq<u32>, c: seq<nat>, k: nat): seq<u32>
      requires k < |c| && forall i | 0 <= i < |c| :: c[i] < |links|
    {
      if k == 0 then links[c[0] := INVALID] else links[c[k - 1] := links[c[k]]][c[k] := INVALID]
    }

    /** `index_list_unlink2`: the first matching item is taken out of the bucket and its next field cleared. */
    method Unlink2(table: array<u32>, bucket: nat, matches: nat -> bool, off: nat, ghost c: seq<nat>)
      returns (r: u32, ghost at: nat)
      requires Geometry() && FieldFits(off) && bucket < table.Length
      requires Bucket(table[bucket], off, c)
      modifies table, itemBase
      ensures OthersUnchanged(off)
      ensures forall b | 0 <= b < table.Length && b != bucket :: table[b] == old(table[b])
      ensures r == 0xffff_ffff <==> forall k | 0 <= k < |c| :: !matches(c[k])
      ensures r == INVALID ==> table[bucket] == old(table[bucket]) && Links(off) == old(Links(off))
      ensures r != INVALID ==> at < |c| && r == c[at] && matches(r) && forall k | 0 <= k < at :: !matches(c[k])
      ensures r != INVALID ==> Bucket(table[bucket], off, Without(c, at))
      ensures r != INVALID ==> Links(off) == Unlinked(old(Links(off)), c, at) && Links(off)[r] == 0xffff_ffff
    {
      hide LinksIn, Without, IsChain, Unlinked;
      r, at := INVALID, 0;
      var head := table[bucket];
      ChainWalk(Links(off), head, c, 0);
      if head != INVALID {
        if matches(head) {
          UnlinkHead(table, bucket, off, c);
          return head, 0;
        }
        ghost var k := 0;
        var current := ItemGetNext2(head, off);
        while current != INVALID
          invariant 0 <= k < |c| && head == c[k] && head < itemTotal
          invariant current == After(c, k) && (current == INVALID <==> k + 1 == |c|)
          invariant forall j | 0 <= j <= k :: !matches(c[j])
          invariant unchanged(itemBase, table)
          decreases |c| - k
        {
          ChainWalk(Links(off), table[bucket], c, k + 1);
          if matches(current) {
            UnlinkAfter(head, current, off, table[bucket], c, k + 1);
            return current, k + 1;
          }
          head := current;
          k := k + 1;
          current := ItemGetNext2(head, off);
        }
      }
    }
  }

  /** The last write of `list_info_init` is to the field of item `item_total - 1`, taken as 32 bits: it is inside
      the block exactly when there is an item. */
  lemma LastWriteInside(total: nat, size: nat, off: nat)
    requires total < 0x8000_0000 && off + 4 <= size
    ensures (total - 1) % 0x1_0000_0000 * size + off + 4 <= total * size <==> total >= 1
  {
    if total == 0 {
      assert (0 - 1) % 0x1_0000_0000 == 0xffff_ffff;
    } else {
      assert (total - 1) % 0x1_0000_0000 == total - 1;
      Scaled(total, total, size);
    }
  }

  /** `index_table_init` */
  method IndexTableInit(table: array<u32>)
    modifies table
    ensures forall b | 0 <= b < table.Length :: table[b] == 0xffff_ffff
  {
    for i := 0 to table.Length
      invariant forall b | 0 <= b < i :: table[b] == INVALID
    {
      table[i] := INVALID;
    }
  }

  lemma UptoIsChain(links: seq<u32>)
    requires 1 <= |links| < INVALID
    requires forall k | 0 <= k < |links| - 1 :: links[k] == k + 1
    requires links[|links| - 1] == INVALID
    ensures IsChain(links, 0, Upto(|links|))
  {
    var c := Upto(|links|);
    hide Upto;
    forall k | 0 <= k < |c|
      ensures links[c[k]] == After(c, k)
    {
      assert c[k] == k && (k + 1 < |c| ==> c[k + 1] == k + 1);
    }
    assert c != [] && c[0] == 0;
  }
}
