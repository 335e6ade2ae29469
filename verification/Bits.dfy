/** Bits of bytes, bits of indices, and byte buffers seen as the set of the positions of their set bits. */
module Bits {

  /** Bit `k` of the binary representation of `n`. */
  predicate AddressBit(n: nat, k: nat) {
    if k == 0 then n % 2 == 1 else AddressBit(n / 2, k - 1)
  }

  /** Bit `j` of a byte. */
  predicate Bit(b: bv8, j: nat)
    decreases j
  {
    if j == 0 then b & 1 == 1 else Bit(b >> 1, j - 1)
  }

  /** `a ^ b`. Proofs that only need its algebra hide the definition. */
  function Xor(a: bv8, b: bv8): bv8 {
    a ^ b
  }

  /** `a & b` */
  function And(a: bv8, b: bv8): bv8 {
    a & b
  }

  /** `~a` */
  function Not(a: bv8): bv8 {
    !a
  }

  lemma HalfOf(a: bv8, b: bv8)
    ensures Xor(a, b) >> 1 == Xor(a >> 1, b >> 1)
    ensures And(a, b) >> 1 == And(a >> 1, b >> 1)
  {
  }

  lemma LowBitOf(a: bv8, b: bv8)
    ensures (Xor(a, b) & 1 == 1) == ((a & 1 == 1) != (b & 1 == 1))
    ensures (And(a, b) & 1 == 1) == (a & 1 == 1 && b & 1 == 1)
  {
  }

  lemma {:induction false} XorBit(a: bv8, b: bv8, j: nat)
    ensures Bit(Xor(a, b), j) == (Bit(a, j) != Bit(b, j))
    decreases j
  {
    hide Xor;
    LowBitOf(a, b);
    if j > 0 {
      HalfOf(a, b);
      XorBit(a >> 1, b >> 1, j - 1);
    }
  }

  lemma {:induction false} AndBit(a: bv8, b: bv8, j: nat)
    ensures Bit(And(a, b), j) == (Bit(a, j) && Bit(b, j))
    decreases j
  {
    hide And;
    LowBitOf(a, b);
    if j > 0 {
      HalfOf(a, b);
      AndBit(a >> 1, b >> 1, j - 1);
    }
  }

  lemma NotBits(a: bv8)
    ensures forall j: nat | j < 8 :: Bit(Not(a), j) == !Bit(a, j)
  {
    BitMasks(a);
    BitMasks(Not(a));
    hide Bit;
  }

  /** The eight bits of a byte as masks. */
  lemma BitMasks(b: bv8)
    ensures Bit(b, 0) == (b & 0x01 != 0) && Bit(b, 1) == (b & 0x02 != 0)
    ensures Bit(b, 2) == (b & 0x04 != 0) && Bit(b, 3) == (b & 0x08 != 0)
    ensures Bit(b, 4) == (b & 0x10 != 0) && Bit(b, 5) == (b & 0x20 != 0)
    ensures Bit(b, 6) == (b & 0x40 != 0) && Bit(b, 7) == (b & 0x80 != 0)
  {
    var b2 := b >> 1 >> 1;
    var b4 := b2 >> 1 >> 1;
    var b6 := b4 >> 1 >> 1;
    assert Bit(b, 2) == Bit(b2, 0) && Bit(b, 3) == Bit(b2, 1);
    assert Bit(b, 4) == Bit(b2, 2) == Bit(b4, 0) && Bit(b, 5) == Bit(b2, 3) == Bit(b4, 1);
    assert Bit(b, 6) == Bit(b2, 4) == Bit(b4, 2) == Bit(b6, 0);
    assert Bit(b, 7) == Bit(b2, 5) == Bit(b4, 3) == Bit(b6, 1);
  }

  lemma SameBitsSameByte(a: bv8, b: bv8)
    requires forall j: nat | j < 8 :: Bit(a, j) == Bit(b, j)
    ensures a == b
  {
    BitMasks(a);
    BitMasks(b);
    assert Bit(a, 0) == Bit(b, 0) && Bit(a, 1) == Bit(b, 1) && Bit(a, 2) == Bit(b, 2) && Bit(a, 3) == Bit(b, 3);
    assert Bit(a, 4) == Bit(b, 4) && Bit(a, 5) == Bit(b, 5) && Bit(a, 6) == Bit(b, 6) && Bit(a, 7) == Bit(b, 7);
  }

  /** The number of bits set in a byte. */
  function Ones(b: bv8): (n: nat)
    ensures n <= 8
  {
    OnesBelow(b, 8)
  }

  function OnesBelow(b: bv8, j: nat): (n: nat)
    requires j <= 8
    ensures n <= j
    decreases j
  {
    if j == 0 then 0 else OnesBelow(b, j - 1) + if Bit(b, j - 1) then 1 else 0
  }

  /** Whether an odd number of the bits of a byte are set. */
  predicate Parity(b: bv8) {
    Ones(b) % 2 == 1
  }

  // ----- Sets of positions

  function SymDiff<T>(a: set<T>, b: set<T>): set<T> {
    (a - b) + (b - a)
  }

  predicate Odd<T>(s: set<T>) {
    |s| % 2 == 1
  }

  lemma SymDiffSize<T>(a: set<T>, b: set<T>)
    ensures |SymDiff(a, b)| == |a| + |b| - 2 * |a * b|
  {
    assert a == (a - b) + a * b;
    assert b == (b - a) + a * b;
  }

  /** Parities of sets add up modulo two. */
  lemma OddSymDiff<T>(a: set<T>, b: set<T>)
    ensures Odd(SymDiff(a, b)) == (Odd(a) != Odd(b))
  {
    SymDiffSize(a, b);
  }

  lemma SymDiffCancels<T>(a: set<T>, b: set<T>, c: set<T>)
    ensures SymDiff(a, c) == b <==> SymDiff(b, a) == c
  {
  }

  lemma OnlyMember<T>(s: set<T>) returns (x: T)
    requires |s| == 1
    ensures s == {x}
  {
    x :| x in s;
    assert |s - {x}| == 0;
  }

  lemma TwoMembers<T>(s: set<T>, x: T, y: T)
    requires x in s && y in s && x != y
    ensures |s| >= 2
  {
    assert |s - {x} - {y}| == |s| - 2;
  }

  lemma PairOf<T>(s: set<T>) returns (x: T, y: T)
    requires |s| == 2
    ensures x != y && s == {x, y}
  {
    x :| x in s;
    y := OnlyMember(s - {x});
    assert s == {x} + (s - {x});
  }

  /** The members of `s` whose bit `k` equals `v`. */
  function Having(s: set<nat>, k: nat, v: bool): set<nat> {
    set p | p in s && AddressBit(p, k) == v
  }

  /** The positions of the set bits of a buffer: bit `j` of byte `i` is at position `8 * i + j`. */
  function SetBits(buf: seq<bv8>): set<nat> {
    set p: nat | 0 <= p < 8 * |buf| && Bit(buf[p / 8], p % 8)
  }

  lemma SetBitsAt(buf: seq<bv8>, i: nat, j: nat)
    requires i < |buf| && j < 8
    ensures 8 * i + j in SetBits(buf) <==> Bit(buf[i], j)
  {
    assert (8 * i + j) / 8 == i && (8 * i + j) % 8 == j;
  }

  lemma SetBitsInjective(a: seq<bv8>, b: seq<bv8>)
    requires |a| == |b| && SetBits(a) == SetBits(b)
    ensures a == b
  {
    forall i: nat | i < |a|
      ensures a[i] == b[i]
    {
      forall j: nat | j < 8
        ensures Bit(a[i], j) == Bit(b[i], j)
      {
        SetBitsAt(a, i, j);
        SetBitsAt(b, i, j);
      }
      SameBitsSameByte(a[i], b[i]);
    }
  }

  /** Bytewise exclusive or of two buffers. */
  function XorBuffers(a: seq<bv8>, b: seq<bv8>): (c: seq<bv8>)
    requires |a| == |b|
    ensures |c| == |a|
    ensures forall i | 0 <= i < |a| :: c[i] == Xor(a[i], b[i])
  {
    if a == [] then [] else [Xor(a[0], b[0])] + XorBuffers(a[1..], b[1..])
  }

  lemma XorBufferBit(a: seq<bv8>, b: seq<bv8>, p: nat)
    requires |a| == |b| && p < 8 * |a|
    ensures p in SetBits(XorBuffers(a, b)) <==> (p in SetBits(a)) != (p in SetBits(b))
  {
    XorBit(a[p / 8], b[p / 8], p % 8);
  }

  lemma SetBitsXor(a: seq<bv8>, b: seq<bv8>)
    requires |a| == |b|
    ensures SetBits(XorBuffers(a, b)) == SymDiff(SetBits(a), SetBits(b))
  {
    forall p: nat | p < 8 * |a|
      ensures p in SetBits(XorBuffers(a, b)) <==> (p in SetBits(a)) != (p in SetBits(b))
    {
      XorBufferBit(a, b, p);
    }
  }

  /** Flipping one bit of a buffer flips the membership of its position. */
  lemma FlipBit(buf: seq<bv8>, i: nat, j: nat, mask: bv8)
    requires i < |buf| && j < 8
    requires forall m: nat | m < 8 :: Bit(mask, m) == (m == j)
    ensures SetBits(buf[i := Xor(buf[i], mask)]) == SymDiff(SetBits(buf), {8 * i + j})
  {
    hide Xor, Bit;
    var flipped := buf[i := Xor(buf[i], mask)];
    forall p: nat | p < 8 * |buf|
      ensures p in SetBits(flipped) <==> (p in SetBits(buf)) != (p == 8 * i + j)
    {
      assert p == 8 * (p / 8) + p % 8;
      XorBit(buf[i], mask, p % 8);
    }
  }

  /** The positions of the set bits among the low `j` bits of byte number `i`, whose value is `b`. */
  function ByteBits(b: bv8, i: nat, j: nat): set<nat> {
    set p: nat | 8 * i <= p < 8 * i + j && Bit(b, p % 8)
  }

  lemma {:induction false} ByteBitsSize(b: bv8, i: nat, j: nat)
    requires j <= 8
    ensures |ByteBits(b, i, j)| == OnesBelow(b, j)
  {
    hide Bit;
    if j == 0 {
      assert ByteBits(b, i, 0) == {};
    } else {
      ByteBitsSize(b, i, j - 1);
      var p := 8 * i + j - 1;
      assert p % 8 == j - 1;
      assert ByteBits(b, i, j) == ByteBits(b, i, j - 1) + if Bit(b, p % 8) then {p} else {};
      assert p !in ByteBits(b, i, j - 1);
    }
  }

  /** Growing a buffer by a byte adds that byte's bits. */
  lemma SetBitsSnoc(buf: seq<bv8>, b: bv8)
    ensures SetBits(buf + [b]) == SetBits(buf) + ByteBits(b, |buf|, 8)
    ensures SetBits(buf) !! ByteBits(b, |buf|, 8)
  {
    var all := buf + [b];
    forall p: nat
      ensures p in SetBits(all) <==> p in SetBits(buf) || p in ByteBits(b, |buf|, 8)
    {
      if p / 8 < |buf| {
        assert all[p / 8] == buf[p / 8];
      } else if 8 * |buf| <= p < 8 * |buf| + 8 {
        assert p / 8 == |buf|;
      }
    }
  }

  // ----- Positions are determined by their address bits

  function Pow2(k: nat): (n: nat)
    ensures n >= 1
  {
    if k == 0 then 1 else 2 * Pow2(k - 1)
  }

  lemma {:induction false} SameAddressBitsSameNumber(p: nat, q: nat, width: nat)
    requires p < Pow2(width) && q < Pow2(width)
    requires forall k: nat | k < width :: AddressBit(p, k) == AddressBit(q, k)
    ensures p == q
  {
    if width > 0 {
      forall k: nat | k < width - 1
        ensures AddressBit(p / 2, k) == AddressBit(q / 2, k)
      {
        assert AddressBit(p, k + 1) == AddressBit(q, k + 1);
      }
      SameAddressBitsSameNumber(p / 2, q / 2, width - 1);
      assert AddressBit(p, 0) == AddressBit(q, 0);
    }
  }

  /** Address bits of an index in a block of `2^m`: the low ones are those of the offset, the high ones
      those of the block number. */
  lemma {:induction false} BlockBits(m: nat, size: nat, i: nat, j: nat, k: nat)
    requires size == Pow2(m) && j < size
    ensures size * i + j >= 0
    ensures AddressBit(size * i + j, k) == if k < m then AddressBit(j, k) else AddressBit(i, k - m)
  {
    if m == 0 {
      assert size * i + j == i;
    } else {
      var half := Pow2(m - 1);
      var t := half * i;
      assert size * i == 2 * t;
      var p := 2 * t + j;
      assert p / 2 == t + j / 2 && p % 2 == j % 2;
      if k > 0 {
        BlockBits(m - 1, half, i, j / 2, k - 1);
      }
    }
  }

  /** A byte and its numeric value have the same bits. */
  lemma {:induction false} ByteValueBit(b: bv8, j: nat)
    ensures AddressBit(b as nat, j) == Bit(b, j)
    decreases j
  {
    if j == 0 {
      assert (b & 1) as nat == b as nat % 2;
    } else {
      assert (b >> 1) as nat == b as nat / 2;
      ByteValueBit(b >> 1, j - 1);
    }
  }
}
