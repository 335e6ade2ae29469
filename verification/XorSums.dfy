/** Exclusive ors over selected bytes or 32-bit words of a buffer, and the parities they carry. */
module XorSums {
  import opened Bits

  type Selection = nat -> bool

  /** The exclusive or of the bytes whose index is selected. */
  function XorWhere(buf: seq<bv8>, sel: Selection): bv8 {
    if buf == [] then 0
    else
      var n := |buf| - 1;
      if sel(n) then Xor(XorWhere(buf[..n], sel), buf[n]) else XorWhere(buf[..n], sel)
  }

  /** The indices whose bit `k` is `v`. */
  function Rows(k: nat, v: bool): Selection {
    (i: nat) => AddressBit(i, k) == v
  }

  function All(): Selection {
    (i: nat) => true
  }

  lemma XorCancel(a: bv8, b: bv8)
    ensures Xor(Xor(a, b), a) == b
  {
  }

  lemma XorZero(a: bv8)
    ensures Xor(a, 0) == a
  {
  }

  lemma XorSwap(a: bv8, b: bv8, c: bv8)
    ensures Xor(Xor(a, b), c) == Xor(Xor(a, c), b) == Xor(a, Xor(b, c))
  {
  }

  /** The exclusive or over a disjoint union. */
  lemma {:induction false} XorWhereSplit(buf: seq<bv8>, whole: Selection, p: Selection, q: Selection)
    requires forall i: nat | i < |buf| :: whole(i) == (p(i) != q(i)) && !(p(i) && q(i))
    ensures XorWhere(buf, whole) == Xor(XorWhere(buf, p), XorWhere(buf, q))
  {
    hide Xor;
    if buf == [] {
      assert Xor(0, 0) == 0 by { XorZero(0); }
    } else {
      var n := |buf| - 1;
      var rest, b := buf[..n], buf[n];
      XorWhereSplit(rest, whole, p, q);
      assert whole(n) == (p(n) != q(n));
      var x, y := XorWhere(rest, p), XorWhere(rest, q);
      XorSwap(x, y, b);
    }
  }

  /** A pair of row sums adds up to the sum of the whole buffer. */
  lemma RowPair(buf: seq<bv8>, k: nat)
    ensures XorWhere(buf, Rows(k, true)) == Xor(XorWhere(buf, All()), XorWhere(buf, Rows(k, false)))
  {
    XorWhereSplit(buf, All(), Rows(k, false), Rows(k, true));
    XorCancel(XorWhere(buf, Rows(k, false)), XorWhere(buf, Rows(k, true)));
  }

  predicate ParityBelow(b: bv8, j: nat)
    decreases j
  {
    if j == 0 then false else ParityBelow(b, j - 1) != Bit(b, j - 1)
  }

  lemma {:induction false} OnesParity(b: bv8, j: nat)
    requires j <= 8
    ensures (OnesBelow(b, j) % 2 == 1) == ParityBelow(b, j)
    decreases j
  {
    hide Bit;
    if j > 0 {
      OnesParity(b, j - 1);
      OddSuccessor(OnesBelow(b, j - 1), Bit(b, j - 1));
    }
  }

  lemma OddSuccessor(n: nat, more: bool)
    ensures ((n + if more then 1 else 0) % 2 == 1) == ((n % 2 == 1) != more)
  {
  }

  lemma {:induction false} ParityBelowXor(a: bv8, b: bv8, j: nat)
    requires j <= 8
    ensures ParityBelow(Xor(a, b), j) == (ParityBelow(a, j) != ParityBelow(b, j))
    decreases j
  {
    hide Bit, Xor;
    if j > 0 {
      ParityBelowXor(a, b, j - 1);
      assert Bit(Xor(a, b), j - 1) == (Bit(a, j - 1) != Bit(b, j - 1)) by { XorBit(a, b, j - 1); }
    }
  }

  lemma ParityXor(a: bv8, b: bv8)
    ensures Parity(Xor(a, b)) == (Parity(a) != Parity(b))
  {
    hide ParityBelow, OnesBelow, Xor;
    ParityBelowXor(a, b, 8);
    OnesParity(a, 8);
    OnesParity(b, 8);
    OnesParity(Xor(a, b), 8);
  }

  // ----- From exclusive ors to parities of sets of positions

  /** The bits of a byte that the column parity for bit `k` of the bit number covers. */
  function ColumnMask(k: nat, v: bool): bv8
    requires k < 3
  {
    match k
    case 0 => if v then 0xaa else 0x55
    case 1 => if v then 0xcc else 0x33
    case 2 => if v then 0xf0 else 0x0f
  }

  lemma ColumnMaskBit(k: nat, v: bool, j: nat)
    requires k < 3 && j < 8
    ensures Bit(ColumnMask(k, v), j) == (AddressBit(j, k) == v)
  {
    BitMasks(ColumnMask(k, v));
  }

  /** The bits of byte number `i` that the code bit for address bit `k` covers. */
  function CoverMask(i: nat, k: nat, v: bool): bv8 {
    if k < 3 then ColumnMask(k, v) else if AddressBit(i, k - 3) == v then 0xff else 0
  }

  lemma PositionBits(i: nat, j: nat, k: nat)
    requires j < 8
    ensures AddressBit(8 * i + j, k) == if k < 3 then AddressBit(j, k) else AddressBit(i, k - 3)
  {
    assert Pow2(3) == 8;
    BlockBits(3, 8, i, j, k);
  }

  lemma CoverMaskBit(i: nat, j: nat, k: nat, v: bool)
    requires j < 8
    ensures Bit(CoverMask(i, k, v), j) == (AddressBit(8 * i + j, k) == v)
  {
    PositionBits(i, j, k);
    if k < 3 {
      ColumnMaskBit(k, v, j);
    } else {
      BitMasks(0xff);
      BitMasks(0);
    }
  }

  lemma HavingByteBits(b: bv8, i: nat, k: nat, v: bool)
    ensures Having(ByteBits(b, i, 8), k, v) == ByteBits(And(b, CoverMask(i, k, v)), i, 8)
  {
    hide Bit, And, CoverMask, AddressBit;
    forall p: nat | 8 * i <= p < 8 * i + 8
      ensures Bit(And(b, CoverMask(i, k, v)), p % 8) <==> Bit(b, p % 8) && AddressBit(p, k) == v
    {
      CoveredBit(b, i, k, v, p);
    }
  }

  lemma CoveredBit(b: bv8, i: nat, k: nat, v: bool, p: nat)
    requires 8 * i <= p < 8 * i + 8
    ensures Bit(And(b, CoverMask(i, k, v)), p % 8) <==> Bit(b, p % 8) && AddressBit(p, k) == v
  {
    hide Bit, And, CoverMask, AddressBit;
    assert p == 8 * i + p % 8;
    AndBit(b, CoverMask(i, k, v), p % 8);
    CoverMaskBit(i, p % 8, k, v);
  }

  /** The exclusive or of the covered bits of every byte. */
  function CoveredXor(buf: seq<bv8>, k: nat, v: bool): bv8 {
    if k < 3 then And(XorWhere(buf, All()), ColumnMask(k, v)) else XorWhere(buf, Rows(k - 3, v))
  }

  /** The parity of the exclusive or is the parity of the number of set bits that are covered. */
  lemma {:induction false} CoveredParity(buf: seq<bv8>, k: nat, v: bool)
    ensures Parity(CoveredXor(buf, k, v)) == Odd(Having(SetBits(buf), k, v))
  {
    hide Having, SetBits, OnesBelow, CoveredXor, CoverMask, ByteBits, Xor, And, AddressBit, Bit;
    if buf == [] {
      NothingCovered(k, v);
    } else {
      var n := |buf| - 1;
      var rest, b := buf[..n], buf[n];
      var here := And(b, CoverMask(n, k, v));
      CoveredParity(rest, k, v);
      CoveredXorSnoc(buf, k, v);
      ParityXor(CoveredXor(rest, k, v), here);
      assert buf == rest + [b];
      SetBitsSnoc(rest, b);
      HavingByteBits(b, n, k, v);
      ByteBitsSize(here, n, 8);
      HavingUnion(SetBits(rest), ByteBits(b, n, 8), k, v);
    }
  }

  lemma NothingCovered(k: nat, v: bool)
    ensures !Parity(CoveredXor([], k, v)) && !Odd(Having(SetBits([]), k, v))
  {
    assert Having(SetBits([]), k, v) == {};
    assert CoveredXor([], k, v) == 0;
    assert Ones(0) == 0;
  }

  lemma HavingUnion(s: set<nat>, t: set<nat>, k: nat, v: bool)
    requires s !! t
    ensures |Having(s + t, k, v)| == |Having(s, k, v)| + |Having(t, k, v)|
  {
    assert Having(s + t, k, v) == Having(s, k, v) + Having(t, k, v);
  }

  lemma AndXor(a: bv8, b: bv8, m: bv8)
    ensures And(Xor(a, b), m) == Xor(And(a, m), And(b, m))
  {
  }

  lemma AndOnesZero(b: bv8)
    ensures And(b, 0xff) == b && And(b, 0) == 0
  {
  }

  lemma CoveredXorSnoc(buf: seq<bv8>, k: nat, v: bool)
    requires buf != []
    ensures var n := |buf| - 1;
            CoveredXor(buf, k, v) == Xor(CoveredXor(buf[..n], k, v), And(buf[n], CoverMask(n, k, v)))
  {
    hide Xor, And, ColumnMask, AddressBit;
    var n := |buf| - 1;
    if k < 3 {
      assert All()(n);
      AndXor(XorWhere(buf[..n], All()), buf[n], ColumnMask(k, v));
    } else {
      var sel := Rows(k - 3, v);
      assert sel(n) == (AddressBit(n, k - 3) == v);
      AndOnesZero(buf[n]);
      XorZero(XorWhere(buf[..n], sel));
    }
  }
}
