/** Decoding the difference of two stored codes, shared by the two drivers. */
module Correction {
  import opened Bits
  import opened Hamming
  import opened EccTables
  import opened XorSums
  import opened EccBytes

  /** The code bits at which two stored codes differ. */
  function Difference(read: seq<bv8>, computed: seq<bv8>, smc: bool): set<nat>
    requires |read| >= 3 && |computed| >= 3
  {
    SymDiff(CodeBits(read, smc), CodeBits(computed, smc))
  }

  lemma CanonicalIs(code: seq<bv8>, smc: bool)
    requires |code| >= 3
    ensures Canonical(code, smc) == if smc then [code[0], code[1], code[2]] else [code[1], code[0], code[2]]
  {
  }

  lemma DifferenceBytes(read: seq<bv8>, computed: seq<bv8>, smc: bool, b0: bv8, b1: bv8, b2: bv8)
    requires |read| >= 3 && |computed| >= 3
    requires b0 == Xor(Canonical(read, smc)[0], Canonical(computed, smc)[0])
    requires b1 == Xor(Canonical(read, smc)[1], Canonical(computed, smc)[1])
    requires b2 == Xor(Canonical(read, smc)[2], Canonical(computed, smc)[2])
    ensures SetBits([b0, b1, b2]) == Difference(read, computed, smc)
  {
    hide SetBits;
    SetBitsXor(Canonical(read, smc), Canonical(computed, smc));
    assert XorBuffers(Canonical(read, smc), Canonical(computed, smc)) == [b0, b1, b2];
  }

  lemma DifferenceSize(b0: bv8, b1: bv8, b2: bv8)
    ensures |SetBits([b0, b1, b2])| == Ones(b0) + Ones(b1) + Ones(b2)
  {
    hide SetBits, OnesBelow, ByteBits;
    SetBitsSnoc([], b0);
    SetBitsSnoc([b0], b1);
    SetBitsSnoc([b0, b1], b2);
    assert [] + [b0] == [b0] && [b0] + [b1] == [b0, b1] && [b0, b1] + [b2] == [b0, b1, b2];
    ByteBitsSize(b0, 0, 8);
    ByteBitsSize(b1, 1, 8);
    ByteBitsSize(b2, 2, 8);
    assert SetBits([]) == {} by { NoBits(); }
  }

  lemma NoBits()
    ensures SetBits([]) == {}
  {
  }

  lemma OnesZero(b: bv8)
    ensures Ones(b) == 0 <==> b == 0
  {
    FoldIsParity(b);
  }

  lemma AllZero(b0: bv8, b1: bv8, b2: bv8)
    ensures b0 | b1 | b2 == 0 <==> b0 == 0 && b1 == 0 && b2 == 0
  {
  }

  lemma NoDifference(b0: bv8, b1: bv8, b2: bv8)
    ensures b0 | b1 | b2 == 0 <==> SetBits([b0, b1, b2]) == {}
  {
    hide SetBits, Ones;
    AllZero(b0, b1, b2);
    OnesZero(b0);
    OnesZero(b1);
    OnesZero(b2);
    DifferenceSize(b0, b1, b2);
    assert |SetBits([b0, b1, b2])| == 0 <==> SetBits([b0, b1, b2]) == {};
  }

  // ----- Pairs of code bits

  /** `(b ^ (b >> 1)) & mask` */
  function PairMask(b: bv8, mask: bv8): bv8 {
    (b ^ (b >> 1)) & mask
  }

  predicate OpposedBits(b: bv8, j: nat) {
    Bit(b, j) != Bit(b, j + 1)
  }

  lemma PairChecks(b: bv8)
    ensures PairMask(b, 0x55) == 0x55
       <==> OpposedBits(b, 0) && OpposedBits(b, 2) && OpposedBits(b, 4) && OpposedBits(b, 6)
    ensures PairMask(b, 0x54) == 0x54 <==> OpposedBits(b, 2) && OpposedBits(b, 4) && OpposedBits(b, 6)
  {
    BitMasks(b);
    hide Bit;
  }

  /** Where the pair for address bit `k` lies in the three bytes. */
  lemma OpposedIs(b0: bv8, b1: bv8, b2: bv8, k: nat)
    requires k < 12
    ensures Opposed(SetBits([b0, b1, b2]), k)
       <==> if k < 3 then OpposedBits(b2, 2 * k + 2)
            else if k < 7 then OpposedBits(b0, 2 * (k - 3))
            else if k < 11 then OpposedBits(b1, 2 * (k - 7))
            else OpposedBits(b2, 0)
    ensures CodeBit(k, true) in SetBits([b0, b1, b2])
       <==> if k < 3 then Bit(b2, 2 * k + 3)
            else if k < 7 then Bit(b0, 2 * (k - 3) + 1)
            else if k < 11 then Bit(b1, 2 * (k - 7) + 1)
            else Bit(b2, 1)
  {
    hide SetBits, Bit;
    var d := [b0, b1, b2];
    var i := if k < 3 || k == 11 then 2 else if k < 7 then 0 else 1;
    var j := if k < 3 then 2 * k + 2 else if k < 7 then 2 * (k - 3) else if k < 11 then 2 * (k - 7) else 0;
    assert CodeBit(k, false) == 8 * i + j && CodeBit(k, true) == 8 * i + j + 1;
    SetBitsAt(d, i, j);
    SetBitsAt(d, i, j + 1);
  }

  predicate AllOpposed(b0: bv8, b1: bv8, b2: bv8, width: nat)
    requires width <= 12
  {
    forall k: nat | k < width :: Opposed(SetBits([b0, b1, b2]), k)
  }

  lemma PairConditions(b0: bv8, b1: bv8, b2: bv8)
    ensures AllOpposed(b0, b1, b2, 11)
       <==> PairMask(b0, 0x55) == 0x55 && PairMask(b1, 0x55) == 0x55 && PairMask(b2, 0x54) == 0x54
    ensures AllOpposed(b0, b1, b2, 12)
       <==> PairMask(b0, 0x55) == 0x55 && PairMask(b1, 0x55) == 0x55 && PairMask(b2, 0x55) == 0x55
  {
    hide PairMask, SetBits, OpposedBits, Opposed;
    PairChecks(b0);
    PairChecks(b1);
    PairChecks(b2);
    forall k: nat | k < 12
      ensures Opposed(SetBits([b0, b1, b2]), k)
         <==> if k < 3 then OpposedBits(b2, 2 * k + 2)
              else if k < 7 then OpposedBits(b0, 2 * (k - 3))
              else if k < 11 then OpposedBits(b1, 2 * (k - 7))
              else OpposedBits(b2, 0)
    {
      OpposedIs(b0, b1, b2, k);
    }
    var d := SetBits([b0, b1, b2]);
    assert AllOpposed(b0, b1, b2, 11) <==>
        (Opposed(d, 0) && Opposed(d, 1) && Opposed(d, 2) && Opposed(d, 3) && Opposed(d, 4) && Opposed(d, 5)
         && Opposed(d, 6) && Opposed(d, 7) && Opposed(d, 8) && Opposed(d, 9) && Opposed(d, 10));
    assert AllOpposed(b0, b1, b2, 12) <==> AllOpposed(b0, b1, b2, 11) && Opposed(d, 11);
  }

  // ----- The located bit

  /** The position whose address bits are the odd bits of the three bytes. */
  lemma LocatedAddress(b0: bv8, b1: bv8, b2: bv8, byteAddr: nat, bitAddr: nat, width: nat)
    requires 11 <= width <= 12 && bitAddr < 8 && byteAddr < Pow2(width - 3)
    requires forall k: nat | k < 3 :: AddressBit(bitAddr, k) == Bit(b2, 2 * k + 3)
    requires forall k: nat | k < 4 :: AddressBit(byteAddr, k) == Bit(b0, 2 * k + 1)
    requires forall k: nat | 4 <= k < 8 :: AddressBit(byteAddr, k) == Bit(b1, 2 * (k - 4) + 1)
    requires width == 12 ==> AddressBit(byteAddr, 8) == Bit(b2, 1)
    ensures Locate(SetBits([b0, b1, b2]), 0, width) == 8 * byteAddr + bitAddr
  {
    hide SetBits, Bit, AddressBit;
    var d := SetBits([b0, b1, b2]);
    var p := 8 * byteAddr + bitAddr;
    assert p < Pow2(width) by {
      assert Pow2(width) == 2 * Pow2(width - 1) == 4 * Pow2(width - 2) == 8 * Pow2(width - 3);
    }
    forall k: nat | k < width
      ensures CodeBit(k, true) in d <==> AddressBit(p, k)
    {
      OpposedIs(b0, b1, b2, k);
      PositionBits(byteAddr, bitAddr, k);
      if 3 <= k < 7 {
        assert AddressBit(byteAddr, k - 3) == Bit(b0, 2 * (k - 3) + 1);
      } else if 7 <= k < 11 {
        assert AddressBit(byteAddr, k - 3) == Bit(b1, 2 * (k - 3 - 4) + 1);
      }
    }
    LocateIs(d, p, width);
  }

  /** A four-bit value and its numeric value have the same bits. */
  lemma NibbleValue(a: bv8)
    requires a < 16
    ensures a as nat < 16
    ensures forall k: nat | k < 4 :: AddressBit(a as nat, k) == Bit(a, k)
  {
    forall k: nat | k < 4
      ensures AddressBit(a as nat, k) == Bit(a, k)
    {
      ByteValueBit(a, k);
    }
  }

  /** `1 << bit` */
  function Mask(bit: nat): bv8
    requires bit < 8
  {
    1 << bit
  }

  lemma MaskBits(bit: nat)
    requires bit < 8
    ensures forall m: nat | m < 8 :: Bit(Mask(bit), m) == (m == bit)
  {
    BitMasks(Mask(bit));
    hide Bit;
  }

  /** The driver's return code for a verdict. */
  function ReturnCode(verdict: Verdict, uncorrectable: int): int {
    match verdict
    case Clean => 0
    case Flip(_) => 1
    case CodeError => 1
    case Uncorrectable => uncorrectable
  }

  /** The difference bytes: `b0`, `b1`, `b2` in the later driver, `s0`, `s1`, `s2` in the older one. */
  method DifferenceOf(readEcc: array<bv8>, calcEcc: array<bv8>, smc: bool) returns (b0: bv8, b1: bv8, b2: bv8)
    requires readEcc.Length >= 3 && calcEcc.Length >= 3
    ensures SetBits([b0, b1, b2]) == Difference(readEcc[..], calcEcc[..], smc)
  {
    hide SetBits, Canonical, Xor, CodeBits;
    if smc {
      b0, b1 := Xor(readEcc[0], calcEcc[0]), Xor(readEcc[1], calcEcc[1]);
    } else {
      b0, b1 := Xor(readEcc[1], calcEcc[1]), Xor(readEcc[0], calcEcc[0]);
    }
    b2 := Xor(readEcc[2], calcEcc[2]);
    CanonicalIs(readEcc[..], smc);
    CanonicalIs(calcEcc[..], smc);
    DifferenceBytes(readEcc[..], calcEcc[..], smc, b0, b1, b2);
  }
}
