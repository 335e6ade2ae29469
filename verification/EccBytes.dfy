/** The three bytes of a code: how they are assembled from parities and in which order they are stored. */
module EccBytes {
  import opened Bits
  import opened Hamming
  import opened XorSums

  /** The stored bytes in the order rp0..rp7, rp8..rp15, column byte. With `smc`
      (`CONFIG_MTD_NAND_ECC_SMC`) they are stored in that order, otherwise the first two are swapped. */
  function Canonical(code: seq<bv8>, smc: bool): (c: seq<bv8>)
    requires |code| >= 3
    ensures |c| == 3
  {
    if smc then [code[0], code[1], code[2]] else [code[1], code[0], code[2]]
  }

  /** The code bits that are set in a stored code. */
  function CodeBits(code: seq<bv8>, smc: bool): set<nat>
    requires |code| >= 3
  {
    SetBits(Canonical(code, smc))
  }

  lemma CodeBitsInjective(a: seq<bv8>, b: seq<bv8>, smc: bool)
    requires |a| == |b| == 3 && CodeBits(a, smc) == CodeBits(b, smc)
    ensures a == b
  {
    hide SetBits;
    var p, q := Canonical(a, smc), Canonical(b, smc);
    SetBitsInjective(p, q);
    assert p[0] == q[0] && p[1] == q[1] && p[2] == q[2];
  }

  /** One code byte from eight parity bits. */
  function Assemble(x7: bv8, x6: bv8, x5: bv8, x4: bv8, x3: bv8, x2: bv8, x1: bv8, x0: bv8): bv8 {
    (x7 << 7) | (x6 << 6) | (x5 << 5) | (x4 << 4) | (x3 << 3) | (x2 << 2) | (x1 << 1) | x0
  }

  function One(bit: bool): bv8 {
    if bit then 1 else 0
  }

  lemma AssembledBits(x7: bool, x6: bool, x5: bool, x4: bool, x3: bool, x2: bool, x1: bool, x0: bool)
    ensures var b := Assemble(One(x7), One(x6), One(x5), One(x4), One(x3), One(x2), One(x1), One(x0));
            && Bit(b, 0) == x0 && Bit(b, 1) == x1 && Bit(b, 2) == x2 && Bit(b, 3) == x3
            && Bit(b, 4) == x4 && Bit(b, 5) == x5 && Bit(b, 6) == x6 && Bit(b, 7) == x7
  {
    var b := Assemble(One(x7), One(x6), One(x5), One(x4), One(x3), One(x2), One(x1), One(x0));
    BitMasks(b);
    hide Bit;
  }

  /** The code bit for address bit `k` and value `v`: set when the covered bits have even parity. */
  predicate EvenCode(buf: seq<bv8>, k: nat, v: bool) {
    !Parity(CoveredXor(buf, k, v))
  }

  lemma CodeIndex(i: nat, j: nat)
    requires i < 3 && j < 8
    ensures AddressOf(8 * i + j) == if i == 2 then (if j < 2 then 11 else j / 2 - 1) else 4 * i + 3 + j / 2
    ensures (8 * i + j) % 2 == j % 2
  {
    assert (8 * i + j) / 2 == 4 * i + j / 2;
  }

  /** Three bytes whose bits are the even-parity code bits are the code of the buffer. */
  lemma CodeOfParities(buf: seq<bv8>, rowLow: bv8, rowHigh: bv8, column: bv8, width: nat)
    requires 11 <= width <= 12
    requires forall j: nat | j < 8 :: Bit(rowLow, j) == EvenCode(buf, 3 + j / 2, j % 2 == 1)
    requires forall j: nat | j < 8 :: Bit(rowHigh, j) == EvenCode(buf, 7 + j / 2, j % 2 == 1)
    requires forall j: nat | 2 <= j < 8 :: Bit(column, j) == EvenCode(buf, j / 2 - 1, j % 2 == 1)
    requires forall j: nat | j < 2 :: Bit(column, j) == (width < 12 || EvenCode(buf, 11, j == 1))
    ensures SetBits([rowLow, rowHigh, column]) == Ecc(SetBits(buf), width)
  {
    hide SetBits, EvenCode;
    var code := [rowLow, rowHigh, column];
    forall c: nat | c < CODE_BITS
      ensures c in SetBits(code) <==> c in Ecc(SetBits(buf), width)
    {
      CodeBitOfBytes(buf, rowLow, rowHigh, column, width, c / 8, c % 8);
    }
    forall c | c in SetBits(code)
      ensures c < CODE_BITS
    {
      SetBitsBound(code, c);
    }
  }

  lemma CodeBitOfBytes(buf: seq<bv8>, rowLow: bv8, rowHigh: bv8, column: bv8, width: nat, i: nat, j: nat)
    requires 11 <= width <= 12 && i < 3 && j < 8
    requires Bit(rowLow, j) == EvenCode(buf, 3 + j / 2, j % 2 == 1)
    requires Bit(rowHigh, j) == EvenCode(buf, 7 + j / 2, j % 2 == 1)
    requires Bit(column, j)
          == if j < 2 then width < 12 || EvenCode(buf, 11, j == 1) else EvenCode(buf, j / 2 - 1, j % 2 == 1)
    ensures 8 * i + j in SetBits([rowLow, rowHigh, column]) <==> 8 * i + j in Ecc(SetBits(buf), width)
  {
    hide SetBits, Bit, Having, Odd, AddressOf, EvenCode;
    var c := 8 * i + j;
    SetBitsAt([rowLow, rowHigh, column], i, j);
    CodeIndex(i, j);
    EvenCodeIs(buf, AddressOf(c), c % 2 == 1);
  }

  lemma EvenCodeIs(buf: seq<bv8>, k: nat, v: bool)
    ensures EvenCode(buf, k, v) == !Odd(Having(SetBits(buf), k, v))
  {
    CoveredParity(buf, k, v);
  }

  lemma SetBitsBound(buf: seq<bv8>, p: nat)
    requires p in SetBits(buf)
    ensures p < 8 * |buf|
  {
  }
}
