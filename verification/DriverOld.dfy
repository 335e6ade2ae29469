/** The ECC of the 2.6.27 and older driver: a column table, two address registers and an interleave. */
module DriverOld {
  import opened Bits
  import opened Hamming
  import opened EccTables
  import opened XorSums
  import opened EccBytes
  import opened Correction

  // ----- The table generator

  /** `BITj(x)` */
  function BitAt(x: bv8, j: nat): bv8
    requires j < 8
  {
    (x >> j) & 1
  }

  /** The table entry that `mkECCtbl` computes for a byte. */
  function TableEntry(x: bv8): bv8 {
    var cp0 := BitAt(x, 0) ^ BitAt(x, 2) ^ BitAt(x, 4) ^ BitAt(x, 6);
    var cp1 := BitAt(x, 1) ^ BitAt(x, 3) ^ BitAt(x, 5) ^ BitAt(x, 7);
    var cp2 := BitAt(x, 0) ^ BitAt(x, 1) ^ BitAt(x, 4) ^ BitAt(x, 5);
    var cp3 := BitAt(x, 2) ^ BitAt(x, 3) ^ BitAt(x, 6) ^ BitAt(x, 7);
    var cp4 := BitAt(x, 0) ^ BitAt(x, 1) ^ BitAt(x, 2) ^ BitAt(x, 3);
    var cp5 := BitAt(x, 4) ^ BitAt(x, 5) ^ BitAt(x, 6) ^ BitAt(x, 7);
    var rp := BitAt(x, 0) ^ BitAt(x, 1) ^ BitAt(x, 2) ^ BitAt(x, 3)
              ^ BitAt(x, 4) ^ BitAt(x, 5) ^ BitAt(x, 6) ^ BitAt(x, 7);
    (if cp0 != 0 then 0x1 else 0) | (if cp1 != 0 then 0x2 else 0) | (if cp2 != 0 then 0x4 else 0)
    | (if cp3 != 0 then 0x8 else 0) | (if cp4 != 0 then 0x10 else 0) | (if cp5 != 0 then 0x20 else 0)
    | (if rp != 0 then 0x40 else 0)
  }

  /** The generator's formula is the table: both hold the same parities, bit by bit. */
  lemma TableEntryIsPrecalc(x: bv8)
    ensures TableEntry(x) == Precalc(x)
  {
    hide Precalc;
    PrecalcFolds(x);
    TableEntryFolds(x);
    hide TableEntry, Fold, And;
    SameSevenBits(TableEntry(x), Precalc(x));
  }

  lemma TableEntryFolds(x: bv8)
    ensures (TableEntry(x) & 0x01 != 0) == (Fold(And(x, 0x55)) == 1)
    ensures (TableEntry(x) & 0x02 != 0) == (Fold(And(x, 0xaa)) == 1)
    ensures (TableEntry(x) & 0x04 != 0) == (Fold(And(x, 0x33)) == 1)
    ensures (TableEntry(x) & 0x08 != 0) == (Fold(And(x, 0xcc)) == 1)
    ensures (TableEntry(x) & 0x10 != 0) == (Fold(And(x, 0x0f)) == 1)
    ensures (TableEntry(x) & 0x20 != 0) == (Fold(And(x, 0xf0)) == 1)
    ensures (TableEntry(x) & 0x40 != 0) == (Fold(x) == 1)
    ensures TableEntry(x) & 0x80 == 0
  {
  }

  lemma SameSevenBits(a: bv8, b: bv8)
    requires a & 0x80 == b & 0x80 == 0
    requires (a & 0x01 != 0) == (b & 0x01 != 0) && (a & 0x02 != 0) == (b & 0x02 != 0)
    requires (a & 0x04 != 0) == (b & 0x04 != 0) && (a & 0x08 != 0) == (b & 0x08 != 0)
    requires (a & 0x10 != 0) == (b & 0x10 != 0) && (a & 0x20 != 0) == (b & 0x20 != 0)
    requires (a & 0x40 != 0) == (b & 0x40 != 0)
    ensures a == b
  {
  }

  /** `mkECCtbl`: the loop stops before entry 255, which keeps the zero of its static array; that is also
      the entry of the driver's table. */
  method MakeTable() returns (table: array<bv8>)
    ensures fresh(table) && table.Length == 256
    ensures forall i: nat | i < 256 :: table[i] == Precalc(i as bv8)
  {
    hide TableEntry, Precalc;
    table := new bv8[256](_ => 0);
    for i := 0 to 0xff
      invariant forall j: nat | j < i :: table[j] == Precalc(j as bv8)
      invariant table[255] == 0
    {
      TableEntryIsPrecalc(i as bv8);
      table[i] := TableEntry(i as bv8);
    }
    LastEntry();
  }

  lemma LastEntry()
    ensures Precalc(0xff) == 0
  {
  }

  lemma PrecalcFolds(x: bv8)
    ensures (Precalc(x) & 0x01 != 0) == (Fold(And(x, 0x55)) == 1)
    ensures (Precalc(x) & 0x02 != 0) == (Fold(And(x, 0xaa)) == 1)
    ensures (Precalc(x) & 0x04 != 0) == (Fold(And(x, 0x33)) == 1)
    ensures (Precalc(x) & 0x08 != 0) == (Fold(And(x, 0xcc)) == 1)
    ensures (Precalc(x) & 0x10 != 0) == (Fold(And(x, 0x0f)) == 1)
    ensures (Precalc(x) & 0x20 != 0) == (Fold(And(x, 0xf0)) == 1)
    ensures (Precalc(x) & 0x40 != 0) == (Fold(x) == 1)
    ensures Precalc(x) & 0x80 == 0
  {
    hide Precalc, Fold, And;
    PrecalcNarrowColumns(x);
    PrecalcPairColumns(x);
    PrecalcWideColumns(x);
    PrecalcWholeByte(x);
  }

  lemma PrecalcNarrowColumns(x: bv8)
    ensures (Precalc(x) & 0x01 != 0) == (Fold(And(x, 0x55)) == 1)
    ensures (Precalc(x) & 0x02 != 0) == (Fold(And(x, 0xaa)) == 1)
  {
  }

  lemma PrecalcPairColumns(x: bv8)
    ensures (Precalc(x) & 0x04 != 0) == (Fold(And(x, 0x33)) == 1)
    ensures (Precalc(x) & 0x08 != 0) == (Fold(And(x, 0xcc)) == 1)
  {
  }

  lemma PrecalcWideColumns(x: bv8)
    ensures (Precalc(x) & 0x10 != 0) == (Fold(And(x, 0x0f)) == 1)
    ensures (Precalc(x) & 0x20 != 0) == (Fold(And(x, 0xf0)) == 1)
  {
  }

  lemma PrecalcWholeByte(x: bv8)
    ensures (Precalc(x) & 0x40 != 0) == (Fold(x) == 1)
    ensures Precalc(x) & 0x80 == 0
  {
  }

  /** The six column parities and the parity of a byte, as its table entry holds them. */
  lemma PrecalcBits(x: bv8)
    ensures forall k: nat, v: bool | k < 3 ::
              Bit(Precalc(x), 2 * k + if v then 1 else 0) == Parity(And(x, ColumnMask(k, v)))
    ensures (Precalc(x) & 0x40 != 0) == Parity(x)
  {
    hide Precalc, Parity, And, Bit, ColumnMask;
    PrecalcParity(x);
    forall k: nat, v: bool | k < 3
      ensures Bit(Precalc(x), 2 * k + if v then 1 else 0) == Parity(And(x, ColumnMask(k, v)))
    {
      PrecalcBit(x, k, v);
    }
  }

  lemma PrecalcParity(x: bv8)
    ensures (Precalc(x) & 0x40 != 0) == Parity(x)
  {
    PrecalcFolds(x);
    FoldIsParity(x);
    hide Precalc, Fold, Parity, And;
  }

  lemma PrecalcBit(x: bv8, k: nat, v: bool)
    requires k < 3
    ensures Bit(Precalc(x), 2 * k + if v then 1 else 0) == Parity(And(x, ColumnMask(k, v)))
  {
    hide Precalc, Fold, Parity, And, Bit;
    PrecalcFolds(x);
    BitMasks(Precalc(x));
    FoldIsParity(And(x, ColumnMask(k, v)));
  }

  // ----- The calculation

  /** What the three registers hold after the bytes of `data`: column parities, and for each address bit the
      parity of the bytes with that bit clear (`reg2`) and set (`reg3`). */
  ghost predicate Registers(data: seq<bv8>, reg1: bv8, reg2: bv8, reg3: bv8) {
    && (forall k: nat, v: bool | k < 3 :: Bit(reg1, 2 * k + if v then 1 else 0) == Parity(CoveredXor(data, k, v)))
    && (forall j: nat | j < 8 :: Bit(reg2, j) == Parity(XorWhere(data, Rows(j, false))))
    && (forall j: nat | j < 8 :: Bit(reg3, j) == Parity(XorWhere(data, Rows(j, true))))
  }

  lemma NoRegisters()
    ensures Registers([], 0, 0, 0)
  {
    BitMasks(0);
    assert Parity(0) == false by { assert Ones(0) == 0; }
    forall k: nat, v: bool | k < 3
      ensures CoveredXor([], k, v) == 0
    {
    }
  }

  lemma ColumnStep(data: seq<bv8>, b: bv8, reg1: bv8, k: nat, v: bool)
    requires k < 3
    requires Bit(reg1, 2 * k + if v then 1 else 0) == Parity(CoveredXor(data, k, v))
    ensures Bit(Xor(reg1, And(Precalc(b), 0x3f)), 2 * k + if v then 1 else 0) == Parity(CoveredXor(data + [b], k, v))
  {
    hide Precalc, Bit, Parity, CoveredXor, Xor, And;
    var j := 2 * k + if v then 1 else 0;
    var all := data + [b];
    assert all[..|all| - 1] == data;
    CoveredXorSnoc(all, k, v);
    ParityXor(CoveredXor(data, k, v), And(b, CoverMask(|data|, k, v)));
    PrecalcBits(b);
    AndBit(Precalc(b), 0x3f, j);
    XorBit(reg1, And(Precalc(b), 0x3f), j);
    assert Bit(0x3f, j) by { BitMasks(0x3f); }
  }

  lemma RowStep(data: seq<bv8>, b: bv8, reg: bv8, address: bv8, j: nat, v: bool)
    requires j < 8 && Bit(reg, j) == Parity(XorWhere(data, Rows(j, v)))
    requires Bit(address, j) == (AddressBit(|data|, j) == v)
    ensures Bit(if Parity(b) then Xor(reg, address) else reg, j) == Parity(XorWhere(data + [b], Rows(j, v)))
  {
    hide Bit, Parity, Xor, AddressBit;
    var all := data + [b];
    assert all[..|all| - 1] == data;
    XorBit(reg, address, j);
    ParityXor(XorWhere(data, Rows(j, v)), b);
  }

  /** `(uint8_t) i`: the byte of the low eight bits of `i`. */
  function LowByteOf(i: nat): bv8 {
    Assemble(One(AddressBit(i, 7)), One(AddressBit(i, 6)), One(AddressBit(i, 5)), One(AddressBit(i, 4)),
             One(AddressBit(i, 3)), One(AddressBit(i, 2)), One(AddressBit(i, 1)), One(AddressBit(i, 0)))
  }

  lemma LowByteBits(i: nat)
    ensures forall j: nat | j < 8 ::
              Bit(LowByteOf(i), j) == AddressBit(i, j) && Bit(Not(LowByteOf(i)), j) == !AddressBit(i, j)
  {
    hide Bit, AddressBit, Not, Assemble;
    AssembledBits(AddressBit(i, 7), AddressBit(i, 6), AddressBit(i, 5), AddressBit(i, 4),
                  AddressBit(i, 3), AddressBit(i, 2), AddressBit(i, 1), AddressBit(i, 0));
    NotBits(LowByteOf(i));
  }

  lemma RegistersStep(data: seq<bv8>, b: bv8, reg1: bv8, reg2: bv8, reg3: bv8)
    requires |data| < 256 && Registers(data, reg1, reg2, reg3)
    ensures var i := LowByteOf(|data|);
            Registers(data + [b], Xor(reg1, And(Precalc(b), 0x3f)),
                      if Parity(b) then Xor(reg2, Not(i)) else reg2, if Parity(b) then Xor(reg3, i) else reg3)
  {
    hide Precalc, Bit, Parity, CoveredXor, XorWhere, Xor, And, AddressBit, Not, Rows, LowByteOf;
    LowByteBits(|data|);
    forall k: nat, v: bool | k < 3
      ensures Bit(Xor(reg1, And(Precalc(b), 0x3f)), 2 * k + if v then 1 else 0) == Parity(CoveredXor(data + [b], k, v))
    {
      ColumnStep(data, b, reg1, k, v);
    }
    forall j: nat | j < 8
      ensures Bit(if Parity(b) then Xor(reg2, Not(LowByteOf(|data|))) else reg2, j)
           == Parity(XorWhere(data + [b], Rows(j, false)))
    {
      RowStep(data, b, reg2, Not(LowByteOf(|data|)), j, false);
    }
    forall j: nat | j < 8
      ensures Bit(if Parity(b) then Xor(reg3, LowByteOf(|data|)) else reg3, j)
           == Parity(XorWhere(data + [b], Rows(j, true)))
    {
      RowStep(data, b, reg3, LowByteOf(|data|), j, true);
    }
  }

  /** `tmp1`: the high four bits of both registers, interleaved. */
  function InterleaveHigh(reg3: bv8, reg2: bv8): bv8 {
    (reg3 & 0x80) | ((reg2 & 0x80) >> 1) | ((reg3 & 0x40) >> 1) | ((reg2 & 0x40) >> 2)
    | ((reg3 & 0x20) >> 2) | ((reg2 & 0x20) >> 3) | ((reg3 & 0x10) >> 3) | ((reg2 & 0x10) >> 4)
  }

  /** `tmp2`: the low four bits of both registers, interleaved. */
  function InterleaveLow(reg3: bv8, reg2: bv8): bv8 {
    ((reg3 & 0x08) << 4) | ((reg2 & 0x08) << 3) | ((reg3 & 0x04) << 3) | ((reg2 & 0x04) << 2)
    | ((reg3 & 0x02) << 2) | ((reg2 & 0x02) << 1) | ((reg3 & 0x01) << 1) | (reg2 & 0x01)
  }

  /** `((~reg1) << 2) | 0x03` */
  function ColumnCode(reg1: bv8): bv8 {
    (!reg1 << 2) | 0x03
  }

  lemma InterleaveHighBits(reg3: bv8, reg2: bv8, t: bv8)
    requires t == InterleaveHigh(reg3, reg2)
    ensures Bit(t, 7) == Bit(reg3, 7) && Bit(t, 6) == Bit(reg2, 7) && Bit(t, 5) == Bit(reg3, 6)
         && Bit(t, 4) == Bit(reg2, 6)
    ensures Bit(t, 3) == Bit(reg3, 5) && Bit(t, 2) == Bit(reg2, 5) && Bit(t, 1) == Bit(reg3, 4)
         && Bit(t, 0) == Bit(reg2, 4)
  {
    hide Bit;
    BitMasks(t);
    BitMasks(reg3);
    BitMasks(reg2);
  }

  lemma InterleaveLowBits(reg3: bv8, reg2: bv8, t: bv8)
    requires t == InterleaveLow(reg3, reg2)
    ensures Bit(t, 7) == Bit(reg3, 3) && Bit(t, 6) == Bit(reg2, 3) && Bit(t, 5) == Bit(reg3, 2)
         && Bit(t, 4) == Bit(reg2, 2)
    ensures Bit(t, 3) == Bit(reg3, 1) && Bit(t, 2) == Bit(reg2, 1) && Bit(t, 1) == Bit(reg3, 0)
         && Bit(t, 0) == Bit(reg2, 0)
  {
    hide Bit;
    BitMasks(t);
    BitMasks(reg3);
    BitMasks(reg2);
  }

  /** Interleaving four bits of `reg3` and `reg2` from bit `base` on, inverted, gives four pairs of row code bits. */
  lemma InterleavedCode(data: seq<bv8>, reg1: bv8, reg2: bv8, reg3: bv8, base: nat, t: bv8)
    requires Registers(data, reg1, reg2, reg3) && (base == 0 || base == 4)
    requires t == Not(if base == 4 then InterleaveHigh(reg3, reg2) else InterleaveLow(reg3, reg2))
    ensures forall j: nat | j < 8 :: Bit(t, j) == EvenCode(data, base + 3 + j / 2, j % 2 == 1)
  {
    hide Bit, Parity, XorWhere, Not, InterleaveLow, InterleaveHigh;
    var u := if base == 4 then InterleaveHigh(reg3, reg2) else InterleaveLow(reg3, reg2);
    NotBits(u);
    InterleaveHighBits(reg3, reg2, InterleaveHigh(reg3, reg2));
    InterleaveLowBits(reg3, reg2, InterleaveLow(reg3, reg2));
    forall j: nat | j < 8
      ensures Bit(t, j) == EvenCode(data, base + 3 + j / 2, j % 2 == 1)
    {
      var m := base + j / 2;
      assert Bit(u, j) == if j % 2 == 1 then Bit(reg3, m) else Bit(reg2, m);
      assert CoveredXor(data, m + 3, j % 2 == 1) == XorWhere(data, Rows(m, j % 2 == 1));
    }
  }

  lemma ColumnCodeBits(reg1: bv8)
    ensures Bit(ColumnCode(reg1), 0) && Bit(ColumnCode(reg1), 1)
    ensures forall j: nat | 2 <= j < 8 :: Bit(ColumnCode(reg1), j) == !Bit(reg1, j - 2)
  {
    BitMasks(ColumnCode(reg1));
    BitMasks(reg1);
    hide Bit;
  }

  lemma CodeOfRegisters(data: seq<bv8>, reg1: bv8, reg2: bv8, reg3: bv8)
    requires Registers(data, reg1, reg2, reg3)
    ensures SetBits([Not(InterleaveLow(reg3, reg2)), Not(InterleaveHigh(reg3, reg2)), ColumnCode(reg1)])
         == Ecc(SetBits(data), 11)
  {
    hide Registers, Bit, EvenCode, Not, InterleaveLow, InterleaveHigh, ColumnCode, SetBits, Ecc;
    var low, high := Not(InterleaveLow(reg3, reg2)), Not(InterleaveHigh(reg3, reg2));
    InterleavedCode(data, reg1, reg2, reg3, 0, low);
    InterleavedCode(data, reg1, reg2, reg3, 4, high);
    ColumnOfRegisters(data, reg1, reg2, reg3);
    CodeOfParities(data, low, high, ColumnCode(reg1), 11);
  }

  lemma ColumnOfRegisters(data: seq<bv8>, reg1: bv8, reg2: bv8, reg3: bv8)
    requires Registers(data, reg1, reg2, reg3)
    ensures forall j: nat | 2 <= j < 8 :: Bit(ColumnCode(reg1), j) == EvenCode(data, j / 2 - 1, j % 2 == 1)
    ensures forall j: nat | j < 2 :: Bit(ColumnCode(reg1), j)
  {
    hide Registers, Bit, EvenCode, ColumnCode;
    ColumnCodeBits(reg1);
    forall j: nat | 2 <= j < 8
      ensures Bit(ColumnCode(reg1), j) == EvenCode(data, j / 2 - 1, j % 2 == 1)
    {
      ColumnOfRegister(data, reg1, reg2, reg3, j);
    }
  }

  lemma ColumnOfRegister(data: seq<bv8>, reg1: bv8, reg2: bv8, reg3: bv8, j: nat)
    requires Registers(data, reg1, reg2, reg3) && 2 <= j < 8
    ensures !Bit(reg1, j - 2) == EvenCode(data, j / 2 - 1, j % 2 == 1)
  {
    hide Bit, CoveredXor, Parity;
    var k := j / 2 - 1;
    assert j - 2 == 2 * k + if j % 2 == 1 then 1 else 0;
  }

  /** `nand_calculate_ecc`. */
  method CalculateEcc(dat: array<bv8>, eccCode: array<bv8>, smc: bool)
    requires dat.Length == 256 && eccCode.Length >= 3 && eccCode != dat
    modifies eccCode
    ensures CodeBits(eccCode[..], smc) == Ecc(SetBits(dat[..]), 11)
    ensures eccCode[3..] == old(eccCode[3..])
  {
    hide Precalc, Xor, And, Not, Parity, InterleaveLow, InterleaveHigh, ColumnCode, SetBits, Ecc, Registers, LowByteOf;
    var reg1, reg2, reg3: bv8 := 0, 0, 0;
    NoRegisters();
    for i := 0 to 256
      invariant Registers(dat[..i], reg1, reg2, reg3)
      invariant eccCode[..] == old(eccCode[..])
    {
      var idx := Precalc(dat[i]);
      RegistersStep(dat[..i], dat[i], reg1, reg2, reg3);
      PrecalcBits(dat[i]);
      assert dat[..i + 1] == dat[..i] + [dat[i]];
      reg1 := Xor(reg1, And(idx, 0x3f));
      if idx & 0x40 != 0 {
        reg3 := Xor(reg3, LowByteOf(i));
        reg2 := Xor(reg2, Not(LowByteOf(i)));
      }
    }
    var tmp1, tmp2 := InterleaveHigh(reg3, reg2), InterleaveLow(reg3, reg2);
    if smc {
      eccCode[0], eccCode[1] := Not(tmp2), Not(tmp1);
    } else {
      eccCode[0], eccCode[1] := Not(tmp1), Not(tmp2);
    }
    eccCode[2] := ColumnCode(reg1);
    assert dat[..256] == dat[..];
    CodeOfRegisters(dat[..], reg1, reg2, reg3);
    assert Canonical(eccCode[..], smc) == [Not(tmp2), Not(tmp1), ColumnCode(reg1)];
  }

  // ----- The correction

  /** `byteoffs` */
  function ByteOffset(s1: bv8, s0: bv8): bv8 {
    (s1 & 0x80) | ((s1 << 1) & 0x40) | ((s1 << 2) & 0x20) | ((s1 << 3) & 0x10)
    | ((s0 >> 4) & 0x08) | ((s0 >> 3) & 0x04) | ((s0 >> 2) & 0x02) | ((s0 >> 1) & 0x01)
  }

  /** `bitnum` */
  function BitNumber(s2: bv8): bv8 {
    ((s2 >> 5) & 0x04) | ((s2 >> 4) & 0x02) | ((s2 >> 3) & 0x01)
  }

  lemma ByteOffsetBits(s1: bv8, s0: bv8, a: bv8)
    requires a == ByteOffset(s1, s0)
    ensures Bit(a, 0) == Bit(s0, 1) && Bit(a, 1) == Bit(s0, 3) && Bit(a, 2) == Bit(s0, 5) && Bit(a, 3) == Bit(s0, 7)
    ensures Bit(a, 4) == Bit(s1, 1) && Bit(a, 5) == Bit(s1, 3) && Bit(a, 6) == Bit(s1, 5) && Bit(a, 7) == Bit(s1, 7)
  {
    hide Bit;
    BitMasks(a);
    BitMasks(s1);
    BitMasks(s0);
  }

  lemma BitNumberBits(s2: bv8, a: bv8)
    requires a == BitNumber(s2)
    ensures a < 8 && Bit(a, 0) == Bit(s2, 3) && Bit(a, 1) == Bit(s2, 5) && Bit(a, 2) == Bit(s2, 7)
  {
    hide Bit;
    BitMasks(a);
    BitMasks(s2);
  }

  /** The offsets as integers. */
  function ByteIndex(s1: bv8, s0: bv8): (n: nat)
    ensures n < 256
  {
    ByteOffset(s1, s0) as nat
  }

  function BitIndex(s2: bv8): (n: nat)
    ensures n < 8
  {
    BitNumberBits(s2, BitNumber(s2));
    BitNumber(s2) as nat
  }

  lemma ByteIndexBits(s1: bv8, s0: bv8, k: nat)
    requires k < 8
    ensures AddressBit(ByteIndex(s1, s0), k) == if k < 4 then Bit(s0, 2 * k + 1) else Bit(s1, 2 * (k - 4) + 1)
  {
    hide Bit, AddressBit, ByteOffset;
    ByteOffsetBits(s1, s0, ByteOffset(s1, s0));
    ByteValueBit(ByteOffset(s1, s0), k);
  }

  lemma BitIndexBits(s2: bv8, k: nat)
    requires k < 3
    ensures AddressBit(BitIndex(s2), k) == Bit(s2, 2 * k + 3)
  {
    hide Bit, AddressBit, BitNumber;
    BitNumberBits(s2, BitNumber(s2));
    ByteValueBit(BitNumber(s2), k);
  }

  lemma IndexedPosition(s0: bv8, s1: bv8, s2: bv8)
    ensures Locate(SetBits([s0, s1, s2]), 0, 11) == 8 * ByteIndex(s1, s0) + BitIndex(s2)
  {
    hide Bit, AddressBit, ByteIndex, BitIndex, SetBits, Locate;
    forall k: nat | k < 8
      ensures AddressBit(ByteIndex(s1, s0), k) == if k < 4 then Bit(s0, 2 * k + 1) else Bit(s1, 2 * (k - 4) + 1)
      ensures k < 3 ==> AddressBit(BitIndex(s2), k) == Bit(s2, 2 * k + 3)
    {
      ByteIndexBits(s1, s0, k);
      if k < 3 {
        BitIndexBits(s2, k);
      }
    }
    assert Pow2(8) == 256;
    LocatedAddress(s0, s1, s2, ByteIndex(s1, s0), BitIndex(s2), 11);
  }

  /** `countbits` */
  method CountBits(word: bv32) returns (res: nat)
    ensures res == BitCount(word)
  {
    var byte := word;
    res := 0;
    while byte != 0
      invariant res + BitCount(byte) == BitCount(word)
      decreases byte
    {
      ShiftDecreases(byte);
      res := res + if byte & 0x01 == 1 then 1 else 0;
      byte := byte >> 1;
    }
  }

  /** The number of bits set in a word. */
  function BitCount(word: bv32): nat
    decreases word
  {
    if word == 0 then 0
    else
      ShiftDecreases(word);
      BitCount(word >> 1) + if word & 0x01 == 1 then 1 else 0
  }

  lemma ShiftDecreases(word: bv32)
    requires word != 0
    ensures word >> 1 < word
  {
  }

  function Half(word: bv32): bv32 {
    word >> 1
  }

  function LowBit(word: bv32): nat {
    if word & 0x01 == 1 then 1 else 0
  }

  lemma BitCountStep(word: bv32)
    ensures BitCount(word) == LowBit(word) + BitCount(Half(word))
  {
    if word == 0 {
      assert Half(word) == 0 && LowBit(word) == 0;
    }
  }

  /** `LowBit` of a word and of its next three halves. */
  function FourLowBits(word: bv32): nat {
    LowBit(word) + LowBit(Half(word)) + LowBit(Half(Half(word))) + LowBit(Half(Half(Half(word))))
  }

  function Fourth(word: bv32): bv32 {
    Half(Half(Half(Half(word))))
  }

  lemma FourBits(word: bv32)
    ensures BitCount(word) == FourLowBits(word) + BitCount(Fourth(word))
  {
    hide Half, LowBit, BitCount;
    BitCountStep(word);
    BitCountStep(Half(word));
    BitCountStep(Half(Half(word)));
    BitCountStep(Half(Half(Half(word))));
  }

  function CountLow(b: bv8): nat {
    Value(b & 1) + Value((b >> 1) & 1) + Value((b >> 2) & 1) + Value((b >> 3) & 1)
  }

  function CountHigh(b: bv8): nat {
    Value((b >> 4) & 1) + Value((b >> 5) & 1) + Value((b >> 6) & 1) + Value((b >> 7) & 1)
  }

  lemma CountNibbles(b: bv8)
    ensures Count(b) == CountLow(b) + CountHigh(b)
  {
  }

  lemma LowNibble(word: bv32, b: bv8)
    requires b as bv32 == word & 0xff
    ensures FourLowBits(word) == CountLow(b)
  {
    assert LowBit(word) == Value(b & 1) && LowBit(Half(word)) == Value((b >> 1) & 1);
    assert LowBit(Half(Half(word))) == Value((b >> 2) & 1);
    assert LowBit(Half(Half(Half(word)))) == Value((b >> 3) & 1);
    hide LowBit, Half, Value;
  }

  lemma HighNibble(word: bv32, b: bv8)
    requires b as bv32 == word & 0xff
    ensures FourLowBits(Fourth(word)) == CountHigh(b)
    ensures Fourth(Fourth(word)) == word >> 8
  {
    var middle := Fourth(word);
    assert LowBit(middle) == Value((b >> 4) & 1) && LowBit(Half(middle)) == Value((b >> 5) & 1);
    assert LowBit(Half(Half(middle))) == Value((b >> 6) & 1);
    assert LowBit(Half(Half(Half(middle)))) == Value((b >> 7) & 1);
    hide LowBit, Value;
  }

  lemma LowByte(word: bv32, b: bv8, rest: bv32)
    requires b as bv32 == word & 0xff && rest == word >> 8
    ensures BitCount(word) == Count(b) + BitCount(rest)
  {
    hide Count, CountLow, CountHigh, FourLowBits, BitCount, Fourth;
    LowNibble(word, b);
    HighNibble(word, b);
    CountNibbles(b);
    FourBits(word);
    FourBits(Fourth(word));
  }

  /** `s0 | (s1 << 8) | (s2 << 16)` */
  function Packed(s0: bv8, s1: bv8, s2: bv8): bv32 {
    (s0 as bv32) | ((s1 as bv32) << 8) | ((s2 as bv32) << 16)
  }

  lemma PackedBytes(s0: bv8, s1: bv8, s2: bv8, word: bv32)
    requires word == Packed(s0, s1, s2)
    ensures s0 as bv32 == word & 0xff && s1 as bv32 == (word >> 8) & 0xff && s2 as bv32 == (word >> 16) & 0xff
    ensures (word >> 24) & 0xff == 0
  {
  }

  lemma PackedCount(s0: bv8, s1: bv8, s2: bv8)
    ensures BitCount(Packed(s0, s1, s2)) == Ones(s0) + Ones(s1) + Ones(s2)
  {
    hide Ones, Packed, BitCount;
    var word := Packed(s0, s1, s2);
    PackedBytes(s0, s1, s2, word);
    BitCountIsOnes(word, s0, s1, s2, 0);
    OnesZero(0);
  }

  /** The count is that of the four bytes of the word. */
  lemma BitCountIsOnes(word: bv32, b0: bv8, b1: bv8, b2: bv8, b3: bv8)
    requires b0 as bv32 == word & 0xff && b1 as bv32 == (word >> 8) & 0xff
    requires b2 as bv32 == (word >> 16) & 0xff && b3 as bv32 == (word >> 24) & 0xff
    ensures BitCount(word) == Ones(b0) + Ones(b1) + Ones(b2) + Ones(b3)
  {
    hide Count, Ones, BitCount;
    var w1, w2, w3 := word >> 8, word >> 16, word >> 24;
    ShiftedBytes(word, w1, w2, w3);
    LowByte(word, b0, w1);
    LowByte(w1, b1, w2);
    LowByte(w2, b2, w3);
    LowByte(w3, b3, 0);
    NoBitsSet();
    FoldIsParity(b0);
    FoldIsParity(b1);
    FoldIsParity(b2);
    FoldIsParity(b3);
  }

  lemma ShiftedBytes(word: bv32, w1: bv32, w2: bv32, w3: bv32)
    requires w1 == word >> 8 && w2 == word >> 16 && w3 == word >> 24
    ensures w1 >> 8 == w2 && w2 >> 8 == w3 && w3 >> 8 == 0 && w3 & 0xff == w3
  {
  }

  lemma NoBitsSet()
    ensures BitCount(0) == 0
  {
  }

  /** `nand_correct_data`; `ebadmsg` is the value of `EBADMSG`. */
  method CorrectData(dat: array<bv8>, readEcc: array<bv8>, calcEcc: array<bv8>, smc: bool, ebadmsg: int)
    returns (r: int)
    requires dat.Length == 256 && readEcc.Length >= 3 && calcEcc.Length >= 3
    modifies dat
    ensures var verdict := Decide(Difference(old(readEcc[..]), old(calcEcc[..]), smc), 11);
            && r == ReturnCode(verdict, -ebadmsg)
            && SetBits(dat[..]) == Corrected(SetBits(old(dat[..])), verdict)
  {
    hide SetBits, Locate, PairMask, Opposed, Ones, Difference, Packed, BitCount, Xor, Mask, ByteIndex, BitIndex, Bit;
    var s0, s1, s2 := DifferenceOf(readEcc, calcEcc, smc);
    NoDifference(s0, s1, s2);
    PairConditions(s0, s1, s2);
    DifferenceSize(s0, s1, s2);
    PackedCount(s0, s1, s2);
    if s0 | s1 | s2 == 0 {
      return 0;
    }
    if PairMask(s0, 0x55) == 0x55 && PairMask(s1, 0x55) == 0x55 && PairMask(s2, 0x54) == 0x54 {
      var byteoffs, bitnum := ByteIndex(s1, s0), BitIndex(s2);
      IndexedPosition(s0, s1, s2);
      MaskBits(bitnum);
      FlipBit(dat[..], byteoffs, bitnum, Mask(bitnum));
      ghost var before := dat[..];
      dat[byteoffs] := Xor(dat[byteoffs], Mask(bitnum));
      assert dat[..] == before[byteoffs := Xor(before[byteoffs], Mask(bitnum))];
      return 1;
    }
    var count := CountBits(Packed(s0, s1, s2));
    if count == 1 {
      return 1;
    }
    return -ebadmsg;
  }
}
