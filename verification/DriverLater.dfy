/** The ECC of the 2.6.28 and later driver: sixteen words a pass, either byte order, 256 or 512 bytes. */
module DriverLater {
  import opened Bits
  import opened Hamming
  import opened EccTables
  import opened XorSums
  import opened Words
  import opened WordBlocks
  import opened EccBytes
  import opened Correction

  /** `*bp` on a machine of the given byte order. */
  method LoadWord(buf: array<bv8>, bp: nat, bigEndian: bool) returns (cur: bv32)
    requires 4 * bp + 3 < buf.Length
    ensures cur == WordsOf(buf[..], bigEndian)[bp]
  {
    cur := Load(buf[4 * bp], buf[4 * bp + 1], buf[4 * bp + 2], buf[4 * bp + 3], bigEndian);
    WordAt(buf[..], bigEndian, bp);
  }

  /** One pass of the unrolled loop, sixteen words from word `16 * i` on. */
  method Pass(buf: array<bv8>, i: nat, bigEndian: bool, r4: bv32, r6: bv32, r8: bv32, r10: bv32)
    returns (tmppar: bv32, rp4: bv32, rp6: bv32, rp8: bv32, rp10: bv32)
    requires 64 * i + 64 <= buf.Length
    requires var words := WordsOf(buf[..], bigEndian);
             && r4 == Even(words, 16 * i, 0) && r6 == Even(words, 16 * i, 1)
             && r8 == Even(words, 16 * i, 2) && r10 == Even(words, 16 * i, 3)
    ensures var words := WordsOf(buf[..], bigEndian);
            && tmppar == Run(words, 16 * i, 16)
            && rp4 == Even(words, 16 * i + 16, 0) && rp6 == Even(words, 16 * i + 16, 1)
            && rp8 == Even(words, 16 * i + 16, 2) && rp10 == Even(words, 16 * i + 16, 3)
  {
    hide Even, Run, WordsOf;
    tmppar, rp4, rp6, rp8 := FirstGroup(buf, i, bigEndian, r4, r6, r8);
    tmppar, rp4, rp6, rp8, rp10 := SecondGroup(buf, i, bigEndian, tmppar, rp4, rp6, rp8, r10);
    tmppar, rp4, rp6, rp8, rp10 := ThirdGroup(buf, i, bigEndian, tmppar, rp4, rp6, rp8, rp10);
    tmppar, rp4, rp6, rp8, rp10 := FourthGroup(buf, i, bigEndian, tmppar, rp4, rp6, rp8, rp10);
  }

  /** Words 0..3 of a pass. */
  method FirstGroup(buf: array<bv8>, i: nat, bigEndian: bool, r4: bv32, r6: bv32, r8: bv32)
    returns (tmppar: bv32, rp4: bv32, rp6: bv32, rp8: bv32)
    requires 64 * i + 64 <= buf.Length
    requires var words := WordsOf(buf[..], bigEndian);
             r4 == Even(words, 16 * i, 0) && r6 == Even(words, 16 * i, 1) && r8 == Even(words, 16 * i, 2)
    ensures var words := WordsOf(buf[..], bigEndian);
            && tmppar == Run(words, 16 * i, 4)
            && rp4 == Even(words, 16 * i + 4, 0) && rp6 == Even(words, 16 * i + 4, 1)
            && rp8 == Even(words, 16 * i + 4, 2)
  {
    hide XorW, Even, Run, WordsOf;
    ghost var words := WordsOf(buf[..], bigEndian);
    Group(words, i, 0);
    FirstRun(words, 16 * i);
    var bp := 16 * i;
    var cur := LoadWord(buf, bp, bigEndian);
    tmppar := cur;
    rp4 := XorW(r4, cur);
    cur := LoadWord(buf, bp + 1, bigEndian);
    tmppar := XorW(tmppar, cur);
    rp6 := XorW(r6, tmppar);
    XorWAssociative(r6, words[bp], words[bp + 1]);
    cur := LoadWord(buf, bp + 2, bigEndian);
    tmppar := XorW(tmppar, cur);
    rp4 := XorW(rp4, cur);
    cur := LoadWord(buf, bp + 3, bigEndian);
    tmppar := XorW(tmppar, cur);
    rp8 := XorW(r8, tmppar);
    FourAtOnce(r8, words, bp);
  }

  /** Words 4..7 of a pass. */
  method SecondGroup(buf: array<bv8>, i: nat, bigEndian: bool, run: bv32, r4: bv32, r6: bv32, r8: bv32, r10: bv32)
    returns (tmppar: bv32, rp4: bv32, rp6: bv32, rp8: bv32, rp10: bv32)
    requires 64 * i + 64 <= buf.Length
    requires var words := WordsOf(buf[..], bigEndian);
             && run == Run(words, 16 * i, 4)
             && r4 == Even(words, 16 * i + 4, 0) && r6 == Even(words, 16 * i + 4, 1)
             && r8 == Even(words, 16 * i + 4, 2) && r10 == Even(words, 16 * i, 3)
    ensures var words := WordsOf(buf[..], bigEndian);
            && tmppar == Run(words, 16 * i, 8)
            && rp4 == Even(words, 16 * i + 8, 0) && rp6 == Even(words, 16 * i + 8, 1)
            && rp8 == Even(words, 16 * i + 8, 2) && rp10 == Even(words, 16 * i + 8, 3)
  {
    hide XorW, Even, Run, WordsOf;
    ghost var words := WordsOf(buf[..], bigEndian);
    Group(words, i, 1);
    FirstHalf(words, i);
    RunOfFour(words, 16 * i, 4);
    var bp := 16 * i + 4;
    rp8 := r8;
    var cur := LoadWord(buf, bp, bigEndian);
    tmppar := XorW(run, cur);
    rp4 := XorW(r4, cur);
    rp6 := XorW(r6, cur);
    cur := LoadWord(buf, bp + 1, bigEndian);
    tmppar := XorW(tmppar, cur);
    rp6 := XorW(rp6, cur);
    cur := LoadWord(buf, bp + 2, bigEndian);
    tmppar := XorW(tmppar, cur);
    rp4 := XorW(rp4, cur);
    cur := LoadWord(buf, bp + 3, bigEndian);
    tmppar := XorW(tmppar, cur);
    rp10 := XorW(r10, tmppar);
  }

  /** Words 8..11 of a pass. */
  method ThirdGroup(buf: array<bv8>, i: nat, bigEndian: bool, run: bv32, r4: bv32, r6: bv32, r8: bv32, r10: bv32)
    returns (tmppar: bv32, rp4: bv32, rp6: bv32, rp8: bv32, rp10: bv32)
    requires 64 * i + 64 <= buf.Length
    requires var words := WordsOf(buf[..], bigEndian);
             && run == Run(words, 16 * i, 8)
             && r4 == Even(words, 16 * i + 8, 0) && r6 == Even(words, 16 * i + 8, 1)
             && r8 == Even(words, 16 * i + 8, 2) && r10 == Even(words, 16 * i + 8, 3)
    ensures var words := WordsOf(buf[..], bigEndian);
            && tmppar == Run(words, 16 * i, 12)
            && rp4 == Even(words, 16 * i + 12, 0) && rp6 == Even(words, 16 * i + 12, 1)
            && rp8 == Even(words, 16 * i + 12, 2) && rp10 == Even(words, 16 * i + 12, 3)
  {
    hide XorW, Even, Run, WordsOf;
    ghost var words := WordsOf(buf[..], bigEndian);
    Group(words, i, 2);
    RunOfFour(words, 16 * i, 8);
    var bp := 16 * i + 8;
    rp10 := r10;
    var cur := LoadWord(buf, bp, bigEndian);
    tmppar := XorW(run, cur);
    rp4 := XorW(r4, cur);
    rp6 := XorW(r6, cur);
    rp8 := XorW(r8, cur);
    cur := LoadWord(buf, bp + 1, bigEndian);
    tmppar := XorW(tmppar, cur);
    rp6 := XorW(rp6, cur);
    rp8 := XorW(rp8, cur);
    cur := LoadWord(buf, bp + 2, bigEndian);
    tmppar := XorW(tmppar, cur);
    rp4 := XorW(rp4, cur);
    rp8 := XorW(rp8, cur);
    cur := LoadWord(buf, bp + 3, bigEndian);
    tmppar := XorW(tmppar, cur);
    rp8 := XorW(rp8, cur);
  }

  /** Words 12..15 of a pass. */
  method FourthGroup(buf: array<bv8>, i: nat, bigEndian: bool, run: bv32, r4: bv32, r6: bv32, r8: bv32, r10: bv32)
    returns (tmppar: bv32, rp4: bv32, rp6: bv32, rp8: bv32, rp10: bv32)
    requires 64 * i + 64 <= buf.Length
    requires var words := WordsOf(buf[..], bigEndian);
             && run == Run(words, 16 * i, 12)
             && r4 == Even(words, 16 * i + 12, 0) && r6 == Even(words, 16 * i + 12, 1)
             && r8 == Even(words, 16 * i + 12, 2) && r10 == Even(words, 16 * i + 12, 3)
    ensures var words := WordsOf(buf[..], bigEndian);
            && tmppar == Run(words, 16 * i, 16)
            && rp4 == Even(words, 16 * i + 16, 0) && rp6 == Even(words, 16 * i + 16, 1)
            && rp8 == Even(words, 16 * i + 16, 2) && rp10 == Even(words, 16 * i + 16, 3)
  {
    hide XorW, Even, Run, WordsOf;
    ghost var words := WordsOf(buf[..], bigEndian);
    Group(words, i, 3);
    RunOfFour(words, 16 * i, 12);
    var bp := 16 * i + 12;
    rp8, rp10 := r8, r10;
    var cur := LoadWord(buf, bp, bigEndian);
    tmppar := XorW(run, cur);
    rp4 := XorW(r4, cur);
    rp6 := XorW(r6, cur);
    cur := LoadWord(buf, bp + 1, bigEndian);
    tmppar := XorW(tmppar, cur);
    rp6 := XorW(rp6, cur);
    cur := LoadWord(buf, bp + 2, bigEndian);
    tmppar := XorW(tmppar, cur);
    rp4 := XorW(rp4, cur);
    cur := LoadWord(buf, bp + 3, bigEndian);
    tmppar := XorW(tmppar, cur);
  }

  /** The loop of `__nand_calculate_ecc`: every accumulator ends up with the exclusive or of the words whose
      index has the corresponding bit clear. */
  method AccumulateWords(buf: array<bv8>, mult: nat, bigEndian: bool)
    returns (par: bv32, rp4: bv32, rp6: bv32, rp8: bv32, rp10: bv32, rp12: bv32, rp14: bv32, rp16: bv32)
    requires mult == 1 || mult == 2
    requires buf.Length == 256 * mult
    ensures var words := WordsOf(buf[..], bigEndian);
            && par == Total(words, 64 * mult)
            && rp4 == Even(words, 64 * mult, 0) && rp6 == Even(words, 64 * mult, 1)
            && rp8 == Even(words, 64 * mult, 2) && rp10 == Even(words, 64 * mult, 3)
            && rp12 == Even(words, 64 * mult, 4) && rp14 == Even(words, 64 * mult, 5)
            && rp16 == if mult == 2 then Even(words, 64 * mult, 6) else 0
  {
    hide XorW, AddressBit, Even, Total, Run, WordsOf;
    ghost var words := WordsOf(buf[..], bigEndian);
    par, rp4, rp6, rp8, rp10, rp12, rp14, rp16 := 0, 0, 0, 0, 0, 0, 0, 0;
    NoWords(words);
    for i := 0 to 4 * mult
      invariant par == Total(words, 16 * i)
      invariant rp4 == Even(words, 16 * i, 0) && rp6 == Even(words, 16 * i, 1)
      invariant rp8 == Even(words, 16 * i, 2) && rp10 == Even(words, 16 * i, 3)
      invariant rp12 == Even(words, 16 * i, 4) && rp14 == Even(words, 16 * i, 5)
      invariant rp16 == if mult == 2 then Even(words, 16 * i, 6) else 0
    {
      var tmppar;
      tmppar, rp4, rp6, rp8, rp10 := Pass(buf, i, bigEndian, rp4, rp6, rp8, rp10);
      HighRow(words, i, 4);
      HighRow(words, i, 5);
      HighRow(words, i, 6);
      WholeBlock(words, i);
      par := XorW(par, tmppar);
      if !AddressBit(i, 0) {
        rp12 := XorW(rp12, tmppar);
      }
      if !AddressBit(i, 1) {
        rp14 := XorW(rp14, tmppar);
      }
      if mult == 2 && !AddressBit(i, 2) {
        rp16 := XorW(rp16, tmppar);
      }
    }
  }

  /** The address bits of the data bits of a block of `256 * mult` bytes. */
  function Width(mult: nat): nat {
    if mult == 2 then 12 else 11
  }

  /** The byte holding an inverted parity for each of eight sums. */
  function ParityByte(x7: bv8, x6: bv8, x5: bv8, x4: bv8, x3: bv8, x2: bv8, x1: bv8, x0: bv8): bv8 {
    Assemble(InvParity(x7), InvParity(x6), InvParity(x5), InvParity(x4),
             InvParity(x3), InvParity(x2), InvParity(x1), InvParity(x0))
  }

  lemma ParityByteBits(x7: bv8, x6: bv8, x5: bv8, x4: bv8, x3: bv8, x2: bv8, x1: bv8, x0: bv8)
    ensures var b := ParityByte(x7, x6, x5, x4, x3, x2, x1, x0);
            && Bit(b, 0) == !Parity(x0) && Bit(b, 1) == !Parity(x1)
            && Bit(b, 2) == !Parity(x2) && Bit(b, 3) == !Parity(x3)
            && Bit(b, 4) == !Parity(x4) && Bit(b, 5) == !Parity(x5)
            && Bit(b, 6) == !Parity(x6) && Bit(b, 7) == !Parity(x7)
  {
    hide Parity, Bit, InvParity, Assemble;
    InvParityIsEvenParity(x0);
    InvParityIsEvenParity(x1);
    InvParityIsEvenParity(x2);
    InvParityIsEvenParity(x3);
    InvParityIsEvenParity(x4);
    InvParityIsEvenParity(x5);
    InvParityIsEvenParity(x6);
    InvParityIsEvenParity(x7);
    AssembledBits(!Parity(x7), !Parity(x6), !Parity(x5), !Parity(x4), !Parity(x3), !Parity(x2), !Parity(x1),
                  !Parity(x0));
  }

  lemma RowCode(buf: seq<bv8>, first: nat,
                s7: bv8, s6: bv8, s5: bv8, s4: bv8, s3: bv8, s2: bv8, s1: bv8, s0: bv8)
    requires s0 == XorWhere(buf, Rows(first, false)) && s1 == XorWhere(buf, Rows(first, true))
    requires s2 == XorWhere(buf, Rows(first + 1, false)) && s3 == XorWhere(buf, Rows(first + 1, true))
    requires s4 == XorWhere(buf, Rows(first + 2, false)) && s5 == XorWhere(buf, Rows(first + 2, true))
    requires s6 == XorWhere(buf, Rows(first + 3, false)) && s7 == XorWhere(buf, Rows(first + 3, true))
    ensures forall j: nat | j < 8 ::
              Bit(ParityByte(s7, s6, s5, s4, s3, s2, s1, s0), j) == EvenCode(buf, first + 3 + j / 2, j % 2 == 1)
  {
    hide Parity, Bit, ParityByte, XorWhere;
    ParityByteBits(s7, s6, s5, s4, s3, s2, s1, s0);
  }

  /** The column byte: its six high bits are the column parities, its two low bits are `x1` and `x0`. */
  function ColumnByte(par: bv8, x1: bv8, x0: bv8): bv8 {
    Assemble(InvParity(And(par, 0xf0)), InvParity(And(par, 0x0f)), InvParity(And(par, 0xcc)),
             InvParity(And(par, 0x33)), InvParity(And(par, 0xaa)), InvParity(And(par, 0x55)), x1, x0)
  }

  lemma ColumnCode(buf: seq<bv8>, par: bv8, x1: bool, x0: bool)
    requires par == XorWhere(buf, All())
    ensures var b := ColumnByte(par, One(x1), One(x0));
            && Bit(b, 0) == x0 && Bit(b, 1) == x1
            && forall j: nat | 2 <= j < 8 :: Bit(b, j) == EvenCode(buf, j / 2 - 1, j % 2 == 1)
  {
    hide Parity, Bit, InvParity, Assemble, XorWhere, And, One;
    InvParityIsEvenParity(And(par, 0xf0));
    InvParityIsEvenParity(And(par, 0x0f));
    InvParityIsEvenParity(And(par, 0xcc));
    InvParityIsEvenParity(And(par, 0x33));
    InvParityIsEvenParity(And(par, 0xaa));
    InvParityIsEvenParity(And(par, 0x55));
    OneIs();
    AssembledBits(!Parity(And(par, 0xf0)), !Parity(And(par, 0x0f)), !Parity(And(par, 0xcc)),
                  !Parity(And(par, 0x33)), !Parity(And(par, 0xaa)), !Parity(And(par, 0x55)), x1, x0);
  }

  lemma OneIs()
    ensures One(true) == 1 && One(false) == 0
  {
  }

  /** The loop and the folding of its accumulators to bytes: every row sum of the buffer and its total. */
  method RowSums(buf: array<bv8>, mult: nat, bigEndian: bool)
    returns (total: bv8, rp0: bv8, rp1: bv8, rp2: bv8, rp3: bv8, rp4: bv8, rp5: bv8, rp6: bv8, rp7: bv8, rp8: bv8,
             rp9: bv8, rp10: bv8, rp11: bv8, rp12: bv8, rp13: bv8, rp14: bv8, rp15: bv8, rp16: bv8, rp17: bv8)
    requires mult == 1 || mult == 2
    requires buf.Length == 256 * mult
    ensures var data := buf[..];
            && total == XorWhere(data, All())
            && rp0 == XorWhere(data, Rows(0, false)) && rp1 == XorWhere(data, Rows(0, true))
            && rp2 == XorWhere(data, Rows(1, false)) && rp3 == XorWhere(data, Rows(1, true))
            && rp4 == XorWhere(data, Rows(2, false)) && rp5 == XorWhere(data, Rows(2, true))
            && rp6 == XorWhere(data, Rows(3, false)) && rp7 == XorWhere(data, Rows(3, true))
            && rp8 == XorWhere(data, Rows(4, false)) && rp9 == XorWhere(data, Rows(4, true))
            && rp10 == XorWhere(data, Rows(5, false)) && rp11 == XorWhere(data, Rows(5, true))
            && rp12 == XorWhere(data, Rows(6, false)) && rp13 == XorWhere(data, Rows(6, true))
            && rp14 == XorWhere(data, Rows(7, false)) && rp15 == XorWhere(data, Rows(7, true))
            && (mult == 2 ==> rp16 == XorWhere(data, Rows(8, false)) && rp17 == XorWhere(data, Rows(8, true)))
  {
    hide Even, Total, WordsOf, FoldWord, FoldHigh, FoldLow, Halve, Byte0, Byte1, XorWhere, Xor, Rows, All;
    ghost var data := buf[..];
    var par, w4, w6, w8, w10, w12, w14, w16 := AccumulateWords(buf, mult, bigEndian);

    rp4, rp6, rp8, rp10 := FoldWord(w4), FoldWord(w6), FoldWord(w8), FoldWord(w10);
    rp12, rp14, rp16 := FoldWord(w12), FoldWord(w14), FoldWord(w16);
    if bigEndian {
      rp2, rp3 := FoldHigh(par), FoldLow(par);
      rp0, rp1 := Byte1(Halve(par)), Byte0(Halve(par));
    } else {
      rp3, rp2 := FoldHigh(par), FoldLow(par);
      rp1, rp0 := Byte1(Halve(par)), Byte0(Halve(par));
    }
    total := FoldWord(par);
    rp5, rp7, rp9, rp11 := Xor(total, rp4), Xor(total, rp6), Xor(total, rp8), Xor(total, rp10);
    rp13, rp15, rp17 := Xor(total, rp12), Xor(total, rp14), Xor(total, rp16);

    FoldedTotal(data, bigEndian);
    FoldedRow(data, bigEndian, 2);
    FoldedRow(data, bigEndian, 3);
    FoldedRow(data, bigEndian, 4);
    FoldedRow(data, bigEndian, 5);
    FoldedRow(data, bigEndian, 6);
    FoldedRow(data, bigEndian, 7);
    FoldedRow(data, bigEndian, 8);
  }

  /** `__nand_calculate_ecc`. */
  method CalculateEcc(buf: array<bv8>, eccsize: nat, code: array<bv8>, bigEndian: bool, smc: bool)
    requires eccsize == 256 || eccsize == 512
    requires buf.Length == eccsize && code.Length >= 3 && code != buf
    modifies code
    ensures CodeBits(code[..], smc) == Ecc(SetBits(buf[..]), Width(eccsize / 256))
    ensures code[3..] == old(code[3..])
  {
    hide Xor, XorWhere, Rows, All, Bit, ParityByte, ColumnByte, EvenCode, InvParity, Parity, Ecc, SetBits;
    ghost var data := buf[..];
    var mult := eccsize / 256;
    var total, rp0, rp1, rp2, rp3, rp4, rp5, rp6, rp7, rp8, rp9, rp10, rp11, rp12, rp13, rp14, rp15, rp16, rp17 :=
      RowSums(buf, mult, bigEndian);
    var rowLow := ParityByte(rp7, rp6, rp5, rp4, rp3, rp2, rp1, rp0);
    var rowHigh := ParityByte(rp15, rp14, rp13, rp12, rp11, rp10, rp9, rp8);
    var column := if mult == 1 then ColumnByte(total, 1, 1)
                  else ColumnByte(total, InvParity(rp17), InvParity(rp16));
    if smc {
      code[0], code[1] := rowLow, rowHigh;
    } else {
      code[1], code[0] := rowLow, rowHigh;
    }
    code[2] := column;

    RowCode(data, 0, rp7, rp6, rp5, rp4, rp3, rp2, rp1, rp0);
    RowCode(data, 4, rp15, rp14, rp13, rp12, rp11, rp10, rp9, rp8);
    OneIs();
    if mult == 2 {
      InvParityIsEvenParity(rp16);
      InvParityIsEvenParity(rp17);
      EvenCodeRow(data, 8);
    }
    ColumnCode(data, total, mult == 1 || !Parity(rp17), mult == 1 || !Parity(rp16));
    CodeOfParities(data, rowLow, rowHigh, column, Width(mult));
    assert Canonical(code[..], smc) == [rowLow, rowHigh, column];
  }

  lemma EvenCodeRow(buf: seq<bv8>, k: nat)
    ensures EvenCode(buf, k + 3, false) == !Parity(XorWhere(buf, Rows(k, false)))
    ensures EvenCode(buf, k + 3, true) == !Parity(XorWhere(buf, Rows(k, true)))
  {
  }

  lemma NibblesOfAddress(a0: nat, a1: nat, a2: nat, k: nat)
    requires a0 < 16 && a1 < 16
    ensures AddressBit(256 * a2 + 16 * a1 + a0, k) == if k < 4 then AddressBit(a0, k)
                                                      else if k < 8 then AddressBit(a1, k - 4)
                                                      else AddressBit(a2, k - 8)
  {
    hide AddressBit;
    SixteenBits(16 * a2 + a1, a0, k);
    if k >= 4 {
      SixteenBits(a2, a1, k - 4);
    }
  }

  /** An entry of `addressbits` as an integer. */
  function AddressNibble(b: bv8): (n: nat)
    ensures n < 16
  {
    AddressBitsGathers(b);
    AddressBits(b) as nat
  }

  lemma AddressNibbleBits(b: bv8)
    ensures forall k: nat | k < 4 :: AddressBit(AddressNibble(b), k) == Bit(b, 2 * k + 1)
  {
    AddressBitsGathers(b);
    NibbleValue(AddressBits(b));
    hide AddressBits, Bit, AddressBit;
  }

  lemma ColumnNibbles(b2: bv8)
    ensures AddressNibble(b2 >> 2) < 8 && AddressNibble(b2 & 0x3) < 2
    ensures forall k: nat | k < 3 :: AddressBit(AddressNibble(b2 >> 2), k) == Bit(b2, 2 * k + 3)
    ensures AddressBit(AddressNibble(b2 & 0x3), 0) == Bit(b2, 1)
  {
    ColumnAddress(b2);
    NibbleValue(AddressBits(b2 >> 2));
    NibbleValue(AddressBits(b2 & 0x3));
    hide AddressBits, Bit, AddressBit;
  }

  /** The addresses that `addressbits` finds in the difference bytes name the position they locate. */
  lemma TableAddress(b0: bv8, b1: bv8, b2: bv8, mult: nat)
    requires mult == 1 || mult == 2
    ensures var a2 := if mult == 1 then 0 else AddressNibble(b2 & 0x3);
            var byteAddr := 256 * a2 + 16 * AddressNibble(b1) + AddressNibble(b0);
            && AddressNibble(b2 >> 2) < 8 && byteAddr < 256 * mult
            && Locate(SetBits([b0, b1, b2]), 0, Width(mult)) == 8 * byteAddr + AddressNibble(b2 >> 2)
  {
    hide AddressNibble, Bit, AddressBit, SetBits, Locate;
    AddressNibbleBits(b0);
    AddressNibbleBits(b1);
    ColumnNibbles(b2);
    var a2 := if mult == 1 then 0 else AddressNibble(b2 & 0x3);
    LocatedNibbles(b0, b1, b2, mult, AddressNibble(b0), AddressNibble(b1), a2, AddressNibble(b2 >> 2));
  }

  lemma LocatedNibbles(b0: bv8, b1: bv8, b2: bv8, mult: nat, a0: nat, a1: nat, a2: nat, bitAddr: nat)
    requires mult == 1 || mult == 2
    requires a0 < 16 && a1 < 16 && a2 < mult && bitAddr < 8
    requires forall k: nat | k < 3 :: AddressBit(bitAddr, k) == Bit(b2, 2 * k + 3)
    requires forall k: nat | k < 4 :: AddressBit(a0, k) == Bit(b0, 2 * k + 1)
    requires forall k: nat | k < 4 :: AddressBit(a1, k) == Bit(b1, 2 * k + 1)
    requires mult == 2 ==> AddressBit(a2, 0) == Bit(b2, 1)
    ensures Locate(SetBits([b0, b1, b2]), 0, Width(mult)) == 8 * (256 * a2 + 16 * a1 + a0) + bitAddr
  {
    hide AddressBit, Bit, SetBits, Locate;
    var byteAddr := 256 * a2 + 16 * a1 + a0;
    forall k: nat
      ensures AddressBit(byteAddr, k) == if k < 4 then AddressBit(a0, k)
                                         else if k < 8 then AddressBit(a1, k - 4)
                                         else AddressBit(a2, k - 8)
    {
      NibblesOfAddress(a0, a1, a2, k);
    }
    assert Pow2(8) == 256 && Pow2(9) == 512;
    LocatedAddress(b0, b1, b2, byteAddr, bitAddr, Width(mult));
  }

  lemma ColumnAddress(b2: bv8)
    ensures AddressBits(b2 >> 2) < 8 && AddressBits(b2 & 0x3) < 2
    ensures Bit(AddressBits(b2 >> 2), 0) == Bit(b2, 3) && Bit(AddressBits(b2 >> 2), 1) == Bit(b2, 5)
    ensures Bit(AddressBits(b2 >> 2), 2) == Bit(b2, 7)
    ensures Bit(AddressBits(b2 & 0x3), 0) == Bit(b2, 1)
  {
    AddressBitsFormula(b2 >> 2);
    AddressBitsFormula(b2 & 0x3);
    AddressBitsGathers(b2 >> 2);
    AddressBitsGathers(b2 & 0x3);
    hide AddressBits;
    BitMasks(b2 >> 2);
    BitMasks(b2 & 0x3);
    BitMasks(b2);
    hide Bit;
  }

  /** The correction of a single bit error: `buf[byte_addr] ^= (1 << bit_addr)`. */
  method FlipLocated(buf: array<bv8>, b0: bv8, b1: bv8, b2: bv8, mult: nat)
    requires mult == 1 || mult == 2
    requires buf.Length == 256 * mult
    modifies buf
    ensures SetBits(buf[..]) == SymDiff(SetBits(old(buf[..])), {Locate(SetBits([b0, b1, b2]), 0, Width(mult))})
  {
    hide SetBits, Locate, AddressNibble, Xor, Bit, Mask;
    ghost var before := buf[..];
    TableAddress(b0, b1, b2, mult);
    var byteAddr := 16 * AddressNibble(b1) + AddressNibble(b0);
    if mult != 1 {
      byteAddr := 256 * AddressNibble(b2 & 0x3) + byteAddr;
    }
    var bitAddr := AddressNibble(b2 >> 2);
    MaskBits(bitAddr);
    FlipBit(before, byteAddr, bitAddr, Mask(bitAddr));
    buf[byteAddr] := Xor(buf[byteAddr], Mask(bitAddr));
    assert buf[..] == before[byteAddr := Xor(before[byteAddr], Mask(bitAddr))];
  }

  /** `__nand_correct_data`. */
  method CorrectData(buf: array<bv8>, readEcc: array<bv8>, calcEcc: array<bv8>, eccsize: nat, smc: bool)
    returns (r: int)
    requires eccsize == 256 || eccsize == 512
    requires buf.Length == eccsize && readEcc.Length >= 3 && calcEcc.Length >= 3
    modifies buf
    ensures var verdict := Decide(Difference(old(readEcc[..]), old(calcEcc[..]), smc), Width(eccsize / 256));
            && r == ReturnCode(verdict, -1)
            && SetBits(buf[..]) == Corrected(SetBits(old(buf[..])), verdict)
  {
    hide SetBits, Locate, BitsPerByte, PairMask, Opposed, Ones, Difference;
    var mult := eccsize / 256;
    var b0, b1, b2 := DifferenceOf(readEcc, calcEcc, smc);
    NoDifference(b0, b1, b2);
    PairConditions(b0, b1, b2);
    DifferenceSize(b0, b1, b2);
    BitsPerByteCounts(b0);
    BitsPerByteCounts(b1);
    BitsPerByteCounts(b2);
    if b0 | b1 | b2 == 0 {
      return 0;
    }
    if PairMask(b0, 0x55) == 0x55 && PairMask(b1, 0x55) == 0x55
       && ((mult == 1 && PairMask(b2, 0x54) == 0x54) || (mult == 2 && PairMask(b2, 0x55) == 0x55)) {
      FlipLocated(buf, b0, b1, b2, mult);
      return 1;
    }
    if BitsPerByte(b0) + BitsPerByte(b1) + BitsPerByte(b2) == 1 {
      return 1;
    }
    return -1;
  }
}
