/** The steps of the design notes: the byte loop `ecc1`, the word loop `ecc2`, and the unrolled loop of
    attempt 7 with its shared accumulator. */
module DesignNotes {
  import opened Bits
  import opened Hamming
  import opened EccTables
  import opened XorSums
  import opened Words
  import opened WordBlocks
  import opened EccBytes
  import DriverLater

  /** A code byte before inversion: the parity of eight sums. */
  function PlainByte(x7: bv8, x6: bv8, x5: bv8, x4: bv8, x3: bv8, x2: bv8, x1: bv8, x0: bv8): bv8 {
    Assemble(TextParity(x7), TextParity(x6), TextParity(x5), TextParity(x4),
             TextParity(x3), TextParity(x2), TextParity(x1), TextParity(x0))
  }

  function PlainColumn(par: bv8): bv8 {
    Assemble(TextParity(And(par, 0xf0)), TextParity(And(par, 0x0f)), TextParity(And(par, 0xcc)),
             TextParity(And(par, 0x33)), TextParity(And(par, 0xaa)), TextParity(And(par, 0x55)), 0, 0)
  }

  lemma PlainByteBits(x7: bv8, x6: bv8, x5: bv8, x4: bv8, x3: bv8, x2: bv8, x1: bv8, x0: bv8)
    ensures var b := PlainByte(x7, x6, x5, x4, x3, x2, x1, x0);
            && Bit(b, 0) == Parity(x0) && Bit(b, 1) == Parity(x1) && Bit(b, 2) == Parity(x2) && Bit(b, 3) == Parity(x3)
            && Bit(b, 4) == Parity(x4) && Bit(b, 5) == Parity(x5) && Bit(b, 6) == Parity(x6) && Bit(b, 7) == Parity(x7)
  {
    hide Parity, Bit, TextParity, Assemble;
    TextParityIsParity(x0);
    TextParityIsParity(x1);
    TextParityIsParity(x2);
    TextParityIsParity(x3);
    TextParityIsParity(x4);
    TextParityIsParity(x5);
    TextParityIsParity(x6);
    TextParityIsParity(x7);
    AssembledBits(Parity(x7), Parity(x6), Parity(x5), Parity(x4), Parity(x3), Parity(x2), Parity(x1), Parity(x0));
  }

  /** Inverting the plain parities of eight row sums gives the code bits of four address bits. */
  lemma InvertedRows(buf: seq<bv8>, first: nat,
                     s7: bv8, s6: bv8, s5: bv8, s4: bv8, s3: bv8, s2: bv8, s1: bv8, s0: bv8)
    requires s0 == XorWhere(buf, Rows(first, false)) && s1 == XorWhere(buf, Rows(first, true))
    requires s2 == XorWhere(buf, Rows(first + 1, false)) && s3 == XorWhere(buf, Rows(first + 1, true))
    requires s4 == XorWhere(buf, Rows(first + 2, false)) && s5 == XorWhere(buf, Rows(first + 2, true))
    requires s6 == XorWhere(buf, Rows(first + 3, false)) && s7 == XorWhere(buf, Rows(first + 3, true))
    ensures forall j: nat | j < 8 ::
              Bit(Not(PlainByte(s7, s6, s5, s4, s3, s2, s1, s0)), j) == EvenCode(buf, first + 3 + j / 2, j % 2 == 1)
  {
    hide Parity, Bit, PlainByte, XorWhere, Not;
    PlainByteBits(s7, s6, s5, s4, s3, s2, s1, s0);
    NotBits(PlainByte(s7, s6, s5, s4, s3, s2, s1, s0));
  }

  lemma InvertedColumn(buf: seq<bv8>, par: bv8)
    requires par == XorWhere(buf, All())
    ensures forall j: nat | 2 <= j < 8 :: Bit(Not(PlainColumn(par)), j) == EvenCode(buf, j / 2 - 1, j % 2 == 1)
    ensures forall j: nat | j < 2 :: Bit(Not(PlainColumn(par)), j)
  {
    hide Parity, Bit, TextParity, Assemble, XorWhere, And, Not;
    TextParityIsParity(And(par, 0xf0));
    TextParityIsParity(And(par, 0x0f));
    TextParityIsParity(And(par, 0xcc));
    TextParityIsParity(And(par, 0x33));
    TextParityIsParity(And(par, 0xaa));
    TextParityIsParity(And(par, 0x55));
    AssembledBits(Parity(And(par, 0xf0)), Parity(And(par, 0x0f)), Parity(And(par, 0xcc)),
                  Parity(And(par, 0x33)), Parity(And(par, 0xaa)), Parity(And(par, 0x55)), false, false);
    NotBits(PlainColumn(par));
  }

  /** Writing the code from the sixteen row sums and the total, as `ecc1` and `ecc2` do. */
  method WriteCode(ghost data: seq<bv8>, code: array<bv8>, par: bv8,
                   rp0: bv8, rp1: bv8, rp2: bv8, rp3: bv8, rp4: bv8, rp5: bv8, rp6: bv8, rp7: bv8,
                   rp8: bv8, rp9: bv8, rp10: bv8, rp11: bv8, rp12: bv8, rp13: bv8, rp14: bv8, rp15: bv8)
    requires code.Length >= 3
    requires par == XorWhere(data, All())
    requires rp0 == XorWhere(data, Rows(0, false)) && rp1 == XorWhere(data, Rows(0, true))
    requires rp2 == XorWhere(data, Rows(1, false)) && rp3 == XorWhere(data, Rows(1, true))
    requires rp4 == XorWhere(data, Rows(2, false)) && rp5 == XorWhere(data, Rows(2, true))
    requires rp6 == XorWhere(data, Rows(3, false)) && rp7 == XorWhere(data, Rows(3, true))
    requires rp8 == XorWhere(data, Rows(4, false)) && rp9 == XorWhere(data, Rows(4, true))
    requires rp10 == XorWhere(data, Rows(5, false)) && rp11 == XorWhere(data, Rows(5, true))
    requires rp12 == XorWhere(data, Rows(6, false)) && rp13 == XorWhere(data, Rows(6, true))
    requires rp14 == XorWhere(data, Rows(7, false)) && rp15 == XorWhere(data, Rows(7, true))
    modifies code
    ensures CodeBits(code[..], true) == Ecc(SetBits(data), 11)
    ensures code[3..] == old(code[3..])
  {
    hide XorWhere, Rows, All, Not, PlainByte, PlainColumn, Bit, EvenCode, SetBits, Ecc;
    var c0 := PlainByte(rp7, rp6, rp5, rp4, rp3, rp2, rp1, rp0);
    var c1 := PlainByte(rp15, rp14, rp13, rp12, rp11, rp10, rp9, rp8);
    var c2 := PlainColumn(par);
    code[0], code[1], code[2] := c0, c1, c2;
    code[0] := Not(code[0]);
    code[1] := Not(code[1]);
    code[2] := Not(code[2]);
    InvertedRows(data, 0, rp7, rp6, rp5, rp4, rp3, rp2, rp1, rp0);
    InvertedRows(data, 4, rp15, rp14, rp13, rp12, rp11, rp10, rp9, rp8);
    InvertedColumn(data, par);
    CodeOfParities(data, Not(c0), Not(c1), Not(c2), 11);
    assert Canonical(code[..], true) == [Not(c0), Not(c1), Not(c2)];
  }

  lemma NoSums()
    ensures forall sel: Selection :: XorWhere([], sel) == 0
  {
  }

  /** Appending a byte changes one sum of each pair. */
  lemma RowSums(data: seq<bv8>, b: bv8, k: nat)
    ensures XorWhere(data + [b], Rows(k, true))
         == if AddressBit(|data|, k) then Xor(XorWhere(data, Rows(k, true)), b) else XorWhere(data, Rows(k, true))
    ensures XorWhere(data + [b], Rows(k, false))
         == if AddressBit(|data|, k) then XorWhere(data, Rows(k, false)) else Xor(XorWhere(data, Rows(k, false)), b)
    ensures XorWhere(data + [b], All()) == Xor(XorWhere(data, All()), b)
  {
    hide AddressBit, Xor;
    var all := data + [b];
    assert all[..|all| - 1] == data;
    assert All()(|data|);
  }

  /** `ecc1`. */
  method Ecc1(buf: array<bv8>, code: array<bv8>)
    requires buf.Length == 256 && code.Length >= 3 && code != buf
    modifies code
    ensures CodeBits(code[..], true) == Ecc(SetBits(buf[..]), 11)
    ensures code[3..] == old(code[3..])
  {
    hide XorWhere, Rows, All, AddressBit, Xor;
    var rp0, rp1, rp2, rp3, rp4, rp5, rp6, rp7: bv8 := 0, 0, 0, 0, 0, 0, 0, 0;
    var rp8, rp9, rp10, rp11, rp12, rp13, rp14, rp15: bv8 := 0, 0, 0, 0, 0, 0, 0, 0;
    var par: bv8 := 0;
    NoSums();
    ghost var data := buf[..];
    for i := 0 to 256
      invariant code[..] == old(code[..])
      invariant par == XorWhere(data[..i], All())
      invariant rp0 == XorWhere(data[..i], Rows(0, false)) && rp1 == XorWhere(data[..i], Rows(0, true))
      invariant rp2 == XorWhere(data[..i], Rows(1, false)) && rp3 == XorWhere(data[..i], Rows(1, true))
      invariant rp4 == XorWhere(data[..i], Rows(2, false)) && rp5 == XorWhere(data[..i], Rows(2, true))
      invariant rp6 == XorWhere(data[..i], Rows(3, false)) && rp7 == XorWhere(data[..i], Rows(3, true))
      invariant rp8 == XorWhere(data[..i], Rows(4, false)) && rp9 == XorWhere(data[..i], Rows(4, true))
      invariant rp10 == XorWhere(data[..i], Rows(5, false)) && rp11 == XorWhere(data[..i], Rows(5, true))
      invariant rp12 == XorWhere(data[..i], Rows(6, false)) && rp13 == XorWhere(data[..i], Rows(6, true))
      invariant rp14 == XorWhere(data[..i], Rows(7, false)) && rp15 == XorWhere(data[..i], Rows(7, true))
    {
      var cur := buf[i];
      forall k: nat
        ensures XorWhere(data[..i + 1], Rows(k, true))
             == if AddressBit(i, k) then Xor(XorWhere(data[..i], Rows(k, true)), cur)
                 else XorWhere(data[..i], Rows(k, true))
        ensures XorWhere(data[..i + 1], Rows(k, false))
             == if AddressBit(i, k) then XorWhere(data[..i], Rows(k, false))
                 else Xor(XorWhere(data[..i], Rows(k, false)), cur)
        ensures XorWhere(data[..i + 1], All()) == Xor(XorWhere(data[..i], All()), cur)
      {
        assert data[..i + 1] == data[..i] + [cur];
        RowSums(data[..i], cur, k);
      }
      par := Xor(par, cur);
      if AddressBit(i, 0) { rp1 := Xor(rp1, cur); } else { rp0 := Xor(rp0, cur); }
      if AddressBit(i, 1) { rp3 := Xor(rp3, cur); } else { rp2 := Xor(rp2, cur); }
      if AddressBit(i, 2) { rp5 := Xor(rp5, cur); } else { rp4 := Xor(rp4, cur); }
      if AddressBit(i, 3) { rp7 := Xor(rp7, cur); } else { rp6 := Xor(rp6, cur); }
      if AddressBit(i, 4) { rp9 := Xor(rp9, cur); } else { rp8 := Xor(rp8, cur); }
      if AddressBit(i, 5) { rp11 := Xor(rp11, cur); } else { rp10 := Xor(rp10, cur); }
      if AddressBit(i, 6) { rp13 := Xor(rp13, cur); } else { rp12 := Xor(rp12, cur); }
      if AddressBit(i, 7) { rp15 := Xor(rp15, cur); } else { rp14 := Xor(rp14, cur); }
    }
    assert data[..256] == data;
    WriteCode(data, code, par, rp0, rp1, rp2, rp3, rp4, rp5, rp6, rp7,
              rp8, rp9, rp10, rp11, rp12, rp13, rp14, rp15);
  }

  /** `if (i & (1 << k)) odd ^= cur; else even ^= cur;` */
  method AddToPair(ghost words: seq<bv32>, i: nat, k: nat, cur: bv32, even: bv32, odd: bv32)
    returns (even': bv32, odd': bv32)
    requires i < |words| && cur == words[i]
    requires even == WordXor(words, i, Rows(k, false)) && odd == WordXor(words, i, Rows(k, true))
    ensures even' == WordXor(words, i + 1, Rows(k, false)) && odd' == WordXor(words, i + 1, Rows(k, true))
  {
    hide AddressBit, XorW, WordXor;
    WordSums(words, i, k);
    even', odd' := even, odd;
    if AddressBit(i, k) {
      odd' := XorW(odd, cur);
    } else {
      even' := XorW(even, cur);
    }
  }

  /** The loop of `ecc2`: both word sums of each pair. */
  method SumWords(buf: array<bv8>)
    returns (par: bv32, rp4: bv32, rp5: bv32, rp6: bv32, rp7: bv32, rp8: bv32, rp9: bv32,
             rp10: bv32, rp11: bv32, rp12: bv32, rp13: bv32, rp14: bv32, rp15: bv32)
    requires buf.Length == 256
    ensures var words := WordsOf(buf[..], false);
            && par == WordXor(words, 64, All())
            && rp4 == WordXor(words, 64, Rows(0, false)) && rp5 == WordXor(words, 64, Rows(0, true))
            && rp6 == WordXor(words, 64, Rows(1, false)) && rp7 == WordXor(words, 64, Rows(1, true))
            && rp8 == WordXor(words, 64, Rows(2, false)) && rp9 == WordXor(words, 64, Rows(2, true))
            && rp10 == WordXor(words, 64, Rows(3, false)) && rp11 == WordXor(words, 64, Rows(3, true))
            && rp12 == WordXor(words, 64, Rows(4, false)) && rp13 == WordXor(words, 64, Rows(4, true))
            && rp14 == WordXor(words, 64, Rows(5, false)) && rp15 == WordXor(words, 64, Rows(5, true))
  {
    hide WordXor, WordsOf, XorW, Rows, All;
    ghost var words := WordsOf(buf[..], false);
    rp4, rp5, rp6, rp7, rp8, rp9 := 0, 0, 0, 0, 0, 0;
    rp10, rp11, rp12, rp13, rp14, rp15 := 0, 0, 0, 0, 0, 0;
    par := 0;
    NoWordSums(words);
    for i := 0 to 64
      invariant par == WordXor(words, i, All())
      invariant rp4 == WordXor(words, i, Rows(0, false)) && rp5 == WordXor(words, i, Rows(0, true))
      invariant rp6 == WordXor(words, i, Rows(1, false)) && rp7 == WordXor(words, i, Rows(1, true))
      invariant rp8 == WordXor(words, i, Rows(2, false)) && rp9 == WordXor(words, i, Rows(2, true))
      invariant rp10 == WordXor(words, i, Rows(3, false)) && rp11 == WordXor(words, i, Rows(3, true))
      invariant rp12 == WordXor(words, i, Rows(4, false)) && rp13 == WordXor(words, i, Rows(4, true))
      invariant rp14 == WordXor(words, i, Rows(5, false)) && rp15 == WordXor(words, i, Rows(5, true))
    {
      var cur := DriverLater.LoadWord(buf, i, false);
      WordSums(words, i, 0);
      par := XorW(par, cur);
      rp4, rp5 := AddToPair(words, i, 0, cur, rp4, rp5);
      rp6, rp7 := AddToPair(words, i, 1, cur, rp6, rp7);
      rp8, rp9 := AddToPair(words, i, 2, cur, rp8, rp9);
      rp10, rp11 := AddToPair(words, i, 3, cur, rp10, rp11);
      rp12, rp13 := AddToPair(words, i, 4, cur, rp12, rp13);
      rp14, rp15 := AddToPair(words, i, 5, cur, rp14, rp15);
    }
  }

  /** `ecc2`, with 32-bit little-endian words. */
  method Ecc2(buf: array<bv8>, code: array<bv8>)
    requires buf.Length == 256 && code.Length >= 3 && code != buf
    modifies code
    ensures CodeBits(code[..], true) == Ecc(SetBits(buf[..]), 11)
    ensures code[3..] == old(code[3..])
  {
    hide WordXor, WordsOf, XorWhere, Rows, All, FoldWord, FoldHigh, FoldLow, Halve, Byte0, Byte1, SetBits, Ecc;
    var par, w4, w5, w6, w7, w8, w9, w10, w11, w12, w13, w14, w15 := SumWords(buf);
    ghost var data := buf[..];
    forall k: nat, v: bool | 2 <= k
      ensures FoldWord(WordXor(WordsOf(data, false), 64, Rows(k - 2, v))) == XorWhere(data, Rows(k, v))
    {
      FoldedWords(data, false, k, v);
    }
    FoldAccumulator(data, false, All(), All()) by { AllIsAll(data); }
    FoldTotal(data, false);
    WriteCode(data, code, FoldWord(par), Byte0(Halve(par)), Byte1(Halve(par)), FoldLow(par), FoldHigh(par),
              FoldWord(w4), FoldWord(w5), FoldWord(w6), FoldWord(w7), FoldWord(w8), FoldWord(w9),
              FoldWord(w10), FoldWord(w11), FoldWord(w12), FoldWord(w13), FoldWord(w14), FoldWord(w15));
  }

  lemma NoWordSums(words: seq<bv32>)
    ensures forall sel: Selection :: WordXor(words, 0, sel) == 0
  {
  }

  lemma AllIsAll(buf: seq<bv8>)
    ensures forall i: nat | i < |buf| :: All()(i) == All()(i / 4)
  {
  }

  lemma WordSums(words: seq<bv32>, i: nat, k: nat)
    requires i < |words|
    ensures WordXor(words, i + 1, Rows(k, true))
         == if AddressBit(i, k) then XorW(WordXor(words, i, Rows(k, true)), words[i])
             else WordXor(words, i, Rows(k, true))
    ensures WordXor(words, i + 1, Rows(k, false))
         == if AddressBit(i, k) then WordXor(words, i, Rows(k, false))
             else XorW(WordXor(words, i, Rows(k, false)), words[i])
    ensures WordXor(words, i + 1, All()) == XorW(WordXor(words, i, All()), words[i])
  {
    hide AddressBit, XorW;
    assert All()(i);
  }

  // ----- Attempt 7

  /** Adding a word to either of two accumulators adds it to their sum. */
  lemma SharedAccumulator(a: bv32, shared: bv32, w: bv32)
    ensures XorW(XorW(a, w), shared) == XorW(XorW(a, shared), w)
    ensures XorW(a, XorW(shared, w)) == XorW(XorW(a, shared), w)
  {
    XorWAssociative(a, w, shared);
    XorWAssociative(a, shared, w);
    XorWCommutes(w, shared);
    hide XorW;
  }

  lemma XorWCommutes(a: bv32, b: bv32)
    ensures XorW(a, b) == XorW(b, a)
  {
  }

  lemma RunStep(r: bv32, run: bv32, before: bv32, w: bv32)
    ensures XorW(XorW(r, XorW(run, w)), before) == XorW(XorW(XorW(r, run), before), w)
  {
    hide XorW;
    SharedAccumulator(r, run, w);
    SharedAccumulator(XorW(r, run), before, w);
  }

  lemma AddedTwice(r: bv32, before: bv32)
    ensures XorW(XorW(r, before), before) == r
  {
  }

  /** `rp8 ^ tmppar ^ notrp8`: the four words between `notrp8` and `tmppar`. */
  lemma RunBetween(r: bv32, before: bv32, words: seq<bv32>, t: nat)
    requires t + 4 <= |words|
    ensures XorW(XorW(r, PlusFour(before, words, t)), before) == PlusFour(r, words, t)
  {
    hide XorW;
    AddedTwice(r, before);
    RunStep(r, before, before, words[t]);
    RunStep(r, XorW(before, words[t]), before, words[t + 1]);
    RunStep(r, XorW(XorW(before, words[t]), words[t + 1]), before, words[t + 2]);
    RunStep(r, XorW(XorW(XorW(before, words[t]), words[t + 1]), words[t + 2]), before, words[t + 3]);
  }

  /** One pass of attempt 7: `rp4_6` collects the words that both `rp4` and `rp6` need. */
  method SharedPass(buf: array<bv8>, i: nat, bigEndian: bool, r4: bv32, r6: bv32, r46: bv32, r8: bv32, r10: bv32)
    returns (tmppar: bv32, rp4: bv32, rp6: bv32, rp46: bv32, rp8: bv32, rp10: bv32)
    requires 64 * i + 64 <= buf.Length
    requires var words := WordsOf(buf[..], bigEndian);
             && XorW(r4, r46) == Even(words, 16 * i, 0) && XorW(r6, r46) == Even(words, 16 * i, 1)
             && r8 == Even(words, 16 * i, 2) && r10 == Even(words, 16 * i, 3)
    ensures var words := WordsOf(buf[..], bigEndian);
            && tmppar == Run(words, 16 * i, 16)
            && XorW(rp4, rp46) == Even(words, 16 * i + 16, 0) && XorW(rp6, rp46) == Even(words, 16 * i + 16, 1)
            && rp8 == Even(words, 16 * i + 16, 2) && rp10 == Even(words, 16 * i + 16, 3)
  {
    hide XorW, Even, Run, WordsOf;
    tmppar, rp4, rp6, rp8 := FirstGroup(buf, i, bigEndian, r4, r6, r46, r8);
    ghost var words := WordsOf(buf[..], bigEndian);
    Group(words, i, 1);
    FirstHalf(words, i);
    tmppar, rp4, rp6, rp46 := SharedGroup(buf, i, 1, 16 * i + 4, bigEndian, tmppar, rp4, rp6, r46);
    rp10 := XorW(r10, tmppar);

    Group(words, i, 2);
    var notrp8 := tmppar;
    tmppar, rp4, rp6, rp46 := SharedGroup(buf, i, 2, 16 * i + 8, bigEndian, tmppar, rp4, rp6, rp46);
    RunOfFour(words, 16 * i, 8);
    RunBetween(rp8, notrp8, words, 16 * i + 8);
    rp8 := XorW(XorW(rp8, tmppar), notrp8);

    Group(words, i, 3);
    tmppar, rp4, rp6, rp46 := SharedGroup(buf, i, 3, 16 * i + 12, bigEndian, tmppar, rp4, rp6, rp46);
  }

  /** Words 0..3 of a pass. */
  method FirstGroup(buf: array<bv8>, i: nat, bigEndian: bool, r4: bv32, r6: bv32, ghost r46: bv32, r8: bv32)
    returns (tmppar: bv32, rp4: bv32, rp6: bv32, rp8: bv32)
    requires 64 * i + 64 <= buf.Length
    requires var words := WordsOf(buf[..], bigEndian);
             && XorW(r4, r46) == Even(words, 16 * i, 0) && XorW(r6, r46) == Even(words, 16 * i, 1)
             && r8 == Even(words, 16 * i, 2)
    ensures var words := WordsOf(buf[..], bigEndian);
            && tmppar == Run(words, 16 * i, 4)
            && XorW(rp4, r46) == Even(words, 16 * i + 4, 0) && XorW(rp6, r46) == Even(words, 16 * i + 4, 1)
            && rp8 == Even(words, 16 * i + 4, 2)
  {
    hide XorW, Even, Run, WordsOf;
    ghost var words := WordsOf(buf[..], bigEndian);
    Group(words, i, 0);
    FirstRun(words, 16 * i);
    var bp := 16 * i;
    var cur := DriverLater.LoadWord(buf, bp, bigEndian);
    tmppar := cur;
    SharedAccumulator(r4, r46, cur);
    rp4 := XorW(r4, cur);
    cur := DriverLater.LoadWord(buf, bp + 1, bigEndian);
    tmppar := XorW(tmppar, cur);
    SharedAccumulator(r6, r46, tmppar);
    XorWAssociative(XorW(r6, r46), words[bp], words[bp + 1]);
    rp6 := XorW(r6, tmppar);
    cur := DriverLater.LoadWord(buf, bp + 2, bigEndian);
    tmppar := XorW(tmppar, cur);
    SharedAccumulator(rp4, r46, cur);
    rp4 := XorW(rp4, cur);
    cur := DriverLater.LoadWord(buf, bp + 3, bigEndian);
    tmppar := XorW(tmppar, cur);
    FourAtOnce(r8, words, bp);
    rp8 := XorW(r8, tmppar);
  }

  /** What the groups of words 4..7, 8..11 and 12..15 have in common: the first word is shared. */
  method SharedGroup(buf: array<bv8>, ghost i: nat, ghost g: nat, bp: nat, bigEndian: bool,
                     run: bv32, r4: bv32, r6: bv32, r46: bv32)
    returns (tmppar: bv32, rp4: bv32, rp6: bv32, rp46: bv32)
    requires 64 * i + 64 <= buf.Length && 1 <= g < 4 && bp == 16 * i + 4 * g
    requires var words := WordsOf(buf[..], bigEndian);
             && run == Run(words, 16 * i, 4 * g)
             && XorW(r4, r46) == Even(words, bp, 0) && XorW(r6, r46) == Even(words, bp, 1)
    ensures var words := WordsOf(buf[..], bigEndian);
            && tmppar == Run(words, 16 * i, 4 * g + 4)
            && XorW(rp4, rp46) == Even(words, bp + 4, 0) && XorW(rp6, rp46) == Even(words, bp + 4, 1)
  {
    hide XorW, Even, Run, WordsOf;
    ghost var words := WordsOf(buf[..], bigEndian);
    Group(words, i, g);
    RunOfFour(words, 16 * i, 4 * g);
    var cur := DriverLater.LoadWord(buf, bp, bigEndian);
    tmppar := XorW(run, cur);
    SharedAccumulator(r4, r46, cur);
    SharedAccumulator(r6, r46, cur);
    rp46 := XorW(r46, cur);
    cur := DriverLater.LoadWord(buf, bp + 1, bigEndian);
    tmppar := XorW(tmppar, cur);
    SharedAccumulator(r6, rp46, cur);
    rp6 := XorW(r6, cur);
    cur := DriverLater.LoadWord(buf, bp + 2, bigEndian);
    tmppar := XorW(tmppar, cur);
    SharedAccumulator(r4, rp46, cur);
    rp4 := XorW(r4, cur);
    cur := DriverLater.LoadWord(buf, bp + 3, bigEndian);
    tmppar := XorW(tmppar, cur);
  }

  /** The loop of attempt 7 and the two corrections after it: the same accumulators as attempt 6, which is the
      loop of the later driver for 256 bytes. */
  method Attempt7(buf: array<bv8>, bigEndian: bool)
    returns (par: bv32, rp4: bv32, rp6: bv32, rp8: bv32, rp10: bv32, rp12: bv32, rp14: bv32)
    requires buf.Length == 256
    ensures var words := WordsOf(buf[..], bigEndian);
            && par == Total(words, 64)
            && rp4 == Even(words, 64, 0) && rp6 == Even(words, 64, 1) && rp8 == Even(words, 64, 2)
            && rp10 == Even(words, 64, 3) && rp12 == Even(words, 64, 4) && rp14 == Even(words, 64, 5)
  {
    hide XorW, AddressBit, Even, Total, Run, WordsOf;
    ghost var words := WordsOf(buf[..], bigEndian);
    par, rp4, rp6, rp8, rp10, rp12, rp14 := 0, 0, 0, 0, 0, 0, 0;
    var rp46: bv32 := 0;
    NoWords(words);
    XorWCancel(0, 0);
    for i := 0 to 4
      invariant par == Total(words, 16 * i)
      invariant XorW(rp4, rp46) == Even(words, 16 * i, 0) && XorW(rp6, rp46) == Even(words, 16 * i, 1)
      invariant rp8 == Even(words, 16 * i, 2) && rp10 == Even(words, 16 * i, 3)
      invariant rp12 == Even(words, 16 * i, 4) && rp14 == Even(words, 16 * i, 5)
    {
      var tmppar;
      tmppar, rp4, rp6, rp46, rp8, rp10 := SharedPass(buf, i, bigEndian, rp4, rp6, rp46, rp8, rp10);
      HighRow(words, i, 4);
      HighRow(words, i, 5);
      WholeBlock(words, i);
      par := XorW(par, tmppar);
      if !AddressBit(i, 0) {
        rp12 := XorW(rp12, tmppar);
      }
      if !AddressBit(i, 1) {
        rp14 := XorW(rp14, tmppar);
      }
    }
    rp4 := XorW(rp4, rp46);
    rp6 := XorW(rp6, rp46);
  }
}
