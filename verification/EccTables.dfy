/** The lookup tables, row by row as the sources print them, and what each of them computes. */
module EccTables {
  import opened Bits

  /** One row of sixteen table entries. */
  function Column<T>(c: bv8, v0: T, v1: T, v2: T, v3: T, v4: T, v5: T, v6: T, v7: T,
                     v8: T, v9: T, va: T, vb: T, vc: T, vd: T, ve: T, vf: T): T {
    match c
    case 0 => v0
    case 1 => v1
    case 2 => v2
    case 3 => v3
    case 4 => v4
    case 5 => v5
    case 6 => v6
    case 7 => v7
    case 8 => v8
    case 9 => v9
    case 10 => va
    case 11 => vb
    case 12 => vc
    case 13 => vd
    case 14 => ve
    case _ => vf
  }

  /** `invparity` of the 2.6.28 driver */
  function InvParity(b: bv8): bv8 {
    var c := b & 0x0f;
    match b >> 4
    case 0 => Column(c, 1, 0, 0, 1, 0, 1, 1, 0, 0, 1, 1, 0, 1, 0, 0, 1)
    case 1 => Column(c, 0, 1, 1, 0, 1, 0, 0, 1, 1, 0, 0, 1, 0, 1, 1, 0)
    case 2 => Column(c, 0, 1, 1, 0, 1, 0, 0, 1, 1, 0, 0, 1, 0, 1, 1, 0)
    case 3 => Column(c, 1, 0, 0, 1, 0, 1, 1, 0, 0, 1, 1, 0, 1, 0, 0, 1)
    case 4 => Column(c, 0, 1, 1, 0, 1, 0, 0, 1, 1, 0, 0, 1, 0, 1, 1, 0)
    case 5 => Column(c, 1, 0, 0, 1, 0, 1, 1, 0, 0, 1, 1, 0, 1, 0, 0, 1)
    case 6 => Column(c, 1, 0, 0, 1, 0, 1, 1, 0, 0, 1, 1, 0, 1, 0, 0, 1)
    case 7 => Column(c, 0, 1, 1, 0, 1, 0, 0, 1, 1, 0, 0, 1, 0, 1, 1, 0)
    case 8 => Column(c, 0, 1, 1, 0, 1, 0, 0, 1, 1, 0, 0, 1, 0, 1, 1, 0)
    case 9 => Column(c, 1, 0, 0, 1, 0, 1, 1, 0, 0, 1, 1, 0, 1, 0, 0, 1)
    case 10 => Column(c, 1, 0, 0, 1, 0, 1, 1, 0, 0, 1, 1, 0, 1, 0, 0, 1)
    case 11 => Column(c, 0, 1, 1, 0, 1, 0, 0, 1, 1, 0, 0, 1, 0, 1, 1, 0)
    case 12 => Column(c, 1, 0, 0, 1, 0, 1, 1, 0, 0, 1, 1, 0, 1, 0, 0, 1)
    case 13 => Column(c, 0, 1, 1, 0, 1, 0, 0, 1, 1, 0, 0, 1, 0, 1, 1, 0)
    case 14 => Column(c, 0, 1, 1, 0, 1, 0, 0, 1, 1, 0, 0, 1, 0, 1, 1, 0)
    case _ => Column(c, 1, 0, 0, 1, 0, 1, 1, 0, 0, 1, 1, 0, 1, 0, 0, 1)
  }

  /** `bitsperbyte` of the 2.6.28 driver */
  function BitsPerByte(b: bv8): nat {
    var c := b & 0x0f;
    match b >> 4
    case 0 => Column(c, 0, 1, 1, 2, 1, 2, 2, 3, 1, 2, 2, 3, 2, 3, 3, 4)
    case 1 => Column(c, 1, 2, 2, 3, 2, 3, 3, 4, 2, 3, 3, 4, 3, 4, 4, 5)
    case 2 => Column(c, 1, 2, 2, 3, 2, 3, 3, 4, 2, 3, 3, 4, 3, 4, 4, 5)
    case 3 => Column(c, 2, 3, 3, 4, 3, 4, 4, 5, 3, 4, 4, 5, 4, 5, 5, 6)
    case 4 => Column(c, 1, 2, 2, 3, 2, 3, 3, 4, 2, 3, 3, 4, 3, 4, 4, 5)
    case 5 => Column(c, 2, 3, 3, 4, 3, 4, 4, 5, 3, 4, 4, 5, 4, 5, 5, 6)
    case 6 => Column(c, 2, 3, 3, 4, 3, 4, 4, 5, 3, 4, 4, 5, 4, 5, 5, 6)
    case 7 => Column(c, 3, 4, 4, 5, 4, 5, 5, 6, 4, 5, 5, 6, 5, 6, 6, 7)
    case 8 => Column(c, 1, 2, 2, 3, 2, 3, 3, 4, 2, 3, 3, 4, 3, 4, 4, 5)
    case 9 => Column(c, 2, 3, 3, 4, 3, 4, 4, 5, 3, 4, 4, 5, 4, 5, 5, 6)
    case 10 => Column(c, 2, 3, 3, 4, 3, 4, 4, 5, 3, 4, 4, 5, 4, 5, 5, 6)
    case 11 => Column(c, 3, 4, 4, 5, 4, 5, 5, 6, 4, 5, 5, 6, 5, 6, 6, 7)
    case 12 => Column(c, 2, 3, 3, 4, 3, 4, 4, 5, 3, 4, 4, 5, 4, 5, 5, 6)
    case 13 => Column(c, 3, 4, 4, 5, 4, 5, 5, 6, 4, 5, 5, 6, 5, 6, 6, 7)
    case 14 => Column(c, 3, 4, 4, 5, 4, 5, 5, 6, 4, 5, 5, 6, 5, 6, 6, 7)
    case _ => Column(c, 4, 5, 5, 6, 5, 6, 6, 7, 5, 6, 6, 7, 6, 7, 7, 8)
  }

  /** `addressbits` of the 2.6.28 driver */
  function AddressBits(b: bv8): bv8 {
    var c := b & 0x0f;
    match b >> 4
    case 0 => Column(c, 0x00, 0x00, 0x01, 0x01, 0x00, 0x00, 0x01, 0x01, 0x02, 0x02, 0x03, 0x03, 0x02, 0x02, 0x03, 0x03)
    case 1 => Column(c, 0x00, 0x00, 0x01, 0x01, 0x00, 0x00, 0x01, 0x01, 0x02, 0x02, 0x03, 0x03, 0x02, 0x02, 0x03, 0x03)
    case 2 => Column(c, 0x04, 0x04, 0x05, 0x05, 0x04, 0x04, 0x05, 0x05, 0x06, 0x06, 0x07, 0x07, 0x06, 0x06, 0x07, 0x07)
    case 3 => Column(c, 0x04, 0x04, 0x05, 0x05, 0x04, 0x04, 0x05, 0x05, 0x06, 0x06, 0x07, 0x07, 0x06, 0x06, 0x07, 0x07)
    case 4 => Column(c, 0x00, 0x00, 0x01, 0x01, 0x00, 0x00, 0x01, 0x01, 0x02, 0x02, 0x03, 0x03, 0x02, 0x02, 0x03, 0x03)
    case 5 => Column(c, 0x00, 0x00, 0x01, 0x01, 0x00, 0x00, 0x01, 0x01, 0x02, 0x02, 0x03, 0x03, 0x02, 0x02, 0x03, 0x03)
    case 6 => Column(c, 0x04, 0x04, 0x05, 0x05, 0x04, 0x04, 0x05, 0x05, 0x06, 0x06, 0x07, 0x07, 0x06, 0x06, 0x07, 0x07)
    case 7 => Column(c, 0x04, 0x04, 0x05, 0x05, 0x04, 0x04, 0x05, 0x05, 0x06, 0x06, 0x07, 0x07, 0x06, 0x06, 0x07, 0x07)
    case 8 => Column(c, 0x08, 0x08, 0x09, 0x09, 0x08, 0x08, 0x09, 0x09, 0x0a, 0x0a, 0x0b, 0x0b, 0x0a, 0x0a, 0x0b, 0x0b)
    case 9 => Column(c, 0x08, 0x08, 0x09, 0x09, 0x08, 0x08, 0x09, 0x09, 0x0a, 0x0a, 0x0b, 0x0b, 0x0a, 0x0a, 0x0b, 0x0b)
    case 10 => Column(c, 0x0c, 0x0c, 0x0d, 0x0d, 0x0c, 0x0c, 0x0d, 0x0d, 0x0e, 0x0e, 0x0f, 0x0f, 0x0e, 0x0e, 0x0f, 0x0f)
    case 11 => Column(c, 0x0c, 0x0c, 0x0d, 0x0d, 0x0c, 0x0c, 0x0d, 0x0d, 0x0e, 0x0e, 0x0f, 0x0f, 0x0e, 0x0e, 0x0f, 0x0f)
    case 12 => Column(c, 0x08, 0x08, 0x09, 0x09, 0x08, 0x08, 0x09, 0x09, 0x0a, 0x0a, 0x0b, 0x0b, 0x0a, 0x0a, 0x0b, 0x0b)
    case 13 => Column(c, 0x08, 0x08, 0x09, 0x09, 0x08, 0x08, 0x09, 0x09, 0x0a, 0x0a, 0x0b, 0x0b, 0x0a, 0x0a, 0x0b, 0x0b)
    case 14 => Column(c, 0x0c, 0x0c, 0x0d, 0x0d, 0x0c, 0x0c, 0x0d, 0x0d, 0x0e, 0x0e, 0x0f, 0x0f, 0x0e, 0x0e, 0x0f, 0x0f)
    case _ => Column(c, 0x0c, 0x0c, 0x0d, 0x0d, 0x0c, 0x0c, 0x0d, 0x0d, 0x0e, 0x0e, 0x0f, 0x0f, 0x0e, 0x0e, 0x0f, 0x0f)
  }

  /** `parity` of the design notes */
  function TextParity(b: bv8): bv8 {
    var c := b & 0x0f;
    match b >> 4
    case 0 => Column(c, 0, 1, 1, 0, 1, 0, 0, 1, 1, 0, 0, 1, 0, 1, 1, 0)
    case 1 => Column(c, 1, 0, 0, 1, 0, 1, 1, 0, 0, 1, 1, 0, 1, 0, 0, 1)
    case 2 => Column(c, 1, 0, 0, 1, 0, 1, 1, 0, 0, 1, 1, 0, 1, 0, 0, 1)
    case 3 => Column(c, 0, 1, 1, 0, 1, 0, 0, 1, 1, 0, 0, 1, 0, 1, 1, 0)
    case 4 => Column(c, 1, 0, 0, 1, 0, 1, 1, 0, 0, 1, 1, 0, 1, 0, 0, 1)
    case 5 => Column(c, 0, 1, 1, 0, 1, 0, 0, 1, 1, 0, 0, 1, 0, 1, 1, 0)
    case 6 => Column(c, 0, 1, 1, 0, 1, 0, 0, 1, 1, 0, 0, 1, 0, 1, 1, 0)
    case 7 => Column(c, 1, 0, 0, 1, 0, 1, 1, 0, 0, 1, 1, 0, 1, 0, 0, 1)
    case 8 => Column(c, 1, 0, 0, 1, 0, 1, 1, 0, 0, 1, 1, 0, 1, 0, 0, 1)
    case 9 => Column(c, 0, 1, 1, 0, 1, 0, 0, 1, 1, 0, 0, 1, 0, 1, 1, 0)
    case 10 => Column(c, 0, 1, 1, 0, 1, 0, 0, 1, 1, 0, 0, 1, 0, 1, 1, 0)
    case 11 => Column(c, 1, 0, 0, 1, 0, 1, 1, 0, 0, 1, 1, 0, 1, 0, 0, 1)
    case 12 => Column(c, 0, 1, 1, 0, 1, 0, 0, 1, 1, 0, 0, 1, 0, 1, 1, 0)
    case 13 => Column(c, 1, 0, 0, 1, 0, 1, 1, 0, 0, 1, 1, 0, 1, 0, 0, 1)
    case 14 => Column(c, 1, 0, 0, 1, 0, 1, 1, 0, 0, 1, 1, 0, 1, 0, 0, 1)
    case _ => Column(c, 0, 1, 1, 0, 1, 0, 0, 1, 1, 0, 0, 1, 0, 1, 1, 0)
  }

  /** `nand_ecc_precalc_table` of the 2.6.27 driver */
  function Precalc(b: bv8): bv8 {
    var c := b & 0x0f;
    match b >> 4
    case 0 => Column(c, 0x00, 0x55, 0x56, 0x03, 0x59, 0x0c, 0x0f, 0x5a, 0x5a, 0x0f, 0x0c, 0x59, 0x03, 0x56, 0x55, 0x00)
    case 1 => Column(c, 0x65, 0x30, 0x33, 0x66, 0x3c, 0x69, 0x6a, 0x3f, 0x3f, 0x6a, 0x69, 0x3c, 0x66, 0x33, 0x30, 0x65)
    case 2 => Column(c, 0x66, 0x33, 0x30, 0x65, 0x3f, 0x6a, 0x69, 0x3c, 0x3c, 0x69, 0x6a, 0x3f, 0x65, 0x30, 0x33, 0x66)
    case 3 => Column(c, 0x03, 0x56, 0x55, 0x00, 0x5a, 0x0f, 0x0c, 0x59, 0x59, 0x0c, 0x0f, 0x5a, 0x00, 0x55, 0x56, 0x03)
    case 4 => Column(c, 0x69, 0x3c, 0x3f, 0x6a, 0x30, 0x65, 0x66, 0x33, 0x33, 0x66, 0x65, 0x30, 0x6a, 0x3f, 0x3c, 0x69)
    case 5 => Column(c, 0x0c, 0x59, 0x5a, 0x0f, 0x55, 0x00, 0x03, 0x56, 0x56, 0x03, 0x00, 0x55, 0x0f, 0x5a, 0x59, 0x0c)
    case 6 => Column(c, 0x0f, 0x5a, 0x59, 0x0c, 0x56, 0x03, 0x00, 0x55, 0x55, 0x00, 0x03, 0x56, 0x0c, 0x59, 0x5a, 0x0f)
    case 7 => Column(c, 0x6a, 0x3f, 0x3c, 0x69, 0x33, 0x66, 0x65, 0x30, 0x30, 0x65, 0x66, 0x33, 0x69, 0x3c, 0x3f, 0x6a)
    case 8 => Column(c, 0x6a, 0x3f, 0x3c, 0x69, 0x33, 0x66, 0x65, 0x30, 0x30, 0x65, 0x66, 0x33, 0x69, 0x3c, 0x3f, 0x6a)
    case 9 => Column(c, 0x0f, 0x5a, 0x59, 0x0c, 0x56, 0x03, 0x00, 0x55, 0x55, 0x00, 0x03, 0x56, 0x0c, 0x59, 0x5a, 0x0f)
    case 10 => Column(c, 0x0c, 0x59, 0x5a, 0x0f, 0x55, 0x00, 0x03, 0x56, 0x56, 0x03, 0x00, 0x55, 0x0f, 0x5a, 0x59, 0x0c)
    case 11 => Column(c, 0x69, 0x3c, 0x3f, 0x6a, 0x30, 0x65, 0x66, 0x33, 0x33, 0x66, 0x65, 0x30, 0x6a, 0x3f, 0x3c, 0x69)
    case 12 => Column(c, 0x03, 0x56, 0x55, 0x00, 0x5a, 0x0f, 0x0c, 0x59, 0x59, 0x0c, 0x0f, 0x5a, 0x00, 0x55, 0x56, 0x03)
    case 13 => Column(c, 0x66, 0x33, 0x30, 0x65, 0x3f, 0x6a, 0x69, 0x3c, 0x3c, 0x69, 0x6a, 0x3f, 0x65, 0x30, 0x33, 0x66)
    case 14 => Column(c, 0x65, 0x30, 0x33, 0x66, 0x3c, 0x69, 0x6a, 0x3f, 0x3f, 0x6a, 0x69, 0x3c, 0x66, 0x33, 0x30, 0x65)
    case _ => Column(c, 0x00, 0x55, 0x56, 0x03, 0x59, 0x0c, 0x0f, 0x5a, 0x5a, 0x0f, 0x0c, 0x59, 0x03, 0x56, 0x55, 0x00)
  }

  /** The parity of a byte as one exclusive or of its bits. */
  function Fold(b: bv8): bv8 {
    (b ^ (b >> 1) ^ (b >> 2) ^ (b >> 3) ^ (b >> 4) ^ (b >> 5) ^ (b >> 6) ^ (b >> 7)) & 1
  }

  function Value(bit: bv8): nat {
    if bit == 1 then 1 else 0
  }

  /** The number of bits set in a byte, written out. */
  function Count(b: bv8): nat {
    Value(b & 1) + Value((b >> 1) & 1) + Value((b >> 2) & 1) + Value((b >> 3) & 1)
    + Value((b >> 4) & 1) + Value((b >> 5) & 1) + Value((b >> 6) & 1) + Value((b >> 7) & 1)
  }

  lemma FoldIsParity(b: bv8)
    ensures Fold(b) == (if Parity(b) then 1 else 0)
    ensures Count(b) == Ones(b)
  {
    BitMasks(b);
    assert OnesBelow(b, 4) == Value(b & 1) + Value((b >> 1) & 1) + Value((b >> 2) & 1) + Value((b >> 3) & 1) by {
      hide Bit;
    }
    assert Ones(b) == Count(b) by { hide Bit; }
  }

  lemma InvParityIsEvenParity(b: bv8)
    ensures InvParity(b) == if Parity(b) then 0 else 1
  {
    hide Parity;
    FoldIsParity(b);
  }

  lemma TextParityIsParity(b: bv8)
    ensures TextParity(b) == if Parity(b) then 1 else 0
  {
    hide Parity;
    FoldIsParity(b);
  }

  lemma BitsPerByteCounts(b: bv8)
    ensures BitsPerByte(b) == Ones(b)
  {
    hide Ones;
    FoldIsParity(b);
  }

  lemma AddressBitsFormula(b: bv8)
    ensures AddressBits(b) == ((b >> 1) & 1) | ((b >> 2) & 2) | ((b >> 3) & 4) | ((b >> 4) & 8)
  {
  }

  /** `addressbits` gathers the odd bits of a byte. */
  lemma AddressBitsGathers(b: bv8)
    ensures AddressBits(b) < 16
    ensures Bit(AddressBits(b), 0) == Bit(b, 1) && Bit(AddressBits(b), 1) == Bit(b, 3)
    ensures Bit(AddressBits(b), 2) == Bit(b, 5) && Bit(AddressBits(b), 3) == Bit(b, 7)
  {
    AddressBitsFormula(b);
    hide Bit, AddressBits;
    BitMasks(b);
    BitMasks(AddressBits(b));
  }
}
