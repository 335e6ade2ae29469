/** The buffer read as 32-bit words in either byte order, and exclusive ors of words. */
module Words {
  import opened Bits
  import opened XorSums

  /** `a ^ b` on words. */
  function XorW(a: bv32, b: bv32): bv32 {
    a ^ b
  }

  lemma XorWAssociative(a: bv32, b: bv32, c: bv32)
    ensures XorW(XorW(a, b), c) == XorW(a, XorW(b, c))
  {
  }

  lemma XorWCancel(a: bv32, b: bv32)
    ensures XorW(a, 0) == a && XorW(0, a) == a && XorW(a, XorW(a, b)) == b
  {
  }

  // ----- Loading words

  /** The word of four consecutive bytes. */
  function Load(b0: bv8, b1: bv8, b2: bv8, b3: bv8, bigEndian: bool): bv32 {
    if bigEndian
    then ((b0 as bv32) << 24) | ((b1 as bv32) << 16) | ((b2 as bv32) << 8) | (b3 as bv32)
    else ((b3 as bv32) << 24) | ((b2 as bv32) << 16) | ((b1 as bv32) << 8) | (b0 as bv32)
  }

  /** The words of a buffer. */
  function WordsOf(buf: seq<bv8>, bigEndian: bool): (words: seq<bv32>)
    ensures |words| == |buf| / 4
  {
    if |buf| < 4 then []
    else
      var n := |buf| / 4 - 1;
      WordsOf(buf[..4 * n], bigEndian)
      + [Load(buf[4 * n], buf[4 * n + 1], buf[4 * n + 2], buf[4 * n + 3], bigEndian)]
  }

  lemma {:induction false} WordAt(buf: seq<bv8>, bigEndian: bool, j: nat)
    requires 4 * j + 3 < |buf|
    ensures WordsOf(buf, bigEndian)[j] == Load(buf[4 * j], buf[4 * j + 1], buf[4 * j + 2], buf[4 * j + 3], bigEndian)
  {
    hide Load;
    var n := |buf| / 4 - 1;
    if j < n {
      WordAt(buf[..4 * n], bigEndian, j);
    }
  }

  function Byte0(w: bv32): bv8 { (w & 0xff) as bv8 }
  function Byte1(w: bv32): bv8 { ((w >> 8) & 0xff) as bv8 }
  function Byte2(w: bv32): bv8 { ((w >> 16) & 0xff) as bv8 }
  function Byte3(w: bv32): bv8 { ((w >> 24) & 0xff) as bv8 }

  /** The byte that was number `l` of the four the word was loaded from. */
  function ByteOf(w: bv32, bigEndian: bool, l: nat): bv8
    requires l < 4
  {
    match if bigEndian then 3 - l else l
    case 0 => Byte0(w)
    case 1 => Byte1(w)
    case 2 => Byte2(w)
    case 3 => Byte3(w)
  }

  lemma ByteOfLoad(b0: bv8, b1: bv8, b2: bv8, b3: bv8, bigEndian: bool)
    ensures ByteOf(Load(b0, b1, b2, b3, bigEndian), bigEndian, 0) == b0
    ensures ByteOf(Load(b0, b1, b2, b3, bigEndian), bigEndian, 1) == b1
    ensures ByteOf(Load(b0, b1, b2, b3, bigEndian), bigEndian, 2) == b2
    ensures ByteOf(Load(b0, b1, b2, b3, bigEndian), bigEndian, 3) == b3
  {
  }

  /** In little endian the first byte is the lowest one of the word, in big endian the highest one. */
  lemma ByteOrder(b0: bv8, b1: bv8, b2: bv8, b3: bv8)
    ensures Load(b0, b1, b2, b3, false) & 0xff == b0 as bv32 && Load(b0, b1, b2, b3, false) >> 24 == b3 as bv32
    ensures Load(b0, b1, b2, b3, true) & 0xff == b3 as bv32 && Load(b0, b1, b2, b3, true) >> 24 == b0 as bv32
  {
  }

  lemma Byte0Xor(a: bv32, b: bv32)
    ensures Byte0(XorW(a, b)) == Xor(Byte0(a), Byte0(b))
  {
  }

  lemma Byte1Xor(a: bv32, b: bv32)
    ensures Byte1(XorW(a, b)) == Xor(Byte1(a), Byte1(b))
  {
  }

  lemma Byte2Xor(a: bv32, b: bv32)
    ensures Byte2(XorW(a, b)) == Xor(Byte2(a), Byte2(b))
  {
  }

  lemma Byte3Xor(a: bv32, b: bv32)
    ensures Byte3(XorW(a, b)) == Xor(Byte3(a), Byte3(b))
  {
  }

  lemma ByteOfXor(a: bv32, b: bv32, bigEndian: bool, l: nat)
    requires l < 4
    ensures ByteOf(XorW(a, b), bigEndian, l) == Xor(ByteOf(a, bigEndian, l), ByteOf(b, bigEndian, l))
  {
    Byte0Xor(a, b);
    Byte1Xor(a, b);
    Byte2Xor(a, b);
    Byte3Xor(a, b);
    hide Byte0, Byte1, Byte2, Byte3, XorW, Xor;
  }

  // ----- Exclusive ors of words

  /** The exclusive or of the first `n` words whose index is selected. */
  function WordXor(words: seq<bv32>, n: nat, sel: Selection): bv32
    requires n <= |words|
  {
    if n == 0 then 0
    else if sel(n - 1) then XorW(WordXor(words, n - 1, sel), words[n - 1])
    else WordXor(words, n - 1, sel)
  }

  lemma {:induction false} WordXorPrefix(words: seq<bv32>, n: nat, m: nat, sel: Selection)
    requires n <= m <= |words|
    ensures WordXor(words, n, sel) == WordXor(words[..m], n, sel)
  {
    hide XorW;
    if n > 0 {
      WordXorPrefix(words, n - 1, m, sel);
    }
  }

  /** The selection of the bytes number `l` of the selected words. */
  function LaneOf(sel: Selection, l: nat): Selection {
    (i: nat) => i % 4 == l && sel(i / 4)
  }

  /** Each byte of an exclusive or of words is the exclusive or of those bytes of the buffer. */
  lemma {:induction false} ByteOfWordXor(buf: seq<bv8>, bigEndian: bool, sel: Selection, l: nat)
    requires |buf| % 4 == 0 && l < 4
    ensures ByteOf(WordXor(WordsOf(buf, bigEndian), |buf| / 4, sel), bigEndian, l) == XorWhere(buf, LaneOf(sel, l))
    decreases |buf|
  {
    hide XorW, ByteOf, Xor, XorWhere, WordXor, WordsOf, LaneOf;
    if buf == [] {
      NoBytes(bigEndian, l);
      NoWordXor(WordsOf(buf, bigEndian), sel);
      EmptyXor(LaneOf(sel, l));
    } else {
      var n := |buf| / 4 - 1;
      ByteOfWordXor(buf[..4 * n], bigEndian, sel, l);
      LastWord(buf, bigEndian, sel, n, l);
      LastFour(buf, n, sel, l);
    }
  }

  lemma NoWordXor(words: seq<bv32>, sel: Selection)
    ensures WordXor(words, 0, sel) == 0
  {
  }

  /** The last word adds its byte if it is selected. */
  lemma LastWord(buf: seq<bv8>, bigEndian: bool, sel: Selection, n: nat, l: nat)
    requires |buf| == 4 * n + 4 && l < 4
    ensures var before := ByteOf(WordXor(WordsOf(buf[..4 * n], bigEndian), n, sel), bigEndian, l);
            ByteOf(WordXor(WordsOf(buf, bigEndian), n + 1, sel), bigEndian, l)
            == if sel(n) then Xor(before, buf[4 * n + l]) else before
  {
    hide XorW, Load, ByteOf, Xor;
    var words := WordsOf(buf, bigEndian);
    assert words[..n] == WordsOf(buf[..4 * n], bigEndian);
    WordXorPrefix(words, n, n, sel);
    ByteOfLoad(buf[4 * n], buf[4 * n + 1], buf[4 * n + 2], buf[4 * n + 3], bigEndian);
    ByteOfXor(WordXor(words, n, sel), words[n], bigEndian, l);
  }

  lemma EmptyXor(sel: Selection)
    ensures XorWhere([], sel) == 0
  {
  }

  lemma NoBytes(bigEndian: bool, l: nat)
    requires l < 4
    ensures ByteOf(0, bigEndian, l) == 0
  {
  }

  lemma XorWhereSnoc(buf: seq<bv8>, n: nat, sel: Selection)
    requires n < |buf|
    ensures XorWhere(buf[..n + 1], sel)
         == if sel(n) then Xor(XorWhere(buf[..n], sel), buf[n]) else XorWhere(buf[..n], sel)
  {
    hide Xor;
    assert buf[..n + 1][..n] == buf[..n];
  }

  lemma LastFour(buf: seq<bv8>, n: nat, sel: Selection, l: nat)
    requires |buf| == 4 * n + 4 && l < 4
    ensures XorWhere(buf, LaneOf(sel, l))
         == if sel(n) then Xor(XorWhere(buf[..4 * n], LaneOf(sel, l)), buf[4 * n + l])
            else XorWhere(buf[..4 * n], LaneOf(sel, l))
  {
    hide Xor, XorWhere;
    var p, lane := 4 * n, LaneOf(sel, l);
    XorWhereSnoc(buf, p, lane);
    XorWhereSnoc(buf, p + 1, lane);
    XorWhereSnoc(buf, p + 2, lane);
    XorWhereSnoc(buf, p + 3, lane);
    assert buf[..p + 4] == buf;
  }

  // ----- From words back to bytes

  /** Byte sums over two lanes of the selected words. */
  lemma TwoLanes(buf: seq<bv8>, sel: Selection, words: Selection, l: nat, m: nat)
    requires l < m < 4
    requires forall i: nat | i < |buf| :: sel(i) == (words(i / 4) && (i % 4 == l || i % 4 == m))
    ensures XorWhere(buf, sel) == Xor(XorWhere(buf, LaneOf(words, l)), XorWhere(buf, LaneOf(words, m)))
  {
    hide XorWhere, Xor;
    XorWhereSplit(buf, sel, LaneOf(words, l), LaneOf(words, m));
  }

  /** Byte sums over all four lanes of the selected words. */
  lemma FourLanes(buf: seq<bv8>, sel: Selection, words: Selection)
    requires forall i: nat | i < |buf| :: sel(i) == words(i / 4)
    ensures XorWhere(buf, sel)
         == Xor(Xor(XorWhere(buf, LaneOf(words, 0)), XorWhere(buf, LaneOf(words, 1))),
                Xor(XorWhere(buf, LaneOf(words, 2)), XorWhere(buf, LaneOf(words, 3))))
  {
    hide XorWhere, Xor;
    var low: Selection := (i: nat) => words(i / 4) && i % 4 < 2;
    var high: Selection := (i: nat) => words(i / 4) && i % 4 >= 2;
    XorWhereSplit(buf, sel, low, high);
    TwoLanes(buf, low, words, 0, 1);
    TwoLanes(buf, high, words, 2, 3);
  }

  /** `w ^= w >> 16; w ^= w >> 8; w &= 0xff` */
  function FoldWord(w: bv32): bv8 {
    var half := w ^ (w >> 16);
    ((half ^ (half >> 8)) & 0xff) as bv8
  }

  /** `w = par >> 16; w ^= w >> 8; w &= 0xff` */
  function FoldHigh(w: bv32): bv8 {
    var half := w >> 16;
    ((half ^ (half >> 8)) & 0xff) as bv8
  }

  /** `w = par & 0xffff; w ^= w >> 8; w &= 0xff` */
  function FoldLow(w: bv32): bv8 {
    var half := w & 0xffff;
    ((half ^ (half >> 8)) & 0xff) as bv8
  }

  /** `par ^= par >> 16` */
  function Halve(w: bv32): bv32 {
    w ^ (w >> 16)
  }

  lemma FoldBytes(w: bv32)
    ensures FoldWord(w) == Xor(Xor(Byte0(w), Byte1(w)), Xor(Byte2(w), Byte3(w)))
    ensures FoldHigh(w) == Xor(Byte2(w), Byte3(w)) && FoldLow(w) == Xor(Byte0(w), Byte1(w))
  {
  }

  lemma HalveBytes(w: bv32)
    ensures Byte0(Halve(w)) == Xor(Byte0(w), Byte2(w)) && Byte1(Halve(w)) == Xor(Byte1(w), Byte3(w))
  {
  }

  lemma XorReverse(a: bv8, b: bv8, c: bv8, d: bv8)
    ensures Xor(Xor(a, b), Xor(c, d)) == Xor(Xor(d, c), Xor(b, a))
    ensures Xor(a, b) == Xor(b, a)
  {
  }

  /** Folding an accumulator of words gives the sum of all bytes of its words, in either byte order. */
  lemma FoldAccumulator(buf: seq<bv8>, bigEndian: bool, sel: Selection, words: Selection)
    requires |buf| % 4 == 0
    requires forall i: nat | i < |buf| :: sel(i) == words(i / 4)
    ensures FoldWord(WordXor(WordsOf(buf, bigEndian), |buf| / 4, words)) == XorWhere(buf, sel)
  {
    hide FoldWord, WordXor, XorWhere, Xor, Byte0, Byte1, Byte2, Byte3;
    var w := WordXor(WordsOf(buf, bigEndian), |buf| / 4, words);
    FoldBytes(w);
    FourLanes(buf, sel, words);
    ByteOfWordXor(buf, bigEndian, words, 0);
    ByteOfWordXor(buf, bigEndian, words, 1);
    ByteOfWordXor(buf, bigEndian, words, 2);
    ByteOfWordXor(buf, bigEndian, words, 3);
    XorReverse(Byte0(w), Byte1(w), Byte2(w), Byte3(w));
  }

  lemma LowBits(i: nat)
    ensures AddressBit(i, 0) == (i % 4 == 1 || i % 4 == 3) && AddressBit(i, 1) == (i % 4 >= 2)
  {
    var q, r := i / 4, i % 4;
    assert Pow2(2) == 4;
    BlockBits(2, 4, q, r, 0);
    BlockBits(2, 4, q, r, 1);
    assert AddressBit(r, 1) == AddressBit(r / 2, 0);
  }

  /** The row parities of the two low address bits, from the exclusive or of all words: in little endian
      the low half has the bytes with bit 1 clear, in big endian the high half. */
  lemma FoldTotal(buf: seq<bv8>, bigEndian: bool)
    requires |buf| % 4 == 0
    ensures var par := WordXor(WordsOf(buf, bigEndian), |buf| / 4, All());
            && XorWhere(buf, Rows(1, false)) == (if bigEndian then FoldHigh(par) else FoldLow(par))
            && XorWhere(buf, Rows(1, true)) == (if bigEndian then FoldLow(par) else FoldHigh(par))
            && XorWhere(buf, Rows(0, false)) == (if bigEndian then Byte1(Halve(par)) else Byte0(Halve(par)))
            && XorWhere(buf, Rows(0, true)) == (if bigEndian then Byte0(Halve(par)) else Byte1(Halve(par)))
  {
    hide FoldHigh, FoldLow, Halve, WordXor, XorWhere, Xor, Byte0, Byte1, Byte2, Byte3;
    var w := WordXor(WordsOf(buf, bigEndian), |buf| / 4, All());
    FoldBytes(w);
    HalveBytes(w);
    forall i: nat
      ensures AddressBit(i, 0) == (i % 4 == 1 || i % 4 == 3) && AddressBit(i, 1) == (i % 4 >= 2)
    {
      LowBits(i);
    }
    TwoLanes(buf, Rows(1, false), All(), 0, 1);
    TwoLanes(buf, Rows(1, true), All(), 2, 3);
    TwoLanes(buf, Rows(0, false), All(), 0, 2);
    TwoLanes(buf, Rows(0, true), All(), 1, 3);
    ByteOfWordXor(buf, bigEndian, All(), 0);
    ByteOfWordXor(buf, bigEndian, All(), 1);
    ByteOfWordXor(buf, bigEndian, All(), 2);
    ByteOfWordXor(buf, bigEndian, All(), 3);
    XorReverse(Byte0(w), Byte1(w), Byte2(w), Byte3(w));
    XorReverse(Byte2(w), Byte3(w), Byte0(w), Byte2(w));
    XorReverse(Byte1(w), Byte3(w), Byte0(w), Byte2(w));
    XorReverse(Byte0(w), Byte2(w), Byte0(w), Byte2(w));
  }
}
