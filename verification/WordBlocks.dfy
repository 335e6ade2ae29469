/** What one pass of the sixteen-fold unrolled loop adds to each word accumulator. */
module WordBlocks {
  import opened Bits
  import opened XorSums
  import opened Words

  /** The exclusive or of the first `n` words whose index has bit `k` clear. */
  function Even(words: seq<bv32>, n: nat, k: nat): bv32
    requires n <= |words|
  {
    WordXor(words, n, Rows(k, false))
  }

  /** The exclusive or of the first `n` words. */
  function Total(words: seq<bv32>, n: nat): bv32
    requires n <= |words|
  {
    WordXor(words, n, All())
  }

  lemma NoWords(words: seq<bv32>)
    ensures forall k: nat :: Even(words, 0, k) == 0
    ensures Total(words, 0) == 0
  {
  }

  /** The exclusive or of `n >= 1` consecutive words, as `tmppar` accumulates it. */
  function Run(words: seq<bv32>, start: nat, n: nat): bv32
    requires 1 <= n && start + n <= |words|
  {
    if n == 1 then words[start] else XorW(Run(words, start, n - 1), words[start + n - 1])
  }

  /** A run of selected words is added as a whole. */
  lemma {:induction false} RunSelected(words: seq<bv32>, start: nat, n: nat, sel: Selection)
    requires 1 <= n && start + n <= |words|
    requires forall j: nat | start <= j < start + n :: sel(j)
    ensures WordXor(words, start + n, sel) == XorW(WordXor(words, start, sel), Run(words, start, n))
  {
    hide XorW;
    if n > 1 {
      RunSelected(words, start, n - 1, sel);
      XorWAssociative(WordXor(words, start, sel), Run(words, start, n - 1), words[start + n - 1]);
    }
  }

  lemma {:induction false} RunSkipped(words: seq<bv32>, start: nat, n: nat, sel: Selection)
    requires start + n <= |words|
    requires forall j: nat | start <= j < start + n :: !sel(j)
    ensures WordXor(words, start + n, sel) == WordXor(words, start, sel)
  {
    if n > 0 {
      RunSkipped(words, start, n - 1, sel);
    }
  }

  /** The sixteen words of a block and the parity of their positions in it. */
  lemma SixteenBits(i: nat, j: nat, k: nat)
    requires j < 16
    ensures AddressBit(16 * i + j, k) == if k < 4 then AddressBit(j, k) else AddressBit(i, k - 4)
  {
    assert Pow2(4) == 16;
    BlockBits(4, 16, i, j, k);
  }

  /** Whether the word at offset `j` of a block belongs to the even row `k < 4`. */
  predicate InEvenRow(j: int, k: nat) {
    match k
    case 0 => j % 2 == 0
    case 1 => j % 4 < 2
    case 2 => j % 8 < 4
    case _ => j < 8
  }

  lemma OffsetBits(j: nat, k: nat)
    requires j < 16 && k < 4
    ensures AddressBit(j, k) == !InEvenRow(j, k)
  {
    assert k >= 1 ==> AddressBit(j, k) == AddressBit(j / 2, k - 1);
    assert k >= 2 ==> AddressBit(j / 2, k - 1) == AddressBit(j / 2 / 2, k - 2);
    assert k >= 3 ==> AddressBit(j / 2 / 2, k - 2) == AddressBit(j / 2 / 2 / 2, k - 3);
  }

  lemma EvenRow(i: nat, k: nat)
    requires k < 4
    ensures forall n: nat | 16 * i <= n < 16 * i + 16 :: Rows(k, false)(n) == InEvenRow(n - 16 * i, k)
  {
    forall n: nat | 16 * i <= n < 16 * i + 16
      ensures Rows(k, false)(n) == InEvenRow(n - 16 * i, k)
    {
      SixteenBits(i, n - 16 * i, k);
      OffsetBits(n - 16 * i, k);
    }
  }

  /** Whether row `k` has the word at offset `o` of group `g` of four words. */
  predicate InGroup(g: nat, o: nat, k: nat) {
    match k
    case 0 => o % 2 == 0
    case 1 => o < 2
    case 2 => g % 2 == 0
    case _ => g < 2
  }

  lemma GroupRow(words: seq<bv32>, i: nat, g: nat, k: nat)
    requires 16 * i + 16 <= |words| && g < 4 && k < 4
    ensures var t := 16 * i + 4 * g;
            Even(words, t + 4, k)
            == Plus(Plus(Plus(Plus(Even(words, t, k), words[t], InGroup(g, 0, k)), words[t + 1], InGroup(g, 1, k)),
                         words[t + 2], InGroup(g, 2, k)), words[t + 3], InGroup(g, 3, k))
  {
    hide XorW, Plus, AddressBit, Rows, WordXor;
    var t := 16 * i + 4 * g;
    EvenRow(i, k);
    FourWords(words, t, Rows(k, false));
    assert InEvenRow(4 * g, k) == InGroup(g, 0, k) && InEvenRow(4 * g + 1, k) == InGroup(g, 1, k);
    assert InEvenRow(4 * g + 2, k) == InGroup(g, 2, k) && InEvenRow(4 * g + 3, k) == InGroup(g, 3, k);
  }

  /** A group of four words: rp4 takes every other word and rp6 the first two; rp8 takes all four in the first
      and third group and none in the others; rp10 takes none of the second half. */
  lemma Group(words: seq<bv32>, i: nat, g: nat)
    requires 16 * i + 16 <= |words| && g < 4
    ensures var t := 16 * i + 4 * g;
            && Even(words, t + 4, 0) == XorW(XorW(Even(words, t, 0), words[t]), words[t + 2])
            && Even(words, t + 4, 1) == XorW(XorW(Even(words, t, 1), words[t]), words[t + 1])
            && Even(words, t + 4, 2)
               == (if g % 2 == 0 then PlusFour(Even(words, t, 2), words, t) else Even(words, t, 2))
            && (g >= 2 ==> Even(words, t + 4, 3) == Even(words, t, 3))
  {
    hide XorW, Even;
    GroupRow(words, i, g, 0);
    GroupRow(words, i, g, 1);
    GroupRow(words, i, g, 2);
    GroupRow(words, i, g, 3);
  }

  function PlusFour(x: bv32, words: seq<bv32>, t: nat): bv32
    requires t + 4 <= |words|
  {
    XorW(XorW(XorW(XorW(x, words[t]), words[t + 1]), words[t + 2]), words[t + 3])
  }

  function Plus(x: bv32, w: bv32, selected: bool): bv32 {
    if selected then XorW(x, w) else x
  }

  lemma FourWords(words: seq<bv32>, t: nat, sel: Selection)
    requires t + 4 <= |words|
    ensures WordXor(words, t + 4, sel)
         == Plus(Plus(Plus(Plus(WordXor(words, t, sel), words[t], sel(t)), words[t + 1], sel(t + 1)),
                      words[t + 2], sel(t + 2)), words[t + 3], sel(t + 3))
  {
    hide XorW;
    assert WordXor(words, t + 1, sel) == Plus(WordXor(words, t, sel), words[t], sel(t));
    assert WordXor(words, t + 2, sel) == Plus(WordXor(words, t + 1, sel), words[t + 1], sel(t + 1));
    assert WordXor(words, t + 3, sel) == Plus(WordXor(words, t + 2, sel), words[t + 2], sel(t + 2));
  }

  /** rp8: the first four words through `tmppar`. */
  lemma FourAtOnce(x: bv32, words: seq<bv32>, t: nat)
    requires t + 4 <= |words|
    ensures XorW(x, XorW(XorW(XorW(words[t], words[t + 1]), words[t + 2]), words[t + 3])) == PlusFour(x, words, t)
  {
    hide XorW;
    XorWAssociative(x, words[t], words[t + 1]);
    XorWAssociative(x, XorW(words[t], words[t + 1]), words[t + 2]);
    XorWAssociative(x, XorW(XorW(words[t], words[t + 1]), words[t + 2]), words[t + 3]);
  }

  /** rp10: the first eight words through `tmppar`. */
  lemma FirstHalf(words: seq<bv32>, i: nat)
    requires 16 * i + 16 <= |words|
    ensures var s := 16 * i;
            Even(words, s + 8, 3) == XorW(Even(words, s, 3), Run(words, s, 8))
  {
    hide XorW, AddressBit, Rows;
    var s, sel := 16 * i, Rows(3, false);
    EvenRow(i, 3);
    RunSelected(words, s, 8, sel);
  }

  /** rp12, rp14 and rp16: whole blocks through `tmppar`. */
  lemma HighRow(words: seq<bv32>, i: nat, k: nat)
    requires 16 * i + 16 <= |words| && 4 <= k
    ensures var s := 16 * i;
            Even(words, s + 16, k)
            == if AddressBit(i, k - 4) then Even(words, s, k) else XorW(Even(words, s, k), Run(words, s, 16))
  {
    var s, sel := 16 * i, Rows(k, false);
    forall n: nat | s <= n < s + 16
      ensures sel(n) == !AddressBit(i, k - 4)
    {
      SixteenBits(i, n - s, k);
    }
    hide XorW;
    if AddressBit(i, k - 4) {
      RunSkipped(words, s, 16, sel);
    } else {
      RunSelected(words, s, 16, sel);
    }
  }

  /** `tmppar` over four more words. */
  lemma RunOfFour(words: seq<bv32>, s: nat, n: nat)
    requires 1 <= n && s + n + 4 <= |words|
    ensures Run(words, s, n + 4) == PlusFour(Run(words, s, n), words, s + n)
  {
    hide XorW;
    assert Run(words, s, n + 2) == XorW(XorW(Run(words, s, n), words[s + n]), words[s + n + 1]);
  }

  lemma FirstRun(words: seq<bv32>, s: nat)
    requires s + 4 <= |words|
    ensures Run(words, s, 4) == XorW(XorW(XorW(words[s], words[s + 1]), words[s + 2]), words[s + 3])
  {
    hide XorW;
    assert Run(words, s, 2) == XorW(words[s], words[s + 1]);
  }

  /** par: every word through `tmppar`. */
  lemma WholeBlock(words: seq<bv32>, i: nat)
    requires 16 * i + 16 <= |words|
    ensures Total(words, 16 * i + 16) == XorW(Total(words, 16 * i), Run(words, 16 * i, 16))
  {
    RunSelected(words, 16 * i, 16, All());
  }

  // ----- Folded accumulators

  /** A folded word accumulator is a row sum of bytes. */
  lemma FoldedWords(buf: seq<bv8>, bigEndian: bool, k: nat, v: bool)
    requires |buf| % 4 == 0 && 2 <= k
    ensures FoldWord(WordXor(WordsOf(buf, bigEndian), |buf| / 4, Rows(k - 2, v))) == XorWhere(buf, Rows(k, v))
  {
    hide FoldWord, WordXor, XorWhere, WordsOf;
    forall i: nat | i < |buf|
      ensures Rows(k, v)(i) == Rows(k - 2, v)(i / 4)
    {
      assert AddressBit(i, k) == AddressBit(i / 2, k - 1) == AddressBit(i / 2 / 2, k - 2);
      assert i / 2 / 2 == i / 4;
    }
    FoldAccumulator(buf, bigEndian, Rows(k, v), Rows(k - 2, v));
  }

  /** A folded accumulator is the sum of the bytes whose index has bit `k` clear, and the rest of the total is
      the sum of those with bit `k` set. */
  lemma FoldedRow(buf: seq<bv8>, bigEndian: bool, k: nat)
    requires |buf| % 4 == 0 && 2 <= k
    ensures FoldWord(Even(WordsOf(buf, bigEndian), |buf| / 4, k - 2)) == XorWhere(buf, Rows(k, false))
    ensures Xor(XorWhere(buf, All()), XorWhere(buf, Rows(k, false))) == XorWhere(buf, Rows(k, true))
  {
    hide FoldWord, WordXor, XorWhere, Xor, WordsOf;
    FoldedWords(buf, bigEndian, k, false);
    RowPair(buf, k);
  }

  lemma FoldedTotal(buf: seq<bv8>, bigEndian: bool)
    requires |buf| % 4 == 0
    ensures var par := Total(WordsOf(buf, bigEndian), |buf| / 4);
            && FoldWord(par) == XorWhere(buf, All())
            && XorWhere(buf, Rows(1, false)) == (if bigEndian then FoldHigh(par) else FoldLow(par))
            && XorWhere(buf, Rows(1, true)) == (if bigEndian then FoldLow(par) else FoldHigh(par))
            && XorWhere(buf, Rows(0, false)) == (if bigEndian then Byte1(Halve(par)) else Byte0(Halve(par)))
            && XorWhere(buf, Rows(0, true)) == (if bigEndian then Byte0(Halve(par)) else Byte1(Halve(par)))
  {
    hide FoldWord, FoldHigh, FoldLow, Halve, Byte0, Byte1, WordXor, XorWhere, WordsOf;
    FoldAccumulator(buf, bigEndian, All(), All());
    FoldTotal(buf, bigEndian);
  }
}
