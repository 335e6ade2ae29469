/** Conversion between 64-bit numbers and packed decimal, one digit per nibble. */
module Bcd {
  const TWO_64: nat := 0x1_0000_0000_0000_0000

  type u64 = n: nat | n < TWO_64

  // ----- Digits in base ten and sixteen

  datatype Base = Ten | Sixteen

  function Size(base: Base): nat {
    if base == Ten then 10 else 16
  }

  /** `x * base` */
  function Times(base: Base, x: nat): nat {
    if base == Ten then 10 * x else 16 * x
  }

  /** `x / base` */
  function Quotient(base: Base, x: nat): nat {
    if base == Ten then x / 10 else x / 16
  }

  /** `x % base` */
  function Digit(base: Base, x: nat): nat {
    if base == Ten then x % 10 else x % 16
  }

  /** `x * base^k` */
  function Scale(base: Base, x: nat, k: nat): (r: nat)
    ensures x >= 1 ==> r >= 1
  {
    if k == 0 then x else Times(base, Scale(base, x, k - 1))
  }

  function Power(base: Base, k: nat): nat {
    Scale(base, 1, k)
  }

  /** The number with the given digits, least significant first. */
  function Value(base: Base, d: seq<nat>): nat {
    if d == [] then 0 else d[0] + Times(base, Value(base, d[1..]))
  }

  /** The `k` lowest digits of a number, least significant first. */
  function Digits(base: Base, n: nat, k: nat): (d: seq<nat>)
    ensures |d| == k && Below(d, Size(base))
  {
    if k == 0 then [] else [Digit(base, n)] + Digits(base, Quotient(base, n), k - 1)
  }

  /** The number without its `k` lowest digits. */
  function Shifted(base: Base, n: nat, k: nat): nat {
    if k == 0 then n else Shifted(base, Quotient(base, n), k - 1)
  }

  predicate Below(d: seq<nat>, limit: nat) {
    forall i | 0 <= i < |d| :: d[i] < limit
  }

  lemma ScaleStep(base: Base, x: nat, k: nat)
    requires k >= 1
    ensures Scale(base, x, k) == Times(base, Scale(base, x, k - 1))
  {
  }

  lemma {:induction false} ScaleAdd(base: Base, x: nat, y: nat, k: nat)
    ensures Scale(base, x + y, k) == Scale(base, x, k) + Scale(base, y, k)
  {
    if k > 0 {
      ScaleAdd(base, x, y, k - 1);
    }
  }

  lemma {:induction false} ScaleTwice(base: Base, x: nat, i: nat, j: nat)
    ensures Scale(base, Scale(base, x, i), j) == Scale(base, x, i + j)
  {
    if j > 0 {
      ScaleTwice(base, x, i, j - 1);
    }
  }

  /** `x * y`. Proofs that only need it as a term hide the definition. */
  function Product(x: nat, y: nat): nat {
    x * y
  }

  lemma TimesProduct(base: Base, x: nat, p: nat)
    ensures Times(base, Product(x, p)) == Product(x, Times(base, p))
  {
    assert x * (10 * p) == 10 * (x * p);
    assert x * (16 * p) == 16 * (x * p);
  }

  lemma ProductWithOne(x: nat)
    ensures Product(x, 1) == x
  {
  }

  lemma {:induction false} ScaleIsProduct(base: Base, x: nat, k: nat)
    ensures Scale(base, x, k) == Product(x, Power(base, k)) && Power(base, k) >= 1
  {
    hide Product, Times;
    if k > 0 {
      ScaleIsProduct(base, x, k - 1);
      TimesProduct(base, x, Power(base, k - 1));
    } else {
      ProductWithOne(x);
    }
  }

  lemma {:induction false} ScaleMonotone(base: Base, x: nat, y: nat, k: nat)
    requires x < y
    ensures Scale(base, x, k) < Scale(base, y, k)
  {
    if k > 0 {
      ScaleMonotone(base, x, y, k - 1);
    }
  }

  lemma {:induction false} ValueSnoc(base: Base, d: seq<nat>, x: nat)
    ensures Value(base, d + [x]) == Value(base, d) + Scale(base, x, |d|)
  {
    if d == [] {
      assert ([] + [x])[1..] == [];
    } else {
      assert (d + [x])[1..] == d[1..] + [x];
      ValueSnoc(base, d[1..], x);
    }
  }

  lemma {:induction false} ValueBound(base: Base, d: seq<nat>)
    requires Below(d, Size(base))
    ensures Value(base, d) < Power(base, |d|)
  {
    if d != [] {
      ValueBound(base, d[1..]);
    }
  }

  /** The digits of the number of a digit sequence are that sequence. */
  lemma {:induction false} DigitsOfValue(base: Base, d: seq<nat>)
    requires Below(d, Size(base))
    ensures Digits(base, Value(base, d), |d|) == d
  {
    if d != [] {
      DigitsOfValue(base, d[1..]);
      FirstDigit(base, d[0], Value(base, d[1..]));
      hide Times, Digit, Quotient;
      assert d == [d[0]] + d[1..];
    }
  }

  lemma FirstDigit(base: Base, x: nat, v: nat)
    requires x < Size(base)
    ensures Digit(base, x + Times(base, v)) == x && Quotient(base, x + Times(base, v)) == v
  {
    if base == Ten {
      FirstOfTen(x, v);
    } else {
      FirstOfSixteen(x, v);
    }
  }

  lemma FirstOfTen(x: nat, v: nat)
    requires x < 10
    ensures (x + 10 * v) % 10 == x && (x + 10 * v) / 10 == v
  {
  }

  lemma FirstOfSixteen(x: nat, v: nat)
    requires x < 16
    ensures (x + 16 * v) % 16 == x && (x + 16 * v) / 16 == v
  {
  }

  lemma SmallMultiple(m: int, k: int)
    ensures -m < m * k < m ==> k == 0
  {
    if k >= 1 {
      assert m * k == m + m * (k - 1);
    } else if k <= -1 {
      assert m * k == -m + m * (k + 1);
    }
  }

  lemma DivisionIs(n: nat, m: nat, q: nat, r: nat)
    requires m >= 1 && r < m && n == Product(q, m) + r
    ensures n / m == q && n % m == r
  {
    assert Product(q, m) == m * q;
    var k := n / m - q;
    assert n == m * (n / m) + n % m;
    assert m * k == m * (n / m) - m * q;
    SmallMultiple(m, k);
  }

  /** A number is its lowest digits and the scaled rest. */
  lemma {:induction false} DigitsAndRest(base: Base, n: nat, k: nat)
    ensures n == Value(base, Digits(base, n, k)) + Scale(base, Shifted(base, n, k), k)
  {
    if k > 0 {
      DigitsAndRest(base, Quotient(base, n), k - 1);
      var d := Digits(base, n, k);
      assert d[1..] == Digits(base, Quotient(base, n), k - 1);
    }
  }

  /** The number of the `k` lowest digits is the number modulo `base^k`. */
  lemma ValueOfDigits(base: Base, n: nat, k: nat)
    ensures Value(base, Digits(base, n, k)) == n % Power(base, k)
  {
    hide Product, Scale, Value, Digits, Shifted;
    var rest := Shifted(base, n, k);
    DigitsAndRest(base, n, k);
    ScaleIsProduct(base, rest, k);
    ValueBound(base, Digits(base, n, k));
    DivisionIs(n, Power(base, k), rest, Value(base, Digits(base, n, k)));
  }

  lemma {:induction false} DigitsSnoc(base: Base, n: nat, k: nat)
    ensures Digits(base, n, k + 1) == Digits(base, n, k) + [Digit(base, Shifted(base, n, k))]
    ensures Shifted(base, n, k + 1) == Quotient(base, Shifted(base, n, k))
  {
    if k > 0 {
      DigitsSnoc(base, Quotient(base, n), k - 1);
    }
  }

  // ----- The converters

  /** `a | b` for `a` below the top nibble of a word and `b` in the top nibble. */
  function OrTopNibble(a: nat, b: nat): nat
    requires a < 0x1000_0000_0000_0000 && b % 0x1000_0000_0000_0000 == 0
  {
    a + b
  }

  /** `ul2bcd`: the sixteen lowest decimal digits, each in its nibble. */
  method Ul2Bcd(n: u64) returns (bcd: u64)
    ensures bcd == Value(Sixteen, Digits(Ten, n, 16))
  {
    hide Digits, Value, Scale, Shifted;
    var dec: nat, word: nat := n, 0;
    NothingYet(n);
    for i := 0 to 16
      invariant dec == Shifted(Ten, n, i)
      invariant word == Scale(Sixteen, Value(Sixteen, Digits(Ten, n, i)), 16 - i)
    {
      TopNibble(n, i);
      if word != 0 {
        word := word / 16;
      }
      word := OrTopNibble(word, dec % 10 * 0x1000_0000_0000_0000);
      dec := dec / 10;
    }
    SixteenDigits(Digits(Ten, n, 16));
    bcd := word;
  }

  lemma {:induction false} ZeroScaled(k: nat)
    ensures Scale(Sixteen, 0, k) == 0
  {
    if k > 0 {
      ZeroScaled(k - 1);
    }
  }

  lemma NothingYet(n: nat)
    ensures Shifted(Ten, n, 0) == n && Scale(Sixteen, Value(Sixteen, Digits(Ten, n, 0)), 16) == 0
    ensures forall x: nat :: Scale(Sixteen, x, 0) == x
  {
    assert Value(Sixteen, Digits(Ten, n, 0)) == 0;
    hide Scale;
    ZeroScaled(16);
    forall x: nat
      ensures Scale(Sixteen, x, 0) == x
    {
      Unscaled(x);
    }
  }

  lemma Unscaled(x: nat)
    ensures Scale(Sixteen, x, 0) == x
  {
  }

  lemma SixteenPowers()
    ensures Power(Sixteen, 15) == 0x1000_0000_0000_0000 && Power(Sixteen, 16) == TWO_64
  {
    assert Power(Sixteen, 4) == 0x1_0000;
    ScaleTwice(Sixteen, 1, 4, 4);
    assert Scale(Sixteen, 0x1_0000, 4) == 0x1_0000_0000;
    ScaleTwice(Sixteen, 1, 8, 4);
    assert Scale(Sixteen, 0x1_0000_0000, 4) == 0x1_0000_0000_0000;
    ScaleTwice(Sixteen, 1, 12, 3);
    assert Scale(Sixteen, 0x1_0000_0000_0000, 3) == 0x1000_0000_0000_0000;
  }

  lemma SixteenDigits(d: seq<nat>)
    requires |d| == 16 && Below(d, 16)
    ensures Value(Sixteen, d) < TWO_64
  {
    SixteenPowers();
    ValueBound(Sixteen, d);
  }

  /** Shifting the digits so far down by a nibble and putting the next digit into the top nibble. */
  lemma TopNibble(n: nat, i: nat)
    requires i < 16
    ensures var v, x := Value(Sixteen, Digits(Ten, n, i)), Shifted(Ten, n, i) % 10;
            var low := Scale(Sixteen, v, 15 - i);
            && Scale(Sixteen, v, 16 - i) == 16 * low && low < 0x1000_0000_0000_0000
            && Scale(Sixteen, Value(Sixteen, Digits(Ten, n, i + 1)), 15 - i) == low + x * 0x1000_0000_0000_0000
    ensures Shifted(Ten, n, i + 1) == Shifted(Ten, n, i) / 10
  {
    hide Scale, Value, Digits, Shifted;
    var d, x := Digits(Ten, n, i), Shifted(Ten, n, i) % 10;
    var v := Value(Sixteen, d);
    ScaleStep(Sixteen, v, 16 - i);
    DigitsSnoc(Ten, n, i);
    ValueSnoc(Sixteen, d, x);
    ScaleAdd(Sixteen, v, Scale(Sixteen, x, i), 15 - i);
    ScaleTwice(Sixteen, x, i, 15 - i);
    ScaleIsProduct(Sixteen, x, 15);
    SixteenPowers();
    ValueBound(Sixteen, d);
    ScaleMonotone(Sixteen, v, Power(Sixteen, i), 15 - i);
    ScaleTwice(Sixteen, 1, i, 15 - i);
  }

  /** Arithmetic on 64-bit words wraps around. */
  function Wrap(x: nat): (r: u64)
    ensures x < TWO_64 ==> r == x
  {
    x % TWO_64
  }

  lemma BeforeFirst(bcd: u64)
    ensures var d := Digits(Sixteen, bcd, 16);
            |d| == 16 && Below(d, 16) && Value(Sixteen, d[..16]) == bcd && Value(Ten, d[16..]) == 0
  {
    SixteenPowers();
    ValueOfDigits(Sixteen, bcd, 16);
    var d := Digits(Sixteen, bcd, 16);
    assert d[..16] == d && d[16..] == [];
    hide Digits, Scale;
  }

  /** `(word >> 4 * k) & 0xF` */
  function Nibble(word: nat, k: nat): nat {
    word / Power(Sixteen, k) % 16
  }

  /** `word & (16^k - 1)` */
  function LowNibbles(word: nat, k: nat): nat {
    word % Power(Sixteen, k)
  }

  /** `bcd2ul`: the number whose decimal digits are the sixteen nibbles. The sums never leave 64 bits, not even
      for nibbles above nine, so their wrap-around has no effect. */
  method Bcd2Ul(bcd: u64) returns (dec: u64)
    ensures dec == Value(Ten, Digits(Sixteen, bcd, 16))
  {
    ghost var d := Digits(Sixteen, bcd, 16);
    var word: nat, sum: nat, count: nat := bcd, 0, 16;
    BeforeFirst(bcd);
    hide Nibble, LowNibbles, Digits, Value, Scale, Wrap, Below;
    for i := 0 to 16
      invariant count == 16 - i
      invariant sum == Value(Ten, d[count..]) < TWO_64
      invariant word == Value(Sixteen, d[..count])
    {
      NextNibble(d, count - 1);
      if sum != 0 {
        sum := Wrap(sum * 10);
      }
      sum := Wrap(sum + Nibble(word, count - 1));
      word := LowNibbles(word, 15 - i);
      count := count - 1;
    }
    assert d[0..] == d;
    dec := sum;
  }

  /** The nibble at position `k`, the part of the word below it, and the decimal sum with it. */
  lemma NextNibble(d: seq<nat>, k: nat)
    requires |d| == 16 && k < 16 && Below(d, 16)
    ensures var word := Value(Sixteen, d[..k + 1]);
            Nibble(word, k) == d[k] && LowNibbles(word, k) == Value(Sixteen, d[..k])
    ensures Value(Ten, d[k..]) == d[k] + 10 * Value(Ten, d[k + 1..]) < TWO_64
  {
    NibbleAt(d, k);
    hide Nibble, LowNibbles, Scale;
    assert d[k..][1..] == d[k + 1..];
    DecimalBound(d[k..]);
    TenPower(|d[k..]|);
  }

  lemma NibbleAt(d: seq<nat>, k: nat)
    requires |d| == 16 && k < 16 && Below(d, 16)
    ensures var word := Value(Sixteen, d[..k + 1]);
            Nibble(word, k) == d[k] && LowNibbles(word, k) == Value(Sixteen, d[..k])
  {
    hide Product, Scale, Value;
    assert d[..k + 1] == d[..k] + [d[k]];
    ValueSnoc(Sixteen, d[..k], d[k]);
    ValueBound(Sixteen, d[..k]);
    ScaleIsProduct(Sixteen, d[k], k);
    DivisionIs(Value(Sixteen, d[..k + 1]), Power(Sixteen, k), d[k], Value(Sixteen, d[..k]));
  }

  /** Sixteen nibbles read in decimal stay far below 2^64. */
  lemma {:induction false} DecimalBound(d: seq<nat>)
    requires Below(d, 16)
    ensures Value(Ten, d) + 2 <= 2 * Power(Ten, |d|)
  {
    if d != [] {
      DecimalBound(d[1..]);
    }
  }

  lemma {:induction false} TenPower(k: nat)
    requires k <= 16
    ensures Power(Ten, k) <= 10000000000000000
    ensures Power(Ten, 16) == 10000000000000000
  {
    assert Power(Ten, 4) == 10000;
    ScaleTwice(Ten, 1, 4, 4);
    assert Scale(Ten, 10000, 4) == 100000000;
    ScaleTwice(Ten, 1, 8, 4);
    assert Scale(Ten, 100000000, 4) == 1000000000000;
    ScaleTwice(Ten, 1, 12, 4);
    assert Scale(Ten, 1000000000000, 4) == 10000000000000000;
    if k < 16 {
      ScaleTwice(Ten, 1, k, 16 - k);
      ScaleGrows(Power(Ten, k), 16 - k);
    }
  }

  lemma {:induction false} ScaleGrows(x: nat, k: nat)
    ensures Scale(Ten, x, k) >= x
  {
    if k > 0 {
      ScaleGrows(x, k - 1);
    }
  }

  /** Nibble `k` of a packed decimal is decimal digit `k` of the number, and digit `k` read from a word is its
      nibble `k`. */
  lemma {:induction false} DigitPlace(base: Base, n: nat, count: nat, k: nat)
    requires k < count
    ensures Digits(base, n, count)[k] == Digit(base, Shifted(base, n, k))
    decreases k
  {
    if k > 0 {
      DigitPlace(base, Quotient(base, n), count - 1, k - 1);
    }
  }

  /** The digits left of position `k` are what division by the power leaves. */
  lemma ShiftedIsQuotient(base: Base, n: nat, k: nat)
    ensures Shifted(base, n, k) == n / Power(base, k)
  {
    hide Product, Scale, Value, Digits, Shifted;
    var rest := Shifted(base, n, k);
    DigitsAndRest(base, n, k);
    ScaleIsProduct(base, rest, k);
    ValueBound(base, Digits(base, n, k));
    DivisionIs(n, Power(base, k), rest, Value(base, Digits(base, n, k)));
  }

  /** What `ul2bcd` returns, place by place. */
  lemma NibbleIsDigit(n: u64, bcd: nat, k: nat)
    requires bcd == Value(Sixteen, Digits(Ten, n, 16)) && k < 16
    ensures bcd / Power(Sixteen, k) % 16 == n / Power(Ten, k) % 10
  {
    hide Digits, Value, Shifted, Scale;
    DigitsOfValue(Sixteen, Digits(Ten, n, 16));
    DigitPlace(Sixteen, bcd, 16, k);
    DigitPlace(Ten, n, 16, k);
    ShiftedIsQuotient(Sixteen, bcd, k);
    ShiftedIsQuotient(Ten, n, k);
  }

  // ----- Round trips

  predicate IsPackedDecimal(bcd: u64) {
    Below(Digits(Sixteen, bcd, 16), 10)
  }

  /** There and back: a number loses all but its sixteen lowest decimal digits. */
  method ThereAndBack(n: u64) returns (m: u64)
    ensures m == n % 10000000000000000
  {
    hide Digits, Value, Scale;
    var bcd := Ul2Bcd(n);
    m := Bcd2Ul(bcd);
    DigitsOfValue(Sixteen, Digits(Ten, n, 16));
    ValueOfDigits(Ten, n, 16);
    TenPower(16);
  }

  /** Back and there: a packed decimal word comes back unchanged, any other word does not. */
  method BackAndThere(bcd: u64) returns (again: u64)
    ensures again == bcd <==> IsPackedDecimal(bcd)
  {
    hide Digits, Value, Scale;
    var n := Bcd2Ul(bcd);
    again := Ul2Bcd(n);
    var d := Digits(Sixteen, bcd, 16);
    ValueOfDigits(Sixteen, bcd, 16);
    SixteenPowers();
    if IsPackedDecimal(bcd) {
      DigitsOfValue(Ten, d);
    } else {
      DigitsOfValue(Sixteen, Digits(Ten, n, 16));
      assert Below(Digits(Ten, n, 16), 10);
    }
  }
}
