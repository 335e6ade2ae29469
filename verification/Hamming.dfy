/** The code itself, over sets of bit positions: which code bits a block has, what a pattern of bit errors
    does to them, and what the decoder concludes from the difference of two codes.

    A block of `2^width` data bits (256 bytes: width 11, 512 bytes: width 12) has a pair of code bits for each
    of the `width` address bits of its data bits. The 24 code bits are numbered as they lie in three bytes:
    the row parities rp0..rp7, then rp8..rp15, then two bits for rp16 and rp17 followed by cp0..cp5. */
module Hamming {
  import opened Bits

  const CODE_BITS: nat := 24

  /** The address bit that code bit `c` is about: the low three are the column parities. */
  function AddressOf(c: nat): nat {
    (c / 2 + 3) % 12
  }

  /** The code bit over the data bits whose address bit `k` is `v`. */
  function CodeBit(k: nat, v: bool): (c: nat)
    requires k < 12
    ensures c < CODE_BITS && AddressOf(c) == k && (c % 2 == 1) == v
  {
    2 * ((k + 9) % 12) + if v then 1 else 0
  }

  lemma CodeBitOf(c: nat)
    requires c < CODE_BITS
    ensures AddressOf(c) < 12 && c == CodeBit(AddressOf(c), c % 2 == 1)
  {
    var pair := c / 2;
    assert pair < 12 && AddressOf(c) == if pair < 9 then pair + 3 else pair - 9;
    assert (AddressOf(c) + 9) % 12 == pair;
  }

  /** The code bits of a block whose set bits are `data`: a code bit is set exactly when an even number of
      the data bits it covers are set. Code bits without an address bit in this block are always set. */
  function Ecc(data: set<nat>, width: nat): set<nat> {
    set c: nat | 0 <= c < CODE_BITS && (AddressOf(c) < width ==> !Odd(Having(data, AddressOf(c), c % 2 == 1)))
  }

  datatype Verdict = Clean | Flip(position: nat) | CodeError | Uncorrectable

  predicate Opposed(difference: set<nat>, k: nat)
    requires k < 12
  {
    (CodeBit(k, false) in difference) != (CodeBit(k, true) in difference)
  }

  /** What the decoder concludes from the positions at which the stored and the computed code differ. */
  function Decide(difference: set<nat>, width: nat): Verdict
    requires width <= 12
  {
    if difference == {} then Clean
    else if forall k: nat | k < width :: Opposed(difference, k) then Flip(Locate(difference, 0, width))
    else if |difference| == 1 then CodeError
    else Uncorrectable
  }

  /** The address spelled by the odd code bits for the address bits from `k` on. */
  function Locate(difference: set<nat>, k: nat, width: nat): nat
    requires k <= width <= 12
    decreases width - k
  {
    if k == width then 0
    else 2 * Locate(difference, k + 1, width) + if CodeBit(k, true) in difference then 1 else 0
  }

  lemma {:induction false} LocateBits(difference: set<nat>, k: nat, width: nat)
    requires k <= width <= 12
    ensures Locate(difference, k, width) < Pow2(width - k)
    ensures forall j: nat | j < width - k ::
              AddressBit(Locate(difference, k, width), j) == (CodeBit(k + j, true) in difference)
    decreases width - k
  {
    hide CodeBit, AddressBit;
    if k < width {
      LocateBits(difference, k + 1, width);
      var rest, here := Locate(difference, k + 1, width), Locate(difference, k, width);
      forall j: nat | j < width - k
        ensures AddressBit(here, j) == (CodeBit(k + j, true) in difference)
      {
        DoubledBits(rest, CodeBit(k, true) in difference, j);
        if j > 0 {
          assert AddressBit(rest, j - 1) == (CodeBit(k + 1 + (j - 1), true) in difference);
        }
      }
      DoubledBound(rest, CodeBit(k, true) in difference, width - k);
    } else {
      assert Pow2(0) == 1;
    }
  }

  lemma DoubledBits(rest: nat, low: bool, j: nat)
    ensures AddressBit(2 * rest + if low then 1 else 0, j) == if j == 0 then low else AddressBit(rest, j - 1)
  {
    assert (2 * rest + if low then 1 else 0) / 2 == rest;
  }

  lemma DoubledBound(rest: nat, low: bool, k: nat)
    requires k >= 1 && rest < Pow2(k - 1)
    ensures 2 * rest + (if low then 1 else 0) < Pow2(k)
  {
  }

  function AllCodeBits(): set<nat> {
    set c: nat | 0 <= c < CODE_BITS && AddressOf(c) < 12
  }

  // ----- What errors do to the code

  /** The code bits changed by flipping the data bits `errors`. */
  function Signature(errors: set<nat>, width: nat): set<nat> {
    set c: nat | 0 <= c < CODE_BITS && AddressOf(c) < width && Odd(Having(errors, AddressOf(c), c % 2 == 1))
  }

  lemma HavingSymDiff(a: set<nat>, b: set<nat>, k: nat, v: bool)
    ensures Odd(Having(SymDiff(a, b), k, v)) == (Odd(Having(a, k, v)) != Odd(Having(b, k, v)))
  {
    assert Having(SymDiff(a, b), k, v) == SymDiff(Having(a, k, v), Having(b, k, v));
    OddSymDiff(Having(a, k, v), Having(b, k, v));
  }

  /** The codes of two blocks differ by the signature of the difference of the blocks. */
  lemma CodeDifference(a: set<nat>, b: set<nat>, width: nat)
    ensures SymDiff(Ecc(a, width), Ecc(b, width)) == Signature(SymDiff(a, b), width)
  {
    forall c: nat | c < CODE_BITS
      ensures c in SymDiff(Ecc(a, width), Ecc(b, width)) <==> c in Signature(SymDiff(a, b), width)
    {
      HavingSymDiff(a, b, AddressOf(c), c % 2 == 1);
    }
  }

  /** The code is affine: the code of a sum is the sum of the codes and of the all-ones code. */
  lemma CodeIsAffine(a: set<nat>, b: set<nat>, width: nat)
    ensures Ecc(SymDiff(a, b), width)
         == SymDiff(SymDiff(Ecc(a, width), Ecc(b, width)), AllCodeBits())
  {
    CodeDifference(a, b, width);
  }

  /** Each address bit splits the errors in two, so both code bits of a pair change alike exactly when the
      number of errors is even. */
  lemma PairParity(errors: set<nat>, width: nat, k: nat)
    requires k < width <= 12
    ensures Opposed(Signature(errors, width), k) <==> Odd(errors)
  {
    var zeros, ones := Having(errors, k, false), Having(errors, k, true);
    assert errors == zeros + ones;
    assert CodeBit(k, false) in Signature(errors, width) <==> Odd(zeros);
    assert CodeBit(k, true) in Signature(errors, width) <==> Odd(ones);
  }

  predicate Within(positions: set<nat>, width: nat) {
    forall p | p in positions :: p < Pow2(width)
  }

  lemma SingleSignature(p: nat, width: nat, k: nat, v: bool)
    requires k < width <= 12
    ensures CodeBit(k, v) in Signature({p}, width) <==> AddressBit(p, k) == v
  {
    assert Having({p}, k, v) == if AddressBit(p, k) == v then {p} else {};
  }

  /** A code difference whose true bits spell `p` is decoded to `p`. */
  lemma LocateIs(difference: set<nat>, p: nat, width: nat)
    requires width <= 12 && p < Pow2(width)
    requires forall k: nat | k < width :: CodeBit(k, true) in difference <==> AddressBit(p, k)
    ensures Locate(difference, 0, width) == p
  {
    LocateBits(difference, 0, width);
    var q := Locate(difference, 0, width);
    forall k: nat | k < width
      ensures AddressBit(q, k) == AddressBit(p, k)
    {
      assert AddressBit(q, k) == (CodeBit(0 + k, true) in difference);
    }
    SameAddressBitsSameNumber(q, p, width);
  }

  lemma DifferingBit(p: nat, q: nat, width: nat) returns (k: nat)
    requires p < Pow2(width) && q < Pow2(width) && p != q
    ensures k < width && AddressBit(p, k) != AddressBit(q, k)
  {
    if forall j: nat | j < width :: AddressBit(p, j) == AddressBit(q, j) {
      SameAddressBitsSameNumber(p, q, width);
    }
    k :| k < width && AddressBit(p, k) != AddressBit(q, k);
  }

  lemma NoSignature(width: nat)
    ensures Signature({}, width) == {}
  {
    assert forall c: nat :: Having({}, AddressOf(c), c % 2 == 1) == {};
  }

  /** The bit an odd number of errors is decoded to: the sum of their addresses, address bit by address bit. */
  predicate AddressSum(q: nat, errors: set<nat>, width: nat) {
    q < Pow2(width) && forall k: nat | k < width :: AddressBit(q, k) == Odd(Having(errors, k, true))
  }

  /** The errors cancel: each address bit is set in an even number of them. */
  predicate Cancelling(errors: set<nat>, width: nat) {
    forall k: nat | k < width :: !Odd(Having(errors, k, true))
  }

  lemma SignatureBit(errors: set<nat>, width: nat, k: nat, v: bool)
    requires k < width <= 12
    ensures CodeBit(k, v) in Signature(errors, width) <==> Odd(Having(errors, k, v))
  {
  }

  lemma OddVerdict(errors: set<nat>, width: nat)
    requires 1 <= width <= 12 && Odd(errors)
    ensures Decide(Signature(errors, width), width).Flip?
    ensures AddressSum(Decide(Signature(errors, width), width).position, errors, width)
  {
    hide Signature, Having, Odd, Pow2, AddressBit, CodeBit, AddressOf, Locate;
    var s := Signature(errors, width);
    LocateBits(s, 0, width);
    forall k: nat | k < width
      ensures Opposed(s, k) && AddressBit(Locate(s, 0, width), k) == Odd(Having(errors, k, true))
    {
      PairParity(errors, width, k);
      SignatureBit(errors, width, k, true);
      assert AddressBit(Locate(s, 0, width), k) == (CodeBit(0 + k, true) in s);
    }
    assert Opposed(s, 0);
  }

  lemma EvenVerdict(errors: set<nat>, width: nat)
    requires 1 <= width <= 12 && !Odd(errors)
    ensures Decide(Signature(errors, width), width) == if Cancelling(errors, width) then Clean else Uncorrectable
  {
    EvenSignature(errors, width);
    EvenEmpty(errors, width);
    hide Signature, Having, Odd, Opposed, Cancelling;
    PairParity(errors, width, 0);
  }

  /** Both code bits of a pair agree for an even number of errors, so the errors leave no trace exactly when
      they cancel. */
  lemma EvenEmpty(errors: set<nat>, width: nat)
    requires width <= 12 && !Odd(errors)
    ensures Signature(errors, width) == {} <==> Cancelling(errors, width)
  {
    hide Having, Odd, CodeBit, AddressOf;
    var s := Signature(errors, width);
    forall k: nat | k < width
      ensures CodeBit(k, true) in s <==> Odd(Having(errors, k, true))
      ensures CodeBit(k, true) in s <==> CodeBit(k, false) in s
    {
      SignatureBit(errors, width, k, true);
      PairParity(errors, width, k);
    }
    forall c | c in s
      ensures CodeBit(AddressOf(c), true) in s && AddressOf(c) < width
    {
      CodeBitOf(c);
    }
  }

  /** A signature is symmetric in pairs when the number of errors is even, so it never has one member. */
  lemma EvenSignature(errors: set<nat>, width: nat)
    requires width <= 12 && !Odd(errors)
    ensures |Signature(errors, width)| != 1
  {
    hide Having, Odd, AddressOf, CodeBit;
    var s := Signature(errors, width);
    if |s| == 1 {
      var c :| c in s;
      CodeBitOf(c);
      PairParity(errors, width, AddressOf(c));
      TwoMembers(s, CodeBit(AddressOf(c), false), CodeBit(AddressOf(c), true));
    }
  }

  /** The verdict for every pattern of data errors when the stored code is intact: an odd number of errors is
      taken for one error at the sum of their addresses, an even number is overlooked exactly when the addresses
      cancel. */
  lemma Classification(errors: set<nat>, width: nat)
    requires 1 <= width <= 12 && Within(errors, width)
    ensures var verdict := Decide(Signature(errors, width), width);
            && (Odd(errors) ==> verdict.Flip? && AddressSum(verdict.position, errors, width))
            && (!Odd(errors) ==> verdict == if Cancelling(errors, width) then Clean else Uncorrectable)
    ensures |errors| == 0 ==> Decide(Signature(errors, width), width) == Clean
    ensures forall p | errors == {p} :: Decide(Signature(errors, width), width) == Flip(p)
    ensures |errors| == 2 ==> Decide(Signature(errors, width), width) == Uncorrectable
  {
    hide Having, Signature, Decide, AddressSum, Cancelling;
    if Odd(errors) {
      OddVerdict(errors, width);
    } else {
      EvenVerdict(errors, width);
    }
    if |errors| == 0 {
      NothingCancels(width);
      assert errors == {};
    }
    forall p | errors == {p}
      ensures Decide(Signature(errors, width), width) == Flip(p)
    {
      OnlyAddressSum(Decide(Signature(errors, width), width).position, p, width);
    }
    if |errors| == 2 {
      var p, q := PairOf(errors);
      TwoNeverCancel(p, q, width);
    }
  }

  lemma NothingCancels(width: nat)
    ensures Cancelling({}, width)
  {
    assert forall k: nat :: Having({}, k, true) == {};
  }

  lemma OnlyAddressSum(q: nat, p: nat, width: nat)
    requires p < Pow2(width) && AddressSum(q, {p}, width)
    ensures q == p
  {
    hide AddressBit, Pow2;
    forall k: nat | k < width
      ensures AddressBit(q, k) == AddressBit(p, k)
    {
      assert Having({p}, k, true) == if AddressBit(p, k) then {p} else {};
    }
    SameAddressBitsSameNumber(q, p, width);
  }

  lemma TwoNeverCancel(p: nat, q: nat, width: nat)
    requires p != q && Within({p, q}, width)
    ensures !Cancelling({p, q}, width)
  {
    hide AddressBit, Pow2;
    var k := DifferingBit(p, q, width);
    assert Having({p, q}, k, true) == if AddressBit(p, k) then {p} else {q};
  }

  /** With an intact stored code, what is left in the buffer after decoding is the written block exactly
      when at most one bit was wrong; an odd number of errors of three or more is silently miscorrected. */
  lemma RestoredIffAtMostOne(written: set<nat>, read: set<nat>, width: nat)
    requires 1 <= width <= 12 && Within(written, width) && Within(read, width)
    ensures Corrected(read, Decide(SymDiff(Ecc(written, width), Ecc(read, width)), width)) == written
       <==> |SymDiff(written, read)| <= 1
  {
    hide Ecc, Signature, Locate;
    var errors := SymDiff(written, read);
    CodeDifference(written, read, width);
    Classification(errors, width);
    var verdict := Decide(Signature(errors, width), width);
    if verdict.Flip? {
      SymDiffCancels(read, written, {verdict.position});
      if |errors| == 1 {
        var p := OnlyMember(errors);
      }
    } else {
      assert |errors| == 0 <==> read == written;
    }
  }

  /** The data after the decoder acted on a verdict. */
  function Corrected(data: set<nat>, verdict: Verdict): set<nat> {
    if verdict.Flip? then SymDiff(data, {verdict.position}) else data
  }

  /** Whatever the stored code is, when the decoder flips a bit the corrected block has the stored code, up
      to code bits that carry no parity; and the flipped bit lies in the block. */
  lemma CorrectionReachesCodeword(data: set<nat>, stored: set<nat>, width: nat)
    requires width <= 12
    requires forall c | c in stored :: c < CODE_BITS
    requires Decide(SymDiff(stored, Ecc(data, width)), width).Flip?
    ensures Decide(SymDiff(stored, Ecc(data, width)), width).position < Pow2(width)
    ensures forall c: nat | c < CODE_BITS && AddressOf(c) < width ::
              c in Ecc(Corrected(data, Decide(SymDiff(stored, Ecc(data, width)), width)), width) <==> c in stored
  {
    hide Signature, Having, Pow2, AddressBit, Opposed, AddressOf, CodeBit, Locate;
    var difference := SymDiff(stored, Ecc(data, width));
    var p := Decide(difference, width).position;
    LocateBits(difference, 0, width);
    FlippedDifference(data, p, width);
    forall c: nat | c < CODE_BITS && AddressOf(c) < width
      ensures c in Ecc(SymDiff(data, {p}), width) <==> c in stored
    {
      forall k: nat | k < width
        ensures AddressBit(p, k) == (CodeBit(k, true) in difference)
      {
        assert AddressBit(p, k) == (CodeBit(0 + k, true) in difference);
      }
      FlippedSignature(difference, p, c, width);
    }
  }

  lemma FlippedDifference(data: set<nat>, p: nat, width: nat)
    ensures SymDiff(Ecc(data, width), Ecc(SymDiff(data, {p}), width)) == Signature({p}, width)
  {
    CodeDifference(data, SymDiff(data, {p}), width);
    hide Ecc, Signature;
    assert SymDiff(data, SymDiff(data, {p})) == {p};
  }

  /** When every pair is opposed, the difference is the signature of the bit it locates. */
  lemma FlippedSignature(difference: set<nat>, p: nat, c: nat, width: nat)
    requires width <= 12 && c < CODE_BITS && AddressOf(c) < width
    requires forall k: nat | k < width :: Opposed(difference, k)
    requires forall k: nat | k < width :: AddressBit(p, k) == (CodeBit(k, true) in difference)
    ensures c in Signature({p}, width) <==> c in difference
  {
    hide Signature, AddressOf, CodeBit;
    var k := AddressOf(c);
    CodeBitOf(c);
    SingleSignature(p, width, k, c % 2 == 1);
    assert Opposed(difference, k);
  }

  // ----- Errors in the data and in the stored code

  predicate CarriesParity(c: nat, width: nat) {
    AddressOf(c) < width
  }

  lemma UntouchedPairs(c: nat, width: nat) returns (j: nat, k: nat)
    requires 3 <= width
    ensures j < width && k < width && j != k && j != AddressOf(c) && k != AddressOf(c)
  {
    j := if AddressOf(c) == 0 then 1 else 0;
    k := if AddressOf(c) <= 1 then 2 else 1;
  }

  /** One or two flipped code bits and no data error. */
  lemma CodeErrorsOnly(flipped: set<nat>, width: nat)
    requires 3 <= width <= 12
    requires forall c | c in flipped :: c < CODE_BITS
    requires 1 <= |flipped| <= 2
    ensures Decide(flipped, width) == if |flipped| == 1 then CodeError else Uncorrectable
  {
    if forall k: nat | k < width :: Opposed(flipped, k) {
      assert Opposed(flipped, 0) && Opposed(flipped, 1) && Opposed(flipped, 2);
      var c0 :| c0 in flipped && AddressOf(c0) == 0;
      var c1 :| c1 in flipped && AddressOf(c1) == 1;
      var c2 :| c2 in flipped && AddressOf(c2) == 2;
      TwoMembers(flipped - {c0}, c1, c2);
    }
  }

  /** One data error and one flipped code bit that carries parity: detected. */
  lemma DataAndParityError(p: nat, c: nat, width: nat)
    requires 3 <= width <= 12 && c < CODE_BITS && CarriesParity(c, width)
    ensures Decide(SymDiff(Signature({p}, width), {c}), width) == Uncorrectable
  {
    hide Signature, AddressOf, CodeBit;
    var s := Signature({p}, width);
    var d := SymDiff(s, {c});
    var i := AddressOf(c);
    CodeBitOf(c);
    SingleSignature(p, width, i, false);
    SingleSignature(p, width, i, true);
    assert !Opposed(d, i);
    var j, k := UntouchedPairs(c, width);
    SingleSignature(p, width, j, AddressBit(p, j));
    SingleSignature(p, width, k, AddressBit(p, k));
    TwoMembers(d, CodeBit(j, AddressBit(p, j)), CodeBit(k, AddressBit(p, k)));
  }

  /** One data error and one flipped code bit that carries no parity: still corrected. */
  lemma DataAndConstantError(p: nat, c: nat, width: nat)
    requires 3 <= width <= 12 && p < Pow2(width) && c < CODE_BITS && !CarriesParity(c, width)
    ensures Decide(SymDiff(Signature({p}, width), {c}), width) == Flip(p)
  {
    hide Signature, AddressOf;
    var d := SymDiff(Signature({p}, width), {c});
    forall k: nat | k < width
      ensures Opposed(d, k) && (CodeBit(k, true) in d <==> AddressBit(p, k))
    {
      SingleSignature(p, width, k, false);
      SingleSignature(p, width, k, true);
    }
    assert Opposed(d, 0);
    LocateIs(d, p, width);
  }

  /** Single error correction and double error detection over the whole codeword of data bits and
      parity-carrying code bits. */
  lemma SingleCorrectionDoubleDetection(written: set<nat>, read: set<nat>, stored: set<nat>, width: nat)
    requires 3 <= width <= 12 && Within(written, width) && Within(read, width)
    requires forall c | c in stored :: c < CODE_BITS
    requires forall c | c in SymDiff(stored, Ecc(written, width)) :: CarriesParity(c, width)
    ensures var verdict := Decide(SymDiff(stored, Ecc(read, width)), width);
            var wrong := |SymDiff(written, read)| + |SymDiff(stored, Ecc(written, width))|;
            && (wrong == 0 ==> verdict == Clean)
            && (wrong <= 1 ==> Corrected(read, verdict) == written)
            && (wrong == 1 ==> verdict.Flip? || verdict == CodeError)
            && (wrong == 2 ==> verdict == Uncorrectable)
  {
    var errors, flipped := SymDiff(written, read), SymDiff(stored, Ecc(written, width));
    EccBound(written, width);
    SymDiffBounds(written, read, stored, Ecc(written, width), width);
    hide Decide, Signature, Pow2, SymDiff, Ecc, CarriesParity, Within;
    DifferenceOfErrors(written, read, stored, width);
    VerdictOnErrors(errors, flipped, width);
    ErrorsUndone(written, read);
  }

  lemma EccBound(data: set<nat>, width: nat)
    ensures forall c | c in Ecc(data, width) :: c < CODE_BITS
  {
  }

  lemma SymDiffBounds(a: set<nat>, b: set<nat>, c: set<nat>, d: set<nat>, width: nat)
    requires Within(a, width) && Within(b, width)
    requires (forall x | x in c :: x < CODE_BITS) && forall x | x in d :: x < CODE_BITS
    ensures Within(SymDiff(a, b), width) && forall x | x in SymDiff(c, d) :: x < CODE_BITS
  {
    hide Pow2;
  }

  lemma ErrorsUndone(written: set<nat>, read: set<nat>)
    ensures SymDiff(written, read) == {} ==> read == written
    ensures forall p | SymDiff(written, read) == {p} :: SymDiff(read, {p}) == written
  {
    forall p | SymDiff(written, read) == {p}
      ensures SymDiff(read, {p}) == written
    {
      SymDiffCancels(read, written, {p});
    }
  }

  lemma VerdictOnErrors(errors: set<nat>, flipped: set<nat>, width: nat)
    requires 3 <= width <= 12 && Within(errors, width)
    requires forall c | c in flipped :: c < CODE_BITS && CarriesParity(c, width)
    ensures var verdict := Decide(SymDiff(Signature(errors, width), flipped), width);
            var wrong := |errors| + |flipped|;
            && (wrong == 0 ==> verdict == Clean)
            && (wrong == 1 && errors == {} ==> verdict == CodeError)
            && (wrong == 1 && errors != {} ==> verdict.Flip? && errors == {verdict.position})
            && (wrong == 2 ==> verdict == Uncorrectable)
  {
    hide Decide, Signature, CarriesParity, Within, Pow2, AddressSum, Cancelling;
    var d := SymDiff(Signature(errors, width), flipped);
    if |flipped| == 0 {
      assert d == Signature(errors, width);
      Classification(errors, width);
      if |errors| == 1 {
        var p := OnlyMember(errors);
      }
    } else if |errors| == 0 {
      assert errors == {};
      NoSignature(width);
      assert d == flipped;
      if |flipped| <= 2 {
        CodeErrorsOnly(flipped, width);
      }
    } else if |errors| == 1 && |flipped| == 1 {
      var p := OnlyMember(errors);
      var c := OnlyMember(flipped);
      DataAndParityError(p, c, width);
    }
  }

  // ----- Any errors in the data and in the stored code

  /** With these code bits flipped, an odd (or even) number of data errors makes exactly one bit of every pair
      differ. */
  predicate TakenForSingle(odd: bool, flipped: set<nat>, width: nat)
    requires width <= 12
  {
    forall k: nat | k < width :: odd != Opposed(flipped, k)
  }

  /** The bit that is flipped then: the sum of the addresses of the errors, changed where a flipped code bit
      stands for a set address bit. */
  predicate DamagedAddress(q: nat, errors: set<nat>, flipped: set<nat>, width: nat)
    requires width <= 12
  {
    && q < Pow2(width)
    && forall k: nat | k < width ::
         AddressBit(q, k) == (Odd(Having(errors, k, true)) != (CodeBit(k, true) in flipped))
  }

  /** The flipped code bits carry no parity. */
  predicate ParityIntact(flipped: set<nat>, width: nat) {
    forall c | c in flipped :: !CarriesParity(c, width)
  }

  lemma DamagedPair(errors: set<nat>, flipped: set<nat>, width: nat, k: nat)
    requires k < width <= 12
    ensures Opposed(SymDiff(Signature(errors, width), flipped), k) <==> Odd(errors) != Opposed(flipped, k)
    ensures CodeBit(k, true) in SymDiff(Signature(errors, width), flipped)
       <==> Odd(Having(errors, k, true)) != (CodeBit(k, true) in flipped)
  {
    hide Signature, Having, Odd, CodeBit;
    PairParity(errors, width, k);
    SignatureBit(errors, width, k, true);
  }

  /** The verdict for every pattern of data errors together with every pattern of flipped code bits. */
  lemma DamagedClassification(errors: set<nat>, flipped: set<nat>, width: nat)
    requires 1 <= width <= 12
    ensures var d := SymDiff(Signature(errors, width), flipped);
            var verdict := Decide(d, width);
            && (verdict == Clean <==> flipped == Signature(errors, width))
            && (verdict.Flip? <==> TakenForSingle(Odd(errors), flipped, width))
            && (verdict.Flip? ==> DamagedAddress(verdict.position, errors, flipped, width))
            && (verdict == CodeError <==> !TakenForSingle(Odd(errors), flipped, width) && |d| == 1)
  {
    hide Signature, Having, Odd, Opposed, CodeBit, Locate, Pow2, AddressBit;
    var d := SymDiff(Signature(errors, width), flipped);
    LocateBits(d, 0, width);
    forall k: nat | k < width
      ensures Opposed(d, k) <==> Odd(errors) != Opposed(flipped, k)
      ensures AddressBit(Locate(d, 0, width), k) == (Odd(Having(errors, k, true)) != (CodeBit(k, true) in flipped))
    {
      DamagedPair(errors, flipped, width, k);
      assert AddressBit(Locate(d, 0, width), k) == (CodeBit(0 + k, true) in d);
    }
    assert Opposed(d, 0) <==> Odd(errors) != Opposed(flipped, 0);
    NothingOpposed(0);
    SameSet(Signature(errors, width), flipped);
  }

  lemma NothingOpposed(k: nat)
    requires k < 12
    ensures !Opposed({}, k)
  {
  }

  lemma SameSet(a: set<nat>, b: set<nat>)
    ensures SymDiff(a, b) == {} <==> a == b
  {
  }

  /** The decoder finds the one wrong data bit exactly when no flipped code bit carries parity. */
  lemma LocatedIff(p: nat, flipped: set<nat>, width: nat)
    requires 1 <= width <= 12 && p < Pow2(width)
    requires forall c | c in flipped :: c < CODE_BITS
    ensures Decide(SymDiff(Signature({p}, width), flipped), width) == Flip(p) <==> ParityIntact(flipped, width)
  {
    hide Decide, Signature, Opposed, CodeBit, AddressOf, Pow2, AddressBit;
    DamagedClassification({p}, flipped, width);
    forall k: nat | k < width
      ensures Odd(Having({p}, k, true)) == AddressBit(p, k)
    {
      assert Having({p}, k, true) == if AddressBit(p, k) then {p} else {};
    }
    hide Having, SymDiff;
    var verdict := Decide(SymDiff(Signature({p}, width), flipped), width);
    if verdict == Flip(p) {
      forall c | c in flipped
        ensures !CarriesParity(c, width)
      {
        CodeBitOf(c);
        if AddressOf(c) < width {
          PairUntouched(flipped, AddressOf(c));
        }
      }
    } else if ParityIntact(flipped, width) {
      forall k: nat | k < width
        ensures !Opposed(flipped, k) && CodeBit(k, true) !in flipped
      {
        IntactPair(flipped, width, k);
      }
      SameAddress(verdict.position, p, width);
    }
  }

  lemma PairUntouched(flipped: set<nat>, k: nat)
    requires k < 12
    ensures !Opposed(flipped, k) && CodeBit(k, true) !in flipped ==> CodeBit(k, false) !in flipped
  {
  }

  lemma IntactPair(flipped: set<nat>, width: nat, k: nat)
    requires k < width <= 12 && ParityIntact(flipped, width)
    ensures !Opposed(flipped, k) && CodeBit(k, true) !in flipped
  {
    hide AddressOf, CodeBit;
    assert !CarriesParity(CodeBit(k, true), width) ==> false;
    assert !CarriesParity(CodeBit(k, false), width) ==> false;
  }

  lemma SameAddress(q: nat, p: nat, width: nat)
    requires q < Pow2(width) && p < Pow2(width)
    requires forall k: nat | k < width :: AddressBit(q, k) == AddressBit(p, k)
    ensures q == p
  {
    SameAddressBitsSameNumber(q, p, width);
  }

  /** A verdict undoes the errors. */
  predicate Undoes(verdict: Verdict, errors: set<nat>) {
    if verdict.Flip? then errors == {verdict.position} else errors == {}
  }

  lemma CorrectedIff(written: set<nat>, read: set<nat>, verdict: Verdict)
    ensures Corrected(read, verdict) == written <==> Undoes(verdict, SymDiff(written, read))
  {
    if verdict.Flip? {
      SymDiffCancels(read, written, {verdict.position});
    } else {
      SameSet(written, read);
    }
  }

  /** The verdict undoes the errors exactly when the data was right and the code bits do not make the decoder flip
      a bit, or one data bit was wrong and no flipped code bit carries parity. */
  lemma DamagedRestoration(errors: set<nat>, flipped: set<nat>, width: nat)
    requires 1 <= width <= 12 && Within(errors, width)
    requires forall c | c in flipped :: c < CODE_BITS
    ensures Undoes(Decide(SymDiff(Signature(errors, width), flipped), width), errors)
       <==> (|errors| == 0 && !TakenForSingle(false, flipped, width)) || (|errors| == 1 && ParityIntact(flipped, width))
  {
    hide Decide, Signature, Pow2, TakenForSingle, DamagedAddress, ParityIntact, SymDiff;
    DamagedClassification(errors, flipped, width);
    if |errors| == 1 {
      var p := OnlyMember(errors);
      LocatedIff(p, flipped, width);
      NotOpposedWhenIntact(flipped, width);
    }
  }

  lemma NotOpposedWhenIntact(flipped: set<nat>, width: nat)
    requires 1 <= width <= 12
    ensures ParityIntact(flipped, width) ==> TakenForSingle(true, flipped, width)
  {
    hide ParityIntact, Opposed;
    if ParityIntact(flipped, width) {
      forall k: nat | k < width
        ensures !Opposed(flipped, k)
      {
        IntactPair(flipped, width, k);
      }
    }
  }

  lemma DifferenceOfErrors(written: set<nat>, read: set<nat>, stored: set<nat>, width: nat)
    ensures SymDiff(stored, Ecc(read, width))
         == SymDiff(Signature(SymDiff(written, read), width), SymDiff(stored, Ecc(written, width)))
  {
    CodeDifference(written, read, width);
  }
}
