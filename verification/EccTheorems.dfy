/** What the drivers guarantee for whole buffers, and that all versions agree. */
module EccTheorems {
  import opened Bits
  import opened Hamming
  import opened EccTables
  import opened XorSums
  import opened EccBytes
  import opened Correction
  import DriverLater
  import DriverOld
  import DesignNotes

  /** The positions at which two buffers differ. */
  function Errors(written: seq<bv8>, read: seq<bv8>): set<nat> {
    SymDiff(SetBits(written), SetBits(read))
  }

  lemma PositionsWithin(buf: seq<bv8>, mult: nat)
    requires mult == 1 || mult == 2
    requires |buf| == 256 * mult
    ensures Within(SetBits(buf), DriverLater.Width(mult))
  {
    assert Pow2(11) == 2048 && Pow2(12) == 4096;
  }

  lemma ErrorsWithin(written: seq<bv8>, read: seq<bv8>, mult: nat)
    requires mult == 1 || mult == 2
    requires |written| == |read| == 256 * mult
    ensures Within(Errors(written, read), DriverLater.Width(mult))
  {
    hide SetBits, Pow2;
    PositionsWithin(written, mult);
    PositionsWithin(read, mult);
  }

  /** A block is written with its ECC and read back into `buf` with an intact stored ECC: the outcome for every
      pattern of bits in which the buffer that was read differs from the written one. */
  method ReadBack(written: array<bv8>, buf: array<bv8>, eccsize: nat, bigEndian: bool, smc: bool) returns (r: int)
    requires eccsize == 256 || eccsize == 512
    requires written.Length == eccsize && buf.Length == eccsize && written != buf
    modifies buf
    ensures var errors, width := Errors(written[..], old(buf[..])), DriverLater.Width(eccsize / 256);
            && r == (if Odd(errors) then 1 else if Cancelling(errors, width) then 0 else -1)
            && (r != 1 ==> buf[..] == old(buf[..]))
            && (r == 1 ==> exists q: nat :: AddressSum(q, errors, width) && Errors(buf[..], old(buf[..])) == {q})
            && (|errors| == 2 ==> r == -1)
            && (buf[..] == written[..] <==> |errors| <= 1)
    ensures written[..] == old(written[..])
  {
    hide SetBits, Ecc, Decide, Difference, Within, Pow2, Cancelling, AddressSum;
    var stored, computed := new bv8[3], new bv8[3];
    DriverLater.CalculateEcc(written, eccsize, stored, bigEndian, smc);
    DriverLater.CalculateEcc(buf, eccsize, computed, bigEndian, smc);
    ghost var a, b, width := written[..], buf[..], DriverLater.Width(eccsize / 256);
    r := DriverLater.CorrectData(buf, stored, computed, eccsize, smc);
    StoredDifference(a, b, stored[..], computed[..], smc, width);
    ReadBackOutcome(a, b, buf[..], eccsize / 256);
  }

  /** What the decoder's verdict means for the buffers. */
  lemma ReadBackOutcome(written: seq<bv8>, read: seq<bv8>, after: seq<bv8>, mult: nat)
    requires (mult == 1 || mult == 2) && |written| == |read| == |after| == 256 * mult
    requires var width := DriverLater.Width(mult);
             SetBits(after) == Corrected(SetBits(read), Decide(Signature(Errors(written, read), width), width))
    ensures var errors, width := Errors(written, read), DriverLater.Width(mult);
            && ReturnCode(Decide(Signature(errors, width), width), -1)
               == (if Odd(errors) then 1 else if Cancelling(errors, width) then 0 else -1)
            && (!Odd(errors) ==> after == read)
            && (Odd(errors) ==> exists q: nat :: AddressSum(q, errors, width) && Errors(after, read) == {q})
            && (|errors| == 2 ==> !Odd(errors) && !Cancelling(errors, width))
            && (after == written <==> |errors| <= 1)
  {
    var errors, width := Errors(written, read), DriverLater.Width(mult);
    PositionsWithin(written, mult);
    PositionsWithin(read, mult);
    ErrorsWithin(written, read, mult);
    CodeDifference(SetBits(written), SetBits(read), width);
    RestoredIffAtMostOne(SetBits(written), SetBits(read), width);
    SameBuffer(after, written);
    SameBuffer(after, read);
    hide SetBits, Ecc, Decide, Within, Pow2, Cancelling, AddressSum, Signature;
    Classification(errors, width);
    var verdict := Decide(Signature(errors, width), width);
    if Odd(errors) {
      SymDiffCancels(SetBits(read), SetBits(after), {verdict.position});
    }
  }

  /** The stored ECC may be damaged as well, in any of its 24 bits: the outcome for every pattern of wrong data bits
      together with every pattern of wrong code bits. In particular one wrong bit anywhere in the data or in the
      parity-carrying code bits leaves the written block in the buffer, and two wrong bits are always reported. */
  method ReadBackDamaged(written: array<bv8>, buf: array<bv8>, stored: array<bv8>,
                         eccsize: nat, bigEndian: bool, smc: bool) returns (r: int)
    requires eccsize == 256 || eccsize == 512
    requires written.Length == eccsize && buf.Length == eccsize && written != buf
    requires stored.Length == 3 && stored != buf
    modifies buf
    ensures var width, errors := DriverLater.Width(eccsize / 256), Errors(written[..], old(buf[..]));
            var flipped := Damage(written[..], stored[..], smc, width);
            && (r == 0 <==> flipped == Signature(errors, width))
            && (TakenForSingle(Odd(errors), flipped, width) ==>
                  r == 1 && exists q: nat :: DamagedAddress(q, errors, flipped, width)
                                             && Errors(buf[..], old(buf[..])) == {q})
            && (!TakenForSingle(Odd(errors), flipped, width) ==>
                  && buf[..] == old(buf[..])
                  && (r == 1 <==> |SymDiff(Signature(errors, width), flipped)| == 1) && r in {-1, 0, 1})
            && (buf[..] == written[..]
                <==> (|errors| == 0 && !TakenForSingle(false, flipped, width))
                     || (|errors| == 1 && ParityIntact(flipped, width)))
    ensures var width := DriverLater.Width(eccsize / 256);
            var flipped := Damage(written[..], stored[..], smc, width);
            var wrong := |Errors(written[..], old(buf[..]))| + |flipped|;
            (forall c | c in flipped :: CarriesParity(c, width)) ==>
              && (wrong == 0 ==> r == 0)
              && (wrong == 1 ==> r == 1)
              && (wrong <= 1 ==> buf[..] == written[..])
              && (wrong == 2 ==> r == -1 && buf[..] == old(buf[..]))
  {
    hide SetBits, Ecc, Decide, CodeBits, CarriesParity, Within, Damage, Errors, Signature, TakenForSingle,
         DamagedAddress, ParityIntact;
    var computed := new bv8[3];
    DriverLater.CalculateEcc(buf, eccsize, computed, bigEndian, smc);
    ghost var a, b, width := written[..], buf[..], DriverLater.Width(eccsize / 256);
    ghost var code := stored[..];
    r := DriverLater.CorrectData(buf, stored, computed, eccsize, smc);
    DamageDifference(a, b, code, computed[..], smc, width);
    DamagedOutcome(a, b, buf[..], code, smc, eccsize / 256);
  }

  /** The code bits in which a stored code differs from the code of the written block. */
  function Damage(written: seq<bv8>, stored: seq<bv8>, smc: bool, width: nat): set<nat>
    requires |stored| >= 3
  {
    SymDiff(CodeBits(stored, smc), Ecc(SetBits(written), width))
  }

  lemma DamageDifference(a: seq<bv8>, b: seq<bv8>, stored: seq<bv8>, computed: seq<bv8>, smc: bool, width: nat)
    requires |stored| >= 3 && |computed| >= 3 && CodeBits(computed, smc) == Ecc(SetBits(b), width)
    ensures Difference(stored, computed, smc) == SymDiff(Signature(Errors(a, b), width), Damage(a, stored, smc, width))
  {
    hide SetBits, Ecc, CodeBits, Signature, SymDiff;
    DifferenceOfErrors(SetBits(a), SetBits(b), CodeBits(stored, smc), width);
  }

  /** What the verdict on damaged data and a damaged code means for the buffers. */
  lemma DamagedOutcome(written: seq<bv8>, read: seq<bv8>, after: seq<bv8>, stored: seq<bv8>, smc: bool, mult: nat)
    requires (mult == 1 || mult == 2) && |written| == |read| == |after| == 256 * mult && |stored| == 3
    requires var width := DriverLater.Width(mult);
             var difference := SymDiff(Signature(Errors(written, read), width), Damage(written, stored, smc, width));
             SetBits(after) == Corrected(SetBits(read), Decide(difference, width))
    ensures var errors, width := Errors(written, read), DriverLater.Width(mult);
            var flipped := Damage(written, stored, smc, width);
            var r := ReturnCode(Decide(SymDiff(Signature(errors, width), flipped), width), -1);
            && (r == 0 <==> flipped == Signature(errors, width))
            && (TakenForSingle(Odd(errors), flipped, width) ==>
                  r == 1 && exists q: nat :: DamagedAddress(q, errors, flipped, width) && Errors(after, read) == {q})
            && (!TakenForSingle(Odd(errors), flipped, width) ==>
                  after == read && (r == 1 <==> |SymDiff(Signature(errors, width), flipped)| == 1))
            && (after == written
                <==> (|errors| == 0 && !TakenForSingle(false, flipped, width))
                     || (|errors| == 1 && ParityIntact(flipped, width)))
            && ((forall c | c in flipped :: CarriesParity(c, width)) ==>
                  && (|errors| + |flipped| == 0 ==> r == 0)
                  && (|errors| + |flipped| == 1 ==> r == 1)
                  && (|errors| + |flipped| <= 1 ==> after == written)
                  && (|errors| + |flipped| == 2 ==> r == -1 && after == read))
  {
    var errors, width := Errors(written, read), DriverLater.Width(mult);
    var flipped := Damage(written, stored, smc, width);
    var verdict := Decide(SymDiff(Signature(errors, width), flipped), width);
    ErrorsWithin(written, read, mult);
    DamageBound(written, stored, smc, width);
    SameBuffer(after, written);
    SameBuffer(after, read);
    CorrectedIff(SetBits(written), SetBits(read), verdict);
    hide SetBits, Decide, Damage, Signature, TakenForSingle, DamagedAddress, ParityIntact, CarriesParity, Within, Pow2;
    DamagedClassification(errors, flipped, width);
    DamagedRestoration(errors, flipped, width);
    if forall c | c in flipped :: CarriesParity(c, width) {
      VerdictOnErrors(errors, flipped, width);
    }
    if verdict.Flip? {
      SymDiffCancels(SetBits(read), SetBits(after), {verdict.position});
    }
  }

  lemma DamageBound(written: seq<bv8>, stored: seq<bv8>, smc: bool, width: nat)
    requires |stored| == 3
    ensures forall c | c in Damage(written, stored, smc, width) :: c < CODE_BITS
  {
    hide SetBits, CodeBits, Ecc;
    CodeBitsBound(stored, smc);
    EccBound(SetBits(written), width);
  }

  lemma StoredDifference(a: seq<bv8>, b: seq<bv8>, stored: seq<bv8>, computed: seq<bv8>, smc: bool, width: nat)
    requires |stored| >= 3 && CodeBits(stored, smc) == Ecc(SetBits(a), width)
    requires |computed| >= 3 && CodeBits(computed, smc) == Ecc(SetBits(b), width)
    ensures Difference(stored, computed, smc) == Signature(Errors(a, b), width)
  {
    hide SetBits, Ecc, CodeBits;
    CodeDifference(SetBits(a), SetBits(b), width);
  }

  lemma SameBuffer(a: seq<bv8>, b: seq<bv8>)
    requires |a| == |b|
    ensures SetBits(a) == SetBits(b) <==> a == b
  {
    if SetBits(a) == SetBits(b) {
      SetBitsInjective(a, b);
    }
  }

  /** Whatever is stored, a buffer that was changed by the correction has the stored code, up to the two
      constant bits of a 256-byte code. */
  method CorrectAndRecompute(buf: array<bv8>, stored: array<bv8>, eccsize: nat, bigEndian: bool, smc: bool)
    returns (r: int, recomputed: array<bv8>)
    requires eccsize == 256 || eccsize == 512
    requires buf.Length == eccsize && stored.Length == 3 && stored != buf
    modifies buf
    ensures fresh(recomputed) && recomputed.Length == 3
    ensures CodeBits(recomputed[..], smc) == Ecc(SetBits(buf[..]), DriverLater.Width(eccsize / 256))
    ensures buf[..] != old(buf[..]) && eccsize == 512 ==> recomputed[..] == stored[..]
    ensures buf[..] != old(buf[..]) ==>
              forall c: nat | c < CODE_BITS && AddressOf(c) < DriverLater.Width(eccsize / 256) ::
                c in CodeBits(recomputed[..], smc) <==> c in CodeBits(stored[..], smc)
  {
    hide SetBits, Ecc, Decide;
    var computed := new bv8[3];
    recomputed := new bv8[3];
    DriverLater.CalculateEcc(buf, eccsize, computed, bigEndian, smc);
    ghost var before := buf[..];
    r := DriverLater.CorrectData(buf, stored, computed, eccsize, smc);
    DriverLater.CalculateEcc(buf, eccsize, recomputed, bigEndian, smc);
    if buf[..] != before {
      CodewordReached(before, buf[..], stored[..], recomputed[..], smc, DriverLater.Width(eccsize / 256));
    }
  }

  lemma CodewordReached(before: seq<bv8>, after: seq<bv8>, stored: seq<bv8>, recomputed: seq<bv8>, smc: bool,
                        width: nat)
    requires |before| == |after| && before != after && |stored| == |recomputed| == 3 && width <= 12
    requires CodeBits(recomputed, smc) == Ecc(SetBits(after), width)
    requires var verdict := Decide(SymDiff(CodeBits(stored, smc), Ecc(SetBits(before), width)), width);
             SetBits(after) == Corrected(SetBits(before), verdict)
    ensures forall c: nat | c < CODE_BITS && AddressOf(c) < width ::
              c in CodeBits(recomputed, smc) <==> c in CodeBits(stored, smc)
    ensures width == 12 ==> recomputed == stored
  {
    hide SetBits, Ecc, CodeBits, Decide;
    SameBuffer(after, before);
    CodeBitsBound(stored, smc);
    CodeBitsBound(recomputed, smc);
    CorrectionReachesCodeword(SetBits(before), CodeBits(stored, smc), width);
    if width == 12 {
      AllParityBits(CodeBits(recomputed, smc), CodeBits(stored, smc));
      CodeBitsInjective(recomputed, stored, smc);
    }
  }

  lemma CodeBitsBound(code: seq<bv8>, smc: bool)
    requires |code| >= 3
    ensures forall c | c in CodeBits(code, smc) :: c < CODE_BITS
  {
  }

  /** With twelve address bits every code bit carries parity. */
  lemma AllParityBits(a: set<nat>, b: set<nat>)
    requires forall c | c in a :: c < CODE_BITS
    requires forall c | c in b :: c < CODE_BITS
    requires forall c: nat | c < CODE_BITS && AddressOf(c) < 12 :: c in a <==> c in b
    ensures a == b
  {
    assert forall c: nat :: AddressOf(c) < 12;
    forall c: nat
      ensures c in a <==> c in b
    {
      assert AddressOf(c) < 12;
    }
  }

  /** In either storage order the later driver, on either byte order, and the older driver write the same code for
      256 bytes; the programs of the design notes write that code in the order of the notes. */
  method AllVersions(buf: array<bv8>, smc: bool)
    returns (little: array<bv8>, big: array<bv8>, old27: array<bv8>, notes1: array<bv8>, notes2: array<bv8>)
    requires buf.Length == 256
    ensures little.Length == big.Length == old27.Length == notes1.Length == notes2.Length == 3
    ensures CodeBits(little[..], smc) == Ecc(SetBits(buf[..]), 11)
    ensures little[..] == big[..] == old27[..]
    ensures notes1[..] == notes2[..] == Canonical(little[..], smc)
  {
    hide SetBits, Ecc, CodeBits;
    little, big, old27 := new bv8[3], new bv8[3], new bv8[3];
    notes1, notes2 := new bv8[3], new bv8[3];
    DriverLater.CalculateEcc(buf, 256, little, false, smc);
    DriverLater.CalculateEcc(buf, 256, big, true, smc);
    DriverOld.CalculateEcc(buf, old27, smc);
    DesignNotes.Ecc1(buf, notes1);
    DesignNotes.Ecc2(buf, notes2);
    CodeBitsInjective(little[..], big[..], smc);
    CodeBitsInjective(big[..], old27[..], smc);
    CodeBitsInjective(notes1[..], notes2[..], true);
    CanonicalOrder(little[..], smc);
    CodeBitsInjective(notes1[..], Canonical(little[..], smc), true);
  }

  lemma CanonicalOrder(code: seq<bv8>, smc: bool)
    requires |code| == 3
    ensures CodeBits(Canonical(code, smc), true) == CodeBits(code, smc)
  {
    hide SetBits;
    assert Canonical(Canonical(code, smc), true) == Canonical(code, smc);
  }

  /** For any block size and storage order the byte order of the machine does not matter. */
  method EndiannessIndependent(buf: array<bv8>, eccsize: nat, smc: bool) returns (little: array<bv8>, big: array<bv8>)
    requires eccsize == 256 || eccsize == 512
    requires buf.Length == eccsize
    ensures little.Length == big.Length == 3 && little[..] == big[..]
    ensures CodeBits(little[..], smc) == Ecc(SetBits(buf[..]), DriverLater.Width(eccsize / 256))
  {
    hide SetBits, Ecc, CodeBits;
    little, big := new bv8[3], new bv8[3];
    DriverLater.CalculateEcc(buf, eccsize, little, false, smc);
    DriverLater.CalculateEcc(buf, eccsize, big, true, smc);
    CodeBitsInjective(little[..], big[..], smc);
  }

  /** Both drivers make the same change to the same buffer and agree on the outcome, for every buffer and
      every pair of codes. */
  method DriversCorrectAlike(later: array<bv8>, older: array<bv8>, readEcc: array<bv8>, calcEcc: array<bv8>,
                             smc: bool, ebadmsg: int) returns (r: int, q: int)
    requires later.Length == 256 && older.Length == 256 && later != older && later[..] == older[..]
    requires readEcc.Length >= 3 && calcEcc.Length >= 3
    requires readEcc != later && readEcc != older && calcEcc != later && calcEcc != older
    modifies later, older
    ensures var verdict := Decide(Difference(readEcc[..], calcEcc[..], smc), 11);
            r == ReturnCode(verdict, -1) && SetBits(later[..]) == Corrected(SetBits(old(later[..])), verdict)
    ensures later[..] == older[..]
    ensures q == if r == -1 then -ebadmsg else r
  {
    hide SetBits, Decide, Difference;
    r := DriverLater.CorrectData(later, readEcc, calcEcc, 256, smc);
    q := DriverOld.CorrectData(older, readEcc, calcEcc, smc, ebadmsg);
    SameBuffer(later[..], older[..]);
  }

  // ----- The code of a sum and of an erased block

  /** The code bytes of the exclusive or of two blocks are the exclusive or of their code bytes and 0xff. */
  lemma AffineBytes(a: seq<bv8>, b: seq<bv8>, codeA: seq<bv8>, codeB: seq<bv8>, code: seq<bv8>, smc: bool, width: nat)
    requires |a| == |b| && |codeA| == |codeB| == |code| == 3
    requires CodeBits(codeA, smc) == Ecc(SetBits(a), width)
    requires CodeBits(codeB, smc) == Ecc(SetBits(b), width)
    requires CodeBits(code, smc) == Ecc(SetBits(XorBuffers(a, b)), width)
    ensures code == XorBuffers(XorBuffers(codeA, codeB), [0xff, 0xff, 0xff])
  {
    hide SetBits, Ecc, Xor;
    var ones: seq<bv8> := [0xff, 0xff, 0xff];
    var sum := XorBuffers(XorBuffers(codeA, codeB), ones);
    SetBitsXor(a, b);
    CodeIsAffine(SetBits(a), SetBits(b), width);
    CanonicalXor(codeA, codeB, smc);
    CanonicalXor(XorBuffers(codeA, codeB), ones, smc);
    SetBitsXor(Canonical(codeA, smc), Canonical(codeB, smc));
    SetBitsXor(Canonical(XorBuffers(codeA, codeB), smc), Canonical(ones, smc));
    OnesCode();
    CodeBitsInjective(code, sum, smc);
  }

  lemma CanonicalXor(a: seq<bv8>, b: seq<bv8>, smc: bool)
    requires |a| == |b| == 3
    ensures Canonical(XorBuffers(a, b), smc) == XorBuffers(Canonical(a, smc), Canonical(b, smc))
  {
    hide Xor;
  }

  lemma OnesCode()
    ensures SetBits([0xff, 0xff, 0xff]) == AllCodeBits()
  {
    BitMasks(0xff);
    forall c: nat | c < 24
      ensures c in SetBits([0xff, 0xff, 0xff]) && AddressOf(c) < 12
    {
      assert [0xff, 0xff, 0xff][c / 8] == 0xff as bv8;
    }
  }

  predicate Erased(buf: seq<bv8>) {
    forall i | 0 <= i < |buf| :: buf[i] == 0xff
  }

  lemma {:induction false} ErasedXor(buf: seq<bv8>, sel: Selection)
    requires Erased(buf)
    ensures XorWhere(buf, sel) in {0, 0xff}
  {
    if buf != [] {
      ErasedXor(buf[..|buf| - 1], sel);
      assert Xor(0, 0xff) == 0xff && Xor(0xff, 0xff) == 0;
    }
  }

  /** An erased block has the code FF FF FF. */
  lemma ErasedCode(buf: seq<bv8>, code: seq<bv8>, smc: bool, width: nat)
    requires Erased(buf) && |code| == 3 && CodeBits(code, smc) == Ecc(SetBits(buf), width)
    ensures code == [0xff, 0xff, 0xff]
  {
    hide SetBits, Having, Odd;
    forall c: nat | c < CODE_BITS
      ensures c in Ecc(SetBits(buf), width) && AddressOf(c) < 12
    {
      ErasedParity(buf, AddressOf(c), c % 2 == 1);
      CoveredParity(buf, AddressOf(c), c % 2 == 1);
    }
    assert Ecc(SetBits(buf), width) == AllCodeBits();
    OnesCode();
    CodeBitsInjective(code, [0xff, 0xff, 0xff], smc);
  }

  lemma ErasedParity(buf: seq<bv8>, k: nat, v: bool)
    requires Erased(buf)
    ensures !Parity(CoveredXor(buf, k, v))
  {
    hide Parity;
    ErasedXor(buf, All());
    if k >= 3 {
      ErasedXor(buf, Rows(k - 3, v));
    }
    EvenBytes();
  }

  lemma EvenBytes()
    ensures !Parity(0) && !Parity(0xff) && !Parity(0xaa) && !Parity(0x55)
    ensures !Parity(0xcc) && !Parity(0x33) && !Parity(0xf0) && !Parity(0x0f)
    ensures forall k: nat, v: bool | k < 3 ::
              And(0, ColumnMask(k, v)) == 0 && And(0xff, ColumnMask(k, v)) == ColumnMask(k, v)
  {
    hide Parity;
    FoldIsParity(0);
    FoldIsParity(0xff);
    FoldIsParity(0xaa);
    FoldIsParity(0x55);
    FoldIsParity(0xcc);
    FoldIsParity(0x33);
    FoldIsParity(0xf0);
    FoldIsParity(0x0f);
  }
}
