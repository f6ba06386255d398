/** The checksum is the standard one: its polynomial, term by term, and its value on the nine digits. */
module CrcStandard {
  import opened Bytes
  import opened Crc32

  // --- registers with their bits laid out, to compute with ----------------------------------------------

  datatype Nib = Nib(b0: bool, b1: bool, b2: bool, b3: bool)

  /** Eight hexadecimal digits, the lowest first. */
  datatype Reg = Reg(n0: Nib, n1: Nib, n2: Nib, n3: Nib, n4: Nib, n5: Nib, n6: Nib, n7: Nib)

  const N0 := Nib(false, false, false, false)
  const N1 := Nib(true, false, false, false)
  const N2 := Nib(false, true, false, false)
  const N3 := Nib(true, true, false, false)
  const N4 := Nib(false, false, true, false)
  const N5 := Nib(true, false, true, false)
  const N6 := Nib(false, true, true, false)
  const N7 := Nib(true, true, true, false)
  const N8 := Nib(false, false, false, true)
  const N9 := Nib(true, false, false, true)
  const NA := Nib(false, true, false, true)
  const NB := Nib(true, true, false, true)
  const NC := Nib(false, false, true, true)
  const ND := Nib(true, false, true, true)
  const NE := Nib(false, true, true, true)
  const NF := Nib(true, true, true, true)

  function NibAt(w: Word, at: nat): Nib
    requires at <= 28
  {
    Nib(w[at], w[at + 1], w[at + 2], w[at + 3])
  }

  function AsReg(w: Word): Reg
  {
    Reg(NibAt(w, 0), NibAt(w, 4), NibAt(w, 8), NibAt(w, 12),
        NibAt(w, 16), NibAt(w, 20), NibAt(w, 24), NibAt(w, 28))
  }

  function NibXor(a: Nib, b: Nib): Nib
  {
    Nib(a.b0 != b.b0, a.b1 != b.b1, a.b2 != b.b2, a.b3 != b.b3)
  }

  /** Four bits of one round: shifted down, with the polynomial's bits added if a one falls out at the bottom. */
  function NibStep(p: Nib, n: Nib, above: bool, low: bool): Nib
  {
    Nib(n.b1 != (low && p.b0), n.b2 != (low && p.b1), n.b3 != (low && p.b2), above != (low && p.b3))
  }

  function RegStep(p: Reg, w: Reg): Reg
  {
    var low := w.n0.b0;
    Reg(NibStep(p.n0, w.n0, w.n1.b0, low), NibStep(p.n1, w.n1, w.n2.b0, low),
        NibStep(p.n2, w.n2, w.n3.b0, low), NibStep(p.n3, w.n3, w.n4.b0, low),
        NibStep(p.n4, w.n4, w.n5.b0, low), NibStep(p.n5, w.n5, w.n6.b0, low),
        NibStep(p.n6, w.n6, w.n7.b0, low), NibStep(p.n7, w.n7, false, low))
  }

  function RegSteps8(p: Reg, w: Reg): Reg
  {
    RegStep(p, RegStep(p, RegStep(p, RegStep(p, RegStep(p, RegStep(p, RegStep(p, RegStep(p, w))))))))
  }

  lemma StepBit(p: Word, w: Word, i: nat)
    requires i < 32
    ensures Step(p, w)[i] == ((i < 31 && w[i + 1]) != (w[0] && p[i]))
  {
  }

  lemma NibStepAgrees(p: Word, w: Word, at: nat)
    requires at <= 28
    ensures NibAt(Step(p, w), at) == NibStep(NibAt(p, at), NibAt(w, at), at < 28 && w[at + 4], w[0])
  {
    hide Step;
    StepBit(p, w, at);
    StepBit(p, w, at + 1);
    StepBit(p, w, at + 2);
    StepBit(p, w, at + 3);
  }

  lemma RegStepAgrees(p: Word, w: Word)
    ensures AsReg(Step(p, w)) == RegStep(AsReg(p), AsReg(w))
  {
    hide Step;
    NibStepAgrees(p, w, 0);
    NibStepAgrees(p, w, 4);
    NibStepAgrees(p, w, 8);
    NibStepAgrees(p, w, 12);
    NibStepAgrees(p, w, 16);
    NibStepAgrees(p, w, 20);
    NibStepAgrees(p, w, 24);
    NibStepAgrees(p, w, 28);
  }

  lemma RegSteps8Agrees(p: Word, w: Word)
    ensures AsReg(Steps(p, w, 8)) == RegSteps8(AsReg(p), AsReg(w))
  {
    hide Step, AsReg, RegStep;
    assert Steps(p, w, 0) == w;
    forall n: nat | n < 8
      ensures AsReg(Steps(p, w, n + 1)) == RegStep(AsReg(p), AsReg(Steps(p, w, n)))
    {
      RegStepAgrees(p, Steps(p, w, n));
    }
    assert AsReg(Steps(p, w, 1)) == RegStep(AsReg(p), AsReg(Steps(p, w, 0)));
    assert AsReg(Steps(p, w, 2)) == RegStep(AsReg(p), AsReg(Steps(p, w, 1)));
    assert AsReg(Steps(p, w, 3)) == RegStep(AsReg(p), AsReg(Steps(p, w, 2)));
    assert AsReg(Steps(p, w, 4)) == RegStep(AsReg(p), AsReg(Steps(p, w, 3)));
    assert AsReg(Steps(p, w, 5)) == RegStep(AsReg(p), AsReg(Steps(p, w, 4)));
    assert AsReg(Steps(p, w, 6)) == RegStep(AsReg(p), AsReg(Steps(p, w, 5)));
    assert AsReg(Steps(p, w, 7)) == RegStep(AsReg(p), AsReg(Steps(p, w, 6)));
    assert AsReg(Steps(p, w, 8)) == RegStep(AsReg(p), AsReg(Steps(p, w, 7)));
  }

  // --- the numbers behind them ------------------------------------------------------------------------------

  function NibValue(n: Nib): nat
  {
    Bit(n.b0) + 2 * Bit(n.b1) + 4 * Bit(n.b2) + 8 * Bit(n.b3)
  }

  lemma ValueNext(s: seq<bool>, k: nat)
    requires k < |s|
    ensures Value(s[k..]) == Bit(s[k]) + 2 * Value(s[k + 1..])
  {
    assert s[k..][1..] == s[k + 1..];
  }

  lemma ValueNib(s: seq<bool>, at: nat)
    requires at + 4 <= |s|
    ensures Value(s[at..]) == NibValue(Nib(s[at], s[at + 1], s[at + 2], s[at + 3])) + 16 * Value(s[at + 4..])
  {
    hide Value;
    ValueNext(s, at);
    ValueNext(s, at + 1);
    ValueNext(s, at + 2);
    ValueNext(s, at + 3);
  }

  /** What the sixteen bits from `at` on add up to, and the rest above them. */
  lemma ValueHalf(w: Word, at: nat)
    requires at <= 16
    ensures Value(w[at..]) == NibValue(NibAt(w, at)) + 0x10 * NibValue(NibAt(w, at + 4))
      + 0x100 * NibValue(NibAt(w, at + 8)) + 0x1000 * NibValue(NibAt(w, at + 12)) + 0x1_0000 * Value(w[at + 16..])
  {
    hide NibValue, Value;
    ValueNib(w, at);
    ValueNib(w, at + 4);
    ValueNib(w, at + 8);
    ValueNib(w, at + 12);
  }

  lemma ValueOfReg(w: Word)
    ensures var r := AsReg(w);
      Value(w) == NibValue(r.n0) + 0x10 * NibValue(r.n1) + 0x100 * NibValue(r.n2) + 0x1000 * NibValue(r.n3)
        + 0x1_0000 * (NibValue(r.n4) + 0x10 * NibValue(r.n5) + 0x100 * NibValue(r.n6) + 0x1000 * NibValue(r.n7))
  {
    hide NibValue, Value, NibAt;
    ValueHalf(w, 0);
    ValueHalf(w, 16);
    assert w[0..] == w && w[32..] == [];
    ValueOfNothing();
  }

  lemma ValueOfNothing()
    ensures Value([]) == 0
  {
  }

  lemma {:induction false} ValueOfBits(v: nat, n: nat)
    requires v < Pow2(n)
    ensures Value(Bits(v, n)) == v
  {
    if n > 0 {
      ValueOfBits(v / 2, n - 1);
      assert Bits(v, n)[1..] == Bits(v / 2, n - 1);
    }
  }

  lemma BitsOfValue(v: nat, w: Word)
    requires v < 0x1_0000_0000 && Value(w) == v
    ensures w == Bits(v, 32)
  {
    hide Bits, Value;
    Pow2Top();
    assert Pow2(32) == 2 * Pow2(31);
    ValueOfBits(v, 32);
    ValueInjective(w, Bits(v, 32));
  }

  lemma NibValues()
    ensures NibValue(N0) == 0 && NibValue(N1) == 1 && NibValue(N2) == 2 && NibValue(N3) == 3 && NibValue(N4) == 4
    ensures NibValue(N5) == 5 && NibValue(N6) == 6 && NibValue(N7) == 7 && NibValue(N8) == 8 && NibValue(N9) == 9
    ensures NibValue(NA) == 10 && NibValue(NB) == 11 && NibValue(NC) == 12 && NibValue(ND) == 13
    ensures NibValue(NE) == 14 && NibValue(NF) == 15
  {
  }

  // --- the polynomial -------------------------------------------------------------------------------------

  /** The exponents below 32 of the CRC-32 polynomial. */
  predicate Term(k: int)
  {
    k in {0, 1, 2, 4, 5, 7, 8, 10, 11, 12, 16, 22, 23, 26}
  }

  /** The polynomial as section 8 of RFC 1952 has it: the coefficient of x^k in bit 31 - k. */
  const RFC_POLY: Word := seq(32, i => Term(31 - i))

  const RFC_ONES: Word := seq(32, _ => true)

  /** 0xEDB8_8320. */
  const GENERATOR := Reg(N0, N2, N3, N8, N8, NB, ND, NE)

  lemma TermsAsReg()
    ensures AsReg(RFC_POLY) == GENERATOR
  {
  }

  lemma PolynomialTerms()
    ensures POLY == RFC_POLY && ONES == RFC_ONES && AsReg(POLY) == GENERATOR
  {
    hide Bits, AsReg, Value, NibValue;
    TermsAsReg();
    ValueOfReg(RFC_POLY);
    NibValues();
    BitsOfValue(0xEDB8_8320, RFC_POLY);
  }

  /** The firmware's checksum is the CRC-32 of section 8 of RFC 1952 on every input: that polynomial, all ones
      to begin with, the complement at the end. */
  lemma CrcIsRfc1952(s: bytes)
    ensures Crc(s) == Not(RfcUpdate(RFC_POLY, RFC_ONES, s))
  {
    hide FeedAll, RfcUpdate, Not;
    PolynomialTerms();
    MatchesRfc1952(POLY, ONES, s);
  }

  // --- the check value ------------------------------------------------------------------------------------

  /** A byte, given as two digits, fed into the register. */
  function RegFeed(c: Reg, lo: Nib, hi: Nib): Reg
  {
    RegSteps8(GENERATOR, c.(n0 := NibXor(c.n0, lo), n1 := NibXor(c.n1, hi)))
  }

  lemma FeedAgrees(c: Word, b: byte, lo: Nib, hi: Nib)
    requires b == NibValue(lo) + 16 * NibValue(hi)
    ensures AsReg(Feed(POLY, c, b)) == RegFeed(AsReg(c), lo, hi)
  {
    hide Steps, RegSteps8, AsReg, NibValue, Lift, Xor, NibXor;
    PolynomialTerms();
    XorLow(c, b, lo, hi);
    RegSteps8Agrees(POLY, Xor(c, Lift(b, 0)));
  }

  lemma XorLow(c: Word, b: byte, lo: Nib, hi: Nib)
    requires b == NibValue(lo) + 16 * NibValue(hi)
    ensures var r := AsReg(c);
      AsReg(Xor(c, Lift(b, 0))) == r.(n0 := NibXor(r.n0, lo), n1 := NibXor(r.n1, hi))
  {
    hide Xor, NibValue, Lift;
    var w := Lift(b, 0);
    NibXorAgrees(c, w, 0);
    NibXorAgrees(c, w, 4);
    NibXorAgrees(c, w, 8);
    NibXorAgrees(c, w, 12);
    NibXorAgrees(c, w, 16);
    NibXorAgrees(c, w, 20);
    NibXorAgrees(c, w, 24);
    NibXorAgrees(c, w, 28);
    LiftedNibs(b, lo, hi);
  }

  lemma NibXorAgrees(a: Word, b: Word, at: nat)
    requires at <= 28
    ensures NibAt(Xor(a, b), at) == NibXor(NibAt(a, at), NibAt(b, at))
  {
    hide Xor;
  }

  lemma LiftedNibs(b: byte, lo: Nib, hi: Nib)
    requires b == NibValue(lo) + 16 * NibValue(hi)
    ensures NibAt(Lift(b, 0), 0) == lo && NibAt(Lift(b, 0), 4) == hi
    ensures forall i :: 8 <= i < 32 ==> !Lift(b, 0)[i]
  {
    hide NibValue, Bits, Value;
    var w := Lift(b, 0);
    var s := Bits(b, 8);
    Pow2Byte();
    ValueOfBits(b, 8);
    assert w[..8] == s;
    ValueNib(s, 0);
    ValueNib(s, 4);
    assert s[0..] == s && s[8..] == [];
    ValueOfNothing();
    NibInjective(Nib(s[0], s[1], s[2], s[3]), Nib(s[4], s[5], s[6], s[7]), lo, hi);
  }

  lemma NibInjective(a: Nib, b: Nib, c: Nib, d: Nib)
    requires NibValue(a) + 16 * NibValue(b) == NibValue(c) + 16 * NibValue(d)
    ensures a == c && b == d
  {
    assert NibValue(a) == NibValue(c);
    OneNib(a, c);
    OneNib(b, d);
  }

  lemma OneNib(a: Nib, b: Nib)
    requires NibValue(a) == NibValue(b)
    ensures a == b
  {
  }

  lemma FeedNext(s: bytes, k: nat, a: Reg, lo: Nib, hi: Nib, b: Reg)
    requires k < |s| && AsReg(FeedAll(POLY, ONES, s[..k])) == a
    requires s[k] == NibValue(lo) + 16 * NibValue(hi) && RegFeed(a, lo, hi) == b
    ensures AsReg(FeedAll(POLY, ONES, s[..k + 1])) == b
  {
    hide Feed, RegFeed, AsReg, NibValue;
    assert s[..k + 1][..k] == s[..k];
    FeedAgrees(FeedAll(POLY, ONES, s[..k]), s[k], lo, hi);
  }

  lemma Digit1()
    ensures RegFeed(Reg(NF, NF, NF, NF, NF, NF, NF, NF), N1, N3) == Reg(N8, N4, N0, N1, N3, N2, NC, N7)
  {
    assert RegStep(GENERATOR, Reg(NE, NC, NF, NF, NF, NF, NF, NF)) == Reg(N7, NE, NF, NF, NF, NF, NF, N7);
    assert RegStep(GENERATOR, Reg(N7, NE, NF, NF, NF, NF, NF, N7)) == Reg(N3, ND, NC, N7, N7, N4, N2, ND);
    assert RegStep(GENERATOR, Reg(N3, ND, NC, N7, N7, N4, N2, ND)) == Reg(N9, N4, ND, N3, NB, N9, N4, N8);
    assert RegStep(GENERATOR, Reg(N9, N4, ND, N3, NB, N9, N4, N8)) == Reg(N4, N8, ND, N1, N5, NF, NF, NA);
    assert RegStep(GENERATOR, Reg(N4, N8, ND, N1, N5, NF, NF, NA)) == Reg(N2, NC, NE, N8, NA, NF, N7, N5);
    assert RegStep(GENERATOR, Reg(N2, NC, NE, N8, NA, NF, N7, N5)) == Reg(N1, N6, N7, N4, ND, NF, NB, N2);
    assert RegStep(GENERATOR, Reg(N1, N6, N7, N4, ND, NF, NB, N2)) == Reg(N0, N9, N0, N2, N6, N4, N8, NF);
    assert RegStep(GENERATOR, Reg(N0, N9, N0, N2, N6, N4, N8, NF)) == Reg(N8, N4, N0, N1, N3, N2, NC, N7);
  }

  lemma Digit2()
    ensures RegFeed(Reg(N8, N4, N0, N1, N3, N2, NC, N7), N2, N3) == Reg(N2, N3, NB, NB, NC, NA, N0, NB)
  {
    assert RegStep(GENERATOR, Reg(NA, N7, N0, N1, N3, N2, NC, N7)) == Reg(ND, N3, N8, N8, N1, N1, NE, N3);
    assert RegStep(GENERATOR, Reg(ND, N3, N8, N8, N1, N1, NE, N3)) == Reg(NE, N3, N7, N4, N0, NB, N2, NF);
    assert RegStep(GENERATOR, Reg(NE, N3, N7, N4, N0, NB, N2, NF)) == Reg(NF, N9, N3, N2, N8, N5, N9, N7);
    assert RegStep(GENERATOR, Reg(NF, N9, N3, N2, N8, N5, N9, N7)) == Reg(NF, NE, N2, N9, N4, N1, N1, ND);
    assert RegStep(GENERATOR, Reg(NF, NE, N2, N9, N4, N1, N1, ND)) == Reg(N7, N5, NA, NC, N2, N3, N5, N8);
    assert RegStep(GENERATOR, Reg(N7, N5, NA, NC, N2, N3, N5, N8)) == Reg(NB, N0, N6, NE, N1, N2, NF, NA);
    assert RegStep(GENERATOR, Reg(NB, N0, N6, NE, N1, N2, NF, NA)) == Reg(N5, N2, N0, N7, N8, N2, NA, NB);
    assert RegStep(GENERATOR, Reg(N5, N2, N0, N7, N8, N2, NA, NB)) == Reg(N2, N3, NB, NB, NC, NA, N0, NB);
  }

  lemma Digit3()
    ensures RegFeed(Reg(N2, N3, NB, NB, NC, NA, N0, NB), N3, N3) == Reg(ND, N2, NC, N9, N7, NB, N7, N7)
  {
    assert RegStep(GENERATOR, Reg(N1, N0, NB, NB, NC, NA, N0, NB)) == Reg(N0, NA, NE, ND, NE, NE, N5, NB);
    assert RegStep(GENERATOR, Reg(N0, NA, NE, ND, NE, NE, N5, NB)) == Reg(N0, N5, NF, N6, N7, NF, NA, N5);
    assert RegStep(GENERATOR, Reg(N0, N5, NF, N6, N7, NF, NA, N5)) == Reg(N8, NA, N7, NB, NB, N7, ND, N2);
    assert RegStep(GENERATOR, Reg(N8, NA, N7, NB, NB, N7, ND, N2)) == Reg(N4, ND, NB, ND, ND, NB, N6, N1);
    assert RegStep(GENERATOR, Reg(N4, ND, NB, ND, ND, NB, N6, N1)) == Reg(NA, NE, ND, NE, NE, N5, NB, N0);
    assert RegStep(GENERATOR, Reg(NA, NE, ND, NE, NE, N5, NB, N0)) == Reg(N5, NF, N6, N7, NF, NA, N5, N0);
    assert RegStep(GENERATOR, Reg(N5, NF, N6, N7, NF, NA, N5, N0)) == Reg(NA, N5, N8, N3, NF, N6, NF, NE);
    assert RegStep(GENERATOR, Reg(NA, N5, N8, N3, NF, N6, NF, NE)) == Reg(ND, N2, NC, N9, N7, NB, N7, N7);
  }

  lemma Digit4()
    ensures RegFeed(Reg(ND, N2, NC, N9, N7, NB, N7, N7), N4, N3) == Reg(NC, N5, NF, N1, NC, N1, N4, N6)
  {
    assert RegStep(GENERATOR, Reg(N9, N1, NC, N9, N7, NB, N7, N7)) == Reg(NC, N2, ND, N4, N3, N6, N6, ND);
    assert RegStep(GENERATOR, Reg(NC, N2, ND, N4, N3, N6, N6, ND)) == Reg(N6, N9, N6, NA, N1, N3, NB, N6);
    assert RegStep(GENERATOR, Reg(N6, N9, N6, NA, N1, N3, NB, N6)) == Reg(NB, N4, N3, ND, N8, N9, N5, N3);
    assert RegStep(GENERATOR, Reg(NB, N4, N3, ND, N8, N9, N5, N3)) == Reg(N5, N8, NA, NE, N4, N7, N7, NF);
    assert RegStep(GENERATOR, Reg(N5, N8, NA, NE, N4, N7, N7, NF)) == Reg(N2, N6, N6, NF, N2, N0, N6, N9);
    assert RegStep(GENERATOR, Reg(N2, N6, N6, NF, N2, N0, N6, N9)) == Reg(N1, N3, NB, N7, N1, N0, NB, N4);
    assert RegStep(GENERATOR, Reg(N1, N3, NB, N7, N1, N0, NB, N4)) == Reg(N8, NB, NE, N3, N8, N3, N8, NC);
    assert RegStep(GENERATOR, Reg(N8, NB, NE, N3, N8, N3, N8, NC)) == Reg(NC, N5, NF, N1, NC, N1, N4, N6);
  }

  lemma Digit5()
    ensures RegFeed(Reg(NC, N5, NF, N1, NC, N1, N4, N6), N5, N3) == Reg(N3, NE, N5, NC, NA, N0, N4, N3)
  {
    assert RegStep(GENERATOR, Reg(N9, N6, NF, N1, NC, N1, N4, N6)) == Reg(N4, N9, NC, N8, N6, NB, NF, ND);
    assert RegStep(GENERATOR, Reg(N4, N9, NC, N8, N6, NB, NF, ND)) == Reg(NA, N4, N6, N4, NB, ND, NF, N6);
    assert RegStep(GENERATOR, Reg(NA, N4, N6, N4, NB, ND, NF, N6)) == Reg(N5, N2, N3, NA, ND, NE, N7, N3);
    assert RegStep(GENERATOR, Reg(N5, N2, N3, NA, ND, NE, N7, N3)) == Reg(N2, NB, N2, N5, NE, N4, N6, NF);
    assert RegStep(GENERATOR, Reg(N2, NB, N2, N5, NE, N4, N6, NF)) == Reg(N9, N5, N9, N2, N7, N2, NB, N7);
    assert RegStep(GENERATOR, Reg(N9, N5, N9, N2, N7, N2, NB, N7)) == Reg(NC, N8, N7, N1, NB, N2, N0, ND);
    assert RegStep(GENERATOR, Reg(NC, N8, N7, N1, NB, N2, N0, ND)) == Reg(N6, NC, NB, N8, N5, N1, N8, N6);
    assert RegStep(GENERATOR, Reg(N6, NC, NB, N8, N5, N1, N8, N6)) == Reg(N3, NE, N5, NC, NA, N0, N4, N3);
  }

  lemma Digit6()
    ensures RegFeed(Reg(N3, NE, N5, NC, NA, N0, N4, N3), N6, N3) == Reg(NE, N9, NC, N2, ND, N8, N6, NF)
  {
    assert RegStep(GENERATOR, Reg(N5, ND, N5, NC, NA, N0, N4, N3)) == Reg(NA, NC, N1, NE, ND, NB, N7, NF);
    assert RegStep(GENERATOR, Reg(NA, NC, N1, NE, ND, NB, N7, NF)) == Reg(N5, NE, N0, NF, NE, ND, NB, N7);
    assert RegStep(GENERATOR, Reg(N5, NE, N0, NF, NE, ND, NB, N7)) == Reg(N2, N5, NB, NF, N7, N5, N0, ND);
    assert RegStep(GENERATOR, Reg(N2, N5, NB, NF, N7, N5, N0, ND)) == Reg(N9, NA, ND, NF, NB, N2, N8, N6);
    assert RegStep(GENERATOR, Reg(N9, NA, ND, NF, NB, N2, N8, N6)) == Reg(N4, NF, ND, N7, ND, NA, N9, ND);
    assert RegStep(GENERATOR, Reg(N4, NF, ND, N7, ND, NA, N9, ND)) == Reg(NA, NF, NE, NB, N6, ND, NC, N6);
    assert RegStep(GENERATOR, Reg(NA, NF, NE, NB, N6, ND, NC, N6)) == Reg(ND, N7, NF, N5, NB, N6, N6, N3);
    assert RegStep(GENERATOR, Reg(ND, N7, NF, N5, NB, N6, N6, N3)) == Reg(NE, N9, NC, N2, ND, N8, N6, NF);
  }

  lemma Digit7()
    ensures RegFeed(Reg(NE, N9, NC, N2, ND, N8, N6, NF), N7, N3) == Reg(N0, N6, N6, N9, NC, NF, NF, NA)
  {
    assert RegStep(GENERATOR, Reg(N9, NA, NC, N2, ND, N8, N6, NF)) == Reg(N4, N7, N5, N1, NE, NF, N6, N9);
    assert RegStep(GENERATOR, Reg(N4, N7, N5, N1, NE, NF, N6, N9)) == Reg(NA, NB, NA, N0, NF, N7, NB, N4);
    assert RegStep(GENERATOR, Reg(NA, NB, NA, N0, NF, N7, NB, N4)) == Reg(ND, N5, N5, N8, NF, NB, N5, N2);
    assert RegStep(GENERATOR, Reg(ND, N5, N5, N8, NF, NB, N5, N2)) == Reg(NE, N8, N1, N4, N7, N6, NF, NF);
    assert RegStep(GENERATOR, Reg(NE, N8, N1, N4, N7, N6, NF, NF)) == Reg(N7, NC, N0, NA, N3, NB, NF, N7);
    assert RegStep(GENERATOR, Reg(N7, NC, N0, NA, N3, NB, NF, N7)) == Reg(N3, N4, N3, N5, N1, N6, N2, ND);
    assert RegStep(GENERATOR, Reg(N3, N4, N3, N5, N1, N6, N2, ND)) == Reg(N1, N8, NA, N2, N8, N8, N4, N8);
    assert RegStep(GENERATOR, Reg(N1, N8, NA, N2, N8, N8, N4, N8)) == Reg(N0, N6, N6, N9, NC, NF, NF, NA);
  }

  lemma Digit8()
    ensures RegFeed(Reg(N0, N6, N6, N9, NC, NF, NF, NA), N8, N3) == Reg(N0, N5, N5, N2, NF, N1, N5, N6)
  {
    assert RegStep(GENERATOR, Reg(N8, N5, N6, N9, NC, NF, NF, NA)) == Reg(NC, N2, NB, N4, NE, NF, N7, N5);
    assert RegStep(GENERATOR, Reg(NC, N2, NB, N4, NE, NF, N7, N5)) == Reg(N6, N9, N5, N2, NF, NF, NB, N2);
    assert RegStep(GENERATOR, Reg(N6, N9, N5, N2, NF, NF, NB, N2)) == Reg(NB, NC, N2, N9, NF, NF, N5, N1);
    assert RegStep(GENERATOR, Reg(NB, NC, N2, N9, NF, NF, N5, N1)) == Reg(N5, N4, NA, N4, N7, N4, N7, NE);
    assert RegStep(GENERATOR, Reg(N5, N4, NA, N4, N7, N4, N7, NE)) == Reg(N2, N0, N6, N2, NB, N1, NE, N9);
    assert RegStep(GENERATOR, Reg(N2, N0, N6, N2, NB, N1, NE, N9)) == Reg(N1, N0, N3, N9, ND, N0, NF, N4);
    assert RegStep(GENERATOR, Reg(N1, N0, N3, N9, ND, N0, NF, N4)) == Reg(N0, NA, NA, N4, NE, N3, NA, NC);
    assert RegStep(GENERATOR, Reg(N0, NA, NA, N4, NE, N3, NA, NC)) == Reg(N0, N5, N5, N2, NF, N1, N5, N6);
  }

  lemma Digit9()
    ensures RegFeed(Reg(N0, N5, N5, N2, NF, N1, N5, N6), N9, N3) == Reg(N9, ND, N6, NC, NB, N0, N4, N3)
  {
    assert RegStep(GENERATOR, Reg(N9, N6, N5, N2, NF, N1, N5, N6)) == Reg(N4, N9, N1, N1, N7, N3, NF, ND);
    assert RegStep(GENERATOR, Reg(N4, N9, N1, N1, N7, N3, NF, ND)) == Reg(NA, NC, N8, N8, NB, N9, NF, N6);
    assert RegStep(GENERATOR, Reg(NA, NC, N8, N8, NB, N9, NF, N6)) == Reg(N5, N6, N4, NC, ND, NC, N7, N3);
    assert RegStep(GENERATOR, Reg(N5, N6, N4, NC, ND, NC, N7, N3)) == Reg(N2, N1, N1, N6, NE, N5, N6, NF);
    assert RegStep(GENERATOR, Reg(N2, N1, N1, N6, NE, N5, N6, NF)) == Reg(N9, N8, N0, N3, NF, N2, NB, N7);
    assert RegStep(GENERATOR, Reg(N9, N8, N0, N3, NF, N2, NB, N7)) == Reg(N4, N6, NB, N1, NF, N2, N0, ND);
    assert RegStep(GENERATOR, Reg(N4, N6, NB, N1, NF, N2, N0, ND)) == Reg(N2, NB, ND, N8, N7, N1, N8, N6);
    assert RegStep(GENERATOR, Reg(N2, NB, ND, N8, N7, N1, N8, N6)) == Reg(N9, ND, N6, NC, NB, N0, N4, N3);
  }

  /** The ASCII digits 1 to 9. */
  function NineDigits(): bytes
  {
    [0x31, 0x32, 0x33, 0x34, 0x35, 0x36, 0x37, 0x38, 0x39]
  }

  lemma Fed3(s: bytes)
    requires s == NineDigits()
    requires AsReg(FeedAll(POLY, ONES, s[..0])) == Reg(NF, NF, NF, NF, NF, NF, NF, NF)
    ensures AsReg(FeedAll(POLY, ONES, s[..3])) == Reg(ND, N2, NC, N9, N7, NB, N7, N7)
  {
    hide RegFeed, FeedAll, AsReg, NibValue;
    NibValues();
    Digit1();
    FeedNext(s, 0, Reg(NF, NF, NF, NF, NF, NF, NF, NF), N1, N3,
             Reg(N8, N4, N0, N1, N3, N2, NC, N7));
    Digit2();
    FeedNext(s, 1, Reg(N8, N4, N0, N1, N3, N2, NC, N7), N2, N3,
             Reg(N2, N3, NB, NB, NC, NA, N0, NB));
    Digit3();
    FeedNext(s, 2, Reg(N2, N3, NB, NB, NC, NA, N0, NB), N3, N3,
             Reg(ND, N2, NC, N9, N7, NB, N7, N7));
  }

  lemma Fed6(s: bytes)
    requires s == NineDigits()
    requires AsReg(FeedAll(POLY, ONES, s[..3])) == Reg(ND, N2, NC, N9, N7, NB, N7, N7)
    ensures AsReg(FeedAll(POLY, ONES, s[..6])) == Reg(NE, N9, NC, N2, ND, N8, N6, NF)
  {
    hide RegFeed, FeedAll, AsReg, NibValue;
    NibValues();
    Digit4();
    FeedNext(s, 3, Reg(ND, N2, NC, N9, N7, NB, N7, N7), N4, N3,
             Reg(NC, N5, NF, N1, NC, N1, N4, N6));
    Digit5();
    FeedNext(s, 4, Reg(NC, N5, NF, N1, NC, N1, N4, N6), N5, N3,
             Reg(N3, NE, N5, NC, NA, N0, N4, N3));
    Digit6();
    FeedNext(s, 5, Reg(N3, NE, N5, NC, NA, N0, N4, N3), N6, N3,
             Reg(NE, N9, NC, N2, ND, N8, N6, NF));
  }

  lemma Fed9(s: bytes)
    requires s == NineDigits()
    requires AsReg(FeedAll(POLY, ONES, s[..6])) == Reg(NE, N9, NC, N2, ND, N8, N6, NF)
    ensures AsReg(FeedAll(POLY, ONES, s[..9])) == Reg(N9, ND, N6, NC, NB, N0, N4, N3)
  {
    hide RegFeed, FeedAll, AsReg, NibValue;
    NibValues();
    Digit7();
    FeedNext(s, 6, Reg(NE, N9, NC, N2, ND, N8, N6, NF), N7, N3,
             Reg(N0, N6, N6, N9, NC, NF, NF, NA));
    Digit8();
    FeedNext(s, 7, Reg(N0, N6, N6, N9, NC, NF, NF, NA), N8, N3,
             Reg(N0, N5, N5, N2, NF, N1, N5, N6));
    Digit9();
    FeedNext(s, 8, Reg(N0, N5, N5, N2, NF, N1, N5, N6), N9, N3,
             Reg(N9, ND, N6, NC, NB, N0, N4, N3));
  }

  lemma NineFed(s: bytes)
    requires s == NineDigits()
    ensures AsReg(FeedAll(POLY, ONES, s)) == Reg(N9, ND, N6, NC, NB, N0, N4, N3)
  {
    hide RegFeed, FeedAll, AsReg, NibValue;
    OnesAsReg();
    NothingFed();
    assert s[..0] == [];
    Fed3(s);
    Fed6(s);
    Fed9(s);
    assert s[..9] == s;
  }

  lemma NothingFed()
    ensures FeedAll(POLY, ONES, []) == ONES
  {
  }

  lemma OnesAsReg()
    ensures AsReg(ONES) == Reg(NF, NF, NF, NF, NF, NF, NF, NF)
  {
  }

  lemma ComplementAsReg(w: Word)
    requires AsReg(w) == Reg(N9, ND, N6, NC, NB, N0, N4, N3)
    ensures AsReg(Not(w)) == Reg(N6, N2, N9, N3, N4, NF, NB, NC)
  {
    hide Not;
  }

  /** The standard check value of CRC-32. */
  lemma CheckValue()
    ensures Value(Crc(NineDigits())) == 0xCBF4_3926
  {
    hide FeedAll, AsReg, Not, Value, NibValue;
    NineFed(NineDigits());
    ComplementAsReg(FeedAll(POLY, ONES, NineDigits()));
    ValueOfReg(Crc(NineDigits()));
    NibValues();
  }

  // --- the stored form ----------------------------------------------------------------------------------------

  lemma {:induction false} ValueJoin(a: seq<bool>, b: seq<bool>)
    ensures Value(a + b) == Value(a) + Pow2(|a|) * Value(b)
    decreases |a|
  {
    if a == [] {
      assert a + b == b;
    } else {
      ValueJoin(a[1..], b);
      assert (a + b)[1..] == a[1..] + b;
      assert Pow2(|a|) == 2 * Pow2(|a| - 1);
    }
  }

  lemma ValueByte(s: seq<bool>)
    requires |s| >= 8
    ensures Value(s) == ByteOf(s[..8]) + 0x100 * Value(s[8..])
  {
    hide Value;
    Pow2Byte();
    ValueJoin(s[..8], s[8..]);
    assert s == s[..8] + s[8..];
  }

  /** The checksum is stored like every other 32-bit number, lowest byte first. */
  lemma StoredLowestByteFirst(c: Word)
    ensures WordBytes(c) == LE(Value(c), 4)
  {
    hide Value, ByteOf, LE;
    var c1, c2, c3 := c[8..], c[16..], c[24..];
    ValueByte(c);
    ValueByte(c1);
    ValueByte(c2);
    ValueByte(c3);
    assert c1[..8] == c[8..16] && c1[8..] == c2 && c2[..8] == c[16..24] && c2[8..] == c3;
    assert c3[..8] == c[24..] && c3[8..] == [];
    ValueOfNothing();
    LENext(Value(c), 3, ByteOf(c[..8]), Value(c1));
    LENext(Value(c1), 2, ByteOf(c[8..16]), Value(c2));
    LENext(Value(c2), 1, ByteOf(c[16..24]), Value(c3));
    LENext(Value(c3), 0, ByteOf(c[24..]), 0);
    LENone(0);
  }

  lemma LENext(v: nat, n: nat, low: byte, rest: nat)
    requires v == low + 0x100 * rest
    ensures LE(v, n + 1) == [low] + LE(rest, n)
  {
  }

  lemma LENone(v: nat)
    ensures LE(v, 0) == []
  {
  }
}
