/** Changes across the boundary of payload and checksum. The checksum is taken with its own field zeroed, so the
    payload's last bytes reach it through 32 more rounds; the theorem rests on what those rounds do to a register
    of which only the low bits are set. */
module CrcBoundary {
  import opened Bytes
  import opened Crc32
  import opened CrcStandard
  import opened Records

  // --- 32 rounds, as a sum over the bits that are set ----------------------------------------------------------

  function Unit(i: nat): Word
    requires i < 32
  {
    seq(32, j => j == i)
  }

  /** A bit further up falls out that much later. */
  lemma UnitRounds(p: Word, i: nat)
    requires i < 32
    ensures Steps(p, Unit(i), 32) == Steps(p, Unit(0), 32 - i)
  {
    hide Steps, Shr;
    ShiftsOnly(p, Unit(i), i);
    assert Shr(Unit(i), i) == Unit(0);
    StepsAdd(p, Unit(i), i, 32 - i);
  }

  /** The low `n` bits alone. */
  function Low(d: Word, n: nat): (w: Word)
    requires n <= 32
    ensures forall i :: 0 <= i < 32 ==> w[i] == (i < n && d[i])
  {
    d[..n] + Zeros(32 - n)
  }

  /** Bit `j` after 32 rounds, as a sum over the low `n` bits; `u` is the lowest bit alone. */
  function Mixed(p: Word, u: Word, d: Word, j: nat, n: nat): bool
    requires j < 32 && n <= 32
  {
    if n == 0 then false else Mixed(p, u, d, j, n - 1) != (d[n - 1] && Steps(p, u, 33 - n)[j])
  }

  lemma {:induction false} MixedAgrees(p: Word, u: Word, d: Word, j: nat, n: nat)
    requires j < 32 && n <= 32 && u == Unit(0)
    ensures Steps(p, Low(d, n), 32)[j] == Mixed(p, u, d, j, n)
    decreases n
  {
    hide Steps, Low;
    if n == 0 {
      NothingSet(p, Low(d, 0));
    } else {
      MixedAgrees(p, u, d, j, n - 1);
      OneMore(p, d, n - 1);
    }
  }

  lemma NothingSet(p: Word, w: Word)
    requires forall i :: 0 <= i < 32 ==> !w[i]
    ensures forall i :: 0 <= i < 32 ==> !Steps(p, w, 32)[i]
  {
    hide Steps;
    ShiftsOnly(p, w, 32);
  }

  lemma OneMore(p: Word, d: Word, n: nat)
    requires n < 32
    ensures forall j :: 0 <= j < 32 ==>
      (Steps(p, Low(d, n + 1), 32)[j] == (Steps(p, Low(d, n), 32)[j] != (d[n] && Steps(p, Unit(0), 32 - n)[j])))
  {
    hide Steps, Low, Xor;
    if d[n] {
      assert Low(d, n + 1) == Xor(Low(d, n), Unit(n));
      StepsXor(p, Low(d, n), Unit(n), 32);
      UnitRounds(p, n);
    } else {
      assert Low(d, n + 1) == Low(d, n);
    }
  }

  // --- the low 16 bits, laid out ---------------------------------------------------------------------------------

  datatype Half = Half(n0: Nib, n1: Nib, n2: Nib, n3: Nib)

  function AsHalf(d: Word): Half
  {
    Half(NibAt(d, 0), NibAt(d, 4), NibAt(d, 8), NibAt(d, 12))
  }

  function NibDot(sum: bool, d: Nib, m: Nib): bool
  {
    (((sum != (d.b0 && m.b0)) != (d.b1 && m.b1)) != (d.b2 && m.b2)) != (d.b3 && m.b3)
  }

  /** The sum of the bits of `d` that the mask selects. */
  function Dot(d: Half, m: Half): bool
  {
    NibDot(NibDot(NibDot(NibDot(false, d.n0, m.n0), d.n1, m.n1), d.n2, m.n2), d.n3, m.n3)
  }

  function NibMask(p: Word, u: Word, j: nat, at: nat): Nib
    requires j < 32 && at <= 28
  {
    Nib(Steps(p, u, 32 - at)[j], Steps(p, u, 31 - at)[j], Steps(p, u, 30 - at)[j], Steps(p, u, 29 - at)[j])
  }

  /** The low bits that bit `j` after 32 rounds is the sum of. */
  function Mask(p: Word, u: Word, j: nat): Half
    requires j < 32
  {
    Half(NibMask(p, u, j, 0), NibMask(p, u, j, 4), NibMask(p, u, j, 8), NibMask(p, u, j, 12))
  }

  lemma MixedNib(p: Word, u: Word, d: Word, j: nat, at: nat)
    requires j < 32 && at <= 28
    ensures Mixed(p, u, d, j, at + 4) == NibDot(Mixed(p, u, d, j, at), NibAt(d, at), NibMask(p, u, j, at))
  {
    hide Steps;
    assert Mixed(p, u, d, j, at + 2) == (Mixed(p, u, d, j, at + 1) != (d[at + 1] && Steps(p, u, 31 - at)[j]));
    assert Mixed(p, u, d, j, at + 3) == (Mixed(p, u, d, j, at + 2) != (d[at + 2] && Steps(p, u, 30 - at)[j]));
  }

  lemma RoundsAreDot(p: Word, u: Word, d: Word, j: nat)
    requires j < 32 && u == Unit(0) && forall i :: 16 <= i < 32 ==> !d[i]
    ensures Steps(p, d, 32)[j] == Dot(AsHalf(d), Mask(p, u, j))
  {
    hide Steps, NibDot, NibAt, NibMask;
    assert Low(d, 16) == d;
    MixedAgrees(p, u, d, j, 16);
    MixedNib(p, u, d, j, 0);
    MixedNib(p, u, d, j, 4);
    MixedNib(p, u, d, j, 8);
    MixedNib(p, u, d, j, 12);
  }

  // --- the masks -------------------------------------------------------------------------------------------------

  lemma RoundAgrees(p: Word, u: Word, g: Reg, m: nat)
    requires AsReg(p) == g
    ensures AsReg(Steps(p, u, m + 1)) == RegStep(g, AsReg(Steps(p, u, m)))
  {
    hide Step, AsReg, RegStep;
    RegStepAgrees(p, Steps(p, u, m));
  }

  lemma UnitAsReg(u: Word)
    requires u == Unit(0)
    ensures AsReg(u) == Reg(N1, N0, N0, N0, N0, N0, N0, N0)
  {
  }

  lemma StartOf(p: Word, u: Word)
    requires u == Unit(0)
    ensures AsReg(Steps(p, u, 0)) == Reg(N1, N0, N0, N0, N0, N0, N0, N0)
  {
    UnitAsReg(u);
  }

  lemma Rounds8(p: Word, u: Word)
    requires AsReg(p) == GENERATOR && u == Unit(0)
    ensures AsReg(Steps(p, u, 8)) == Reg(N6, N9, N0, N3, N7, N0, N7, N7)
  {
    hide Steps, AsReg;
    StartOf(p, u);
    RoundAgrees(p, u, GENERATOR, 0);
    assert AsReg(Steps(p, u, 1)) == Reg(N0, N2, N3, N8, N8, NB, ND, NE);
    RoundAgrees(p, u, GENERATOR, 1);
    assert AsReg(Steps(p, u, 2)) == Reg(N0, N9, N1, N4, NC, ND, N6, N7);
    RoundAgrees(p, u, GENERATOR, 2);
    assert AsReg(Steps(p, u, 3)) == Reg(N8, NC, N0, N2, NE, N6, NB, N3);
    RoundAgrees(p, u, GENERATOR, 3);
    assert AsReg(Steps(p, u, 4)) == Reg(N4, N6, N0, N1, N7, NB, ND, N1);
    RoundAgrees(p, u, GENERATOR, 4);
    assert AsReg(Steps(p, u, 5)) == Reg(N2, N3, N8, N8, NB, ND, NE, N0);
    RoundAgrees(p, u, GENERATOR, 5);
    assert AsReg(Steps(p, u, 6)) == Reg(N9, N1, N4, NC, ND, N6, N7, N0);
    RoundAgrees(p, u, GENERATOR, 6);
    assert AsReg(Steps(p, u, 7)) == Reg(NC, N2, N1, N6, NE, N0, NE, NE);
    RoundAgrees(p, u, GENERATOR, 7);
  }

  lemma Rounds16(p: Word, u: Word)
    requires AsReg(p) == GENERATOR && u == Unit(0)
    ensures AsReg(Steps(p, u, 16)) == Reg(N1, N4, N1, N3, NB, N1, N9, N1)
  {
    hide Steps, AsReg;
    Rounds8(p, u);
    RoundAgrees(p, u, GENERATOR, 8);
    assert AsReg(Steps(p, u, 9)) == Reg(NB, N4, N8, N9, N3, N8, NB, N3);
    RoundAgrees(p, u, GENERATOR, 9);
    assert AsReg(Steps(p, u, 10)) == Reg(N5, N0, NF, N4, N9, N7, N0, NF);
    RoundAgrees(p, u, GENERATOR, 10);
    assert AsReg(Steps(p, u, 11)) == Reg(N2, NA, N4, N2, N4, N8, N5, N9);
    RoundAgrees(p, u, GENERATOR, 11);
    assert AsReg(Steps(p, u, 12)) == Reg(N1, N5, N2, N1, N2, NC, NA, N4);
    RoundAgrees(p, u, GENERATOR, 12);
    assert AsReg(Steps(p, u, 13)) == Reg(N8, N0, NA, N8, N9, ND, N8, NC);
    RoundAgrees(p, u, GENERATOR, 13);
    assert AsReg(Steps(p, u, 14)) == Reg(N4, N0, N5, NC, NC, N6, N4, N6);
    RoundAgrees(p, u, GENERATOR, 14);
    assert AsReg(Steps(p, u, 15)) == Reg(N2, N8, N2, N6, N6, N3, N2, N3);
    RoundAgrees(p, u, GENERATOR, 15);
  }

  lemma Rounds24(p: Word, u: Word)
    requires AsReg(p) == GENERATOR && u == Unit(0)
    ensures AsReg(Steps(p, u, 17)) == Reg(N0, N8, NB, N1, N5, N3, N1, NE)
    ensures AsReg(Steps(p, u, 18)) == Reg(N0, NC, ND, N8, NA, N9, N0, N7)
    ensures AsReg(Steps(p, u, 19)) == Reg(N0, NE, N6, N4, ND, N4, N8, N3)
    ensures AsReg(Steps(p, u, 20)) == Reg(N0, N7, N3, NA, N6, N2, NC, N1)
    ensures AsReg(Steps(p, u, 21)) == Reg(N8, NB, N1, N5, N3, N1, NE, N0)
    ensures AsReg(Steps(p, u, 22)) == Reg(NC, ND, N8, NA, N9, N0, N7, N0)
    ensures AsReg(Steps(p, u, 23)) == Reg(NE, N6, N4, ND, N4, N8, N3, N0)
    ensures AsReg(Steps(p, u, 24)) == Reg(N7, N3, NA, N6, N2, NC, N1, N0)
  {
    hide Steps, AsReg;
    Rounds16(p, u);
    RoundAgrees(p, u, GENERATOR, 16);
    RoundAgrees(p, u, GENERATOR, 17);
    RoundAgrees(p, u, GENERATOR, 18);
    RoundAgrees(p, u, GENERATOR, 19);
    RoundAgrees(p, u, GENERATOR, 20);
    RoundAgrees(p, u, GENERATOR, 21);
    RoundAgrees(p, u, GENERATOR, 22);
    RoundAgrees(p, u, GENERATOR, 23);
  }

  lemma Rounds32(p: Word, u: Word)
    requires AsReg(p) == GENERATOR && u == Unit(0)
    ensures AsReg(Steps(p, u, 25)) == Reg(NB, N3, N6, NB, N9, N5, ND, NE)
    ensures AsReg(Steps(p, u, 26)) == Reg(ND, N3, N8, N5, N4, N1, NB, N9)
    ensures AsReg(Steps(p, u, 27)) == Reg(NE, N3, NF, NA, N2, N3, N0, NA)
    ensures AsReg(Steps(p, u, 28)) == Reg(NF, N9, N7, N5, N9, N1, N0, N5)
    ensures AsReg(Steps(p, u, 29)) == Reg(NF, NE, N8, N2, N4, NB, N5, NC)
    ensures AsReg(Steps(p, u, 30)) == Reg(N7, N5, N7, N9, N2, N6, NF, N8)
    ensures AsReg(Steps(p, u, 31)) == Reg(NB, N8, N8, NC, N9, N0, NA, NA)
    ensures AsReg(Steps(p, u, 32)) == Reg(N5, N6, N7, N6, NC, NB, N8, NB)
  {
    hide Steps, AsReg;
    Rounds24(p, u);
    RoundAgrees(p, u, GENERATOR, 24);
    RoundAgrees(p, u, GENERATOR, 25);
    RoundAgrees(p, u, GENERATOR, 26);
    RoundAgrees(p, u, GENERATOR, 27);
    RoundAgrees(p, u, GENERATOR, 28);
    RoundAgrees(p, u, GENERATOR, 29);
    RoundAgrees(p, u, GENERATOR, 30);
    RoundAgrees(p, u, GENERATOR, 31);
  }

  /** The polynomial that undoes the rounds when the register is read from its other end. */
  const REVERSED := Reg(NB, ND, NE, N8, N0, N6, N2, N8)

  lemma Back8(p: Word, u: Word)
    requires AsReg(p) == REVERSED && u == Unit(0)
    ensures AsReg(Steps(p, u, 8)) == Reg(N6, NA, N6, NE, N3, ND, N9, NA)
  {
    hide Steps, AsReg;
    StartOf(p, u);
    RoundAgrees(p, u, REVERSED, 0);
    assert AsReg(Steps(p, u, 1)) == Reg(NB, ND, NE, N8, N0, N6, N2, N8);
    RoundAgrees(p, u, REVERSED, 1);
    assert AsReg(Steps(p, u, 2)) == Reg(N6, NB, N9, NC, N0, N5, N3, NC);
    RoundAgrees(p, u, REVERSED, 2);
    assert AsReg(Steps(p, u, 3)) == Reg(NB, ND, N4, N6, N8, NA, N1, N6);
    RoundAgrees(p, u, REVERSED, 3);
    assert AsReg(Steps(p, u, 4)) == Reg(N6, NB, NC, NB, N4, NB, N2, NB);
    RoundAgrees(p, u, REVERSED, 4);
    assert AsReg(Steps(p, u, 5)) == Reg(NB, N5, NE, N5, NA, N5, N9, N5);
    RoundAgrees(p, u, REVERSED, 5);
    assert AsReg(Steps(p, u, 6)) == Reg(N6, NF, N1, NA, ND, NC, NE, NA);
    RoundAgrees(p, u, REVERSED, 6);
    assert AsReg(Steps(p, u, 7)) == Reg(NB, NF, N0, ND, N6, N6, N7, N5);
    RoundAgrees(p, u, REVERSED, 7);
  }

  lemma Back16(p: Word, u: Word)
    requires AsReg(p) == REVERSED && u == Unit(0)
    ensures AsReg(Steps(p, u, 16)) == Reg(NB, NE, N8, N4, NA, NC, NA, N1)
  {
    hide Steps, AsReg;
    Back8(p, u);
    RoundAgrees(p, u, REVERSED, 8);
    assert AsReg(Steps(p, u, 9)) == Reg(N3, N5, N3, NF, N9, NE, N4, N5);
    RoundAgrees(p, u, REVERSED, 9);
    assert AsReg(Steps(p, u, 10)) == Reg(N2, N7, N7, N7, N4, N1, N8, NA);
    RoundAgrees(p, u, REVERSED, 10);
    assert AsReg(Steps(p, u, 11)) == Reg(N9, NB, NB, N3, NA, N0, N4, N5);
    RoundAgrees(p, u, REVERSED, 11);
    assert AsReg(Steps(p, u, 12)) == Reg(N7, N0, N3, N9, N5, N6, N8, NA);
    RoundAgrees(p, u, REVERSED, 12);
    assert AsReg(Steps(p, u, 13)) == Reg(N8, N5, N7, N4, N2, N5, N6, ND);
    RoundAgrees(p, u, REVERSED, 13);
    assert AsReg(Steps(p, u, 14)) == Reg(NC, NA, N3, N2, N9, N2, NB, N6);
    RoundAgrees(p, u, REVERSED, 14);
    assert AsReg(Steps(p, u, 15)) == Reg(N6, ND, N1, N9, N4, N9, N5, N3);
    RoundAgrees(p, u, REVERSED, 15);
  }

  lemma Back24(p: Word, u: Word)
    requires AsReg(p) == REVERSED && u == Unit(0)
    ensures AsReg(Steps(p, u, 24)) == Reg(N8, NF, N1, N8, ND, N6, N7, N8)
  {
    hide Steps, AsReg;
    Back16(p, u);
    RoundAgrees(p, u, REVERSED, 16);
    assert AsReg(Steps(p, u, 17)) == Reg(NE, NA, NA, NA, N5, N0, NF, N8);
    RoundAgrees(p, u, REVERSED, 17);
    assert AsReg(Steps(p, u, 18)) == Reg(N7, N5, N5, ND, N2, N8, N7, N4);
    RoundAgrees(p, u, REVERSED, 18);
    assert AsReg(Steps(p, u, 19)) == Reg(N0, N7, N4, NE, N1, NA, N1, NA);
    RoundAgrees(p, u, REVERSED, 19);
    assert AsReg(Steps(p, u, 20)) == Reg(N8, N3, N2, NF, N0, ND, N0, N5);
    RoundAgrees(p, u, REVERSED, 20);
    assert AsReg(Steps(p, u, 21)) == Reg(NC, N1, N9, N7, N8, N6, N8, N2);
    RoundAgrees(p, u, REVERSED, 21);
    assert AsReg(Steps(p, u, 22)) == Reg(NE, N8, NC, N3, N4, N3, N4, N1);
    RoundAgrees(p, u, REVERSED, 22);
    assert AsReg(Steps(p, u, 23)) == Reg(N7, N4, NE, N1, NA, N1, NA, N0);
    RoundAgrees(p, u, REVERSED, 23);
  }

  lemma Back32(p: Word, u: Word)
    requires AsReg(p) == REVERSED && u == Unit(0)
    ensures AsReg(Steps(p, u, 25)) == Reg(NC, NF, N0, NC, N6, NB, N3, N4)
    ensures AsReg(Steps(p, u, 26)) == Reg(NE, N7, N0, N6, NB, ND, N1, N2)
    ensures AsReg(Steps(p, u, 27)) == Reg(NF, N3, N0, NB, ND, NE, N0, N1)
    ensures AsReg(Steps(p, u, 28)) == Reg(N4, NC, N6, N5, N6, N1, NA, N8)
    ensures AsReg(Steps(p, u, 29)) == Reg(N2, N6, NB, N2, NB, N0, N5, N4)
    ensures AsReg(Steps(p, u, 30)) == Reg(N1, NB, N5, N9, N5, N8, N2, N2)
    ensures AsReg(Steps(p, u, 31)) == Reg(N3, N0, N4, N4, N2, N2, N3, N9)
    ensures AsReg(Steps(p, u, 32)) == Reg(NA, ND, NC, NA, N1, NF, NB, NC)
  {
    hide Steps, AsReg;
    Back24(p, u);
    RoundAgrees(p, u, REVERSED, 24);
    RoundAgrees(p, u, REVERSED, 25);
    RoundAgrees(p, u, REVERSED, 26);
    RoundAgrees(p, u, REVERSED, 27);
    RoundAgrees(p, u, REVERSED, 28);
    RoundAgrees(p, u, REVERSED, 29);
    RoundAgrees(p, u, REVERSED, 30);
    RoundAgrees(p, u, REVERSED, 31);
  }

  lemma Masks0(p: Word, u: Word)
    requires AsReg(p) == GENERATOR && u == Unit(0)
    ensures Mask(p, u, 0) == Half(NF, ND, N1, N0) && Mask(p, u, 1) == Half(NE, NB, N3, N0)
    ensures Mask(p, u, 2) == Half(ND, N7, N7, N0) && Mask(p, u, 3) == Half(NA, NF, NE, N0)
  {
    hide Steps;
    Rounds24(p, u);
    Rounds32(p, u);
  }

  lemma Masks4(p: Word, u: Word)
    requires AsReg(p) == GENERATOR && u == Unit(0)
    ensures Mask(p, u, 4) == Half(N4, NF, ND, N1) && Mask(p, u, 5) == Half(N9, NE, NB, N3)
    ensures Mask(p, u, 6) == Half(ND, N0, N6, N7) && Mask(p, u, 7) == Half(NA, N1, NC, NE)
  {
    hide Steps;
    Rounds24(p, u);
    Rounds32(p, u);
  }

  lemma Masks8(p: Word, u: Word)
    requires AsReg(p) == GENERATOR && u == Unit(0)
    ensures Mask(p, u, 8) == Half(N5, N3, N8, ND) && Mask(p, u, 9) == Half(N5, NB, N1, NB)
    ensures Mask(p, u, 10) == Half(N5, NB, N2, N6) && Mask(p, u, 11) == Half(NA, N6, N5, NC)
  {
    hide Steps;
    Rounds24(p, u);
    Rounds32(p, u);
  }

  lemma Masks12(p: Word, u: Word)
    requires AsReg(p) == GENERATOR && u == Unit(0)
    ensures Mask(p, u, 12) == Half(N4, ND, NA, N8) && Mask(p, u, 13) == Half(N9, NA, N5, N1)
    ensures Mask(p, u, 14) == Half(N3, N5, NB, N2) && Mask(p, u, 15) == Half(N6, NA, N6, N5)
  {
    hide Steps;
    Rounds24(p, u);
    Rounds32(p, u);
  }

  /** The first two digits of the mask alone. */
  function Byte(m: Half): Half
  {
    m.(n2 := N0, n3 := N0)
  }

  lemma BackMasks0(p: Word, u: Word)
    requires AsReg(p) == REVERSED && u == Unit(0)
    ensures Byte(Mask(p, u, 0)) == Half(N6, N2, N0, N0) && Byte(Mask(p, u, 1)) == Half(NB, N6, N0, N0)
    ensures Byte(Mask(p, u, 2)) == Half(N0, NF, N0, N0) && Byte(Mask(p, u, 3)) == Half(N1, NE, N0, N0)
  {
    hide Steps;
    Back32(p, u);
  }

  lemma BackMasks4(p: Word, u: Word)
    requires AsReg(p) == REVERSED && u == Unit(0)
    ensures Byte(Mask(p, u, 4)) == Half(N5, NE, N0, N0) && Byte(Mask(p, u, 5)) == Half(NC, NE, N0, N0)
    ensures Byte(Mask(p, u, 6)) == Half(N9, ND, N0, N0) && Byte(Mask(p, u, 7)) == Half(N5, N9, N0, N0)
  {
    hide Steps;
    Back32(p, u);
  }

  // --- their rank ------------------------------------------------------------------------------------------------

  lemma Rank8(d: Half)
    requires d.n2 == d.n3 == N0
    requires !Dot(d, Half(NF, ND, N1, N0)) && !Dot(d, Half(NE, NB, N3, N0))
    requires !Dot(d, Half(ND, N7, N7, N0)) && !Dot(d, Half(NA, NF, NE, N0))
    requires !Dot(d, Half(N4, NF, ND, N1)) && !Dot(d, Half(N9, NE, NB, N3))
    requires !Dot(d, Half(ND, N0, N6, N7)) && !Dot(d, Half(NA, N1, NC, NE))
    ensures d.n0 == d.n1 == N0
  {
  }

  lemma Rank16(d: Half)
    requires !Dot(d, Half(NF, ND, N1, N0)) && !Dot(d, Half(NE, NB, N3, N0))
    requires !Dot(d, Half(ND, N7, N7, N0)) && !Dot(d, Half(NA, NF, NE, N0))
    requires !Dot(d, Half(N4, NF, ND, N1)) && !Dot(d, Half(N9, NE, NB, N3))
    requires !Dot(d, Half(ND, N0, N6, N7)) && !Dot(d, Half(NA, N1, NC, NE))
    requires !Dot(d, Half(N5, N3, N8, ND)) && !Dot(d, Half(N5, NB, N1, NB))
    requires !Dot(d, Half(N5, NB, N2, N6)) && !Dot(d, Half(NA, N6, N5, NC))
    requires !Dot(d, Half(N4, ND, NA, N8)) && !Dot(d, Half(N9, NA, N5, N1))
    requires !Dot(d, Half(N3, N5, NB, N2)) && !Dot(d, Half(N6, NA, N6, N5))
    ensures d.n0 == d.n1 == d.n2 == d.n3 == N0
  {
  }

  lemma BackRank8(d: Half)
    requires d.n2 == d.n3 == N0
    requires !Dot(d, Half(N6, N2, N0, N0)) && !Dot(d, Half(NB, N6, N0, N0))
    requires !Dot(d, Half(N0, NF, N0, N0)) && !Dot(d, Half(N1, NE, N0, N0))
    requires !Dot(d, Half(N5, NE, N0, N0)) && !Dot(d, Half(NC, NE, N0, N0))
    requires !Dot(d, Half(N9, ND, N0, N0)) && !Dot(d, Half(N5, N9, N0, N0))
    ensures d.n0 == d.n1 == N0
  {
  }

  lemma HalfClear(d: Word)
    requires AsHalf(d) == Half(N0, N0, N0, N0) && forall i :: 16 <= i < 32 ==> !d[i]
    ensures forall i :: 0 <= i < 32 ==> !d[i]
  {
  }

  /** If 32 rounds clear the only byte that was set, nothing was set. */
  lemma OneByteShows(p: Word, u: Word, d: Word)
    requires AsReg(p) == GENERATOR && u == Unit(0) && forall i :: 8 <= i < 32 ==> !d[i]
    requires forall j :: 0 <= j < 8 ==> !Steps(p, d, 32)[j]
    ensures forall i :: 0 <= i < 32 ==> !d[i]
  {
    hide Steps, Mask, Dot, AsReg;
    forall j: nat | j < 8
      ensures !Dot(AsHalf(d), Mask(p, u, j))
    {
      RoundsAreDot(p, u, d, j);
    }
    Masks0(p, u);
    Masks4(p, u);
    Rank8(AsHalf(d));
    HalfClear(d);
  }

  /** The same for two bytes. */
  lemma TwoBytesShow(p: Word, u: Word, d: Word)
    requires AsReg(p) == GENERATOR && u == Unit(0) && forall i :: 16 <= i < 32 ==> !d[i]
    requires forall j :: 0 <= j < 16 ==> !Steps(p, d, 32)[j]
    ensures forall i :: 0 <= i < 32 ==> !d[i]
  {
    hide Steps, Mask, Dot, AsReg;
    forall j: nat | j < 16
      ensures !Dot(AsHalf(d), Mask(p, u, j))
    {
      RoundsAreDot(p, u, d, j);
    }
    Masks0(p, u);
    Masks4(p, u);
    Masks8(p, u);
    Masks12(p, u);
    Rank16(AsHalf(d));
    HalfClear(d);
  }

  lemma DotByte(d: Half, m: Half)
    requires d.n2 == d.n3 == N0
    ensures Dot(d, m) == Dot(d, Byte(m))
  {
  }

  lemma OneByteShowsBack(q: Word, u: Word, d: Word)
    requires AsReg(q) == REVERSED && u == Unit(0) && forall i :: 8 <= i < 32 ==> !d[i]
    requires forall j :: 0 <= j < 8 ==> !Steps(q, d, 32)[j]
    ensures forall i :: 0 <= i < 32 ==> !d[i]
  {
    hide Steps, Mask, Dot, AsReg, Byte;
    forall j: nat | j < 8
      ensures !Dot(AsHalf(d), Byte(Mask(q, u, j)))
    {
      RoundsAreDot(q, u, d, j);
      DotByte(AsHalf(d), Mask(q, u, j));
    }
    BackMasks0(q, u);
    BackMasks4(q, u);
    BackRank8(AsHalf(d));
    HalfClear(d);
  }

  // --- rounds backwards -------------------------------------------------------------------------------------------

  function Reversed(w: Word): Word
  {
    seq(32, i requires 0 <= i < 32 => w[31 - i])
  }

  function Backward(p: Word): Word
  {
    seq(32, i requires 0 <= i < 32 => i == 31 || p[30 - i])
  }

  lemma BackwardAsReg(p: Word)
    requires AsReg(p) == GENERATOR
    ensures AsReg(Backward(p)) == REVERSED
  {
  }

  lemma BackStep(p: Word, w: Word)
    requires p[31]
    ensures Step(Backward(p), Reversed(Step(p, w))) == Reversed(w)
  {
    hide Step;
    var s := Step(p, w);
    forall i | 0 <= i < 32
      ensures Step(Backward(p), Reversed(s))[i] == Reversed(w)[i]
    {
      StepBit(Backward(p), Reversed(s), i);
      StepBit(p, w, 31);
      if i < 31 {
        StepBit(p, w, 30 - i);
      }
    }
  }

  lemma {:induction false} BackSteps(p: Word, w: Word, n: nat)
    requires p[31]
    ensures Steps(Backward(p), Reversed(Steps(p, w, n)), n) == Reversed(w)
    decreases n
  {
    hide Step, Backward, Reversed;
    if n > 0 {
      var before := Steps(p, w, n - 1);
      BackStep(p, before);
      StepsAfterStep(Backward(p), Reversed(Step(p, before)), n - 1);
      BackSteps(p, w, n - 1);
    }
  }

  /** Three bytes: what is left of them is one byte, and the rounds are undone from there. */
  lemma ThreeBytesShow(p: Word, u: Word, d: Word)
    requires AsReg(p) == GENERATOR && p[31] && u == Unit(0) && forall i :: 24 <= i < 32 ==> !d[i]
    requires forall j :: 0 <= j < 24 ==> !Steps(p, d, 32)[j]
    ensures forall i :: 0 <= i < 32 ==> !d[i]
  {
    hide Steps, AsReg, Backward;
    var q, w := Backward(p), Reversed(Steps(p, d, 32));
    BackwardAsReg(p);
    BackSteps(p, d, 32);
    assert forall j :: 0 <= j < 32 ==> Steps(q, w, 32)[j] == d[31 - j];
    OneByteShowsBack(q, u, w);
    NothingSet(q, w);
    forall i | 0 <= i < 32
      ensures !d[i]
    {
      assert Steps(q, w, 32)[31 - i] == d[i];
    }
  }

  // --- the boundary -----------------------------------------------------------------------------------------------

  /** The last `n` rounds can leave the top `n` bits clear only if they began with the low `n` bits clear. */
  lemma TopFromLow(p: Word, w: Word, n: nat)
    requires p[31] && n <= 32 && forall i :: 32 - n <= i < 32 ==> !Steps(p, w, n)[i]
    ensures forall i :: 0 <= i < n ==> !w[i]
  {
    hide Steps;
    var out := Steps(p, w, n);
    var up: Word := Zeros(n) + out[..32 - n];
    ShiftsOnly(p, up, n);
    assert Shr(up, n) == out;
    StepsInjective(p, w, up, n);
  }

  lemma {:induction false} BlankJoined(b: bytes)
    requires |b| <= 4 && forall i :: 0 <= i < |b| ==> b[i] == 0
    ensures forall i :: 0 <= i < 32 ==> !Joined(b)[i]
    decreases |b|
  {
    hide Lift;
    if b != [] {
      BlankJoined(b[..|b| - 1]);
      LiftBlank(8 * (|b| - 1));
    }
  }

  lemma BlankByte()
    ensures forall i :: 0 <= i < 8 ==> !Bits(0, 8)[i]
  {
  }

  lemma LiftBlank(at: nat)
    requires at <= 24
    ensures forall i :: 0 <= i < 32 ==> !Lift(0, at)[i]
  {
    BlankByte();
  }

  /** The last bytes of the payload and the blank checksum field, as rounds. */
  lemma FeedBlank(p: Word, c: Word, v: bytes)
    requires |v| <= 4
    ensures FeedAll(p, c, v + Blank4()) == Steps(p, Steps(p, Xor(c, Joined(v)), 32), 8 * |v|)
  {
    hide Steps, Joined, Xor;
    FeedAllSplit(p, c, v, Blank4());
    FeedJoined(p, c, v);
    FeedJoined(p, FeedAll(p, c, v), Blank4());
    BlankJoined(Blank4());
    assert Xor(FeedAll(p, c, v), Joined(Blank4())) == FeedAll(p, c, v);
    StepsAdd(p, Xor(c, Joined(v)), 8 * |v|, 32);
    StepsAdd(p, Xor(c, Joined(v)), 32, 8 * |v|);
  }

  /** Payloads that differ only in the last one, two or three bytes have checksums that differ in as many of
      their own last bytes. */
  lemma LastBytesShow(c: Word, v: bytes, w: bytes)
    requires 1 <= |v| == |w| <= 3 && v != w
    ensures FeedAll(POLY, c, v + Blank4())[32 - 8 * |v|..] != FeedAll(POLY, c, w + Blank4())[32 - 8 * |v|..]
  {
    hide Steps, FeedAll, Xor, Joined, AsReg;
    var n := 8 * |v|;
    var x, y := Steps(POLY, Xor(c, Joined(v)), 32), Steps(POLY, Xor(c, Joined(w)), 32);
    FeedBlank(POLY, c, v);
    FeedBlank(POLY, c, w);
    var a, b := Steps(POLY, x, n), Steps(POLY, y, n);
    if a[32 - n..] == b[32 - n..] {
      forall i | 32 - n <= i < 32
        ensures !Xor(a, b)[i]
      {
        assert a[i] == a[32 - n..][i - (32 - n)] && b[i] == b[32 - n..][i - (32 - n)];
      }
      PolyTop();
      StepsXor(POLY, x, y, n);
      TopFromLow(POLY, Xor(x, y), n);
      StepsXor(POLY, Xor(c, Joined(v)), Xor(c, Joined(w)), 32);
      var d := Xor(Joined(v), Joined(w));
      assert Xor(Xor(c, Joined(v)), Xor(c, Joined(w))) == d;
      BytesShow(|v|, d);
      assert forall i :: 0 <= i < 32 ==> Joined(v)[i] == (Joined(w)[i] != d[i]);
      assert Joined(v) == Joined(w);
      JoinedInjective(v, w);
    }
  }

  lemma BytesShow(k: nat, d: Word)
    requires 1 <= k <= 3 && forall i :: 8 * k <= i < 32 ==> !d[i]
    requires forall j :: 0 <= j < 8 * k ==> !Steps(POLY, d, 32)[j]
    ensures forall i :: 0 <= i < 32 ==> !d[i]
  {
    hide Steps, AsReg;
    PolynomialTerms();
    PolyTop();
    var u := Unit(0);
    if k == 1 {
      OneByteShows(POLY, u, d);
    } else if k == 2 {
      TwoBytesShow(POLY, u, d);
    } else {
      ThreeBytesShow(POLY, u, d);
    }
  }

  lemma SameLastBytes(a: Word, b: Word, k: nat)
    requires 1 <= k <= 3 && WordBytes(a)[4 - k..] == WordBytes(b)[4 - k..]
    ensures a[32 - 8 * k..] == b[32 - 8 * k..]
  {
    hide Value;
    var x, y := WordBytes(a), WordBytes(b);
    assert forall i :: 4 - k <= i < 4 ==> x[i] == x[4 - k..][i - (4 - k)] && y[i] == y[4 - k..][i - (4 - k)];
    ValueInjective(a[24..], b[24..]);
    if k >= 2 {
      ValueInjective(a[16..24], b[16..24]);
      assert a[16..] == a[16..24] + a[24..] && b[16..] == b[16..24] + b[24..];
    }
    if k >= 3 {
      ValueInjective(a[8..16], b[8..16]);
      assert a[8..] == a[8..16] + a[16..] && b[8..] == b[8..16] + b[16..];
    }
  }

  /** A record altered in the last bytes of the payload and the first of the checksum, four in all. */
  lemma AcrossRejected(layout: seq<nat>, magic: u32, pre: bytes, v: bytes, w: bytes, sum: bytes)
    requires |layout| > 0 && 1 <= |v| == |w| <= 3 && v != w && |sum| == 4
    requires sum[4 - |v|..] == CrcBytes(pre + v + Blank4())[4 - |v|..]
    ensures Unseal(layout, magic, pre + w + sum) == None
  {
    hide Crc, WordBytes;
    var k := |v|;
    var good, bad := pre + v + Blank4(), pre + w + Blank4();
    CrcDiffers(pre, v, w);
    if CrcBytes(bad) == sum {
      SameLastBytes(Crc(good), Crc(bad), k);
    }
    ChecksumChangeRejected(layout, magic, pre + w, sum);
  }

  lemma CrcDiffers(pre: bytes, v: bytes, w: bytes)
    requires 1 <= |v| == |w| <= 3 && v != w
    ensures Crc(pre + v + Blank4())[32 - 8 * |v|..] != Crc(pre + w + Blank4())[32 - 8 * |v|..]
  {
    hide FeedAll;
    var c, at := FeedAll(POLY, ONES, pre), 32 - 8 * |v|;
    LastBytesShow(c, v, w);
    FeedAllSplit(POLY, ONES, pre, v + Blank4());
    FeedAllSplit(POLY, ONES, pre, w + Blank4());
    assert pre + v + Blank4() == pre + (v + Blank4()) && pre + w + Blank4() == pre + (w + Blank4());
    NotSlice(FeedAll(POLY, c, v + Blank4()), FeedAll(POLY, c, w + Blank4()), at);
  }

  lemma NotSlice(a: Word, b: Word, at: nat)
    requires at <= 32 && a[at..] != b[at..]
    ensures Not(a)[at..] != Not(b)[at..]
  {
    var i :| 0 <= i < 32 - at && a[at..][i] != b[at..][i];
    assert Not(a)[at..][i] != Not(b)[at..][i];
  }

  /** A record of any format that was altered within any four adjacent bytes, in the payload, in the checksum or
      across the two, is not read back. */
  lemma AnyBurstRejected(layout: seq<nat>, magic: u32, b: bytes, b': bytes, at: nat)
    requires |layout| > 0 && Unseal(layout, magic, b).Some? && b' != b && |b'| == |b|
    requires at + 4 <= |b| && b'[..at] == b[..at] && b'[at + 4..] == b[at + 4..]
    ensures Unseal(layout, magic, b') == None
  {
    hide CrcBytes, Size, Unpack;
    var n := Size(layout);
    var payload, sum := b[..n], b[n..];
    assert sum == CrcBytes(payload + Blank4());
    if at + 4 <= n {
      var pre, v, w, post := b[..at], b[at..at + 4], b'[at..at + 4], b[at + 4..n];
      assert payload == pre + v + post && b' == pre + w + post + sum;
      assert v == w ==> b' == pre + v + post + sum == b;
      PayloadBurstRejected(layout, magic, pre, v, w, post);
    } else {
      var pre, v, w, sum' := b[..at], b[at..n], b'[at..n], b'[n..];
      assert payload == pre + v && b' == pre + w + sum';
      if v == w {
        ChecksumChangeRejected(layout, magic, pre + v, sum');
      } else {
        AcrossRejected(layout, magic, pre, v, w, sum');
      }
    }
  }
}
