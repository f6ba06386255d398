/** The CRC-32 that seals every record on flash, and what it is able to detect.
    A register is the list of its bits, least significant first. */
module Crc32 {
  import opened Bytes

  type Word = w: seq<bool> | |w| == 32 witness Repeat(false, 32)

  const POLY: Word := Bits(0xEDB8_8320, 32)
  const ONES: Word := Repeat(true, 32)

  /** The low `n` bits of `v`. */
  function Bits(v: nat, n: nat): (b: seq<bool>)
    ensures |b| == n
  {
    if n == 0 then [] else [v % 2 == 1] + Bits(v / 2, n - 1)
  }

  function Value(b: seq<bool>): nat
  {
    if b == [] then 0 else Bit(b[0]) + 2 * Value(b[1..])
  }

  function Repeat(x: bool, n: nat): (z: seq<bool>)
    ensures |z| == n && forall i :: 0 <= i < n ==> z[i] == x
  {
    if n == 0 then [] else [x] + Repeat(x, n - 1)
  }

  function Zeros(n: nat): (z: seq<bool>)
    ensures |z| == n && forall i :: 0 <= i < n ==> !z[i]
  {
    Repeat(false, n)
  }

  function Mix(a: seq<bool>, b: seq<bool>): (c: seq<bool>)
    requires |a| == |b|
    ensures |c| == |a| && forall i :: 0 <= i < |a| ==> c[i] == (a[i] != b[i])
  {
    if a == [] then [] else [a[0] != b[0]] + Mix(a[1..], b[1..])
  }

  function Flip(a: seq<bool>): (c: seq<bool>)
    ensures |c| == |a| && forall i :: 0 <= i < |a| ==> c[i] == !a[i]
  {
    if a == [] then [] else [!a[0]] + Flip(a[1..])
  }

  function Xor(a: Word, b: Word): (c: Word)
    ensures forall i :: 0 <= i < 32 ==> c[i] == (a[i] != b[i])
  {
    Mix(a, b)
  }

  function Not(a: Word): (c: Word)
    ensures forall i :: 0 <= i < 32 ==> c[i] == !a[i]
  {
    Flip(a)
  }

  function Shr(a: Word, n: nat): (c: Word)
    requires n <= 32
    ensures forall i :: 0 <= i < 32 ==> c[i] == (i + n < 32 && a[i + n])
  {
    a[n..] + Zeros(n)
  }

  /** A byte placed `at` bits up in an otherwise clear register. */
  function Lift(b: byte, at: nat): (w: Word)
    requires at <= 24
  {
    Zeros(at) + Bits(b, 8) + Zeros(24 - at)
  }

  /** One round: shift right, and add the polynomial if a one fell out. */
  function Step(p: Word, c: Word): Word
  {
    if c[0] then Xor(Shr(c, 1), p) else Shr(c, 1)
  }

  function Steps(p: Word, c: Word, n: nat): Word
    decreases n, |c|
  {
    if n == 0 then c else Step(p, Steps(p, c, n - 1))
  }

  function Feed(p: Word, c: Word, b: byte): Word
  {
    Steps(p, Xor(c, Lift(b, 0)), 8)
  }

  function FeedAll(p: Word, c: Word, s: bytes): Word
    decreases |s|
  {
    if s == [] then c else Feed(p, FeedAll(p, c, s[..|s| - 1]), s[|s| - 1])
  }

  function Crc(s: bytes): Word
  {
    Not(FeedAll(POLY, ONES, s))
  }

  /** The checksum as the four little-endian bytes that are stored. */
  function CrcBytes(s: bytes): (b: bytes)
    ensures |b| == 4
  {
    WordBytes(Crc(s))
  }

  function WordBytes(c: Word): (b: bytes)
    ensures |b| == 4
  {
    [ByteOf(c[..8]), ByteOf(c[8..16]), ByteOf(c[16..24]), ByteOf(c[24..])]
  }

  function ByteOf(b: seq<bool>): byte
    requires |b| == 8
  {
    ValueBound(b);
    Value(b)
  }

  lemma ValueBound(b: seq<bool>)
    requires |b| == 8
    ensures Value(b) < 256
  {
    assert Value(b[7..]) <= 1;
    assert b[6..][1..] == b[7..] && Value(b[6..]) <= 3;
    assert b[5..][1..] == b[6..] && Value(b[5..]) <= 7;
    assert b[4..][1..] == b[5..] && Value(b[4..]) <= 15;
    assert b[3..][1..] == b[4..] && Value(b[3..]) <= 31;
    assert b[2..][1..] == b[3..] && Value(b[2..]) <= 63;
    assert b[1..][1..] == b[2..] && Value(b[1..]) <= 127;
  }

  method Compute(d: bytes) returns (crc: Word)
    ensures crc == Crc(d)
  {
    crc := ONES;
    for i := 0 to |d|
      invariant crc == FeedAll(POLY, ONES, d[..i])
    {
      assert d[..i + 1][..i] == d[..i];
      crc := FeedByte(POLY, crc, d[i]);
    }
    assert d[..|d|] == d;
    crc := Not(crc);
  }

  method FeedByte(p: Word, c: Word, b: byte) returns (crc: Word)
    ensures crc == Feed(p, c, b)
  {
    crc := Xor(c, Lift(b, 0));
    for k := 0 to 8
      invariant crc == Steps(p, Xor(c, Lift(b, 0)), k)
    {
      crc := if crc[0] then Xor(Shr(crc, 1), p) else Shr(crc, 1);
    }
  }

  // --- bits ----------------------------------------------------------------------

  lemma {:induction false} BitsInjective(u: nat, v: nat, n: nat)
    requires u < Pow2(n) && v < Pow2(n) && Bits(u, n) == Bits(v, n)
    ensures u == v
  {
    if n > 0 {
      assert Bits(u, n)[0] == Bits(v, n)[0];
      assert Bits(u, n)[1..] == Bits(u / 2, n - 1) && Bits(v, n)[1..] == Bits(v / 2, n - 1);
      BitsInjective(u / 2, v / 2, n - 1);
    }
  }

  lemma {:induction false} ValueInjective(a: seq<bool>, b: seq<bool>)
    requires |a| == |b| && Value(a) == Value(b)
    ensures a == b
  {
    if a != [] {
      assert Bit(a[0]) + 2 * Value(a[1..]) == Bit(b[0]) + 2 * Value(b[1..]);
      assert a[0] == b[0] && Value(a[1..]) == Value(b[1..]);
      ValueInjective(a[1..], b[1..]);
      assert a == [a[0]] + a[1..] && b == [b[0]] + b[1..];
    }
  }

  function Pow2(n: nat): (p: nat)
    ensures p > 0
  {
    if n == 0 then 1 else 2 * Pow2(n - 1)
  }

  lemma Pow2Byte()
    ensures Pow2(8) == 0x100
  {
    assert Pow2(4) == 16 && Pow2(8) == 16 * Pow2(4);
  }

  lemma {:induction false} TopBit(v: nat, n: nat)
    requires Pow2(n) <= v < 2 * Pow2(n)
    ensures Bits(v, n + 1)[n]
  {
    if n > 0 {
      TopBit(v / 2, n - 1);
    }
  }

  lemma Pow2Top()
    ensures Pow2(31) == 0x8000_0000
  {
    Pow2Byte();
    assert Pow2(12) == 16 * Pow2(8);
    assert Pow2(16) == 16 * Pow2(12);
    assert Pow2(20) == 16 * Pow2(16);
    assert Pow2(24) == 16 * Pow2(20);
    assert Pow2(28) == 16 * Pow2(24);
    assert Pow2(31) == 8 * Pow2(28);
  }

  lemma PolyTop()
    ensures POLY[31]
  {
    Pow2Top();
    TopBit(0xEDB8_8320, 31);
  }

  function Bit(b: bool): nat
  {
    if b then 1 else 0
  }

  // --- linearity over xor ----------------------------------------------------------

  lemma XorAssoc(a: Word, b: Word, c: Word)
    ensures Xor(Xor(a, b), c) == Xor(a, Xor(b, c))
  {
  }

  lemma StepXor(p: Word, a: Word, b: Word)
    ensures Step(p, Xor(a, b)) == Xor(Step(p, a), Step(p, b))
  {
  }

  lemma {:induction false} StepsXor(p: Word, a: Word, b: Word, n: nat)
    ensures Steps(p, Xor(a, b), n) == Xor(Steps(p, a, n), Steps(p, b, n))
    decreases n
  {
    if n > 0 {
      StepsXor(p, a, b, n - 1);
      StepXor(p, Steps(p, a, n - 1), Steps(p, b, n - 1));
    }
  }

  lemma {:induction false} StepsAdd(p: Word, c: Word, m: nat, n: nat)
    ensures Steps(p, c, m + n) == Steps(p, Steps(p, c, m), n)
    decreases n
  {
    hide Step;
    if n > 0 {
      StepsAdd(p, c, m, n - 1);
    }
  }

  /** Rounds on a register whose low bits are clear only shift it. */
  lemma {:induction false} ShiftsOnly(p: Word, z: Word, n: nat)
    requires n <= 32 && forall i :: 0 <= i < n ==> !z[i]
    ensures Steps(p, z, n) == Shr(z, n)
    decreases n
  {
    if n > 0 {
      ShiftsOnly(p, z, n - 1);
    }
  }

  // --- agreement with the table-driven algorithm of section 8 of RFC 1952 ---------

  /** One round of the RFC's table: "if (c & 1) c = poly ^ (c >> 1) else c = c >> 1". */
  function RfcRound(p: Word, c: Word): Word
  {
    if c[0] then Xor(p, Shr(c, 1)) else Shr(c, 1)
  }

  function RfcEntry(p: Word, c: Word, rounds: nat): Word
    decreases rounds, |c|
  {
    if rounds == 0 then c else RfcEntry(p, RfcRound(p, c), rounds - 1)
  }

  function LowByte(c: Word): Word
  {
    c[..8] + Zeros(24)
  }

  /** "c = crc_table[(c ^ b) & 0xff] ^ (c >> 8)" for every byte b. */
  function RfcUpdate(p: Word, c: Word, s: bytes): Word
    decreases |s|
  {
    if s == [] then c
    else
      var d := RfcUpdate(p, c, s[..|s| - 1]);
      Xor(RfcEntry(p, LowByte(Xor(d, Lift(s[|s| - 1], 0))), 8), Shr(d, 8))
  }

  lemma {:induction false} RfcEntryIsSteps(p: Word, c: Word, n: nat)
    ensures RfcEntry(p, c, n) == Steps(p, c, n)
    decreases n
  {
    hide RfcRound, Step;
    if n > 0 {
      RfcRoundIsStep(p, c);
      RfcEntryIsSteps(p, Step(p, c), n - 1);
      StepsAfterStep(p, c, n - 1);
    }
  }

  lemma RfcRoundIsStep(p: Word, c: Word)
    ensures RfcRound(p, c) == Step(p, c)
  {
    assert Xor(p, Shr(c, 1)) == Xor(Shr(c, 1), p);
  }

  lemma StepsAfterStep(p: Word, c: Word, n: nat)
    ensures Steps(p, c, n + 1) == Steps(p, Step(p, c), n)
  {
    hide Step;
    StepsAdd(p, c, 1, n);
    assert Steps(p, c, 1) == Step(p, Steps(p, c, 0));
  }

  lemma FeedIsTableLookup(p: Word, c: Word, b: byte)
    ensures Feed(p, c, b) == Xor(RfcEntry(p, LowByte(Xor(c, Lift(b, 0))), 8), Shr(c, 8))
  {
    hide Steps, Step, RfcEntry, Xor, Shr, Zeros;
    var x := Xor(c, Lift(b, 0));
    var lo: Word := LowByte(x);
    var hi: Word := Zeros(8) + x[8..];
    assert x == Xor(lo, hi);
    StepsXor(p, lo, hi, 8);
    ShiftsOnly(p, hi, 8);
    assert Shr(hi, 8) == Shr(c, 8) by { LiftHigh(b); }
    RfcEntryIsSteps(p, lo, 8);
  }

  lemma LiftHigh(b: byte)
    ensures forall i :: 8 <= i < 32 ==> !Lift(b, 0)[i]
  {
  }

  /** The firmware's bit loop computes the CRC-32 of RFC 1952 on every input. */
  lemma {:induction false} MatchesRfc1952(p: Word, c: Word, s: bytes)
    ensures FeedAll(p, c, s) == RfcUpdate(p, c, s)
    decreases |s|
  {
    if s != [] {
      MatchesRfc1952(p, c, s[..|s| - 1]);
      FeedIsTableLookup(p, FeedAll(p, c, s[..|s| - 1]), s[|s| - 1]);
    }
  }

  // --- burst detection ---------------------------------------------------------------

  /** A round can be undone: the top bit tells whether the polynomial was added. */
  lemma StepInjective(p: Word, a: Word, b: Word)
    requires p[31] && Step(p, a) == Step(p, b)
    ensures a == b
  {
    assert Step(p, a)[31] == a[0] && Step(p, b)[31] == b[0];
    forall i | 1 <= i < 32
      ensures a[i] == b[i]
    {
      assert Step(p, a)[i - 1] == if a[0] then a[i] != p[i - 1] else a[i];
      assert Step(p, b)[i - 1] == if b[0] then b[i] != p[i - 1] else b[i];
    }
  }

  lemma {:induction false} StepsInjective(p: Word, a: Word, b: Word, n: nat)
    requires p[31] && Steps(p, a, n) == Steps(p, b, n)
    ensures a == b
    decreases n
  {
    if n > 0 {
      StepInjective(p, Steps(p, a, n - 1), Steps(p, b, n - 1));
      StepsInjective(p, a, b, n - 1);
    }
  }

  lemma XorCancels(a: Word, b: Word, w: Word)
    requires Xor(a, w) == Xor(b, w) || Xor(w, a) == Xor(w, b)
    ensures a == b
  {
    forall i | 0 <= i < 32
      ensures a[i] == b[i]
    {
      if Xor(a, w) == Xor(b, w) {
        assert Xor(a, w)[i] == Xor(b, w)[i];
      } else {
        assert Xor(w, a)[i] == Xor(w, b)[i];
      }
    }
  }

  lemma {:induction false} FeedAllInjective(p: Word, a: Word, b: Word, s: bytes)
    requires p[31] && FeedAll(p, a, s) == FeedAll(p, b, s)
    ensures a == b
    decreases |s|
  {
    if s != [] {
      var t, x := s[..|s| - 1], Lift(s[|s| - 1], 0);
      StepsInjective(p, Xor(FeedAll(p, a, t), x), Xor(FeedAll(p, b, t), x), 8);
      XorCancels(FeedAll(p, a, t), FeedAll(p, b, t), x);
      FeedAllInjective(p, a, b, t);
    }
  }

  lemma {:induction false} FeedAllSplit(p: Word, c: Word, s: bytes, t: bytes)
    ensures FeedAll(p, c, s + t) == FeedAll(p, FeedAll(p, c, s), t)
    decreases |t|
  {
    if t == [] {
      assert s + t == s;
    } else {
      FeedAllSplit(p, c, s, t[..|t| - 1]);
      assert (s + t)[..|s + t| - 1] == s + t[..|t| - 1];
    }
  }

  /** Up to four bytes as one word, the first byte lowest. */
  function Joined(w: bytes): (j: Word)
    requires |w| <= 4
    ensures forall i :: 8 * |w| <= i < 32 ==> !j[i]
  {
    if w == [] then Zeros(32)
    else Xor(Joined(w[..|w| - 1]), Lift(w[|w| - 1], 8 * (|w| - 1)))
  }

  /** Up to four bytes enter the register as one word followed by their rounds. */
  lemma {:induction false} FeedJoined(p: Word, c: Word, w: bytes)
    requires |w| <= 4
    ensures FeedAll(p, c, w) == Steps(p, Xor(c, Joined(w)), 8 * |w|)
    decreases |w|
  {
    hide Step, Xor, Lift;
    if w == [] {
      assert Xor(c, Joined(w)) == c;
    } else {
      var t, b := w[..|w| - 1], w[|w| - 1];
      FeedJoined(p, c, t);
      FeedLate(p, Xor(c, Joined(t)), b, 8 * |t|);
      XorAssoc(c, Joined(t), Lift(b, 8 * |t|));
    }
  }

  /** Feeding a byte after `at` rounds is the same as having placed it `at` bits up before them. */
  lemma FeedLate(p: Word, c: Word, b: byte, at: nat)
    requires at <= 24
    ensures Steps(p, Xor(c, Lift(b, at)), at + 8) == Feed(p, Steps(p, c, at), b)
  {
    hide Steps, Step, Lift, Xor, Shr;
    assert Steps(p, Xor(c, Lift(b, at)), at) == Xor(Steps(p, c, at), Lift(b, 0)) by {
      StepsXor(p, c, Lift(b, at), at);
      LiftEmerges(p, b, at);
    }
    StepsAdd(p, Xor(c, Lift(b, at)), at, 8);
  }

  lemma LiftEmerges(p: Word, b: byte, at: nat)
    requires at <= 24
    ensures Steps(p, Lift(b, at), at) == Lift(b, 0)
  {
    ShiftsOnly(p, Lift(b, at), at);
    LiftShifts(b, at);
  }

  lemma LiftShifts(b: byte, at: nat)
    requires at <= 24
    ensures Shr(Lift(b, at), at) == Lift(b, 0)
  {
  }

  lemma LiftInjective(b: byte, c: byte, at: nat)
    requires at <= 24 && Lift(b, at) == Lift(c, at)
    ensures b == c
  {
    assert Lift(b, at)[at..at + 8] == Bits(b, 8);
    assert Lift(c, at)[at..at + 8] == Bits(c, 8);
    Pow2Byte();
    BitsInjective(b, c, 8);
  }

  /** Words over disjoint bit ranges can be told apart after xor. */
  lemma XorDisjoint(a: Word, b: Word, p: Word, q: Word, at: nat)
    requires at <= 32 && Xor(a, p) == Xor(b, q)
    requires forall i :: at <= i < 32 ==> !a[i] && !b[i]
    requires forall i :: 0 <= i < at ==> !p[i] && !q[i]
    ensures a == b && p == q
  {
    forall i | 0 <= i < 32
      ensures a[i] == b[i] && p[i] == q[i]
    {
      assert Xor(a, p)[i] == Xor(b, q)[i];
    }
  }

  lemma {:induction false} JoinedInjective(v: bytes, w: bytes)
    requires |v| == |w| <= 4 && Joined(v) == Joined(w)
    ensures v == w
    decreases |v|
  {
    if v != [] {
      var n := |v| - 1;
      XorDisjoint(Joined(v[..n]), Joined(w[..n]), Lift(v[n], 8 * n), Lift(w[n], 8 * n), 8 * n);
      LiftInjective(v[n], w[n], 8 * n);
      JoinedInjective(v[..n], w[..n]);
      assert v == v[..n] + [v[n]] && w == w[..n] + [w[n]];
    }
  }

  /** Payloads of any length that differ only within four adjacent bytes have different checksums. */
  lemma DetectsBurst(pre: bytes, v: bytes, w: bytes, post: bytes)
    requires |v| == |w| <= 4 && v != w
    ensures Crc(pre + v + post) != Crc(pre + w + post)
  {
    PolyTop();
    BurstSurvives(POLY, ONES, pre, v, w, post);
    if Crc(pre + v + post) == Crc(pre + w + post) {
      NotInjective(FeedAll(POLY, ONES, pre + v + post), FeedAll(POLY, ONES, pre + w + post));
    }
  }

  lemma BurstSurvives(p: Word, init: Word, pre: bytes, v: bytes, w: bytes, post: bytes)
    requires p[31] && |v| == |w| <= 4 && v != w
    ensures FeedAll(p, init, pre + v + post) != FeedAll(p, init, pre + w + post)
  {
    var c := FeedAll(p, init, pre);
    FeedAllSplit(p, init, pre + v, post);
    FeedAllSplit(p, init, pre + w, post);
    FeedAllSplit(p, init, pre, v);
    FeedAllSplit(p, init, pre, w);
    if FeedAll(p, init, pre + v + post) == FeedAll(p, init, pre + w + post) {
      FeedAllInjective(p, FeedAll(p, c, v), FeedAll(p, c, w), post);
      FeedJoined(p, c, v);
      FeedJoined(p, c, w);
      StepsInjective(p, Xor(c, Joined(v)), Xor(c, Joined(w)), 8 * |v|);
      XorCancels(Joined(v), Joined(w), c);
      JoinedInjective(v, w);
    }
  }

  lemma NotInjective(a: Word, b: Word)
    requires Not(a) == Not(b)
    ensures a == b
  {
    forall i | 0 <= i < 32
      ensures a[i] == b[i]
    {
      assert Not(a)[i] == Not(b)[i];
    }
  }

  lemma WordBytesInjective(a: Word, b: Word)
    requires WordBytes(a) == WordBytes(b)
    ensures a == b
  {
    var x, y := WordBytes(a), WordBytes(b);
    assert x[0] == y[0] && x[1] == y[1] && x[2] == y[2] && x[3] == y[3];
    ValueInjective(a[..8], b[..8]);
    ValueInjective(a[8..16], b[8..16]);
    ValueInjective(a[16..24], b[16..24]);
    ValueInjective(a[24..], b[24..]);
    assert a == a[..8] + a[8..16] + a[16..24] + a[24..];
    assert b == b[..8] + b[8..16] + b[16..24] + b[24..];
  }
}
